# JADE sub-population and the DEAP genetic optimisers, in Dafny

This project models two optimisers used to search antenna and nanoparticle
designs for directivity.

**JADE++ (`jade::SubPopulation`).** A C++ implementation of JADE, the
adaptive differential evolution of Zhang and Sanderson, with the PMCRADE
crossover-rate patch. The model is the class `Jade.SubPopulation` in
`subpopulation.dfy`. It keeps the C++ object's fields: the population, the
next-generation buffer, the fitness ranking of `(fitness, slot)` pairs, the
archive of displaced parents, the queue of parents waiting to be archived,
the success sets `S_F` and `S_CR`, the per-individual `F_i` and `CR_i`, the
adaptive means `mu_F` and `mu_CR`, the bounds, and the sticky error flag.
Its methods update those fields in place, with the loops of the C++ code.
Each method is proved against pure functions in four modules:

- `Variation`: the parameter draws, donor picks, DE/current-to-pbest/1
  mutant with midpoint bound repair, binomial crossover, and the acceptance
  test of selection.
- `Ranking`: the sorted, one-entry-per-slot ranking.
- `Archive`: the splice and random erase of the archive.
- `Adaptation`: the arithmetic, quadratic and Lehmer means and the convex
  update of `mu_CR` and `mu_F`.

`RunOptimization` is proved to do the following:

- keep every slot's fitness no worse from generation to generation;
- keep the population inside the bounds whenever the feed vectors are
  inside them;
- keep `mu_F` in (0, 1] and `mu_CR` in [0, 1];
- keep the archive at N vectors at most;
- keep a ranking with exactly one entry per slot, sorted best first.

It also turns the sticky error flag into a failure at the two places the
C++ code checks it (lines 162 and 195 of jade.cpp).

**algorithms/genetic.py.** The module `Genetic` in `genetic.dfy` models:

- the population partition of `genetic` into elite, crossover and
  mutation shares;
- the clamping Gaussian mutation `mutate_func`, in place on an array;
- the (1+1) hill climber `one_plus_one_onecall`, with its plateau counter
  that is never reset;
- the restarting driver `one_plus_one`, which keeps the strictly best climb;
- the generation loop of `genetic`.

The DEAP operators (`selBest`, `selTournament`, `cxSimulatedBinaryBounded`)
and `random.sample` are supplied functions. Their contracts are assumptions
stated as predicates (`ChoosesOneOf`, `KeepsFittest`,
`ReturnsRequestedCounts`).

**Conventions of the model.**

- Every random variate is a value supplied by the caller (module `Draws`):
  - `randint(lo, hi)` is a raw natural number reduced into [lo, hi].
  - `rand(lo, hi)` and `random.uniform` are a unit draw u in [0, 1) scaled
    to `lo + u (hi - lo)`.
  - `randn` and `randc` are standard variates, shifted and scaled.
  - Covering lemmas show that no value of the distribution's range is lost.
- Rejection loops consume a finite sequence of draws. When the sequence
  runs out the result is `DrawsExhausted`, where the program would still be
  looping.
- Doubles are reals. `FitnessFunction` and the Python fitness function are
  abstract deterministic functions. `std::sqrt` and `math.sqrt` are a
  supplied function required to be an exact square root (`IsSqrt`).
- C++ exceptions, Python exceptions and failed `assert`s become `Failure`
  results of the `Outcomes.Error` type.

**Where the model follows the code against the algorithm's description.**

- `GetXpBestCurrent` draws `randint(0, floor(N p))` with an inclusive upper
  end. It therefore picks among the top `floor(N p) + 1` ranking positions,
  not the top `100 p %`. At `p == 1` that position can be past the ranking,
  which is why the code flags `floor(N p) == N`.
- When minimising, `Selection` negates the whole test "better than the
  parent or equal to the best" (line 61). A trial whose fitness equals the
  current best is therefore rejected when minimising (`Variation.TieWithBest`).
  A trial equal to its parent is accepted when minimising unless the parent
  ties the current best, and when maximising only if it does
  (`Variation.TieWithParent`).
- `genetic` returns the fittest individual of the last population it
  evaluated. That is not the population it bred last.
- With `generations <= 0` the name `best` is never bound, so the Python
  call raises, and the model returns `UnboundResult`.
- In `one_plus_one_onecall`, `time_on_plato` counts every non-improving
  iteration of the whole climb. The loop stops only when the counter
  equals `max_plato_time`. With `max_plato_time <= 0` only the callback
  can end it.

## Model

| member | source | states |
|---|---|---|
| Draws.RandInt | scattnlay/examples/dipole_ml/jade.cpp:556-559 | randint(lo, hi) yields an integer of the closed range [lo, hi] |
| Draws.RandIntCovers | scattnlay/examples/dipole_ml/jade.cpp:556-559 | every integer of [lo, hi] is the outcome of some raw draw, so the encoding loses none of randint's values |
| Draws.Rand | scattnlay/examples/dipole_ml/jade.cpp:563-566 | rand(lo, hi) lies in [lo, hi], and below hi when lo < hi |
| Draws.RandCovers | scattnlay/examples/dipole_ml/jade.cpp:563-566 | every real of [lo, hi) is produced by some unit draw in [0, 1) |
| Draws.RandN | scattnlay/examples/dipole_ml/jade.cpp:542-545 | randn(mean, stddev) for the variate z: the mean itself at z = 0, and with a non-negative stddev on the side of the mean that the sign of z gives |
| Draws.RandC | scattnlay/examples/dipole_ml/jade.cpp:549-552 | randc(location, scale) for the variate t: the location at t = 0, and with a non-negative scale on the side of the location that the sign of t gives |
| Variation.SampleF | scattnlay/examples/dipole_ml/jade.cpp:336-349 | the F_i that SetCRiFi stores always lies in (0, 1] |
| Variation.SampleFTakesFirstPositive | scattnlay/examples/dipole_ml/jade.cpp:337-342 | F_i is the first positive Cauchy draw of at most eleven, cut to 1 when above 1 |
| Variation.SampleFFallback | scattnlay/examples/dipole_ml/jade.cpp:343-347 | when all eleven Cauchy draws are non-positive, F_i is 0.001 |
| Variation.ClampCR | scattnlay/examples/dipole_ml/jade.cpp:350-352 | CR_i lies in [0, 1], equals the Gaussian draw when that is in [0, 1], and is otherwise the point of [0, 1] nearest to it |
| Variation.BestCount | scattnlay/examples/dipole_ml/jade.cpp:284-285 | floor(N p) is non-negative for p >= 0 |
| Variation.BestCountRange | scattnlay/examples/dipole_ml/jade.cpp:284-286 | for p in [0, 1] the pbest range 0..floor(N p) lies within 0..N, and it reaches N (the flagged case) exactly when p == 1 |
| Variation.FirstAvoiding | scattnlay/examples/dipole_ml/jade.cpp:302-303 | the rejection loop yields an index below the range size that differs from both forbidden indices, and yields none exactly when every supplied draw hits a forbidden index |
| Variation.SingleSlotIsNeverAvoided | scattnlay/examples/dipole_ml/jade.cpp:302-303 | with N == 1 no draw avoids slot 0, so the r1 loop of GetXRandomCurrent never ends |
| Variation.Repair | scattnlay/examples/dipole_ml/jade.cpp:254-257 | a component inside [lb, ub] is kept; above ub it becomes exactly (ub + x)/2; below lb it becomes exactly (lb + x)/2; it stays in the bounds whenever the parent's component is |
| Variation.RawMutant | scattnlay/examples/dipole_ml/jade.cpp:249-252 | the current-to-pbest component is the parent's when F = 0 or when the pbest and difference terms vanish, and pbest + r1 - r2 when F = 1 |
| Variation.Mutant | scattnlay/examples/dipole_ml/jade.cpp:245-258 | the repaired mutant has D components and lies in the box whenever the parent does |
| Variation.CrossoverOf | scattnlay/examples/dipole_ml/jade.cpp:209-215 | the trial has D components, takes the mutant's component at j_rand, and every component is either the mutant's or the parent's |
| Variation.CrossoverInBox | scattnlay/examples/dipole_ml/jade.cpp:210-215 | a trial built from an in-box mutant and an in-box parent is in the box |
| Variation.CrossoverFullRate | scattnlay/examples/dipole_ml/jade.cpp:211-212 | with CR_i >= 1 the trial is the mutant |
| Variation.CrossoverZeroRate | scattnlay/examples/dipole_ml/jade.cpp:211-214 | with CR_i <= 0 the trial is the parent with only component j_rand taken from the mutant |
| Variation.Accepts | scattnlay/examples/dipole_ml/jade.cpp:59-61 | when minimising a trial is accepted exactly when it is no worse than its parent and differs from the best; when maximising a strictly better trial is always accepted |
| Variation.AcceptedIsNoWorse | scattnlay/examples/dipole_ml/jade.cpp:57-61 | when the best is at least as good as the parent, an accepted trial is at least as good as its parent, whether minimising or maximising |
| Variation.TieWithBest | scattnlay/examples/dipole_ml/jade.cpp:59-61 | a trial equal to the best fitness is accepted exactly when maximising |
| Variation.TieWithParent | scattnlay/examples/dipole_ml/jade.cpp:59-61 | a trial equal to its parent is accepted when minimising exactly when the parent differs from the best, and when maximising exactly when the parent ties the best |
| Ranking.EntryOfSlot | scattnlay/examples/dipole_ml/jade.cpp:504-509 | in a ranking with one consistent entry per slot, every slot has an entry holding the fitness of its vector |
| Ranking.Insert | scattnlay/examples/dipole_ml/jade.cpp:491-498 | inserting one entry lengthens the ranking by one |
| Ranking.InsertPermutes | scattnlay/examples/dipole_ml/jade.cpp:491-498 | insertion adds exactly the new entry to the multiset of entries |
| Ranking.InsertSorted | scattnlay/examples/dipole_ml/jade.cpp:493-498 | insertion into a best-first ranking keeps it best first |
| Ranking.InsertSlots | scattnlay/examples/dipole_ml/jade.cpp:491-498 | insertion adds exactly the new entry's slot to the slot column |
| Ranking.SortRanking | scattnlay/examples/dipole_ml/jade.cpp:491-499 | sorting keeps the ranking's length |
| Ranking.SortRankingPermutes | scattnlay/examples/dipole_ml/jade.cpp:491-499 | sorting permutes the entries |
| Ranking.SortRankingSorted | scattnlay/examples/dipole_ml/jade.cpp:493-498 | the sorted ranking is ascending when minimising and non-increasing when maximising |
| Ranking.SortRankingSlots | scattnlay/examples/dipole_ml/jade.cpp:491-499 | sorting permutes the slot column |
| Ranking.SortKeepsSlots | scattnlay/examples/dipole_ml/jade.cpp:491-499 | sorting keeps exactly one entry per slot |
| Ranking.SortKeepsEntries | scattnlay/examples/dipole_ml/jade.cpp:491-499 | sorting keeps one entry per slot and every entry's fitness equal to its slot's vector's fitness |
| Ranking.Evaluations | scattnlay/examples/dipole_ml/jade.cpp:505-509 | the evaluation loop makes one entry per slot 0..N-1, each with the fitness of that slot's vector |
| Ranking.HeadIsBest | scattnlay/examples/dipole_ml/jade.cpp:690-693 | the head of a sorted consistent ranking is at least as good as every vector of the population |
| Ranking.TailIsWorst | scattnlay/examples/dipole_ml/jade.cpp:698-701 | every vector of the population is at least as good as the tail of a sorted consistent ranking |
| Ranking.FitnessRecord | scattnlay/examples/dipole_ml/jade.cpp:48-55 | the search finds a record exactly when some entry names the slot, and the record found is the fitness of an entry naming it |
| Ranking.RecordIsFitness | scattnlay/examples/dipole_ml/jade.cpp:50-55 | in a consistent ranking the record found for a slot is the fitness of that slot's vector |
| Ranking.WithFitness | scattnlay/examples/dipole_ml/jade.cpp:65-71 | rewriting the fitness of one slot's entries leaves the slot column unchanged |
| Ranking.SetSlotFitness | scattnlay/examples/dipole_ml/jade.cpp:65-67 | the update loop gives every entry of the slot the new fitness and leaves the other entries alone |
| Ranking.WithFitnessConsistent | scattnlay/examples/dipole_ml/jade.cpp:64-71 | writing a vector into a slot together with its fitness keeps the ranking consistent with the population |
| Archive.Remove | scattnlay/examples/dipole_ml/jade.cpp:96-98 | erasing position j drops exactly that element and keeps the others in order |
| Archive.Cleaned | scattnlay/examples/dipole_ml/jade.cpp:94-100 | the erase loop leaves min(\|A\|, N) elements, and leaves the archive untouched when it is not above N |
| Archive.RemoveIsSubsequence | scattnlay/examples/dipole_ml/jade.cpp:96-98 | one erase leaves a subsequence of the archive |
| Archive.CleanedIsSubsequence | scattnlay/examples/dipole_ml/jade.cpp:85-100 | the cleaned archive is a subsequence of the old archive followed by the queued parents |
| Archive.SubsequenceMultiset | scattnlay/examples/dipole_ml/jade.cpp:94-100 | a subsequence, so the cleaned archive, holds no vector more often than the spliced list |
| Adaptation.SumRange | scattnlay/examples/dipole_ml/jade.cpp:111-114 | the sum of S_CR lies in [0, \|S_CR\|], and the sum of a non-empty S_F of values in (0, 1] is positive |
| Adaptation.SumSquaresAtMostSum | scattnlay/examples/dipole_ml/jade.cpp:146-150 | for values in [0, 1] the sum of squares is non-negative and at most the sum |
| Adaptation.LehmerMeanRange | scattnlay/examples/dipole_ml/jade.cpp:146-151 | the Lehmer mean sum(F^2)/sum(F) of a non-empty S_F in (0, 1] has a non-zero divisor and lies in (0, 1] |
| Adaptation.PositiveSquares | scattnlay/examples/dipole_ml/jade.cpp:147-150 | the squares of a non-empty S_F of positive values have a positive sum |
| Adaptation.MeanRange | scattnlay/examples/dipole_ml/jade.cpp:111-118 | the arithmetic mean of S_CR in [0, 1] lies in [0, 1] |
| Adaptation.QuadraticMeanRange | scattnlay/examples/dipole_ml/jade.cpp:136-139 | the quadratic mean of S_CR in [0, 1] lies in [0, 1] |
| Adaptation.ThresholdOnVariance | scattnlay/examples/dipole_ml/jade.cpp:126-131 | the PMCRADE test sqrt(variance) < 0.07 holds exactly when the variance is below 0.0049 |
| Adaptation.ConvexRange | scattnlay/examples/dipole_ml/jade.cpp:121-123 | the update (1-c) prior + c target with c in [0, 1] stays between bounds that hold both points |
| Adaptation.ConvexPositive | scattnlay/examples/dipole_ml/jade.cpp:152-154 | the update of two positive values with c in [0, 1] is positive |
| Adaptation.CrossoverTarget | scattnlay/examples/dipole_ml/jade.cpp:118-139 | the mean mu_CR moves towards is the arithmetic mean of S_CR or its quadratic mean, and always the arithmetic one without PMCRADE |
| Adaptation.AdaptedMuCR | scattnlay/examples/dipole_ml/jade.cpp:115-142 | mu_CR is unchanged when a success set is empty or c = 0, and becomes the target mean when c = 1 |
| Adaptation.AdaptedMuF | scattnlay/examples/dipole_ml/jade.cpp:115-154 | mu_F is unchanged when a success set is empty or c = 0, and becomes the Lehmer mean of S_F when c = 1 |
| Adaptation.AdaptedMuCRRange | scattnlay/examples/dipole_ml/jade.cpp:108-145 | with c, mu_CR and every CR of S_CR in [0, 1], the adapted mu_CR lies in [0, 1] on every branch (no successes, JADE, PMCRADE below and at or above 0.07) |
| Adaptation.AdaptedMuFRange | scattnlay/examples/dipole_ml/jade.cpp:146-154 | with c in [0, 1], mu_F in (0, 1] and every F of S_F in (0, 1], the Lehmer divisor is non-zero and the adapted mu_F lies in (0, 1] |
| Jade.Resize | scattnlay/examples/dipole_ml/jade.cpp:385-391 | std::vector::resize keeps the first n elements and pads with the fill value |
| Jade.ResizeRows | scattnlay/examples/dipole_ml/jade.cpp:381-384 | resizing to N vectors and each vector to D components gives N vectors of D components, keeping existing leading values |
| Jade.UniformRow | scattnlay/examples/dipole_ml/jade.cpp:462-467 | a random initial vector has D components and lies in the box when the bounds are ordered |
| Jade.InitialPopulation | scattnlay/examples/dipole_ml/jade.cpp:458-480 | the initial population has exactly N vectors, the last K being the feed vectors unchanged, and the first N-K of D components inside ordered bounds |
| Jade.InitialInBox | scattnlay/examples/dipole_ml/jade.cpp:458-477 | with ordered bounds and feed vectors inside them, the whole initial population is in the box |
| Jade.SortedRankedBy | scattnlay/examples/dipole_ml/jade.cpp:191-194 | sorting a next-generation ranking that has one consistent entry per slot ranks the swapped-in population best first |
| Jade.BestNeverWorsens | scattnlay/examples/dipole_ml/jade.cpp:171-195 | when every slot of a ranked population is no worse than before, the new head is at least as good as every earlier vector and as the earlier head: the best fitness never worsens |
| Jade.EvaluationsSortedRanked | scattnlay/examples/dipole_ml/jade.cpp:504-510 | evaluating then sorting gives one consistent entry per slot, best first |
| Jade.PBestSlot | scattnlay/examples/dipole_ml/jade.cpp:283-296 | the pbest slot is the slot recorded at ranking position randint(0, floor(N p)), and the read fails (std::vector::at throws) exactly when that position or its slot is out of range |
| Jade.ArchiveDonor | scattnlay/examples/dipole_ml/jade.cpp:316-326 | every candidate index below N + \|A\| names a vector of the population or of the archive, so the error at line 327 is unreachable |
| Jade.MutationOf | scattnlay/examples/dipole_ml/jade.cpp:228-258 | the mutant has D components, lies in the box whenever the parent does, and fails only on an out-of-range pbest read or exhausted donor draws |
| Jade.CrossoverInBoxIf | scattnlay/examples/dipole_ml/jade.cpp:204-215 | the crossover of an in-box mutant with an in-box parent is in the box |
| Jade.RecordedFitness | scattnlay/examples/dipole_ml/jade.cpp:48-56 | the fitness Selection compares is 0.0 when no entry names the slot, and otherwise the fitness of an entry naming it |
| Jade.ParentRecord | scattnlay/examples/dipole_ml/jade.cpp:48-57 | in a ranked population Selection finds a record for slot i, it is the fitness of vector i, and the head of the ranking is at least as good |
| Jade.ParentRecords | scattnlay/examples/dipole_ml/jade.cpp:48-57 | the fact of ParentRecord holds for every slot at once |
| Jade.NextRankingUpdate | scattnlay/examples/dipole_ml/jade.cpp:64-71 | writing a vector and its fitness into one slot keeps the next-generation ranking with one consistent entry per slot |
| Jade.SuccessAppend | scattnlay/examples/dipole_ml/jade.cpp:72-74 | queuing a parent of D components with F_i in (0, 1] and CR_i in [0, 1] keeps the queue and success sets well formed |
| Jade.CleanedRows | scattnlay/examples/dipole_ml/jade.cpp:84-100 | the cleaned archive still holds vectors of D components |
| Jade.SubPopulation.Init | scattnlay/examples/dipole_ml/jade.cpp:359-393 | population < 1 fails with nothing changed; dimension < 1 fails after storing the dimension; otherwise every buffer is resized to N vectors of D components, the bounds to D entries and F, CR to N entries |
| Jade.SubPopulation.SetAllBoundsVectors | scattnlay/examples/dipole_ml/jade.cpp:520-526 | both bound vectors are replaced by the arguments, unchecked |
| Jade.SubPopulation.SetAllBounds | scattnlay/examples/dipole_ml/jade.cpp:530-538 | succeeds exactly when lb < ub; on failure sets the flag and leaves the bounds; on success every existing bound entry becomes lb or ub and the bounds are ordered |
| Jade.SubPopulation.SetBestShareP | scattnlay/examples/dipole_ml/jade.cpp:609-616 | succeeds exactly when p is in [0, 1] and then stores p; otherwise sets the flag and keeps the old p |
| Jade.SubPopulation.SetAdapitonFrequencyC | scattnlay/examples/dipole_ml/jade.cpp:620-627 | succeeds exactly when c is in [0, 1] and then stores c; otherwise sets the flag and keeps the old c |
| Jade.SubPopulation.SetFeed | scattnlay/examples/dipole_ml/jade.cpp:443-454 | marks the feed as set; fails when the dimension is unset or a vector has the wrong size, keeping the old feed; otherwise the feed becomes the given vectors |
| Jade.SubPopulation.CreateInitialPopulation | scattnlay/examples/dipole_ml/jade.cpp:458-487 | fails on a feed of N or more vectors or on lb > ub with the population unchanged; otherwise the population is N-K random in-bound vectors followed by the K feed vectors, and the feed list is emptied |
| Jade.SubPopulation.SortEvaluatedCurrent | scattnlay/examples/dipole_ml/jade.cpp:491-500 | the ranking becomes its best-first sort and nothing else changes |
| Jade.SubPopulation.EvaluateCurrentVectors | scattnlay/examples/dipole_ml/jade.cpp:504-516 | the ranking holds one entry per slot with that slot's fitness, sorted best first |
| Jade.SubPopulation.EvaluatedCurrent | scattnlay/examples/dipole_ml/jade.cpp:505-509 | the evaluation loop produces the fitness of each vector tagged with its slot, in slot order |
| Jade.SubPopulation.SetCRiFi | scattnlay/examples/dipole_ml/jade.cpp:334-354 | only slot i of F and CR changes; F_i is the sampled value in (0, 1] and CR_i the clamped Gaussian draw in [0, 1] |
| Jade.SubPopulation.GetXpBestCurrent | scattnlay/examples/dipole_ml/jade.cpp:283-297 | sets the flag exactly when floor(N p) == N, and returns the vector of the slot at a drawn position among the top floor(N p)+1, or the failure of the out-of-range read |
| Jade.SubPopulation.GetXRandomCurrent | scattnlay/examples/dipole_ml/jade.cpp:301-306 | returns the first drawn slot other than the forbidden one together with its vector |
| Jade.SubPopulation.GetXRandomArchiveAndCurrent | scattnlay/examples/dipole_ml/jade.cpp:310-330 | returns the first drawn candidate of population then archive that avoids both forbidden indices |
| Jade.SubPopulation.MutantComponents | scattnlay/examples/dipole_ml/jade.cpp:245-258 | the component loop computes exactly the repaired mutant vector |
| Jade.SubPopulation.Mutation | scattnlay/examples/dipole_ml/jade.cpp:228-279 | returns the DE/current-to-pbest/1 mutant with midpoint repair built from the drawn donors, and sets the flag exactly as GetXpBestCurrent does |
| Jade.SubPopulation.Crossover | scattnlay/examples/dipole_ml/jade.cpp:204-224 | returns the binomial crossover of the mutant with parent i for the drawn j_rand and CR_i |
| Jade.SubPopulation.FindFitness | scattnlay/examples/dipole_ml/jade.cpp:48-55 | reports whether slot i has a fitness record and returns the last one found, or 0.0 |
| Jade.SubPopulation.WriteSlot | scattnlay/examples/dipole_ml/jade.cpp:64-71 | slot i of the next generation receives the kept vector and every ranking entry naming slot i receives its fitness; no other slot or entry changes |
| Jade.SubPopulation.Selection | scattnlay/examples/dipole_ml/jade.cpp:47-80 | only slot i of the next generation and its ranking entries change; an accepted trial is written with its fitness and the parent, F_i and CR_i are queued; a rejected one writes back the parent with its old fitness and queues nothing; a missing record sets the flag |
| Archive.EraseSurplus | scattnlay/examples/dipole_ml/jade.cpp:94-100 | the erase loop returns exactly the cleaned archive: elements picked by successive draws are removed until at most N remain |
| Jade.SubPopulation.ArchiveCleanUp | scattnlay/examples/dipole_ml/jade.cpp:84-104 | the archive becomes the cleaned splice of the old archive and the queued parents, holds at most N vectors, the queue is emptied and the flag stays as it was |
| Jade.SubPopulation.Adaption | scattnlay/examples/dipole_ml/jade.cpp:108-156 | mu_CR and mu_F become the adapted values: unchanged with an empty success set, otherwise the convex step towards the arithmetic or (PMCRADE) quadratic mean of S_CR and the Lehmer mean of S_F |
| Jade.SubPopulation.CrossoverSum | scattnlay/examples/dipole_ml/jade.cpp:109-114 | the loop counts S_CR and sums it |
| Jade.SubPopulation.LehmerSums | scattnlay/examples/dipole_ml/jade.cpp:146-150 | the loop computes the sum of S_F and the sum of its squares |
| Jade.SubPopulation.SquaredDeviations | scattnlay/examples/dipole_ml/jade.cpp:126-128 | the loop computes the sum of squared deviations of S_CR from the mean |
| Jade.SubPopulation.SuccessSquares | scattnlay/examples/dipole_ml/jade.cpp:136-138 | the loop computes the sum of squares of S_CR |
| Jade.SubPopulation.Vary | scattnlay/examples/dipole_ml/jade.cpp:183-186 | SetCRiFi, Mutation and Crossover for one individual give a trial of D components that is in the box whenever the parent is |
| Jade.SubPopulation.Judge | scattnlay/examples/dipole_ml/jade.cpp:187 | in a ranked population Selection leaves slot i no worse than its parent, holding the trial or the parent, changes no other slot and keeps the next ranking consistent |
| Jade.SubPopulation.EvolveIndividual | scattnlay/examples/dipole_ml/jade.cpp:182-188 | one pass of the individual loop changes only slot i of the next generation and leaves it no worse and in the box whenever the parent is |
| Jade.SubPopulation.EvolveAll | scattnlay/examples/dipole_ml/jade.cpp:182-188 | after the individual loop every slot of the next generation is no worse than the current one and the queue holds at most N parents |
| Jade.SubPopulation.ClearSuccesses | scattnlay/examples/dipole_ml/jade.cpp:173-175 | the archive queue and both success sets are emptied |
| Jade.SubPopulation.EndGeneration | scattnlay/examples/dipole_ml/jade.cpp:189-194 | the archive is cleaned, mu_F and mu_CR adapt, the generations trade places and the loop invariant is restored |
| Jade.SubPopulation.SwapGenerations | scattnlay/examples/dipole_ml/jade.cpp:191-194 | the two generations and their rankings trade places and the new ranking is sorted best first |
| Jade.SubPopulation.Generation | scattnlay/examples/dipole_ml/jade.cpp:171-195 | one generation keeps the loop invariant, leaves every slot no worse and in the box whenever it was, keeps the head of the ranking at least as good as before, caps the archive at N and adapts mu_F, mu_CR |
| Jade.SubPopulation.StartOptimization | scattnlay/examples/dipole_ml/jade.cpp:163-170 | resets mu_F and mu_CR to 0.5, empties the archive, builds the initial population and ranks it, or fails as CreateInitialPopulation does |
| Jade.SubPopulation.RankBothGenerations | scattnlay/examples/dipole_ml/jade.cpp:167-170 | both generations start as the evaluated, best-first ranked initial population |
| Jade.SubPopulation.RunGenerations | scattnlay/examples/dipole_ml/jade.cpp:171-196 | the generation loop stops at the first failure or raised flag; on success every slot is no worse than at the start, the head of the ranking is at least as good as the starting head, and with zero generations nothing changes |
| Jade.SubPopulation.RunOptimization | scattnlay/examples/dipole_ml/jade.cpp:160-200 | refuses to start when the flag is set; on success every slot is no worse than the initial population, the head of the ranking is at least as good as every initial vector, the population is in the box when the feed was, p < 1 if any generation ran, and with zero generations the population is the initial one with mu_F = mu_CR = 0.5 and an empty archive |
| Jade.SubPopulation.GetBest | scattnlay/examples/dipole_ml/jade.cpp:690-694 | returns the head's vector and fitness; in a ranked population that fitness is the vector's and is at least as good as every vector's |
| Jade.SubPopulation.GetWorst | scattnlay/examples/dipole_ml/jade.cpp:698-702 | returns the tail's vector and fitness; in a ranked population that fitness is the vector's and every vector is at least as good |
| Genetic.Trunc | algorithms/genetic.py:95-96 | int() of a float truncates toward zero: the largest integer not above a non-negative x, the smallest not below a negative x |
| Genetic.EvenDown | algorithms/genetic.py:97 | the adjusted crossover size is even, is at most one below the original, and an even size is kept |
| Genetic.Partition | algorithms/genetic.py:94-99 | fails (assert) when the shares sum above 1 or the mutated size is negative; otherwise the three sizes sum to popsize, the mutated size is non-negative, the crossover size is even and at most int(popsize * crossoveredpercent) |
| Genetic.PartitionSucceeds | algorithms/genetic.py:94-99 | with popsize >= 0 and non-negative shares summing to at most 1 both asserts hold and every size is non-negative |
| Genetic.SizesOf | algorithms/genetic.py:97-99 | from the truncated sizes: fails (assert) exactly when the mutated size would be negative, otherwise the sizes are the elite size, the crossover size made even, and the remainder |
| Genetic.SizesOfSucceeds | algorithms/genetic.py:97-99 | non-negative elite and crossover sizes within popsize pass the second assert and give three non-negative sizes |
| Genetic.SharesFit | algorithms/genetic.py:95-98 | the truncated elite and crossover sizes are non-negative and sum to at most popsize |
| Genetic.Clamp | algorithms/genetic.py:31-32 | the clamped value lies in the limit, equals the value when inside, and is the nearest point of the limit otherwise |
| Genetic.Spread | algorithms/genetic.py:27 | the normal's scale (high-low)/6/sqrt(len(ind)) is negative exactly when the limit is inverted |
| Genetic.MutatedComponent | algorithms/genetic.py:27-36 | a mutated component is the Gaussian step or one of the two limits, and lies in the limit when the limit is ordered |
| Genetic.FirstUnmutable | algorithms/genetic.py:26-27 | the first position whose limit is missing (IndexError) or inverted (ValueError), with every earlier limit present and ordered |
| Genetic.MutatedUpTo | algorithms/genetic.py:26-36 | mutating the first k components keeps the individual's length |
| Genetic.MutatedInLimits | algorithms/genetic.py:26-36 | a fully mutated individual lies within ordered limits, so the assert at line 35 holds |
| Genetic.Mutate | algorithms/genetic.py:25-38 | mutates the array in place up to the first position that raises, returns the same array when none does, with every component inside its limit, and reports IndexError or ValueError otherwise |
| Genetic.Clone | algorithms/genetic.py:53 | toolbox.clone yields a fresh array with the same components |
| Genetic.MutateClone | algorithms/genetic.py:53-54 | the mutated clone is the fully mutated individual, inside the limits, or the error mutate_func raises |
| Genetic.UniformIndividual | algorithms/genetic.py:19-22 | ind_function yields one component per limit, each inside its limit when the limits are ordered |
| Genetic.PlateauCount | algorithms/genetic.py:68-69 | time_on_plato over a trace of incumbents counts the iterations that kept an equal incumbent: zero for the start alone, at most one per iteration |
| Genetic.PlateauCountGrows | algorithms/genetic.py:66-73 | along a climb the counter never decreases: an improving iteration does not reset it |
| Genetic.TraceSnoc | algorithms/genetic.py:68-72 | one more iteration adds one to the counter exactly when it keeps an equal incumbent, and earlier iterations keep their stop verdict |
| Genetic.ClimbedSnoc | algorithms/genetic.py:53-59 | extending the trace by what select keeps of the incumbent and its mutated clone gives a trace of the climb |
| Genetic.ClimbStep | algorithms/genetic.py:53-73 | an iteration the callback did not end extends the trace, the counter and the record of declined callbacks, and stops the loop exactly when it keeps an equal incumbent and the counter reaches max_plato_time |
| Genetic.Challenge | algorithms/genetic.py:53-59 | one iteration's challenger step fails only with InvalidScale, and only on inverted limits; otherwise it returns whichever of the incumbent and its mutated clone select keeps, inside the limits |
| Genetic.OnePlusOneOnecall | algorithms/genetic.py:41-75 | the climb returns the last incumbent of its trace (random start, then select of incumbent and mutated clone) with its own fitness, inside the limits; time_on_plato is the number of iterations that kept an equal incumbent over the whole trace (never reset); the loop ends at the first iteration where that count reaches max_plato_time, or earlier when the callback returns True, and the callback returned something else for every earlier incumbent; with selBest the fitness never drops below the start's |
| Genetic.BestOfRuns | algorithms/genetic.py:86-89 | the kept pair is the (best, fit) of one of the climbs, and no climb has a larger fitness |
| Genetic.BestOfRunsIsFirstMaximum | algorithms/genetic.py:86-89 | the kept pair is that of the first climb with the largest fitness, since only a strictly larger fitness replaces it |
| Genetic.OnePlusOne | algorithms/genetic.py:77-91 | climb k is the climb over the k-th restart's draws, with its own trace of incumbents, plateau count, plateau stop and declined callbacks as for one_plus_one_onecall; every climb but the last continued and the last was stopped by the callback; each climb's incumbent is inside the limits with its own fitness; the result is the (best, fit) of the first fittest climb |
| Genetic.FirstFittest | algorithms/genetic.py:119 | max(pop, key) is the first individual of largest fitness |
| Genetic.MatePairs | algorithms/genetic.py:132-135 | each consecutive pair of tournament winners is replaced by its mated pair; an unpaired last one stays |
| Genetic.MutateAll | algorithms/genetic.py:137-140 | every sampled individual is replaced by its mutated clone, inside the limits, or the first error is reported |
| Genetic.InitialIndividuals | algorithms/genetic.py:110 | the initial population has popsize individuals of one component per limit |
| Genetic.Breed | algorithms/genetic.py:129-142 | the next population is the selBest elite, then the tournament winners with each consecutive pair replaced by its mated pair, then the mutated clone of each sampled individual, of size popsize when the selections return the requested counts; a failure is an invalid sample size, a missing or inverted limit, or missing variates |
| Genetic.Genetic | algorithms/genetic.py:93-144 | fails on a failed assert, on zero generations (best unbound) or an empty population; otherwise returns the first fittest individual of the last evaluated population (max's choice) with its fitness; with one generation that population is the initial one; it has popsize individuals when the selections return the requested counts |

## Left out

- MPI: `MPI_Comm_rank` and `MPI_Comm_size` in `Init`, `AllGatherVectorDouble`, `AllGatherVectorLong`, and the reporting of `PrintResult` and `GetFinalFitness`. These are inter-process communication.
- Printing and logging: `PrintPopulation`, `PrintEvaluated`, `PrintSingleVector`, `PrintParameters`, the progress output of `RunOptimization`, the feed echo of `CreateInitialPopulation`, and the `log` prints of genetic.py. They are output only.
- `SetDistributionLevel` and the fields `current_generation_`, `total_population_`, `process_rank_` and `number_of_processes_`. These serve only the MPI reporting.
- Random sources: the distribution sampling inside `randn`, `randc`, `randint` and `rand`, the `random_device` seeding, `CheckRandom`, `np.random.normal`, `random.uniform` and the `random` module's state. The variates are supplied values instead.
- jade.h is not part of this model. The constructor takes the defaults it declares (generation count, direction, PMCRADE switch, p, c) as parameters.
- `FitnessFunction`, the scattering solver behind it, and the Python fitness functions: they are abstract deterministic functions.
- DEAP internals: `selBest`, `selTournament`, `cxSimulatedBinaryBounded` (with `sbbx_eta`) and `random.sample` are supplied functions. Fitness caching (`fitness.valid`, `update_fitnesses`) is modelled as recomputing a deterministic fitness, which gives the same values. The global `toolbox` registrations and the identity of DEAP individual objects are not modelled.
- Floating point: every double is a real. Rounding, overflow, NaN and infinity are not modelled.
- Jade.SubPopulation.RunOptimization: the program draws without end. The model consumes finite draw sequences and reports `DrawsExhausted` where the C++ would keep looping, for example in the `r1` rejection loop, which never ends when N == 1.
- Genetic.OnePlusOneOnecall: likewise bounded by the supplied draws. With no callback and `max_plato_time <= 0` the Python loop never ends, and the model ends in `DrawsExhausted`.
- Jade.SubPopulation.CreateInitialPopulation: when the feed is longer than N, the C++ unsigned subtraction wraps, passes the size check, and fails later in `resize`. The model reports `FeedTooLarge` for every feed of N or more vectors. The vectors that are resized and drawn before the "Wrong order of bounds!" throw are not modelled either; the model leaves the population unchanged on failure.
- Jade.SubPopulation.Init: the write of `total_population_` before the first throw is not modelled.
- Ranking.SortRanking: promised only to be a best-first permutation. The order of entries with equal fitness is not claimed to match `std::list::sort`. The maximising comparator `!(a < b)` is not a strict weak ordering, so the C++ order of ties is unspecified.
- Genetic.Genetic: likewise bounded by the supplied draws. A generation whose normal variates do not cover every sampled individual, or every component of one, ends in `DrawsExhausted` (from MutateAll) where Python would keep drawing.
- Genetic.OnePlusOne: takes a callable callback. Passing `None`, the Python default, makes `inner_callback` raise `TypeError` on its first call, so that case is not modelled.
- Genetic.Genetic: the last evaluated population is tied to the initial population only when one generation is requested. For more generations the contract says that it is the population the result was chosen from, with popsize members when the selections return the requested counts, but not which bred population it is.
