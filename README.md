# Metacommunity individual-based model — verified Dafny model of its core

`metacommunity_IBM.py` simulates a metacommunity as an individual-based model.
- Patches are joined by a dispersal network, and each patch is a set of habitats.
- Each habitat is a grid of microsites, each empty or holding one individual.
- Individuals carry diploid bit-vector genotypes, one pair of allele vectors per trait.
- Each generation kills, reproduces, mutates, germinates and disperses individuals, within habitats, within patches and among patches.

This project models the bookkeeping and counting core of that program and proves what it promises:
- **Occupancy.** The occupancy index of a habitat: the grid, the occupied and empty lists, `indi_num`, and the `species_category[species][gender]` position lists. `add_individual` and `del_individual` keep them mutually consistent.
- **Habitat operations.** Initialisation, death, asexual and sexual reproduction, pairing, germination and the bounded dormancy pool.
- **Patch operations.** The aggregate counts and position lists, the proportional allocation of a patch quota to its habitats, and the three within-patch dispersal procedures.
- **Matrix flows.** The integer post-processing of the dispersal matrices (`mat_around`, the element-wise minimum) and the per-destination placement loops of dispersal among patches.
- **Genetics.** The bit-vector operations `random_init_indi` and `mutation`, and the asexual and sexual offspring they produce.
- **Species identifiers.** The `'sp%d'` format and the parse the heatmap uses.

How randomness enters the model:
- **Inputs, not a generator.** Every random draw is an input, so each contract holds for every possible draw.
- **`random.shuffle`** is a permutation index list (`Sampling.IsPermutation`).
- **`random.sample`** is a list of distinct indices (`Sampling.IsSample`). Asking for a sample that is too large or negative is the `SamplingError` outcome.
- **Uniform draws** are reals compared with the rate.
- **Gaussian noise** is an opaque real.
- **The survival decision** of `hab_dead_selection` is a kill mask.

How the modules map to the source:
- **Classes with fields.** The classes whose fields the source updates in place are Dafny classes (`Habitats.Habitat`, `Patches.Patch`). Their methods reassign those fields and state the new state against value-level functions:
  - `Occupancy.Add`, `Del`, `PlaceAll` and `KillPass`;
  - `Breeding.AsexPoolOf` and `SexPoolOf`;
  - `Patches.PoolTally`, `AsexWithinRun` and `SexWithinRun`.
- **Mutation in place.** `mutation` flips a numpy array in place, so `Genetics.FlipInPlace` flips a Dafny `array`.
- **`mat_around`** lifts the diagonal of an `array2` in place.
- **Placement loops.** The placement loops among patches are methods over the migrant matrix and an emitter function that returns what patch i sends to patch j.

Modules, one per file:
- `wrappers.dfy`: `Option` and `Result`.
- `sampling.dfy`: shuffles, samples and `zip`.
- `numeric.dfy`: Python `int()` and `np.around`.
- `genetics.dfy`: class `individual`.
- `species_id.dfy`: the species identifiers.
- `occupancy.dfy`: the occupancy index as a value.
- `breeding.dfy`: litters, pairing and offspring pools.
- `habitat.dfy`: class `habitat`.
- `patch.dfy`: class `patch`.
- `flows.dfy`: the matrix part of class `metacommunity`.

## Model

| member | source | states |
|---|---|---|
| SpeciesId.SpeciesIdRoundTrip | metacommunity_IBM.py:411-417 | parsing the first digit run of `'sp%d' % n` gives back n |
| SpeciesId.SpeciesIdInjective | metacommunity_IBM.py:94 | distinct species ordinals give distinct identifiers |
| SpeciesId.IndexOf | metacommunity_IBM.py:94 | `list.index`: the first position holding x, and None exactly when x is not listed (ValueError) |
| SpeciesId.HeatmapRecoversOrdinal | metacommunity_IBM.py:403-417 | the heatmap value of a cell holds the ordinal (1-based) of the species the habitat's mean environment was created with |
| Numeric.Trunc | metacommunity_IBM.py:343-348 | `int(x)` truncates toward zero: within one of x, on the side of zero |
| Numeric.RoundHalfEven | metacommunity_IBM.py:819 | `np.around`: an integer within 0.5 of x, even on a tie |
| Occupancy.GridAsWrittenShape | metacommunity_IBM.py:57 | the grid as built (width rows of length entries) has the shape its `[row][col]` indexing needs only when length == width; a 2 x 1 habitat gets one row |
| Occupancy.EmptyGrid | metacommunity_IBM.py:57 | the corrected grid: length rows of width microsites, all empty |
| Occupancy.FreshConsistent | metacommunity_IBM.py:20-58 | a new habitat (all microsites in the empty list, no occupants, empty index) satisfies the occupancy invariant |
| Occupancy.AddEffect | metacommunity_IBM.py:63-79 | adding to an empty microsite sets it, moves it from the empty list to the end of the occupied list, adds one to `indi_num`, and keeps the invariant |
| Occupancy.AddConsistent | metacommunity_IBM.py:63-79 | `add_individual` on any microsite of the grid keeps the invariant; on an occupied one nothing changes |
| Occupancy.DelEffect | metacommunity_IBM.py:81-90 | deleting an occupant empties the microsite, moves it from the occupied list to the end of the empty list, subtracts one from `indi_num`, and keeps the invariant |
| Occupancy.DelConsistent | metacommunity_IBM.py:81-90 | `del_individual` keeps the invariant; on an empty microsite nothing changes |
| Occupancy.Partition | metacommunity_IBM.py:63-90 | occupied and empty lists are disjoint, cover the grid, and together number length x width |
| Occupancy.ZipPlaceKeeps | metacommunity_IBM.py:336-340 | placing a pool zipped with the empty list fills the first min(#empty, #pool) empty microsites in list order and keeps the invariant |
| Occupancy.ZipPlaceCells | metacommunity_IBM.py:336-340 | the i-th individual lands on the i-th chosen distinct empty microsite; every other microsite is as it was |
| Occupancy.PlaceAllCells | metacommunity_IBM.py:336-340 | placing on distinct vacant microsites puts each individual on its microsite and leaves the rest and the grid shape unchanged |
| Occupancy.KillPassEffect | metacommunity_IBM.py:131-149 | a kill pass over distinct microsites empties exactly the occupied ones whose draw failed and keeps the invariant |
| Occupancy.KillPassGrid | metacommunity_IBM.py:131-149 | over the whole grid, exactly the occupied microsites whose draw failed are emptied |
| Occupancy.OccupiedCountIsIndiNum | metacommunity_IBM.py:447-451 | counting occupied microsites over the grid gives `indi_num` |
| Genetics.OnesOfIndicator | metacommunity_IBM.py:1157-1161 | an allele vector built from a sample of k distinct positions has length geno_len and exactly k ones |
| Genetics.RandomInitIndividual | metacommunity_IBM.py:1137-1169 | succeeds exactly when every trait's `int(mean * geno_len)` is a valid sample size, and then yields an individual of the species and gender with both allele vectors of each trait holding that many ones at the sampled positions |
| Genetics.FlippedAt | metacommunity_IBM.py:1196-1205 | an allele changes exactly when its draw falls below the rate |
| Genetics.FlipCountZero | metacommunity_IBM.py:1207 | no flip happens exactly when no draw falls below the rate |
| Genetics.FlipInPlace | metacommunity_IBM.py:1196-1205 | the in-place flip loop leaves the array equal to the flipped vector and counts the flips |
| Genetics.Mutation | metacommunity_IBM.py:1188-1209 | the trait loop over in-place flips computes the mutated individual |
| Genetics.MutatedSpec | metacommunity_IBM.py:1188-1209 | each allele changes exactly when its draw is below the rate; a trait with no flip keeps genotype and phenotype, otherwise its phenotype is the new genotype mean plus noise |
| Genetics.MutationBelowAllDraws | metacommunity_IBM.py:1188-1209 | with a rate no draw falls below, mutation changes nothing |
| Genetics.AsexOffspringSpec | metacommunity_IBM.py:162-170 | an asexual offspring carries the parent's allele vectors after the flips and the new genotype mean plus birth or mutation noise |
| Genetics.SexOffspringSpec | metacommunity_IBM.py:216-235 | a sexual offspring takes one allele vector of the female's pair and one of the male's, after the flips, with the matching phenotype |
| Genetics.AsexBirth | metacommunity_IBM.py:162-170 | the deep copy, phenotype re-draw and mutation compute the asexual offspring |
| Genetics.SexBirth | metacommunity_IBM.py:216-235 | the deep copy, allele choice, phenotype re-draw and mutation compute the sexual offspring |
| Genetics.WithinAsexAlleles | metacommunity_IBM.py:613-624 | with `mutation` called once per trait, an allele is flipped exactly when an odd number of those calls drew below the rate there |
| Genetics.WithinAsexSingleTrait | metacommunity_IBM.py:613-624 | with one trait the within-patch offspring is the ordinary asexual offspring under the same draws |
| Genetics.WithinAsexBirth | metacommunity_IBM.py:613-624 | the trait loop as written computes the within-patch asexual offspring |
| Breeding.LitterSizeBounds | metacommunity_IBM.py:151-184 | a litter has floor(b) offspring, plus one exactly when the draw falls below the fractional part of b |
| Breeding.AsexLitter | metacommunity_IBM.py:161-171 | the `for num in range(nums)` loop yields n offspring of the parent, each drawn under its own draws |
| Breeding.AsexPoolFromOccupants | metacommunity_IBM.py:151-184 | every member of the asexual pool is the offspring of an occupant of a visited microsite |
| Breeding.AsexBroodSizeBounds | metacommunity_IBM.py:151-184 | the asexual pool holds between floor(b) and floor(b)+1 offspring per occupied microsite |
| Breeding.AsexBroodSizeIntegral | metacommunity_IBM.py:151-184 | with an integral birth rate b every occupant has exactly b offspring |
| Breeding.PairsLength | metacommunity_IBM.py:306-325 | the number of pairs is the sum over species of min(#females, #males) |
| Breeding.PairsOfOneSpecies | metacommunity_IBM.py:306-322 | every pair is a female position and a male position of one listed species |
| Breeding.PairsAreMates | metacommunity_IBM.py:306-322 | on a consistent habitat every pair is an occupied female and an occupied male microsite of the same species |
| Breeding.ShuffleSpeciesLists | metacommunity_IBM.py:308-320 | one species: both lists shuffled in place and zipped when it has both genders, skipped otherwise |
| Breeding.ShufflePairs | metacommunity_IBM.py:306-322 | the species loop shuffles every list of a species with both genders and returns the pairs read after the shuffles |
| Breeding.LookupShuffleAll | metacommunity_IBM.py:306-322 | after the shuffles each species with both genders has its lists permuted by its own draw; every other list is unchanged |
| Breeding.PairCountShuffled | metacommunity_IBM.py:306-325 | shuffling never changes the number of pairs |
| Breeding.SexLitter | metacommunity_IBM.py:256-279 | the litter loop of a pair yields n offspring of that female and male |
| Breeding.SexPoolFromPairs | metacommunity_IBM.py:239-304 | every member of the sexual pool is the offspring of the female and male of one pair of one species |
| Breeding.SexBroodSizeBounds | metacommunity_IBM.py:239-304 | each pair adds floor(b) or floor(b)+1 offspring |
| Breeding.OccupantsOffspring | metacommunity_IBM.py:186-204 | one offspring per sampled parent microsite, the i-th of the occupant there |
| Breeding.PairsOffspring | metacommunity_IBM.py:206-237 | one offspring per sampled pair, the i-th of that pair's female and male |
| Habitats.GerminateQuotaFits | metacommunity_IBM.py:343-358 | with a birth rate in [0, 1] the quota min(#empty, int(n*b)) is between 0 and n, so the sample never fails |
| Habitats.GerminateQuotaOverflows | metacommunity_IBM.py:343-358 | above birth rate 1 the quota can exceed the parents (2 occupants, 8 empty, b = 3 gives 6) |
| Habitats.DormantBounded | metacommunity_IBM.py:379-388 | the new dormancy pool has min(#old + #offspring, 25) members, ends with every offspring, and keeps only old members, none twice; it is the old pool then the offspring when both fit |
| Habitats.Habitat.constructor | metacommunity_IBM.py:20-58 | a new habitat with every microsite empty and listed as empty, no occupants, empty pools, and the invariant |
| Habitats.Habitat.AddIndividual | metacommunity_IBM.py:63-79 | the new occupancy state is `Add` of the old: set, listed, indexed and counted on an empty microsite, nothing on an occupied one |
| Habitats.Habitat.DelIndividual | metacommunity_IBM.py:81-90 | the new occupancy state is `Del` of the old: cleared, unlisted and uncounted on an occupied microsite, nothing on an empty one |
| Habitats.Habitat.Initialize | metacommunity_IBM.py:92-103 | NotListed exactly when the habitat's environment is not in the species table; the sampling error exactly when some trait's count is infeasible; on success every microsite is occupied and each new one holds a seeded individual of the habitat's species |
| Habitats.Habitat.DeadSelection | metacommunity_IBM.py:131-149 | the state is the row-major kill pass of the old state, the invariant holds, and the counter is the number of deaths |
| Habitats.Habitat.AsexReproduce | metacommunity_IBM.py:151-184 | the grid is unchanged and the offspring pool is replaced by the offspring of the occupants in row-major order |
| Habitats.Habitat.PairwiseParents | metacommunity_IBM.py:306-322 | only the species lists change (shuffled); the pairs are those of the shuffled lists |
| Habitats.Habitat.PairwiseParentsNum | metacommunity_IBM.py:324-325 | the count is the pair count of the lists before the shuffle, and only the lists change |
| Habitats.Habitat.SexReproduce | metacommunity_IBM.py:239-304 | the grid is unchanged, the lists are shuffled, and the offspring pool is the litters of the pairs |
| Habitats.Habitat.AsexReproduceWithNum | metacommunity_IBM.py:186-204 | the sampling error exactly when num is negative or exceeds the occupants; otherwise num offspring, the i-th of the i-th sampled occupant |
| Habitats.Habitat.SexReproduceWithNum | metacommunity_IBM.py:206-237 | the sampling error exactly when num is negative or exceeds the pairs; otherwise num offspring, the i-th of the i-th sampled pair |
| Habitats.Habitat.PlaceSites | metacommunity_IBM.py:336-340 | the settling loop's state is the placement of the zipped pairs |
| Habitats.Habitat.GerminateFromPool | metacommunity_IBM.py:327-341 | the offspring pool is shuffled but kept; min(#empty, #pool) individuals settle on the first shuffled empty microsites, and the counter says how many |
| Habitats.Habitat.ShuffleEmptySites | metacommunity_IBM.py:329-331 | shuffling the empty list keeps its members and the invariant |
| Habitats.Habitat.Settle | metacommunity_IBM.py:336-340 | the i-th pool member settles on the i-th empty microsite, for min(#empty, #pool) of them; other microsites are untouched |
| Habitats.Habitat.SettleOn | metacommunity_IBM.py:620-626 | the i-th individual settles on the i-th chosen distinct empty microsite; other microsites are untouched |
| Habitats.Habitat.AsexReproduceGerminate | metacommunity_IBM.py:343-358 | the sampling error (state unchanged) exactly when the quota exceeds the occupants; otherwise quota-many offspring of sampled occupants settle on the first shuffled empty microsites |
| Habitats.Habitat.SexReproduceGerminate | metacommunity_IBM.py:360-377 | the sampling error exactly when the quota exceeds the pairs; otherwise quota-many offspring of sampled pairs settle on the first shuffled empty microsites, and the count is returned |
| Habitats.Habitat.DormancyProcess | metacommunity_IBM.py:379-388 | the sampling error exactly when the offspring alone exceed 25; otherwise the offspring pool empties and the dormancy pool is the bounded merge |
| Patches.SharesWithinQuota | metacommunity_IBM.py:550-571 | the shares int(q*n_h/N) are non-negative, sum to at most q, and each fits its habitat when q <= N |
| Patches.ShareFits | metacommunity_IBM.py:550-571 | a share of a quota not above the total is at most the habitat's count |
| Patches.ContributionOutcome | metacommunity_IBM.py:550-571 | the habitat loop fails exactly when some share misfits, otherwise contributes the sum of the shares, which is at most q when 0 <= q <= N |
| Patches.WithinSiteNumFits | metacommunity_IBM.py:577 | with a rate in [0, 1], int(#empty * rate) is a valid sample size of the empty list |
| Patches.PoolTallyFails | metacommunity_IBM.py:573-592 | the pool dispersal fails exactly when some habitat's sample size is refused |
| Patches.PoolTallyBounds | metacommunity_IBM.py:573-592 | the settled count is at most the empty microsites and at most the pools offered |
| Patches.PoolTallyRate | metacommunity_IBM.py:573-592 | with a rate in [0, 1] the pool dispersal never fails |
| Patches.ParentSitesLive | metacommunity_IBM.py:470-480 | each parent entry names another habitat and one of its occupants |
| Patches.WithinQuotaFits | metacommunity_IBM.py:601-609 | with rates in [0, 1] the quota min(int(#P*b), int(#E*rate)) is a valid sample size of both lists |
| Patches.AsexWithinSamples | metacommunity_IBM.py:596-609 | the samples of a turn are k distinct empty microsites of the habitat and k occupants of other habitats |
| Patches.AsexWithinTurnPlaces | metacommunity_IBM.py:594-627 | a successful turn samples k = the within quota and settles the offspring of the sampled parents on the sampled microsites |
| Patches.AsexWithinDraw | metacommunity_IBM.py:603-619 | the draws of a fitting turn are the sampled microsites (distinct and empty), the sampled parent entries (each a live occupant) and the offspring of each sampled parent |
| Patches.AsexWithinNextOk | metacommunity_IBM.py:594-627 | when the quota fits, the states after the turn are the old states with the habitat's offspring settled on the sampled microsites |
| Patches.AsexWithinNext | metacommunity_IBM.py:594-627 | one habitat's turn fails exactly when its quota misfits, keeps the patch invariant, and adds its settled count to the population; with rates in [0, 1] it never fails |
| Patches.AsexWithinRunStep | metacommunity_IBM.py:594-627 | the run fails after turn n-1 exactly when it failed before or that turn misfits |
| Patches.AsexWithinRunNext | metacommunity_IBM.py:594-627 | turn n of a successful run adds that turn's new states and count |
| Patches.PairSitesCount | metacommunity_IBM.py:482-495 | a habitat is offered as many pairs as the other habitats' pair counts add up to |
| Patches.PairSitesMate | metacommunity_IBM.py:482-495 | each offered pair is a female and a male of one species in one other habitat |
| Patches.ReshuffledKeeps | metacommunity_IBM.py:482-495 | reshuffling the other habitats' lists keeps every grid, list, count and pair count |
| Patches.SexWithinSamples | metacommunity_IBM.py:634-645 | the samples of a turn are k distinct empty microsites and k mating pairs of other habitats |
| Patches.SexWithinTurnPlaces | metacommunity_IBM.py:629-675 | a turn succeeds exactly when its quota fits; then it samples k = the quota and settles the pairs' offspring on the sampled microsites |
| Patches.SexWithinTurnCounts | metacommunity_IBM.py:629-675 | a successful turn keeps the patch invariant and adds k individuals to the habitat |
| Patches.SexWithinNext | metacommunity_IBM.py:629-675 | one turn fails exactly when its quota misfits, changes the others only by reshuffling, and adds its count to the population; with rates in [0, 1] it never fails |
| Patches.SexWithinRunStep | metacommunity_IBM.py:629-675 | the sexual run fails after turn n-1 exactly when it failed before or that turn misfits |
| Patches.SexWithinRunNext | metacommunity_IBM.py:629-675 | turn n of a successful sexual run adds that turn's states and count |
| Patches.CollectPairSites | metacommunity_IBM.py:482-495 | listing the other habitats' pairs reshuffles their lists, and the list is their tagged pairs after the shuffle |
| Patches.SexTraceOutcome | metacommunity_IBM.py:629-675 | the loop of turns ends in the outcome of the sexual run |
| Patches.Patch.constructor | metacommunity_IBM.py:391-396 | a patch with no habitats and a zero habitat count |
| Patches.Patch.GetSize | metacommunity_IBM.py:441-445 | the summing loop gives the total size of the habitats |
| Patches.Patch.GetIndividualNum | metacommunity_IBM.py:447-451 | the summing loop gives the total `indi_num` |
| Patches.Patch.GetOffspringsPool | metacommunity_IBM.py:459-468 | the concatenation of the habitats' offspring pools in key order, skipping the named habitat |
| Patches.Patch.OffspringsNum | metacommunity_IBM.py:504-506 | the length of the patch's offspring pool |
| Patches.Patch.GetPosLs | metacommunity_IBM.py:508-516 | the habitat-tagged empty (or occupied) positions of every habitat but the skipped one |
| Patches.Patch.EmptySitesNum | metacommunity_IBM.py:518-520 | the length of the tagged empty-position list |
| Patches.Patch.SizePartition | metacommunity_IBM.py:441-520 | the patch's individuals and empty microsites together fill its size |
| Patches.Patch.DispWithinPoolSize | metacommunity_IBM.py:459-468 | the pool offered to a habitat is the patch pool less the habitat's own offspring; an unknown name leaves out nothing |
| Patches.Patch.DispWithinParentsCount | metacommunity_IBM.py:470-480 | the parents offered to a habitat number the patch's individuals less its own |
| Patches.Patch.DispWithinParentsListed | metacommunity_IBM.py:470-480 | the offered parents are exactly the occupied microsites of the other habitats |
| Patches.Patch.AddHabitat | metacommunity_IBM.py:522-525 | a fresh empty habitat under the key, replacing an existing key in place; `hab_num` counts calls |
| Patches.Patch.AsexForDispersalAmongPatches | metacommunity_IBM.py:550-560 | empty for q = 0 or no individuals; the sampling error exactly when some share misfits its habitat; otherwise the pool is the habitats' contributions joined in key order, habitat i's being the offspring of int(q * n_i / N) occupants sampled from its occupied sites, and it has as many members as the shares add up to, at most q when q <= N |
| Patches.Patch.GetSexualPairwiseParentsNum | metacommunity_IBM.py:453-457 | the sum of the habitats' pair counts, which the shuffles leave unchanged |
| Patches.Patch.SexForDispersalAmongPatches | metacommunity_IBM.py:562-571 | the same allocation over pair counts, and only index lists change, keeping their pair counts; on success each habitat's lists went through the counting shuffle and its own two, and the pool is the habitats' contributions joined in key order, habitat i's being the offspring of int(q * p_i / P) female-male pairs sampled from its reshuffled lists |
| Patches.AsexShares | metacommunity_IBM.py:557-560 | the habitat loop stops with the sampling error exactly when the running contribution fails; otherwise the pool is the contributions joined in key order, each the offspring of its habitat's sampled occupants |
| Patches.SexShares | metacommunity_IBM.py:568-571 | the breeding loop keeps every habitat's invariant and pair count, fails exactly when the running contribution fails, and otherwise leaves each habitat's lists twice reshuffled and the pool the contributions joined in key order |
| Patches.SexTurn | metacommunity_IBM.py:569-571 | one habitat's turn keeps the turns already taken and the habitats still ahead, fails exactly when its share misfits its pair count, and otherwise extends the contributions by that share's offspring |
| Patches.PoolGrows | metacommunity_IBM.py:557-560 | a contribution of the whole share extends both the joined pool and its running size |
| Patches.Patch.DispWithinFromOffspringsPool | metacommunity_IBM.py:573-592 | fails exactly when the tally fails; otherwise the counter grows by the tally, and every habitat is settled from the other habitats' pools |
| Patches.Patch.AsexForDispersalWithinPatch | metacommunity_IBM.py:594-627 | the habitats end in the states of the asexual run; success adds the run's count, and failure names the misfitting turn |
| Patches.Patch.SexForDispersalWithinPatch | metacommunity_IBM.py:629-675 | the habitats end in the outcome of the sexual run, with the failing turn's reshuffles kept |
| Flows.EmigrantRowSum | metacommunity_IBM.py:833-848 | row i of the emigrant matrix sums to the offspring count times the rate row sum |
| Flows.ImmigrantColumnSum | metacommunity_IBM.py:885-900 | column j of the immigrant matrix sums to the empty count times the rate column sum |
| Flows.MatAround | metacommunity_IBM.py:815-819 | the diagonal entries in (0, 1) are set to 1 in place, and the result is the rounded matrix |
| Flows.MatAroundEntries | metacommunity_IBM.py:815-819 | a diagonal entry in (0, 1) comes out as 1; every other entry rounds to within 0.5, ties to even |
| Flows.MatAroundWithin | metacommunity_IBM.py:815-819 | integer bounds on an entry survive `mat_around` |
| Flows.EmigrantsFit | metacommunity_IBM.py:833-848 | with rates in [0, 1] a patch sends between 0 and its offspring count to any patch |
| Flows.ImmigrantsFit | metacommunity_IBM.py:885-900 | with rates in [0, 1] a patch is offered between 0 and its empty count by any patch |
| Flows.MinimumBelow | metacommunity_IBM.py:943 | the element-wise minimum is below both matrices and equal to one of them |
| Flows.MigrantsFit | metacommunity_IBM.py:1000-1002 | with non-negative expected offspring and rates in [0, 1], no flow is negative or exceeds the destination's empty count |
| Flows.PoolMigrantsFit | metacommunity_IBM.py:941-943 | with the pools' sizes as counts, no flow exceeds the source's pool either |
| Flows.Incoming | metacommunity_IBM.py:952-962 | the migrant list of destination j fails exactly when some other source fails, and otherwise holds the sum of the flows into j |
| Flows.IncomingFrom | metacommunity_IBM.py:952-962 | every incoming migrant was sent by another patch |
| Flows.DestinationPlaces | metacommunity_IBM.py:946-969 | destination j places min(#empty_j, sum over i != j of flow[i][j]) migrants on distinct empty sites of j, each sent by another patch |
| Flows.PlacedExact | metacommunity_IBM.py:946-969 | the placement counter is the sum over destinations of the placements the matrix promises |
| Flows.CollectMigrants | metacommunity_IBM.py:952-962 | the inner loop builds the migrant list of destination j, stopping at the first failing source |
| Flows.DispAmongPatches | metacommunity_IBM.py:946-969 | fails exactly when some destination fails; otherwise every destination's placements, and a counter equal to their total |
| Flows.PoolEmitSpec | metacommunity_IBM.py:958-961 | a pool source fails exactly when asked for a negative number or more than its pool, and sends members of its pool |
| Flows.PoolDestination | metacommunity_IBM.py:939-969 | pool dispersal to j fails exactly when some flow misfits its source pool; otherwise it places min(#empty_j, inflow) pool members |
| Flows.PoolDispersalFits | metacommunity_IBM.py:939-969 | with rate matrices in [0, 1] and the emigrant matrix built from the pools' sizes, pool dispersal never fails |

## Left out

- Floating point: all arithmetic on rates, means and matrix entries is exact `real`. The source uses IEEE doubles, whose rounding can differ, and the members below are affected.
- Patches.Share: int(q*n/N) is computed exactly. In doubles, for example `int(49*(1/49))` is 0 while the model gives 1.
- Habitats.GerminateQuota: int(n*b) is computed on exact reals, so a product such as `0.29*100`, which truncates to 28 in doubles, gives 29 here.
- Patches.WithinSiteNum: int(#empty*rate) is on exact reals; same caveat.
- Patches.WithinQuota: int(#parents*b) and int(#empty*rate) are on exact reals; same caveat.
- Genetics.RandomInitIndividual: the count int(mean*geno_len) is on exact reals; same caveat.
- Numeric.RoundHalfEven: `np.around` is applied to exact reals, so a product that lands just off a .5 tie in doubles may round the other way.
- Genetics.SexOffspring: individuals are values. In the source a sexual offspring shares its parents' numpy allele arrays, so `mutation` also flips the parents' vectors in place. The model copies (:223-232, :266-275, :661-670, :1198-1205).
- Flows.PoolEmit: the same offspring object can be sampled for several destinations and placed in several habitats at once. The model places independent copies (:955-961).
- Patches.PoolSettlers: the same aliasing in within-patch pool dispersal, where one offspring object can settle in several habitats (:578-584).
- Habitats.Habitat.SexReproduceGerminate: one permutation input stands for the source's chain of shuffles. The source reshuffles the species lists in each pair-count call (:363-366) and again when listing the pairs. A composition of shuffles is a permutation and every permutation is reachable, so the outcomes are the same set.
- Habitats.Habitat.Initialize: requires as many allele lengths as environment means. The source reads only the first `traits_num` of each.
- Habitats.Habitat.AddIndividual: requires a position inside the grid. `Occupancy.Add` is a no-op outside it, while Python raises IndexError there, a path the source's callers never take.
- Habitats.Habitat.DeadSelection: the survival probability (`survival_rate`, an `exp` of the phenotype–environment distance) and its uniform draw are replaced by a kill-mask input.
- Flows.DispAmongPatches: the metacommunity object is not modelled.
  - The placements per destination are returned as (site, migrant) lists rather than added to the patches' habitats.
  - On a sampling error the method reports only the error, while the source has already placed the earlier destinations' migrants.
- Flows.DispAmongPatches: the reproduce-and-disperse variants (:998-1060) run the same loop with the patch's `*_for_dispersal_among_patches` as the emitter.
  - That emitter returns the sum of rounded shares, not exactly the asked number, so `Exact` does not hold for it.
  - The species-list reshuffles each call makes in patch i are not threaded from one call to the next; the emitter is an arbitrary function of (i, j, k).
- Flows.Migrants: the dispersal kernel matrix, `dist2disp_function`, `floyd_warshall_numpy` and the normalisations (:829, :881) are not modelled. The emigrant and immigrant rate matrices are inputs. `EmigrantRowSum` and `ImmigrantColumnSum` state the promised row and column sums given rate rows or columns that sum to 1.
- Flows.MatAround: the lifted diagonal never affects a placement, because the loops skip i == j. `np.around` returns floats and `int()` of an integral float is the identity, so the model returns integers directly.
- Patches.SexForDispersalWithinPatch: its shuffle draws are indexed per (turn, habitat, species, gender), one fresh permutation each time a habitat's lists are shuffled.
- The patch-level and metacommunity-level loops that only call a habitat method on every habitat or patch are not modelled. These are `patch_initialize`, `patch_dead_selection`, `patch_*_reproduce_mutate`, `patch_germinate*`, `patch_dormancy_processes` and the `meta_*` drivers that call them.
- Gaussian noise (`random.gauss`, `np.random.normal`), including the environment values drawn at habitat construction (:54), is an opaque input real, or not modelled.
- The random number generator: every draw is an input.
- Plotting, the heatmap rendering, networkx map construction, `print` diagnostics, the `__main__` driver and the unimplemented stubs are not modelled. They are output, foreign library calls or empty.
- Dictionaries keyed by trait name (`genotype_set`, `phenotype_set`) are sequences indexed by trait position. The patch's habitat dictionary is a sequence of habitats with distinct names, in insertion order.

## Findings

| source | as written | input that shows it | evidently intended | confidence | as-written member | corrected member |
|---|---|---|---|---|---|---|
| metacommunity_IBM.py:57 | the microsite grid is built as `width` rows of `length` entries, but indexed `[len_id][wid_id]` with `len_id < length`, `wid_id < width` | a habitat with length 2 and width 1: the grid has one row, and `add_individual` at (1, 0) indexes a missing row | `length` rows of `width` microsites | not executed | Occupancy.GridAsWrittenShape | Occupancy.EmptyGrid |
