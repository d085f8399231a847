/** A habitat of the metacommunity (class `habitat` of metacommunity_IBM.py): a grid of
    microsites with its occupancy index, an offspring pool and a bounded dormancy pool.  The
    fields are reassigned in place as the source's methods do; State() assembles the
    occupancy index as a value so that the methods can be stated against the functions of
    module Occupancy, and Valid() is the invariant `add_individual` and `del_individual` keep. */
module Habitats {
  import opened Wrappers
  import opened Sampling
  import opened Numeric
  import opened Genetics
  import opened Occupancy
  import opened SpeciesId
  import opened Breeding

  /** `self.dormancy_pool_max_size`. */
  const DormancyPoolMaxSize: nat := 25

  /** The `reproduce_mode` strings 'asexual' and 'sexual'. */
  datatype Mode = Asexual | Sexual

  /** The fields of a habitat other than its species index lists, in declaration order. */
  type Fixed = (Grid, seq<Pos>, seq<Pos>, int, seq<string>, seq<Individual>, seq<Individual>)

  /** The gender `hab_initialize` gives a new individual: always female under asexual
      reproduction, the drawn gender under sexual reproduction. */
  function InitialGender(mode: Mode, drawn: Gender): Gender {
    match mode
    case Asexual => Female
    case Sexual => drawn
  }

  /** Every trait's `int(mean * geno_len)` is a sample size `random.sample` accepts. */
  predicate AllFeasible(means: seq<real>, lens: seq<nat>)
    requires |means| == |lens|
  {
    forall t :: 0 <= t < |lens| ==> CountFeasible(means[t], lens[t])
  }

  /** The number of offspring the germinate methods ask for: min(#empty, int(n * birth_rate)),
      n the number of occupants (asexual) or of pairs (sexual). */
  function GerminateQuota(empty: nat, indiNum: int, birthRate: real): (r: int)
    ensures r <= empty && r <= Trunc(indiNum as real * birthRate)
    ensures r == empty || r == Trunc(indiNum as real * birthRate)
  {
    Min(empty, Trunc(indiNum as real * birthRate))
  }

  /** With a birth rate in [0, 1] the quota is a valid sample size: the germinate methods
      never hit the sampling error. */
  lemma GerminateQuotaFits(empty: nat, n: nat, birthRate: real)
    requires 0.0 <= birthRate <= 1.0
    ensures 0 <= GerminateQuota(empty, n, birthRate) <= n
  {
    var m := n as real;
    var x := m * birthRate;
    assert 0.0 <= x;
    assert m - x == m * (1.0 - birthRate);
    assert 0.0 <= m * (1.0 - birthRate);
  }

  /** Above a birth rate of 1 the quota can exceed the parents: with 2 occupants, 8 empty
      microsites and birth rate 3 it is 6, and `random.sample` of 6 out of 2 raises. */
  lemma GerminateQuotaOverflows()
    ensures GerminateQuota(8, 2, 3.0) == 6 > 2
  {
    assert Trunc(2 as real * 3.0) == 6;
  }

  /** The dormancy pool after `hab_dormancy_process`: the old pool and the offspring when
      both fit under the cap, otherwise a sample (index draw `pick`) of the old pool filling
      the room the offspring leave, then the offspring. */
  function Dormant(dormant: seq<Individual>, offspring: seq<Individual>, pick: seq<nat>): seq<Individual>
    requires |offspring| <= DormancyPoolMaxSize
    requires |offspring| + |dormant| > DormancyPoolMaxSize ==>
      IsSample(pick, DormancyPoolMaxSize - |offspring|, |dormant|)
  {
    if |offspring| + |dormant| <= DormancyPoolMaxSize then dormant + offspring
    else Sample(dormant, pick) + offspring
  }

  /** The dormancy pool never exceeds the cap, keeps every offspring (at its end), and keeps
      only members of the old pool, none twice, before them. */
  lemma DormantBounded(dormant: seq<Individual>, offspring: seq<Individual>, pick: seq<nat>)
    requires |offspring| <= DormancyPoolMaxSize
    requires |offspring| + |dormant| > DormancyPoolMaxSize ==>
      IsSample(pick, DormancyPoolMaxSize - |offspring|, |dormant|)
    ensures var r := Dormant(dormant, offspring, pick);
      |r| == Min(|dormant| + |offspring|, DormancyPoolMaxSize) &&
      r[|r| - |offspring|..] == offspring &&
      (forall x :: x in r[..|r| - |offspring|] ==> x in dormant) &&
      (|offspring| + |dormant| <= DormancyPoolMaxSize ==> r[..|r| - |offspring|] == dormant)
  {
    var r := Dormant(dormant, offspring, pick);
    if |offspring| + |dormant| > DormancyPoolMaxSize {
      SampleFromPopulation(dormant, pick);
      assert r[..|r| - |offspring|] == Sample(dormant, pick);
    } else {
      assert r[..|r| - |offspring|] == dormant;
    }
  }

  class Habitat {
    const name: string
    const length: nat
    const width: nat
    /** `mean_env_ls`: the habitat's mean environment value per environment type. */
    const meanEnv: seq<real>

    /** `set['microsite_individuals']`. */
    var microsites: Grid
    var occupiedSites: seq<Pos>
    var emptySites: seq<Pos>
    var indiNum: int
    /** The key order of `species_category` (Python dicts keep insertion order). */
    var speciesOrder: seq<string>
    var speciesCategory: Category
    var offspringPool: seq<Individual>
    var dormancyPool: seq<Individual>

    ghost function State(): Occupancy
      reads this
    {
      Occupancy(microsites, occupiedSites, emptySites, indiNum, speciesOrder, speciesCategory)
    }

    ghost predicate Valid()
      reads this
    {
      Consistent(State(), length, width)
    }

    /** Every field but the species index lists, which the pairing methods shuffle. */
    ghost function Unshuffled(): Fixed
      reads this
    {
      (microsites, occupiedSites, emptySites, indiNum, speciesOrder, offspringPool, dormancyPool)
    }

    /** A new habitat: every microsite empty and listed in row-major order, no individual,
        empty pools.  The grid has `length` rows of `width` microsites (see GridAsWritten for
        the shape the source builds). */
    constructor (name: string, length: nat, width: nat, meanEnv: seq<real>)
      ensures this.name == name && this.length == length && this.width == width && this.meanEnv == meanEnv
      ensures State() == Fresh(length, width) && Valid()
      ensures offspringPool == [] && dormancyPool == []
    {
      this.name := name;
      this.length := length;
      this.width := width;
      this.meanEnv := meanEnv;
      microsites := EmptyGrid(length, width);
      occupiedSites := [];
      emptySites := RowMajor(length, width);
      indiNum := 0;
      speciesOrder := [];
      speciesCategory := map[];
      offspringPool := [];
      dormancyPool := [];
      new;
      FreshConsistent(length, width);
    }

    /** `add_individual(ind, p.0, p.1)`: on an empty microsite the individual moves in and
        the index records it; on an occupied one nothing changes. */
    method AddIndividual(ind: Individual, p: Pos)
      requires Shaped(microsites, length, width) && InGrid(length, width, p)
      modifies this
      ensures State() == Add(old(State()), ind, p)
      ensures Shaped(microsites, length, width)
      ensures offspringPool == old(offspringPool) && dormancyPool == old(dormancyPool)
    {
      if microsites[p.0][p.1].Some? {
        return;
      }
      ghost var o := State();
      var category := speciesCategory;
      if ind.species in category {
        if ind.gender in category[ind.species] {
          category := category[ind.species := category[ind.species][ind.gender := category[ind.species][ind.gender] + [p]]];
        } else {
          category := category[ind.species := category[ind.species][ind.gender := [p]]];
        }
      } else {
        category := category[ind.species := map[ind.gender := [p]]];
        speciesOrder := speciesOrder + [ind.species];
      }
      assert category == AddToCategory(o.category, ind.species, ind.gender, p);
      microsites := microsites[p.0 := microsites[p.0][p.1 := Some(ind)]];
      emptySites := Remove(emptySites, p);
      occupiedSites := occupiedSites + [p];
      indiNum := indiNum + 1;
      speciesCategory := category;
      assert State() == Add(o, ind, p);
    }

    /** `del_individual(p.0, p.1)`: on an occupied microsite the occupant leaves and the
        index forgets it; on an empty one nothing changes. */
    method DelIndividual(p: Pos)
      requires Shaped(microsites, length, width) && InGrid(length, width, p)
      modifies this`microsites, this`occupiedSites, this`emptySites, this`indiNum, this`speciesCategory
      ensures State() == Del(old(State()), p)
      ensures Shaped(microsites, length, width)
    {
      if microsites[p.0][p.1].None? {
        return;
      }
      ghost var o := State();
      var ind := microsites[p.0][p.1].value;
      microsites := microsites[p.0 := microsites[p.0][p.1 := None]];
      emptySites := emptySites + [p];
      occupiedSites := Remove(occupiedSites, p);
      indiNum := indiNum - 1;
      if ind.species in speciesCategory && ind.gender in speciesCategory[ind.species] {
        var byGender := speciesCategory[ind.species];
        speciesCategory := speciesCategory[ind.species := byGender[ind.gender := Remove(byGender[ind.gender], p)]];
      }
      assert State() == Del(o, p);
    }

    /** `hab_initialize`: the species id is 'sp' + (1 + the position of the habitat's
        environment means in the species table), missing means raising ValueError; then every
        microsite, row by row, gets a new individual of that species from `random_init_indi`
        (female under asexual reproduction, a drawn gender under sexual).  A trait whose
        active count is no sample size fails the first `random_init_indi` call, before any
        microsite changes. */
    method Initialize(lens: seq<nat>, mode: Mode, table: seq<seq<real>>, genders: Pos -> Gender,
                      draws: Pos -> seq<InitDraw>) returns (r: Result<()>)
      requires Valid() && |lens| == |meanEnv|
      requires forall p :: InitDrawsFit(meanEnv, lens, draws(p))
      modifies this
      ensures Valid()
      ensures offspringPool == old(offspringPool) && dormancyPool == old(dormancyPool)
      ensures r == NotListed <==> meanEnv !in table
      ensures r == SamplingError <==> meanEnv in table && 0 < length && 0 < width && !AllFeasible(meanEnv, lens)
      ensures !r.Ok? ==> State() == old(State())
      ensures r.Ok? ==> forall p :: InGrid(length, width, p) ==> At(microsites, p).Some?
      ensures r.Ok? ==> forall p :: InGrid(length, width, p) && At(old(microsites), p).None? ==>
        Seeded(At(microsites, p).value, SpeciesIdFor(table, meanEnv).value, InitialGender(mode, genders(p)),
               meanEnv, lens, draws(p))
      ensures forall p :: At(old(microsites), p).Some? ==> At(microsites, p) == At(old(microsites), p)
    {
      var sid := SpeciesIdFor(table, meanEnv);
      if sid.None? {
        return NotListed;
      }
      ghost var g0 := microsites;
      ghost var s0 := State();
      var row := 0;
      while row < length
        invariant 0 <= row <= length
        invariant Valid()
        invariant offspringPool == old(offspringPool) && dormancyPool == old(dormancyPool)
        invariant row == 0 || width == 0 ==> State() == s0
        invariant 0 < row && 0 < width ==> AllFeasible(meanEnv, lens)
        invariant forall p: Pos :: InGrid(length, width, p) && p.0 < row ==> At(microsites, p).Some?
        invariant forall p: Pos :: InGrid(length, width, p) && p.0 < row && At(g0, p).None? ==>
          Seeded(At(microsites, p).value, sid.value, InitialGender(mode, genders(p)), meanEnv, lens, draws(p))
        invariant forall p: Pos :: !(InGrid(length, width, p) && p.0 < row) ==> At(microsites, p) == At(g0, p)
        invariant forall p :: At(g0, p).Some? ==> At(microsites, p) == At(g0, p)
      {
        var ok := InitializeRow(row, sid.value, lens, mode, genders, draws);
        if !ok {
          return SamplingError;
        }
        row := row + 1;
      }
      r := Ok(());
    }

    /** One row of `hab_initialize`'s loop: the microsites (row, 0), (row, 1), ... in turn.
        It fails at its first microsite or not at all. */
    method InitializeRow(row: nat, species: string, lens: seq<nat>, mode: Mode, genders: Pos -> Gender,
                         draws: Pos -> seq<InitDraw>) returns (ok: bool)
      requires Valid() && row < length && |lens| == |meanEnv|
      requires forall p :: InitDrawsFit(meanEnv, lens, draws(p))
      modifies this
      ensures Valid()
      ensures offspringPool == old(offspringPool) && dormancyPool == old(dormancyPool)
      ensures ok <==> width == 0 || AllFeasible(meanEnv, lens)
      ensures !ok || width == 0 ==> State() == old(State())
      ensures forall p: Pos :: p.0 == row && p.1 < width && ok ==> At(microsites, p).Some?
      ensures forall p: Pos :: p.0 == row && p.1 < width && ok && At(old(microsites), p).None? ==>
        Seeded(At(microsites, p).value, species, InitialGender(mode, genders(p)), meanEnv, lens, draws(p))
      ensures forall p: Pos :: !(p.0 == row && p.1 < width) ==> At(microsites, p) == At(old(microsites), p)
      ensures forall p :: At(old(microsites), p).Some? ==> At(microsites, p) == At(old(microsites), p)
    {
      ghost var g0 := microsites;
      ghost var s0 := State();
      var col := 0;
      while col < width
        invariant 0 <= col <= width
        invariant Valid()
        invariant offspringPool == old(offspringPool) && dormancyPool == old(dormancyPool)
        invariant col == 0 ==> State() == s0
        invariant 0 < col ==> AllFeasible(meanEnv, lens)
        invariant forall p: Pos :: p.0 == row && p.1 < col ==> At(microsites, p).Some?
        invariant forall p: Pos :: p.0 == row && p.1 < col && At(g0, p).None? ==>
          Seeded(At(microsites, p).value, species, InitialGender(mode, genders(p)), meanEnv, lens, draws(p))
        invariant forall p: Pos :: !(p.0 == row && p.1 < col) ==> At(microsites, p) == At(g0, p)
        invariant forall p :: At(g0, p).Some? ==> At(microsites, p) == At(g0, p)
      {
        var cellOk := InitializeCell((row, col), species, lens, mode, genders, draws);
        if !cellOk {
          return false;
        }
        forall q: Pos | q.0 == row && q.1 == col
          ensures At(microsites, q).Some?
        {
          assert q == (row, col);
        }
        col := col + 1;
      }
      return true;
    }

    /** One microsite of `hab_initialize`'s loop: `random_init_indi`, then `add_individual`. */
    method InitializeCell(p: Pos, species: string, lens: seq<nat>, mode: Mode, genders: Pos -> Gender,
                          draws: Pos -> seq<InitDraw>) returns (ok: bool)
      requires Valid() && InGrid(length, width, p) && |lens| == |meanEnv|
      requires InitDrawsFit(meanEnv, lens, draws(p))
      modifies this
      ensures Valid()
      ensures offspringPool == old(offspringPool) && dormancyPool == old(dormancyPool)
      ensures ok <==> AllFeasible(meanEnv, lens)
      ensures !ok ==> State() == old(State())
      ensures ok ==> At(microsites, p).Some?
      ensures ok && At(old(microsites), p).None? ==>
        Seeded(At(microsites, p).value, species, InitialGender(mode, genders(p)), meanEnv, lens, draws(p))
      ensures forall q :: q != p ==> At(microsites, q) == At(old(microsites), q)
      ensures At(old(microsites), p).Some? ==> At(microsites, p) == At(old(microsites), p)
    {
      var ind := RandomInitIndividual(species, InitialGender(mode, genders(p)), meanEnv, lens, draws(p));
      if !ind.Ok? {
        return false;
      }
      ghost var o := State();
      AddConsistent(o, length, width, ind.value, p);
      AddIndividual(ind.value, p);
      forall q ensures At(microsites, q) == if q == p && At(o.microsites, p).None? then Some(ind.value) else At(o.microsites, q) {
        if At(o.microsites, p).None? {
          AtAdd(o, ind.value, p, q);
        }
      }
      return true;
    }

    /** The bookkeeping of `hab_dead_selection`: the microsites are visited row by row and
        the occupant of each is deleted when its survival draw fails (`dies`, standing for
        `survival_rate < uniform(0, 1)`); the result is the number of deaths.  KillPassGrid
        states which microsites the pass empties. */
    method DeadSelection(dies: Pos -> bool) returns (counter: nat)
      requires Valid()
      modifies this`microsites, this`occupiedSites, this`emptySites, this`indiNum, this`speciesCategory
      ensures Valid()
      ensures State() == KillPass(old(State()), RowMajor(length, width), dies)
      ensures counter == old(indiNum) - indiNum
      ensures offspringPool == old(offspringPool) && dormancyPool == old(dormancyPool)
    {
      ghost var s0 := State();
      counter := 0;
      var row := 0;
      while row < length
        invariant 0 <= row <= length && Shaped(microsites, length, width)
        invariant State() == KillPass(s0, RowMajor(row, width), dies)
        invariant counter == s0.indiNum - indiNum
      {
        var deaths := DeadSelectionRow(row, s0, dies);
        counter := counter + deaths;
        row := row + 1;
      }
      assert Valid() by {
        KillPassGrid(s0, length, width, dies);
      }
    }

    /** One row of `hab_dead_selection`'s loop, which extends the kill pass from s0 by that
        row. */
    method DeadSelectionRow(row: nat, ghost s0: Occupancy, dies: Pos -> bool) returns (deaths: nat)
      requires Shaped(microsites, length, width) && row < length
      requires State() == KillPass(s0, RowMajor(row, width), dies)
      modifies this`microsites, this`occupiedSites, this`emptySites, this`indiNum, this`speciesCategory
      ensures Shaped(microsites, length, width)
      ensures State() == KillPass(s0, RowMajor(row + 1, width), dies)
      ensures deaths == old(indiNum) - indiNum
    {
      ghost var s1 := State();
      deaths := 0;
      for col := 0 to width
        invariant Shaped(microsites, length, width)
        invariant State() == KillPass(s1, Row(row, col), dies)
        invariant deaths == s1.indiNum - indiNum
      {
        var died := DeadSelectionCell(row, col, s1, dies);
        if died {
          deaths := deaths + 1;
        }
      }
      KillPassAppend(s0, RowMajor(row, width), Row(row, width), dies);
    }

    /** One microsite (row, col) of `hab_dead_selection`'s loop: its occupant, if any, is
        deleted when the survival draw fails, which extends the kill pass from s0 over the
        row by one microsite. */
    method DeadSelectionCell(row: nat, col: nat, ghost s0: Occupancy, dies: Pos -> bool) returns (died: bool)
      requires Shaped(microsites, length, width) && row < length && col < width
      requires State() == KillPass(s0, Row(row, col), dies)
      modifies this`microsites, this`occupiedSites, this`emptySites, this`indiNum, this`speciesCategory
      ensures Shaped(microsites, length, width)
      ensures died == (At(old(microsites), (row, col)).Some? && dies((row, col)))
      ensures State() == KillPass(s0, Row(row, col + 1), dies)
      ensures indiNum == old(indiNum) - if died then 1 else 0
    {
      var p := (row, col);
      KillPassRowStep(s0, row, col, dies);
      died := microsites[p.0][p.1].Some? && dies(p);
      if died {
        DelIndividual(p);
      }
    }

    /** `hab_asex_reproduce_mutate`: the offspring pool is emptied, then every occupant,
        row by row, has `int(birth_rate)` offspring and one more when its uniform draw
        `coin(p)` falls below the fractional part of the birth rate.  The k-th offspring
        uses the draws `draws(k)`.  AsexPoolFromOccupants and AsexBroodSizeBounds state what
        the pool holds. */
    method AsexReproduce(birthRate: real, mrate: real, coin: Pos -> real, draws: nat -> BirthDraw, lens: seq<nat>)
      requires Shaped(microsites, length, width)
      requires GridConforms(microsites, lens) && DrawsConform(draws, lens)
      modifies this
      ensures State() == old(State()) && dormancyPool == old(dormancyPool)
      ensures offspringPool == AsexPoolOf(microsites, RowMajor(length, width), birthRate, coin, mrate, draws, lens)
    {
      var pool := [];
      var row := 0;
      while row < length
        invariant 0 <= row <= length
        invariant pool == AsexPoolOf(microsites, RowMajor(row, width), birthRate, coin, mrate, draws, lens)
        modifies {}
      {
        var kids := AsexRowOffspring(row, |pool|, birthRate, mrate, coin, draws, lens);
        pool := pool + kids;
        row := row + 1;
      }
      offspringPool := pool;
    }

    /** The offspring one row of microsites adds to the pool of `hab_asex_reproduce_mutate`,
        the first of them drawn under `draws(start)`. */
    method AsexRowOffspring(row: nat, start: nat, birthRate: real, mrate: real, coin: Pos -> real,
                            draws: nat -> BirthDraw, lens: seq<nat>) returns (kids: seq<Individual>)
      requires Shaped(microsites, length, width) && row < length
      requires GridConforms(microsites, lens) && DrawsConform(draws, lens)
      requires start == AsexBroodSize(microsites, RowMajor(row, width), birthRate, coin)
      ensures AsexPoolOf(microsites, RowMajor(row + 1, width), birthRate, coin, mrate, draws, lens) ==
        AsexPoolOf(microsites, RowMajor(row, width), birthRate, coin, mrate, draws, lens) + kids
    {
      ghost var prefix := AsexPoolOf(microsites, RowMajor(row, width), birthRate, coin, mrate, draws, lens);
      kids := [];
      if width > 0 { RowMajorStep(row, width, 0); }
      var col := 0;
      while col < width
        invariant 0 <= col <= width
        invariant prefix + kids ==
          AsexPoolOf(microsites, RowMajor(row, width) + Row(row, width)[..col], birthRate, coin, mrate, draws, lens)
      {
        ghost var cells := RowMajor(row, width) + Row(row, width)[..col];
        var p: Pos := (row, col);
        RowMajorStep(row, width, col);
        assert start + |kids| == AsexBroodSize(microsites, cells, birthRate, coin);
        var litter := AsexCellOffspring(cells, p, start + |kids|, birthRate, mrate, coin, draws, lens);
        AppendAssoc(prefix, kids, litter);
        assert cells + [p] == RowMajor(row, width) + Row(row, width)[..col + 1];
        kids := kids + litter;
        col := col + 1;
      }
    }

    /** The litter of microsite p in `hab_asex_reproduce_mutate`: none when it is empty,
        otherwise `int(birth_rate)` offspring of its occupant and one more when the draw
        `coin(p)` falls below the fractional part of the birth rate. */
    method AsexCellOffspring(ghost cells: seq<Pos>, p: Pos, next: nat, birthRate: real, mrate: real, coin: Pos -> real,
                             draws: nat -> BirthDraw, lens: seq<nat>) returns (litter: seq<Individual>)
      requires Shaped(microsites, length, width) && InGrid(length, width, p)
      requires GridConforms(microsites, lens) && DrawsConform(draws, lens)
      requires next == AsexBroodSize(microsites, cells, birthRate, coin)
      ensures AsexPoolOf(microsites, cells + [p], birthRate, coin, mrate, draws, lens) ==
        AsexPoolOf(microsites, cells, birthRate, coin, mrate, draws, lens) + litter
    {
      AsexPoolOfSnoc(microsites, cells, p, birthRate, coin, mrate, draws, lens);
      litter := [];
      if microsites[p.0][p.1].None? {
        assert At(microsites, p).None?;
        return;
      }
      var parent := microsites[p.0][p.1].value;
      assert Conforms(parent, lens) by { assert At(microsites, p) == Some(parent); }
      var nums := Trunc(birthRate);
      var rate := birthRate - nums as real;
      var n := if nums > 0 then nums else 0;
      litter := AsexLitter(parent, n, mrate, draws, next, lens);
      if rate > coin(p) {
        BroodSnoc(parent, n, mrate, draws, next, lens);
        var child := AsexBirth(parent, mrate, draws(next + n));
        litter := litter + [child];
      }
    }

    /** `hab_sexual_pairwise_parents_ls`: species by species in key order, a species with both
        a 'female' and a 'male' list has both lists shuffled in place (by the draws
        perm(sp, gender)) and contributes its female/male pairs.  The index stays an index of
        the grid and nothing else changes. */
    method PairwiseParents(perm: (string, Gender) -> seq<nat>) returns (pairs: seq<(Pos, Pos)>)
      requires Valid()
      requires PermFits(speciesCategory, perm)
      modifies this`speciesCategory
      ensures microsites == old(microsites) && occupiedSites == old(occupiedSites) && emptySites == old(emptySites)
      ensures indiNum == old(indiNum) && speciesOrder == old(speciesOrder)
      ensures offspringPool == old(offspringPool) && dormancyPool == old(dormancyPool)
      ensures speciesCategory == ShuffleAll(old(speciesCategory), speciesOrder, perm)
      ensures Valid()
      ensures pairs == Pairs(speciesOrder, speciesCategory)
    {
      ghost var o := State();
      var cat;
      cat, pairs := ShufflePairs(speciesCategory, speciesOrder, perm);
      speciesCategory := cat;
      ShuffleKeepsIndex(o, perm);
    }

    /** `hab_sexual_pairwise_parents_num`: the number of pairs, the sum over the species with
        both lists of the smaller list's length; shuffling does not change it. */
    method PairwiseParentsNum(perm: (string, Gender) -> seq<nat>) returns (n: nat)
      requires Valid()
      requires PermFits(speciesCategory, perm)
      modifies this`speciesCategory
      ensures Unshuffled() == old(Unshuffled())
      ensures speciesCategory == ShuffleAll(old(speciesCategory), speciesOrder, perm)
      ensures Valid()
      ensures n == PairCount(speciesOrder, old(speciesCategory))
    {
      var pairs := PairwiseParents(perm);
      n := |pairs|;
      PairsLength(speciesOrder, speciesCategory);
      PairCountShuffled(speciesOrder, old(speciesCategory), speciesOrder, perm);
    }

    /** `hab_sex_reproduce_mutate`: every species with both lists has them shuffled, then each
        female/male pair in turn adds its litter to the fresh offspring pool (pair i draws its
        extra offspring with coin(i), the k-th offspring of the pool is drawn under draws(k)).
        The grid does not change. */
    method SexReproduce(birthRate: real, mrate: real, perm: (string, Gender) -> seq<nat>, coin: nat -> real,
                        draws: nat -> BirthDraw, lens: seq<nat>)
      requires Valid() && GridConforms(microsites, lens) && DrawsConform(draws, lens)
      requires PermFits(speciesCategory, perm)
      modifies this
      ensures microsites == old(microsites) && occupiedSites == old(occupiedSites) && emptySites == old(emptySites)
      ensures indiNum == old(indiNum) && speciesOrder == old(speciesOrder) && dormancyPool == old(dormancyPool)
      ensures speciesCategory == ShuffleAll(old(speciesCategory), speciesOrder, perm)
      ensures Valid()
      ensures offspringPool == SexPoolOf(State(), birthRate, coin, mrate, draws, lens)
    {
      var pairs := PairwiseParents(perm);
      PairsAreMates(State());
      offspringPool := SexBroods(microsites, pairs, birthRate, mrate, coin, draws, lens);
    }

    /** `hab_asex_reproduce_mutate_with_num`: `random.sample` draws num distinct occupied
        microsites (the index draw `pick`), and each sampled occupant has one offspring, the
        i-th drawn under draws(i).  A negative num or one above the number of occupants is
        the ValueError of `random.sample`. */
    method AsexReproduceWithNum(mrate: real, num: int, pick: seq<nat>, draws: nat -> BirthDraw, lens: seq<nat>)
      returns (r: Result<seq<Individual>>)
      requires Valid() && GridConforms(microsites, lens) && DrawsConform(draws, lens)
      requires 0 <= num <= |occupiedSites| ==> IsSample(pick, num, |occupiedSites|)
      ensures r.Ok? || r.SamplingError?
      ensures r.SamplingError? <==> num < 0 || num > |occupiedSites|
      ensures r.Ok? ==> |r.value| == num
      ensures r.Ok? ==> forall i {:trigger OccupantOffspring(microsites, Sample(occupiedSites, pick)[i], r.value[i], mrate, draws(i))} ::
        0 <= i < num ==> OccupantOffspring(microsites, Sample(occupiedSites, pick)[i], r.value[i], mrate, draws(i))
    {
      if num < 0 || num > |occupiedSites| {
        return SamplingError;
      }
      var parents := Sample(occupiedSites, pick);
      assert forall i :: 0 <= i < |parents| ==> parents[i] in occupiedSites;
      var pool := OccupantsOffspring(microsites, parents, mrate, draws, lens);
      r := Ok(pool);
    }

    /** `hab_sex_reproduce_mutate_with_num`: the pairs of `hab_sexual_pairwise_parents_ls`
        (which shuffles the index lists in place), then `random.sample` draws num distinct
        pairs, and each sampled pair has one offspring, the i-th drawn under draws(i).  A
        negative num or one above the number of pairs is the ValueError of `random.sample`,
        raised after the shuffles. */
    method SexReproduceWithNum(mrate: real, num: int, perm: (string, Gender) -> seq<nat>, pick: seq<nat>,
                               draws: nat -> BirthDraw, lens: seq<nat>) returns (r: Result<seq<Individual>>)
      requires Valid() && GridConforms(microsites, lens) && DrawsConform(draws, lens)
      requires PermFits(speciesCategory, perm)
      requires 0 <= num <= PairCount(speciesOrder, speciesCategory) ==>
        IsSample(pick, num, PairCount(speciesOrder, speciesCategory))
      modifies this`speciesCategory
      ensures microsites == old(microsites) && occupiedSites == old(occupiedSites) && emptySites == old(emptySites)
      ensures indiNum == old(indiNum) && speciesOrder == old(speciesOrder)
      ensures offspringPool == old(offspringPool) && dormancyPool == old(dormancyPool)
      ensures speciesCategory == ShuffleAll(old(speciesCategory), speciesOrder, perm)
      ensures Valid()
      ensures |Pairs(speciesOrder, speciesCategory)| == PairCount(speciesOrder, old(speciesCategory))
      ensures r.Ok? || r.SamplingError?
      ensures r.SamplingError? <==> num < 0 || num > PairCount(speciesOrder, old(speciesCategory))
      ensures r.Ok? ==> |r.value| == num
      ensures r.Ok? ==> forall i {:trigger MateOffspring(microsites, Sample(Pairs(speciesOrder, speciesCategory), pick)[i], r.value[i], mrate, draws(i))} ::
        0 <= i < num ==> MateOffspring(microsites, Sample(Pairs(speciesOrder, speciesCategory), pick)[i], r.value[i], mrate, draws(i))
    {
      var pairs := PairwiseParents(perm);
      PairsLength(speciesOrder, speciesCategory);
      PairCountShuffled(speciesOrder, old(speciesCategory), speciesOrder, perm);
      if num < 0 || num > |pairs| {
        return SamplingError;
      }
      PairsAreMates(State());
      var chosen := Sample(pairs, pick);
      var pool := PairsOffspring(microsites, chosen, mrate, draws, lens);
      r := Ok(pool);
    }

    /** The `for pos, indi in list(zip(sites, individuals))` loop that calls `add_individual`
        on each pair in turn. */
    method PlaceSites(ps: seq<(Pos, Individual)>)
      requires Shaped(microsites, length, width)
      requires forall i :: 0 <= i < |ps| ==> InGrid(length, width, ps[i].0)
      modifies this
      ensures State() == PlaceAll(old(State()), ps)
      ensures Shaped(microsites, length, width)
      ensures offspringPool == old(offspringPool) && dormancyPool == old(dormancyPool)
    {
      ghost var s0 := State();
      for i := 0 to |ps|
        invariant Shaped(microsites, length, width)
        invariant State() == PlaceAll(s0, ps[..i])
        invariant offspringPool == old(offspringPool) && dormancyPool == old(dormancyPool)
      {
        assert ps[..i + 1][..i] == ps[..i];
        AddIndividual(ps[i].1, ps[i].0);
      }
      assert ps[..|ps|] == ps;
    }

    /** `hab_germinate_from_offsprings_pool`: the empty list and the offspring pool are
        shuffled in place (draws permEmpty and permPool), then the i-th offspring settles on
        the i-th empty microsite for as many as both lists allow.  The pool keeps its
        members, settled ones included. */
    method GerminateFromPool(permEmpty: seq<nat>, permPool: seq<nat>) returns (counter: nat)
      requires Valid()
      requires IsPermutation(permEmpty, |emptySites|) && IsPermutation(permPool, |offspringPool|)
      modifies this
      ensures offspringPool == Shuffle(old(offspringPool), permPool) && dormancyPool == old(dormancyPool)
      ensures counter == Min(|old(emptySites)|, |old(offspringPool)|)
      ensures State() == PlaceAll(old(State()).(empty := Shuffle(old(emptySites), permEmpty)),
                                  Zip(Shuffle(old(emptySites), permEmpty), offspringPool))
      ensures Valid()
      ensures occupiedSites == old(occupiedSites) + Shuffle(old(emptySites), permEmpty)[..counter]
      ensures emptySites == Shuffle(old(emptySites), permEmpty)[counter..]
      ensures indiNum == old(indiNum) + counter
    {
      ShuffleEmptySites(permEmpty);
      offspringPool := Shuffle(offspringPool, permPool);
      counter := Settle(offspringPool);
    }

    /** `random.shuffle(self.empty_site_pos_ls)`: the empty list in the order the draw perm
        gives; the invariant holds, as the list keeps its members. */
    method ShuffleEmptySites(perm: seq<nat>)
      requires Valid() && IsPermutation(perm, |emptySites|)
      modifies this
      ensures State() == old(State()).(empty := Shuffle(old(emptySites), perm))
      ensures Valid()
      ensures offspringPool == old(offspringPool) && dormancyPool == old(dormancyPool)
    {
      ShuffleSameElements(emptySites, perm);
      emptySites := Shuffle(emptySites, perm);
    }

    /** The settling loop of the germination methods: the i-th individual of `pool` settles
        on the i-th empty microsite, for as many as both lists allow. */
    method Settle(pool: seq<Individual>) returns (counter: nat)
      requires Valid()
      modifies this
      ensures State() == PlaceAll(old(State()), Zip(old(emptySites), pool))
      ensures Valid()
      ensures counter == Min(|old(emptySites)|, |pool|)
      ensures occupiedSites == old(occupiedSites) + old(emptySites)[..counter]
      ensures emptySites == old(emptySites)[counter..] && indiNum == old(indiNum) + counter
      ensures forall i :: 0 <= i < counter ==> At(microsites, old(emptySites)[i]) == Some(pool[i])
      ensures forall q :: q !in old(emptySites)[..counter] ==> At(microsites, q) == At(old(microsites), q)
      ensures offspringPool == old(offspringPool) && dormancyPool == old(dormancyPool)
    {
      ghost var s0 := State();
      var ps := Zip(emptySites, pool);
      ZipPlaceKeeps(s0, length, width, pool);
      ZipPlaceCells(s0, length, width, s0.empty, pool);
      assert forall i :: 0 <= i < |ps| ==> ps[i].0 in s0.empty;
      PlaceSites(ps);
      counter := |ps|;
    }

    /** The settling loops of the dispersal methods: the i-th individual of `pool` settles
        on the i-th of the chosen empty microsites `sites`, for as many as both lists allow. */
    method SettleOn(sites: seq<Pos>, pool: seq<Individual>) returns (counter: nat)
      requires Valid() && NoDup(sites) && forall i :: 0 <= i < |sites| ==> sites[i] in emptySites
      modifies this
      ensures State() == PlaceAll(old(State()), Zip(sites, pool))
      ensures Valid()
      ensures counter == Min(|sites|, |pool|) && indiNum == old(indiNum) + counter
      ensures occupiedSites == old(occupiedSites) + sites[..counter]
      ensures forall i :: 0 <= i < counter ==> At(microsites, sites[i]) == Some(pool[i])
      ensures forall q :: q !in sites[..counter] ==> At(microsites, q) == At(old(microsites), q)
      ensures offspringPool == old(offspringPool) && dormancyPool == old(dormancyPool)
    {
      ghost var s0 := State();
      ZipPlaceCells(s0, length, width, sites, pool);
      var ps := Zip(sites, pool);
      assert Sites(ps) == sites[..|ps|];
      assert NoDup(sites[..|ps|]);
      PlaceAllKeeps(s0, length, width, ps);
      Partition(s0, length, width);
      PlaceSites(ps);
      counter := |ps|;
    }

    /** `hab_asexual_reprodece_germinate`: num = min(#empty, int(indi_num * birth_rate))
        offspring of num distinct sampled occupants (`hab_asex_reproduce_mutate_with_num`),
        then the empty list and the offspring list are shuffled and the i-th offspring settles
        on the i-th empty microsite.  The sampling error leaves the habitat as it was. */
    method AsexReproduceGerminate(birthRate: real, mrate: real, pick: seq<nat>, draws: nat -> BirthDraw,
                                  permEmpty: seq<nat>, permKids: seq<nat>, lens: seq<nat>) returns (r: Result<()>)
      requires Valid() && GridConforms(microsites, lens) && DrawsConform(draws, lens)
      requires IsPermutation(permEmpty, |emptySites|)
      requires var num := GerminateQuota(|emptySites|, indiNum, birthRate);
        0 <= num <= |occupiedSites| ==> IsSample(pick, num, |occupiedSites|) && IsPermutation(permKids, num)
      modifies this
      ensures offspringPool == old(offspringPool) && dormancyPool == old(dormancyPool)
      ensures r.Ok? || r.SamplingError?
      ensures var num := GerminateQuota(|old(emptySites)|, old(indiNum), birthRate);
        r.SamplingError? <==> num < 0 || num > old(indiNum)
      ensures r.SamplingError? ==> State() == old(State())
      ensures Valid()
      ensures r.Ok? ==>
        var num := GerminateQuota(|old(emptySites)|, old(indiNum), birthRate);
        var sites := Shuffle(old(emptySites), permEmpty);
        occupiedSites == old(occupiedSites) + sites[..num] && emptySites == sites[num..] &&
        indiNum == old(indiNum) + num &&
        (forall i :: 0 <= i < num ==>
          At(microsites, sites[i]).Some? &&
          OccupantOffspring(old(microsites), Sample(old(occupiedSites), pick)[permKids[i]],
                            At(microsites, sites[i]).value, mrate, draws(permKids[i]))) &&
        forall q :: q !in sites[..num] ==> At(microsites, q) == At(old(microsites), q)
    {
      var num := GerminateQuota(|emptySites|, indiNum, birthRate);
      var kids := AsexReproduceWithNum(mrate, num, pick, draws, lens);
      if kids.SamplingError? {
        return SamplingError;
      }
      ghost var g0, parents := microsites, Sample(occupiedSites, pick);
      ShuffleEmptySites(permEmpty);
      ghost var sites := emptySites;
      var settlers := Shuffle(kids.value, permKids);
      var _ := Settle(settlers);
      forall i | 0 <= i < num
        ensures At(microsites, sites[i]).Some?
        ensures OccupantOffspring(g0, parents[permKids[i]], At(microsites, sites[i]).value, mrate, draws(permKids[i]))
      {
        var k := permKids[i];
        assert At(microsites, sites[i]) == Some(settlers[i]) && settlers[i] == kids.value[k];
        assert OccupantOffspring(g0, parents[k], kids.value[k], mrate, draws(k));
      }
      r := Ok(());
    }

    /** `hab_sexual_reprodece_germinate`: num = min(#empty, int(#pairs * birth_rate))
        offspring of num distinct sampled pairs (`hab_sex_reproduce_mutate_with_num`, which
        shuffles the index lists first), then the empty list and the offspring list are
        shuffled and the i-th offspring settles on the i-th empty microsite; the number settled
        is returned.  The sampling error leaves the habitat as it was apart from the shuffles. */
    method SexReproduceGerminate(birthRate: real, mrate: real, perm: (string, Gender) -> seq<nat>, pick: seq<nat>,
                                 draws: nat -> BirthDraw, permEmpty: seq<nat>, permKids: seq<nat>, lens: seq<nat>)
      returns (r: Result<nat>)
      requires Valid() && GridConforms(microsites, lens) && DrawsConform(draws, lens)
      requires PermFits(speciesCategory, perm)
      requires IsPermutation(permEmpty, |emptySites|)
      requires var pairCount := PairCount(speciesOrder, speciesCategory);
        var num := GerminateQuota(|emptySites|, pairCount, birthRate);
        0 <= num <= pairCount ==> IsSample(pick, num, pairCount) && IsPermutation(permKids, num)
      modifies this
      ensures offspringPool == old(offspringPool) && dormancyPool == old(dormancyPool)
      ensures r.Ok? || r.SamplingError?
      ensures var pairCount := PairCount(old(speciesOrder), old(speciesCategory));
        var num := GerminateQuota(|old(emptySites)|, pairCount, birthRate);
        (r.SamplingError? <==> num < 0 || num > pairCount) && (r.Ok? ==> r.value == num)
      ensures r.SamplingError? ==>
        State() == old(State()).(category := ShuffleAll(old(speciesCategory), old(speciesOrder), perm))
      ensures Valid()
      ensures r.Ok? ==>
        var num := r.value;
        var sites := Shuffle(old(emptySites), permEmpty);
        occupiedSites == old(occupiedSites) + sites[..num] && emptySites == sites[num..] &&
        indiNum == old(indiNum) + num &&
        (forall i :: 0 <= i < num ==>
          At(microsites, sites[i]).Some? &&
          MateOffspring(old(microsites),
                        Sample(ShuffledPairs(old(speciesOrder), old(speciesCategory), perm), pick)[permKids[i]],
                        At(microsites, sites[i]).value, mrate, draws(permKids[i]))) &&
        forall q :: q !in sites[..num] ==> At(microsites, q) == At(old(microsites), q)
    {
      var num := GerminateQuota(|emptySites|, PairCount(speciesOrder, speciesCategory), birthRate);
      var kids := SexReproduceWithNum(mrate, num, perm, pick, draws, lens);
      if kids.SamplingError? {
        return SamplingError;
      }
      ghost var g0, pairs := microsites, Sample(Pairs(speciesOrder, speciesCategory), pick);
      ShuffleEmptySites(permEmpty);
      ghost var sites := emptySites;
      var settlers := Shuffle(kids.value, permKids);
      var counter := Settle(settlers);
      forall i | 0 <= i < num
        ensures At(microsites, sites[i]).Some?
        ensures MateOffspring(g0, pairs[permKids[i]], At(microsites, sites[i]).value, mrate, draws(permKids[i]))
      {
        var k := permKids[i];
        assert At(microsites, sites[i]) == Some(settlers[i]) && settlers[i] == kids.value[k];
        assert MateOffspring(g0, pairs[k], kids.value[k], mrate, draws(k));
      }
      r := Ok(counter);
    }

    /** `hab_dormancy_process`: the offspring pool joins the dormancy pool, which is capped at
        `dormancy_pool_max_size`; when both do not fit, `random.sample` keeps max - #offspring
        distinct dormant individuals (the index draw `pick`), and more offspring than the cap
        is the ValueError of a negative sample size, raised before anything changes. */
    method DormancyProcess(pick: seq<nat>) returns (r: Result<()>)
      requires |offspringPool| + |dormancyPool| > DormancyPoolMaxSize && |offspringPool| <= DormancyPoolMaxSize ==>
        IsSample(pick, DormancyPoolMaxSize - |offspringPool|, |dormancyPool|)
      modifies this
      ensures State() == old(State())
      ensures r.Ok? || r.SamplingError?
      ensures r.SamplingError? <==> |old(offspringPool)| > DormancyPoolMaxSize
      ensures r.SamplingError? ==> offspringPool == old(offspringPool) && dormancyPool == old(dormancyPool)
      ensures r.Ok? ==> offspringPool == [] && dormancyPool == Dormant(old(dormancyPool), old(offspringPool), pick)
    {
      if |offspringPool| + |dormancyPool| <= DormancyPoolMaxSize {
        dormancyPool := dormancyPool + offspringPool;
      } else {
        if |offspringPool| > DormancyPoolMaxSize {
          return SamplingError;
        }
        var kept := Sample(dormancyPool, pick);
        dormancyPool := kept + offspringPool;
      }
      offspringPool := [];
      r := Ok(());
    }
  }
}
