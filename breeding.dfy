/** The counting rules of reproduction in a habitat: the litter of one parent or pair, the
    offspring pools of `hab_asex_reproduce_mutate` and `hab_sex_reproduce_mutate`, and the
    female/male pairing of `hab_sexual_pairwise_parents_ls`.  Every uniform draw, shuffle and
    offspring draw is an input. */
module Breeding {
  import opened Wrappers
  import opened Sampling
  import opened Numeric
  import opened Genetics
  import opened Occupancy

  // ---------------------------------------------------------------- shapes

  /** Every occupant of the grid has the traits `geno_len_ls` describes. */
  ghost predicate GridConforms(g: Grid, lens: seq<nat>) {
    forall p :: At(g, p).Some? ==> Conforms(At(g, p).value, lens)
  }

  /** Every offspring draw has the shape of such an occupant. */
  ghost predicate DrawsConform(draws: nat -> BirthDraw, lens: seq<nat>) {
    forall k: nat :: DrawConforms(draws(k), lens)
  }

  lemma ConformsFit(ind: Individual, d: BirthDraw, lens: seq<nat>)
    requires Conforms(ind, lens) && DrawConforms(d, lens)
    ensures WellFormed(ind) && BirthDrawFits(ind, d)
  {
  }

  lemma ConformsAlike(a: Individual, b: Individual, lens: seq<nat>)
    requires Conforms(a, lens) && Conforms(b, lens)
    ensures SameShape(a, b)
  {
  }

  /** An offspring has the shape of its parents. */
  lemma OffspringConforms(child: Individual, parent: Individual, lens: seq<nat>)
    requires Conforms(parent, lens) && WellFormed(child) && SameShape(child, parent)
    ensures Conforms(child, lens)
  {
  }

  // ---------------------------------------------------------------- litters

  /** Offspring per parent (or pair): `int(birth_rate)` copies (none when that is negative),
      plus one more when the uniform draw u falls below `birth_rate - int(birth_rate)`. */
  function LitterSize(birthRate: real, u: real): nat {
    var nums := Trunc(birthRate);
    (if nums > 0 then nums else 0) + (if birthRate - nums as real > u then 1 else 0)
  }

  /** For a non-negative birth rate and a draw in [0, 1) a litter has floor(b) offspring, or
      floor(b) + 1 exactly when the draw falls below the fractional part of b. */
  lemma LitterSizeBounds(birthRate: real, u: real)
    requires 0.0 <= birthRate && 0.0 <= u < 1.0
    ensures birthRate.Floor <= LitterSize(birthRate, u) <= birthRate.Floor + 1
    ensures LitterSize(birthRate, u) == birthRate.Floor + 1 <==> birthRate - birthRate.Floor as real > u
  {
    assert Trunc(birthRate) == birthRate.Floor;
  }

  /** The parent of every offspring of the asexual pool, in pool order: for each microsite
      of `cells` in turn, its occupant repeated as often as its litter size. */
  function AsexParents(g: Grid, cells: seq<Pos>, birthRate: real, coin: Pos -> real): (r: seq<Individual>)
    ensures |r| == AsexBroodSize(g, cells, birthRate, coin)
    ensures forall i :: 0 <= i < |r| ==> exists p :: p in cells && At(g, p) == Some(r[i])
  {
    if cells == [] then []
    else
      var init := cells[..|cells| - 1];
      var prev := AsexParents(g, init, birthRate, coin);
      var p := cells[|cells| - 1];
      var r := if At(g, p).None? then prev else prev + Repeat(At(g, p).value, LitterSize(birthRate, coin(p)));
      assert forall i :: 0 <= i < |r| ==> exists q :: q in cells && At(g, q) == Some(r[i]) by {
        forall i | 0 <= i < |r| ensures exists q :: q in cells && At(g, q) == Some(r[i]) {
          if i < |prev| {
            var q :| q in init && At(g, q) == Some(prev[i]);
            assert q in cells && r[i] == prev[i];
          } else {
            assert At(g, p) == Some(r[i]);
          }
        }
      }
      r
  }

  function Repeat<T>(x: T, n: nat): (r: seq<T>)
    ensures |r| == n && forall i :: 0 <= i < n ==> r[i] == x
  {
    seq(n, _ => x)
  }

  /** The offspring of a list of parents, the i-th under the draws `draws(i)`. */
  function AsexPool(parents: seq<Individual>, mrate: real, draws: nat -> BirthDraw, lens: seq<nat>): (r: seq<Individual>)
    requires forall i :: 0 <= i < |parents| ==> Conforms(parents[i], lens)
    requires DrawsConform(draws, lens)
    ensures |r| == |parents|
  {
    if parents == [] then []
    else
      var n := |parents| - 1;
      ConformsFit(parents[n], draws(n), lens);
      AsexPool(parents[..n], mrate, draws, lens) + [AsexOffspring(parents[n], mrate, draws(n))]
  }

  /** The i-th member of the pool is the offspring of the i-th parent under `draws(i)`. */
  lemma {:induction false} AsexPoolAt(parents: seq<Individual>, mrate: real, draws: nat -> BirthDraw, lens: seq<nat>, i: nat)
    requires forall i :: 0 <= i < |parents| ==> Conforms(parents[i], lens)
    requires DrawsConform(draws, lens) && i < |parents|
    ensures WellFormed(parents[i]) && BirthDrawFits(parents[i], draws(i))
    ensures AsexPool(parents, mrate, draws, lens)[i] == AsexOffspring(parents[i], mrate, draws(i))
  {
    ConformsFit(parents[i], draws(i), lens);
    var n := |parents| - 1;
    if i < n {
      AsexPoolAt(parents[..n], mrate, draws, lens, i);
    }
  }

  /** Offspring have the traits of their parents. */
  lemma AsexPoolConforms(parents: seq<Individual>, mrate: real, draws: nat -> BirthDraw, lens: seq<nat>)
    requires forall i :: 0 <= i < |parents| ==> Conforms(parents[i], lens)
    requires DrawsConform(draws, lens)
    ensures forall x :: x in AsexPool(parents, mrate, draws, lens) ==> Conforms(x, lens)
  {
    var r := AsexPool(parents, mrate, draws, lens);
    forall i | 0 <= i < |r| ensures Conforms(r[i], lens) {
      AsexPoolAt(parents, mrate, draws, lens, i);
      OffspringConforms(r[i], parents[i], lens);
    }
  }

  /** Adding a parent adds its offspring, under the next draw, at the end of the pool. */
  lemma AsexPoolSnoc(parents: seq<Individual>, x: Individual, k: nat, mrate: real, draws: nat -> BirthDraw, lens: seq<nat>)
    requires forall i :: 0 <= i < |parents| ==> Conforms(parents[i], lens)
    requires Conforms(x, lens) && DrawsConform(draws, lens) && k == |parents|
    ensures WellFormed(x) && BirthDrawFits(x, draws(k))
    ensures AsexPool(parents + [x], mrate, draws, lens) ==
      AsexPool(parents, mrate, draws, lens) + [AsexOffspring(x, mrate, draws(k))]
  {
    ConformsFit(x, draws(k), lens);
    var ps := parents + [x];
    assert ps[..|parents|] == parents;
  }

  /** The offspring pool `hab_asex_reproduce_mutate` leaves on grid g after visiting `cells`
      in order: each occupant's litter, the k-th offspring of the pool drawn under `draws(k)`. */
  function AsexPoolOf(g: Grid, cells: seq<Pos>, birthRate: real, coin: Pos -> real, mrate: real,
                      draws: nat -> BirthDraw, lens: seq<nat>): (r: seq<Individual>)
    requires GridConforms(g, lens) && DrawsConform(draws, lens)
    ensures |r| == AsexBroodSize(g, cells, birthRate, coin)
  {
    if cells == [] then []
    else
      var init := cells[..|cells| - 1];
      var p := cells[|cells| - 1];
      AsexPoolOf(g, init, birthRate, coin, mrate, draws, lens) +
        (if At(g, p).Some?
         then Brood(At(g, p).value, LitterSize(birthRate, coin(p)), mrate, draws, AsexBroodSize(g, init, birthRate, coin), lens)
         else [])
  }

  /** Visiting one more microsite appends the litter of its occupant, if any, drawn under
      the next free draws. */
  lemma AsexPoolOfSnoc(g: Grid, cells: seq<Pos>, p: Pos, birthRate: real, coin: Pos -> real, mrate: real,
                       draws: nat -> BirthDraw, lens: seq<nat>)
    requires GridConforms(g, lens) && DrawsConform(draws, lens)
    ensures AsexPoolOf(g, cells + [p], birthRate, coin, mrate, draws, lens) ==
      AsexPoolOf(g, cells, birthRate, coin, mrate, draws, lens) +
      (if At(g, p).Some?
       then Brood(At(g, p).value, LitterSize(birthRate, coin(p)), mrate, draws, AsexBroodSize(g, cells, birthRate, coin), lens)
       else [])
  {
    assert (cells + [p])[..|cells|] == cells;
  }

  /** The parents of the pool are occupants of the grid, so they have its traits. */
  lemma AsexParentsConform(g: Grid, cells: seq<Pos>, birthRate: real, coin: Pos -> real, lens: seq<nat>)
    requires GridConforms(g, lens)
    ensures var parents := AsexParents(g, cells, birthRate, coin);
      forall i :: 0 <= i < |parents| ==> Conforms(parents[i], lens)
  {
    var parents := AsexParents(g, cells, birthRate, coin);
    forall i | 0 <= i < |parents| ensures Conforms(parents[i], lens) {
      var q :| q in cells && At(g, q) == Some(parents[i]);
    }
  }

  /** The pool is the offspring of the parent list AsexParents, the i-th under `draws(i)`. */
  lemma {:induction false} AsexPoolOfParents(g: Grid, cells: seq<Pos>, birthRate: real, coin: Pos -> real, mrate: real,
                                             draws: nat -> BirthDraw, lens: seq<nat>)
    requires GridConforms(g, lens) && DrawsConform(draws, lens)
    ensures var parents := AsexParents(g, cells, birthRate, coin);
      (forall i :: 0 <= i < |parents| ==> Conforms(parents[i], lens)) &&
      AsexPoolOf(g, cells, birthRate, coin, mrate, draws, lens) == AsexPool(parents, mrate, draws, lens)
  {
    AsexParentsConform(g, cells, birthRate, coin, lens);
    if cells != [] {
      var init := cells[..|cells| - 1];
      var p := cells[|cells| - 1];
      AsexPoolOfParents(g, init, birthRate, coin, mrate, draws, lens);
      AsexParentsConform(g, init, birthRate, coin, lens);
      var prev := AsexParents(g, init, birthRate, coin);
      if At(g, p).Some? {
        AsexPoolRepeat(prev, At(g, p).value, LitterSize(birthRate, coin(p)), mrate, draws, lens);
      }
    }
  }

  /** The n offspring of parent x under the draws `draws(start)`, `draws(start + 1)`, ... */
  function Brood(x: Individual, n: nat, mrate: real, draws: nat -> BirthDraw, start: nat, lens: seq<nat>): (r: seq<Individual>)
    requires Conforms(x, lens) && DrawsConform(draws, lens)
    ensures |r| == n
  {
    if n == 0 then []
    else
      ConformsFit(x, draws(start + n - 1), lens);
      Brood(x, n - 1, mrate, draws, start, lens) + [AsexOffspring(x, mrate, draws(start + n - 1))]
  }

  /** The j-th member of a brood is x's offspring under `draws(start + j)`. */
  lemma {:induction false} BroodAt(x: Individual, n: nat, mrate: real, draws: nat -> BirthDraw, start: nat,
                                   lens: seq<nat>, j: nat)
    requires Conforms(x, lens) && DrawsConform(draws, lens) && j < n
    ensures WellFormed(x) && BirthDrawFits(x, draws(start + j))
    ensures Brood(x, n, mrate, draws, start, lens)[j] == AsexOffspring(x, mrate, draws(start + j))
  {
    if j < n - 1 {
      BroodLast(x, n, start + n - 1, mrate, draws, start, lens);
      BroodAt(x, n - 1, mrate, draws, start, lens, j);
    } else {
      BroodLast(x, n, start + j, mrate, draws, start, lens);
    }
  }

  /** n more copies of parent x at the end of the parent list append x's brood. */
  lemma {:induction false} AsexPoolRepeat(parents: seq<Individual>, x: Individual, n: nat, mrate: real,
                                          draws: nat -> BirthDraw, lens: seq<nat>)
    requires forall i :: 0 <= i < |parents| ==> Conforms(parents[i], lens)
    requires Conforms(x, lens) && DrawsConform(draws, lens)
    ensures forall i :: 0 <= i < |parents + Repeat(x, n)| ==> Conforms((parents + Repeat(x, n))[i], lens)
    ensures AsexPool(parents + Repeat(x, n), mrate, draws, lens) ==
      AsexPool(parents, mrate, draws, lens) + Brood(x, n, mrate, draws, |parents|, lens)
  {
    var ps := parents + Repeat(x, n);
    assert forall i :: 0 <= i < |ps| ==> Conforms(ps[i], lens);
    if n == 0 {
      assert ps == parents;
    } else {
      var prev := parents + Repeat(x, n - 1);
      assert ps == prev + [x] by {
        RepeatSnoc(x, n - 1);
      }
      AsexPoolRepeat(parents, x, n - 1, mrate, draws, lens);
      var k := |parents| + n - 1;
      AsexPoolSnoc(prev, x, k, mrate, draws, lens);
      var a, b := AsexPool(parents, mrate, draws, lens), Brood(x, n - 1, mrate, draws, |parents|, lens);
      var o := AsexOffspring(x, mrate, draws(k));
      BroodLast(x, n, k, mrate, draws, |parents|, lens);
      SnocAssoc(a, b, o, Brood(x, n, mrate, draws, |parents|, lens));
    }
  }

  /** Appending the last element after a prefix, or the prefix before the grown tail. */
  lemma SnocAssoc<T>(a: seq<T>, b: seq<T>, o: T, c: seq<T>)
    requires c == b + [o]
    ensures (a + b) + [o] == a + c
  {
  }

  /** A non-empty brood ends with the offspring under draw k = start + n - 1. */
  lemma BroodLast(x: Individual, n: nat, k: nat, mrate: real, draws: nat -> BirthDraw, start: nat, lens: seq<nat>)
    requires Conforms(x, lens) && DrawsConform(draws, lens) && n > 0 && k == start + n - 1
    ensures WellFormed(x) && BirthDrawFits(x, draws(k))
    ensures Brood(x, n, mrate, draws, start, lens) ==
      Brood(x, n - 1, mrate, draws, start, lens) + [AsexOffspring(x, mrate, draws(k))]
  {
    ConformsFit(x, draws(k), lens);
  }

  lemma RepeatSnoc<T>(x: T, n: nat)
    ensures Repeat(x, n + 1) == Repeat(x, n) + [x]
  {
  }

  /** x is the asexual offspring under draw d of the occupant of microsite p. */
  ghost predicate OccupantOffspring(g: Grid, p: Pos, x: Individual, mrate: real, d: BirthDraw) {
    At(g, p).Some? && WellFormed(At(g, p).value) && BirthDrawFits(At(g, p).value, d) &&
    x == AsexOffspring(At(g, p).value, mrate, d)
  }

  /** Every member of the asexual pool is the offspring, under its own draws, of an occupant
      of one of the visited microsites. */
  lemma AsexPoolFromOccupants(g: Grid, cells: seq<Pos>, birthRate: real, coin: Pos -> real, mrate: real,
                              draws: nat -> BirthDraw, lens: seq<nat>)
    requires GridConforms(g, lens) && DrawsConform(draws, lens)
    ensures var r := AsexPoolOf(g, cells, birthRate, coin, mrate, draws, lens);
      forall i :: 0 <= i < |r| ==> exists p :: p in cells && OccupantOffspring(g, p, r[i], mrate, draws(i))
  {
    var parents := AsexParents(g, cells, birthRate, coin);
    AsexPoolOfParents(g, cells, birthRate, coin, mrate, draws, lens);
    var r := AsexPoolOf(g, cells, birthRate, coin, mrate, draws, lens);
    forall i | 0 <= i < |r| ensures exists p :: p in cells && OccupantOffspring(g, p, r[i], mrate, draws(i)) {
      var p :| p in cells && At(g, p) == Some(parents[i]);
      AsexPoolAt(parents, mrate, draws, lens, i);
      assert OccupantOffspring(g, p, r[i], mrate, draws(i));
    }
  }

  /** A brood grows by the next offspring under the next draw. */
  lemma BroodSnoc(x: Individual, n: nat, mrate: real, draws: nat -> BirthDraw, start: nat, lens: seq<nat>)
    requires Conforms(x, lens) && DrawsConform(draws, lens)
    ensures WellFormed(x) && BirthDrawFits(x, draws(start + n))
    ensures Brood(x, n + 1, mrate, draws, start, lens) ==
      Brood(x, n, mrate, draws, start, lens) + [AsexOffspring(x, mrate, draws(start + n))]
  {
    ConformsFit(x, draws(start + n), lens);
    assert start + (n + 1) - 1 == start + n;
  }

  /** The `for num in range(nums)` loop of `hab_asex_reproduce_mutate`: n offspring of x,
      each a deep copy with re-drawn phenotypes, then mutated. */
  method AsexLitter(x: Individual, n: nat, mrate: real, draws: nat -> BirthDraw, start: nat, lens: seq<nat>)
    returns (kids: seq<Individual>)
    requires Conforms(x, lens) && DrawsConform(draws, lens)
    ensures kids == Brood(x, n, mrate, draws, start, lens)
  {
    kids := [];
    var k := 0;
    while k < n
      invariant 0 <= k <= n && kids == Brood(x, k, mrate, draws, start, lens)
    {
      BroodSnoc(x, k, mrate, draws, start, lens);
      var child := AsexBirth(x, mrate, draws(start + k));
      kids := kids + [child];
      k := k + 1;
    }
  }

  /** How many offspring the asexual pool gets: the litter sizes of the occupied microsites. */
  function AsexBroodSize(g: Grid, cells: seq<Pos>, birthRate: real, coin: Pos -> real): nat {
    if cells == [] then 0
    else
      var p := cells[|cells| - 1];
      AsexBroodSize(g, cells[..|cells| - 1], birthRate, coin) +
        (if At(g, p).Some? then LitterSize(birthRate, coin(p)) else 0)
  }

  /** Each occupied microsite adds floor(b) or floor(b) + 1 offspring: the asexual pool has
      between floor(b) and floor(b) + 1 times as many offspring as occupied microsites. */
  lemma {:induction false} AsexBroodSizeBounds(g: Grid, cells: seq<Pos>, birthRate: real, coin: Pos -> real)
    requires 0.0 <= birthRate && forall p :: 0.0 <= coin(p) < 1.0
    ensures birthRate.Floor * CountOccupied(g, cells) <= AsexBroodSize(g, cells, birthRate, coin)
    ensures AsexBroodSize(g, cells, birthRate, coin) <= (birthRate.Floor + 1) * CountOccupied(g, cells)
  {
    if cells != [] {
      var p := cells[|cells| - 1];
      var init := cells[..|cells| - 1];
      AsexBroodSizeBounds(g, init, birthRate, coin);
      LitterSizeBounds(birthRate, coin(p));
      var b, c := birthRate.Floor, CountOccupied(g, init);
      assert b * (c + 1) == b * c + b;
      assert (b + 1) * (c + 1) == (b + 1) * c + (b + 1);
    }
  }

  /** With an integral birth rate b every occupant has exactly b offspring. */
  lemma {:induction false} AsexBroodSizeIntegral(g: Grid, cells: seq<Pos>, b: nat, coin: Pos -> real)
    requires forall p :: 0.0 <= coin(p)
    ensures AsexBroodSize(g, cells, b as real, coin) == b * CountOccupied(g, cells)
  {
    if cells != [] {
      AsexBroodSizeIntegral(g, cells[..|cells| - 1], b, coin);
      assert Trunc(b as real) == b;
    }
  }

  // ---------------------------------------------------------------- pairing

  /** Species sp has both a 'female' and a 'male' key, so `hab_sexual_pairwise_parents_ls`
      shuffles and pairs its lists. */
  predicate HasBoth(cat: Category, sp: string) {
    sp in cat && Female in cat[sp] && Male in cat[sp]
  }

  /** The pairs of one species: the i-th female position with the i-th male position. */
  function SpeciesPairs(cat: Category, sp: string): (r: seq<(Pos, Pos)>)
    ensures forall i :: 0 <= i < |r| ==>
      r[i].0 in Lookup(cat, sp, Female) && r[i].1 in Lookup(cat, sp, Male)
  {
    if HasBoth(cat, sp) then Zip(cat[sp][Female], cat[sp][Male]) else []
  }

  /** All pairs, species by species in key order. */
  function Pairs(order: seq<string>, cat: Category): seq<(Pos, Pos)> {
    if order == [] then []
    else Pairs(order[..|order| - 1], cat) + SpeciesPairs(cat, order[|order| - 1])
  }

  /** The pair count as the design states it: per species with both keys, the smaller of
      its female and male counts. */
  function PairCount(order: seq<string>, cat: Category): nat {
    if order == [] then 0
    else
      var sp := order[|order| - 1];
      PairCount(order[..|order| - 1], cat) +
        (if HasBoth(cat, sp) then Min(|cat[sp][Female]|, |cat[sp][Male]|) else 0)
  }

  /** `len(hab_sexual_pairwise_parents_ls())` is the sum over species of min(|F|, |M|). */
  lemma {:induction false} PairsLength(order: seq<string>, cat: Category)
    ensures |Pairs(order, cat)| == PairCount(order, cat)
  {
    if order != [] {
      PairsLength(order[..|order| - 1], cat);
    }
  }

  /** The pair is a female and a male position listed under one species of the order. */
  ghost predicate MatesIn(pair: (Pos, Pos), order: seq<string>, cat: Category) {
    exists sp :: sp in order && pair.0 in Lookup(cat, sp, Female) && pair.1 in Lookup(cat, sp, Male)
  }

  /** Every pair is a female position and a male position of one species of the order. */
  lemma {:induction false} PairsOfOneSpecies(order: seq<string>, cat: Category)
    ensures forall i :: 0 <= i < |Pairs(order, cat)| ==> MatesIn(Pairs(order, cat)[i], order, cat)
  {
    if order != [] {
      var init := order[..|order| - 1];
      var sp := order[|order| - 1];
      PairsOfOneSpecies(init, cat);
      var a: seq<(Pos, Pos)>, b: seq<(Pos, Pos)> := Pairs(init, cat), SpeciesPairs(cat, sp);
      forall i | 0 <= i < |a + b| ensures MatesIn((a + b)[i], order, cat) {
        if i < |a| {
          var s :| s in init && a[i].0 in Lookup(cat, s, Female) && a[i].1 in Lookup(cat, s, Male);
          assert s in order;
        } else {
          assert b[i - |a|] == (a + b)[i];
        }
      }
    }
  }

  /** Every pair joins an occupied female microsite with an occupied male one of the same species. */
  predicate PairsMate(g: Grid, pairs: seq<(Pos, Pos)>) {
    forall i :: 0 <= i < |pairs| ==>
      var (f, m) := pairs[i];
      At(g, f).Some? && At(g, m).Some? &&
      At(g, f).value.gender == Female && At(g, m).value.gender == Male &&
      At(g, f).value.species == At(g, m).value.species
  }

  /** On a consistent habitat every pair is an occupied female microsite and an occupied male
      microsite holding individuals of the same species. */
  lemma PairsAreMates(o: Occupancy)
    requires IndexMatches(o)
    ensures PairsMate(o.microsites, Pairs(o.speciesOrder, o.category))
  {
    PairsOfOneSpecies(o.speciesOrder, o.category);
  }

  // ---------------------------------------------------------------- shuffling the index

  /** The in-place shuffles of one species' female and male lists. */
  function ShuffleSpecies(cat: Category, sp: string, perm: (string, Gender) -> seq<nat>): Category
    requires forall gender :: IsPermutation(perm(sp, gender), |Lookup(cat, sp, gender)|)
  {
    if HasBoth(cat, sp) then
      assert cat[sp][Female] == Lookup(cat, sp, Female) && cat[sp][Male] == Lookup(cat, sp, Male);
      cat[sp := cat[sp][Female := Shuffle(cat[sp][Female], perm(sp, Female))]
                       [Male := Shuffle(cat[sp][Male], perm(sp, Male))]]
    else cat
  }

  /** One species of `hab_sexual_pairwise_parents_ls`: when sp has both lists, both are
      shuffled in place and zipped into its pairs; otherwise it is skipped. */
  method ShuffleSpeciesLists(cat: Category, sp: string, perm: (string, Gender) -> seq<nat>)
    returns (cat': Category, pairs: seq<(Pos, Pos)>)
    requires forall gender :: IsPermutation(perm(sp, gender), |Lookup(cat, sp, gender)|)
    ensures cat' == ShuffleSpecies(cat, sp, perm)
    ensures pairs == SpeciesPairs(cat', sp)
  {
    cat', pairs := cat, [];
    if sp in cat && Female in cat[sp] && Male in cat[sp] {
      assert cat[sp][Female] == Lookup(cat, sp, Female) && cat[sp][Male] == Lookup(cat, sp, Male);
      var females := Shuffle(cat[sp][Female], perm(sp, Female));
      var males := Shuffle(cat[sp][Male], perm(sp, Male));
      cat' := cat[sp := cat[sp][Female := females][Male := males]];
      assert cat'[sp][Female] == females && cat'[sp][Male] == males;
      pairs := Zip(females, males);
    }
  }

  /** The loop of `hab_sexual_pairwise_parents_ls` over the species keys in order: the
      shuffled index and the pairs, the pairs of each species read after its own shuffle. */
  method ShufflePairs(cat: Category, order: seq<string>, perm: (string, Gender) -> seq<nat>)
    returns (cat': Category, pairs: seq<(Pos, Pos)>)
    requires forall sp, gender :: IsPermutation(perm(sp, gender), |Lookup(cat, sp, gender)|)
    requires NoDup(order)
    ensures cat' == ShuffleAll(cat, order, perm)
    ensures pairs == Pairs(order, cat')
  {
    cat', pairs := cat, [];
    var k := 0;
    while k < |order|
      invariant k <= |order|
      invariant cat' == ShuffleAll(cat, order[..k], perm)
      invariant pairs == Pairs(order[..k], cat')
    {
      PairsStep(cat, order, k, perm);
      var speciesPairs;
      cat', speciesPairs := ShuffleSpeciesLists(cat', order[k], perm);
      pairs := pairs + speciesPairs;
      k := k + 1;
    }
    assert order[..|order|] == order;
  }

  /** The shuffles of `hab_sexual_pairwise_parents_ls`, species by species in key order. */
  function ShuffleAll(cat: Category, order: seq<string>, perm: (string, Gender) -> seq<nat>): (r: Category)
    requires PermFits(cat, perm)
    ensures forall sp, gender :: |Lookup(r, sp, gender)| == |Lookup(cat, sp, gender)|
  {
    if order == [] then cat
    else
      var prev := ShuffleAll(cat, order[..|order| - 1], perm);
      ShuffleSpecies(prev, order[|order| - 1], perm)
  }

  /** The shuffles keep the species keys, and which species have both lists. */
  lemma {:induction false} ShuffleAllKeys(cat: Category, order: seq<string>, perm: (string, Gender) -> seq<nat>)
    requires PermFits(cat, perm)
    ensures forall sp :: HasBoth(ShuffleAll(cat, order, perm), sp) <==> HasBoth(cat, sp)
    ensures forall sp :: sp in ShuffleAll(cat, order, perm) <==> sp in cat
  {
    if order != [] {
      ShuffleAllKeys(cat, order[..|order| - 1], perm);
    }
  }

  /** One species' shuffle permutes its own two lists when it has both, and nothing else. */
  lemma LookupShuffleSpecies(cat: Category, sp: string, perm: (string, Gender) -> seq<nat>, q: string, gender: Gender)
    requires forall gender :: IsPermutation(perm(sp, gender), |Lookup(cat, sp, gender)|)
    ensures Lookup(ShuffleSpecies(cat, sp, perm), q, gender) ==
      if q == sp && HasBoth(cat, sp) then Shuffle(Lookup(cat, sp, gender), perm(sp, gender))
      else Lookup(cat, q, gender)
  {
  }

  /** After the shuffles each listed species with both keys has its lists permuted by its
      own draw, once; every other list is unchanged. */
  lemma {:induction false} LookupShuffleAll(cat: Category, order: seq<string>, perm: (string, Gender) -> seq<nat>,
                                            sp: string, gender: Gender)
    requires PermFits(cat, perm)
    requires NoDup(order)
    ensures Lookup(ShuffleAll(cat, order, perm), sp, gender) ==
      if sp in order && HasBoth(cat, sp) then Shuffle(Lookup(cat, sp, gender), perm(sp, gender))
      else Lookup(cat, sp, gender)
  {
    if order != [] {
      var n := |order| - 1;
      var init, last := order[..n], order[n];
      assert NoDup(init) by {
        forall i, j | 0 <= i < j < n ensures init[i] != init[j] {
          assert init[i] == order[i] && init[j] == order[j];
        }
      }
      assert sp in order <==> sp in init || sp == last by {
        assert order == init + [last];
      }
      LookupShuffleAll(cat, init, perm, sp, gender);
      ShuffleAllKeys(cat, init, perm);
      LookupShuffleSpecies(ShuffleAll(cat, init, perm), last, perm, sp, gender);
    }
  }

  /** perm draws a shuffle of every index list of cat. */
  ghost predicate PermFits(cat: Category, perm: (string, Gender) -> seq<nat>)
  {
    forall sp, gender :: IsPermutation(perm(sp, gender), |Lookup(cat, sp, gender)|)
  }

  /** Shuffling the index lists keeps it an index of the grid. */
  lemma ShuffleKeepsIndex(o: Occupancy, perm: (string, Gender) -> seq<nat>)
    requires IndexMatches(o)
    requires PermFits(o.category, perm)
    ensures IndexMatches(o.(category := ShuffleAll(o.category, o.speciesOrder, perm)))
  {
    var cat' := ShuffleAll(o.category, o.speciesOrder, perm);
    ShuffleAllKeys(o.category, o.speciesOrder, perm);
    forall sp, gender ensures
      (forall p :: p in Lookup(cat', sp, gender) <==> p in Lookup(o.category, sp, gender)) &&
      NoDup(Lookup(cat', sp, gender))
    {
      LookupShuffleAll(o.category, o.speciesOrder, perm, sp, gender);
      ShuffleSameElements(Lookup(o.category, sp, gender), perm(sp, gender));
    }
  }

  /** Shuffling changes which female meets which male, never how many pairs there are. */
  lemma {:induction false} PairCountShuffled(order: seq<string>, cat: Category, keys: seq<string>,
                                             perm: (string, Gender) -> seq<nat>)
    requires PermFits(cat, perm)
    ensures PairCount(order, ShuffleAll(cat, keys, perm)) == PairCount(order, cat)
  {
    if order != [] {
      PairCountShuffled(order[..|order| - 1], cat, keys, perm);
      var sp := order[|order| - 1];
      var cat' := ShuffleAll(cat, keys, perm);
      ShuffleAllKeys(cat, keys, perm);
      if HasBoth(cat, sp) {
        assert |Lookup(cat', sp, Female)| == |Lookup(cat, sp, Female)|;
        assert |Lookup(cat', sp, Male)| == |Lookup(cat, sp, Male)|;
      }
    }
  }

  /** The pairs `hab_sexual_pairwise_parents_ls` returns after it has shuffled the lists of
      every species with `perm`: as many as before the shuffles. */
  function ShuffledPairs(order: seq<string>, cat: Category, perm: (string, Gender) -> seq<nat>): (r: seq<(Pos, Pos)>)
    requires PermFits(cat, perm)
    ensures |r| == PairCount(order, cat)
  {
    PairsLength(order, ShuffleAll(cat, order, perm));
    PairCountShuffled(order, cat, order, perm);
    Pairs(order, ShuffleAll(cat, order, perm))
  }

  /** The pairs of a prefix of the order do not depend on the shuffles of later species. */
  lemma {:induction false} PairsOfPrefix(order: seq<string>, i: nat, cat: Category, perm: (string, Gender) -> seq<nat>)
    requires PermFits(cat, perm)
    requires NoDup(order) && i <= |order|
    ensures Pairs(order[..i], ShuffleAll(cat, order[..i], perm)) == Pairs(order[..i], ShuffleAll(cat, order, perm))
  {
    var a, b := ShuffleAll(cat, order[..i], perm), ShuffleAll(cat, order, perm);
    ShuffleAllKeys(cat, order[..i], perm);
    ShuffleAllKeys(cat, order, perm);
    assert NoDup(order[..i]);
    forall sp | sp in order[..i] ensures SpeciesPairs(a, sp) == SpeciesPairs(b, sp) {
      LookupShuffleAll(cat, order[..i], perm, sp, Female);
      LookupShuffleAll(cat, order[..i], perm, sp, Male);
      LookupShuffleAll(cat, order, perm, sp, Female);
      LookupShuffleAll(cat, order, perm, sp, Male);
      assert sp in order;
      if HasBoth(a, sp) {
        assert a[sp][Female] == Lookup(a, sp, Female) == Lookup(b, sp, Female) == b[sp][Female];
        assert a[sp][Male] == Lookup(a, sp, Male) == Lookup(b, sp, Male) == b[sp][Male];
      }
    }
    PairsAgree(order[..i], a, b);
  }

  /** One more species of the key order: its lists are shuffled and its pairs appended,
      while the pairs of the species before it stay as they were. */
  lemma PairsStep(cat: Category, order: seq<string>, k: nat, perm: (string, Gender) -> seq<nat>)
    requires PermFits(cat, perm)
    requires NoDup(order) && k < |order|
    ensures ShuffleAll(cat, order[..k + 1], perm) == ShuffleSpecies(ShuffleAll(cat, order[..k], perm), order[k], perm)
    ensures Pairs(order[..k + 1], ShuffleAll(cat, order[..k + 1], perm)) ==
      Pairs(order[..k], ShuffleAll(cat, order[..k], perm)) + SpeciesPairs(ShuffleAll(cat, order[..k + 1], perm), order[k])
  {
    assert order[..k + 1][..k] == order[..k];
    assert NoDup(order[..k + 1]);
    PairsOfPrefix(order[..k + 1], k, cat, perm);
  }

  lemma {:induction false} PairsAgree(order: seq<string>, a: Category, b: Category)
    requires forall sp :: sp in order ==> SpeciesPairs(a, sp) == SpeciesPairs(b, sp)
    ensures Pairs(order, a) == Pairs(order, b)
  {
    if order != [] {
      PairsAgree(order[..|order| - 1], a, b);
      assert order[|order| - 1] in order;
    }
  }

  // ---------------------------------------------------------------- sexual offspring pool

  /** x is the female and the male occupying the two microsites of one of the pairs. */
  ghost predicate PairOfOccupants(g: Grid, pairs: seq<(Pos, Pos)>, x: (Individual, Individual)) {
    exists j :: 0 <= j < |pairs| && At(g, pairs[j].0) == Some(x.0) && At(g, pairs[j].1) == Some(x.1)
  }

  /** The parents of every offspring of the sexual pool, in pool order: each pair of
      occupants repeated as often as its litter size (pair i uses the uniform draw coin(i)). */
  function SexParents(g: Grid, pairs: seq<(Pos, Pos)>, birthRate: real, coin: nat -> real): (r: seq<(Individual, Individual)>)
    requires forall i :: 0 <= i < |pairs| ==> At(g, pairs[i].0).Some? && At(g, pairs[i].1).Some?
    ensures |r| == SexBroodSize(|pairs|, birthRate, coin)
    ensures forall i :: 0 <= i < |r| ==> PairOfOccupants(g, pairs, r[i])
  {
    if pairs == [] then []
    else
      var n := |pairs| - 1;
      var prev := SexParents(g, pairs[..n], birthRate, coin);
      var r := prev + Repeat((At(g, pairs[n].0).value, At(g, pairs[n].1).value), LitterSize(birthRate, coin(n)));
      assert forall i :: 0 <= i < |r| ==> PairOfOccupants(g, pairs, r[i]) by {
        forall i | 0 <= i < |r| ensures PairOfOccupants(g, pairs, r[i]) {
          if i < |prev| {
            var j :| 0 <= j < n && At(g, pairs[..n][j].0) == Some(prev[i].0) && At(g, pairs[..n][j].1) == Some(prev[i].1);
            assert pairs[..n][j] == pairs[j] && r[i] == prev[i];
          } else {
            assert At(g, pairs[n].0) == Some(r[i].0) && At(g, pairs[n].1) == Some(r[i].1);
          }
        }
      }
      r
  }

  /** The offspring of a list of parent pairs, the i-th under the draws `draws(i)`. */
  function SexPool(parents: seq<(Individual, Individual)>, mrate: real, draws: nat -> BirthDraw, lens: seq<nat>): (r: seq<Individual>)
    requires forall i :: 0 <= i < |parents| ==> Conforms(parents[i].0, lens) && Conforms(parents[i].1, lens)
    requires DrawsConform(draws, lens)
    ensures |r| == |parents|
  {
    if parents == [] then []
    else
      var n := |parents| - 1;
      ConformsFit(parents[n].0, draws(n), lens);
      ConformsFit(parents[n].1, draws(n), lens);
      ConformsAlike(parents[n].0, parents[n].1, lens);
      SexPool(parents[..n], mrate, draws, lens) + [SexOffspring(parents[n].0, parents[n].1, mrate, draws(n))]
  }

  /** The i-th member of the pool is the offspring of the i-th pair under `draws(i)`. */
  lemma {:induction false} SexPoolAt(parents: seq<(Individual, Individual)>, mrate: real, draws: nat -> BirthDraw,
                                     lens: seq<nat>, i: nat)
    requires forall i :: 0 <= i < |parents| ==> Conforms(parents[i].0, lens) && Conforms(parents[i].1, lens)
    requires DrawsConform(draws, lens) && i < |parents|
    ensures WellFormed(parents[i].0) && WellFormed(parents[i].1) && SameShape(parents[i].0, parents[i].1)
    ensures BirthDrawFits(parents[i].0, draws(i))
    ensures SexPool(parents, mrate, draws, lens)[i] == SexOffspring(parents[i].0, parents[i].1, mrate, draws(i))
  {
    ConformsFit(parents[i].0, draws(i), lens);
    ConformsFit(parents[i].1, draws(i), lens);
    ConformsAlike(parents[i].0, parents[i].1, lens);
    var n := |parents| - 1;
    if i < n {
      SexPoolAt(parents[..n], mrate, draws, lens, i);
    }
  }

  /** Adding a pair adds its offspring, under the next draw k, at the end of the pool. */
  lemma SexPoolSnoc(parents: seq<(Individual, Individual)>, x: (Individual, Individual), k: nat, mrate: real,
                    draws: nat -> BirthDraw, lens: seq<nat>)
    requires forall i :: 0 <= i < |parents| ==> Conforms(parents[i].0, lens) && Conforms(parents[i].1, lens)
    requires Conforms(x.0, lens) && Conforms(x.1, lens) && DrawsConform(draws, lens) && k == |parents|
    ensures WellFormed(x.0) && WellFormed(x.1) && SameShape(x.0, x.1) && BirthDrawFits(x.0, draws(k))
    ensures SexPool(parents + [x], mrate, draws, lens) ==
      SexPool(parents, mrate, draws, lens) + [SexOffspring(x.0, x.1, mrate, draws(k))]
  {
    ConformsFit(x.0, draws(k), lens);
    ConformsFit(x.1, draws(k), lens);
    ConformsAlike(x.0, x.1, lens);
    var ps := parents + [x];
    assert ps[..|parents|] == parents;
  }

  /** Both microsites of every pair are occupied. */
  predicate PairsOccupied(g: Grid, pairs: seq<(Pos, Pos)>) {
    forall i :: 0 <= i < |pairs| ==> At(g, pairs[i].0).Some? && At(g, pairs[i].1).Some?
  }

  /** The n offspring of the female f and the male m under the draws `draws(start)`,
      `draws(start + 1)`, ... */
  function SexBrood(f: Individual, m: Individual, n: nat, mrate: real, draws: nat -> BirthDraw, start: nat,
                    lens: seq<nat>): (r: seq<Individual>)
    requires Conforms(f, lens) && Conforms(m, lens) && DrawsConform(draws, lens)
    ensures |r| == n
  {
    if n == 0 then []
    else
      ConformsFit(f, draws(start + n - 1), lens);
      ConformsFit(m, draws(start + n - 1), lens);
      ConformsAlike(f, m, lens);
      SexBrood(f, m, n - 1, mrate, draws, start, lens) + [SexOffspring(f, m, mrate, draws(start + n - 1))]
  }

  /** A non-empty brood of a pair ends with their offspring under draw k = start + n - 1. */
  lemma SexBroodLast(f: Individual, m: Individual, n: nat, k: nat, mrate: real, draws: nat -> BirthDraw,
                     start: nat, lens: seq<nat>)
    requires Conforms(f, lens) && Conforms(m, lens) && DrawsConform(draws, lens) && n > 0 && k == start + n - 1
    ensures WellFormed(f) && WellFormed(m) && SameShape(f, m) && BirthDrawFits(f, draws(k))
    ensures SexBrood(f, m, n, mrate, draws, start, lens) ==
      SexBrood(f, m, n - 1, mrate, draws, start, lens) + [SexOffspring(f, m, mrate, draws(k))]
  {
    ConformsFit(f, draws(k), lens);
    ConformsFit(m, draws(k), lens);
    ConformsAlike(f, m, lens);
  }

  /** A pair's brood grows by their next offspring under the next draw. */
  lemma SexBroodSnoc(f: Individual, m: Individual, n: nat, mrate: real, draws: nat -> BirthDraw, start: nat,
                     lens: seq<nat>)
    requires Conforms(f, lens) && Conforms(m, lens) && DrawsConform(draws, lens)
    ensures WellFormed(f) && WellFormed(m) && SameShape(f, m) && BirthDrawFits(f, draws(start + n))
    ensures SexBrood(f, m, n + 1, mrate, draws, start, lens) ==
      SexBrood(f, m, n, mrate, draws, start, lens) + [SexOffspring(f, m, mrate, draws(start + n))]
  {
    ConformsFit(f, draws(start + n), lens);
    ConformsAlike(f, m, lens);
    assert start + (n + 1) - 1 == start + n;
  }

  /** The `for num in range(nums)` loop of `hab_sex_reproduce_mutate` for one pair: n
      offspring of the female f and the male m, each re-drawn from one allele of each parent,
      then mutated. */
  method SexLitter(f: Individual, m: Individual, n: nat, mrate: real, draws: nat -> BirthDraw, start: nat,
                   lens: seq<nat>) returns (kids: seq<Individual>)
    requires Conforms(f, lens) && Conforms(m, lens) && DrawsConform(draws, lens)
    ensures kids == SexBrood(f, m, n, mrate, draws, start, lens)
  {
    kids := [];
    var k := 0;
    while k < n
      invariant 0 <= k <= n && kids == SexBrood(f, m, k, mrate, draws, start, lens)
    {
      SexBroodSnoc(f, m, k, mrate, draws, start, lens);
      var child := SexBirth(f, m, mrate, draws(start + k));
      kids := kids + [child];
      k := k + 1;
    }
  }

  /** The pool after breeding the pairs in order: each pair's brood, pair i drawing its
      extra offspring with coin(i) and the k-th offspring of the pool drawn under `draws(k)`. */
  function SexPoolOfPairs(g: Grid, pairs: seq<(Pos, Pos)>, birthRate: real, coin: nat -> real, mrate: real,
                          draws: nat -> BirthDraw, lens: seq<nat>): (r: seq<Individual>)
    requires PairsOccupied(g, pairs) && GridConforms(g, lens) && DrawsConform(draws, lens)
    ensures |r| == SexBroodSize(|pairs|, birthRate, coin)
  {
    if pairs == [] then []
    else
      var n := |pairs| - 1;
      assert PairsOccupied(g, pairs[..n]) by {
        assert forall i :: 0 <= i < n ==> pairs[..n][i] == pairs[i];
      }
      SexPoolOfPairs(g, pairs[..n], birthRate, coin, mrate, draws, lens) +
        SexBrood(At(g, pairs[n].0).value, At(g, pairs[n].1).value, LitterSize(birthRate, coin(n)), mrate, draws,
                 SexBroodSize(n, birthRate, coin), lens)
  }

  /** Breeding one more pair appends its brood, drawn under the next free draws. */
  lemma SexPoolOfPairsSnoc(g: Grid, pairs: seq<(Pos, Pos)>, pair: (Pos, Pos), birthRate: real, coin: nat -> real,
                           mrate: real, draws: nat -> BirthDraw, lens: seq<nat>)
    requires PairsOccupied(g, pairs) && At(g, pair.0).Some? && At(g, pair.1).Some?
    requires GridConforms(g, lens) && DrawsConform(draws, lens)
    ensures PairsOccupied(g, pairs + [pair])
    ensures SexPoolOfPairs(g, pairs + [pair], birthRate, coin, mrate, draws, lens) ==
      SexPoolOfPairs(g, pairs, birthRate, coin, mrate, draws, lens) +
      SexBrood(At(g, pair.0).value, At(g, pair.1).value, LitterSize(birthRate, coin(|pairs|)), mrate, draws,
               SexBroodSize(|pairs|, birthRate, coin), lens)
  {
    assert (pairs + [pair])[..|pairs|] == pairs;
  }

  /** The parent pairs of the pool are occupants of the grid, so they have its traits. */
  lemma SexParentsConform(g: Grid, pairs: seq<(Pos, Pos)>, birthRate: real, coin: nat -> real, lens: seq<nat>)
    requires PairsOccupied(g, pairs) && GridConforms(g, lens)
    ensures var parents := SexParents(g, pairs, birthRate, coin);
      forall i :: 0 <= i < |parents| ==> Conforms(parents[i].0, lens) && Conforms(parents[i].1, lens)
  {
    var parents := SexParents(g, pairs, birthRate, coin);
    forall i | 0 <= i < |parents| ensures Conforms(parents[i].0, lens) && Conforms(parents[i].1, lens) {
      var j :| 0 <= j < |pairs| && At(g, pairs[j].0) == Some(parents[i].0) && At(g, pairs[j].1) == Some(parents[i].1);
    }
  }

  /** n more copies of the pair x at the end of the parent list append x's brood. */
  lemma {:induction false} SexPoolRepeat(parents: seq<(Individual, Individual)>, x: (Individual, Individual), n: nat,
                                         mrate: real, draws: nat -> BirthDraw, lens: seq<nat>)
    requires forall i :: 0 <= i < |parents| ==> Conforms(parents[i].0, lens) && Conforms(parents[i].1, lens)
    requires Conforms(x.0, lens) && Conforms(x.1, lens) && DrawsConform(draws, lens)
    ensures forall i :: 0 <= i < |parents + Repeat(x, n)| ==>
      Conforms((parents + Repeat(x, n))[i].0, lens) && Conforms((parents + Repeat(x, n))[i].1, lens)
    ensures SexPool(parents + Repeat(x, n), mrate, draws, lens) ==
      SexPool(parents, mrate, draws, lens) + SexBrood(x.0, x.1, n, mrate, draws, |parents|, lens)
  {
    var ps := parents + Repeat(x, n);
    assert forall i :: 0 <= i < |ps| ==> Conforms(ps[i].0, lens) && Conforms(ps[i].1, lens);
    if n == 0 {
      assert ps == parents;
    } else {
      var prev := parents + Repeat(x, n - 1);
      assert ps == prev + [x] by {
        RepeatSnoc(x, n - 1);
      }
      SexPoolRepeat(parents, x, n - 1, mrate, draws, lens);
      var k := |parents| + n - 1;
      SexPoolSnoc(prev, x, k, mrate, draws, lens);
      var a, b := SexPool(parents, mrate, draws, lens), SexBrood(x.0, x.1, n - 1, mrate, draws, |parents|, lens);
      var o := SexOffspring(x.0, x.1, mrate, draws(k));
      SexBroodLast(x.0, x.1, n, k, mrate, draws, |parents|, lens);
      SnocAssoc(a, b, o, SexBrood(x.0, x.1, n, mrate, draws, |parents|, lens));
    }
  }

  /** The pool is the offspring of the parent-pair list SexParents, the i-th under `draws(i)`. */
  lemma {:induction false} SexPoolOfPairsParents(g: Grid, pairs: seq<(Pos, Pos)>, birthRate: real, coin: nat -> real,
                                                 mrate: real, draws: nat -> BirthDraw, lens: seq<nat>)
    requires PairsOccupied(g, pairs) && GridConforms(g, lens) && DrawsConform(draws, lens)
    ensures var parents := SexParents(g, pairs, birthRate, coin);
      (forall i :: 0 <= i < |parents| ==> Conforms(parents[i].0, lens) && Conforms(parents[i].1, lens)) &&
      SexPoolOfPairs(g, pairs, birthRate, coin, mrate, draws, lens) == SexPool(parents, mrate, draws, lens)
  {
    SexParentsConform(g, pairs, birthRate, coin, lens);
    if pairs != [] {
      var n := |pairs| - 1;
      var init := pairs[..n];
      assert PairsOccupied(g, init) by {
        assert forall i :: 0 <= i < n ==> init[i] == pairs[i];
      }
      SexPoolOfPairsParents(g, init, birthRate, coin, mrate, draws, lens);
      SexParentsConform(g, init, birthRate, coin, lens);
      var prev := SexParents(g, init, birthRate, coin);
      var x := (At(g, pairs[n].0).value, At(g, pairs[n].1).value);
      SexPoolRepeat(prev, x, LitterSize(birthRate, coin(n)), mrate, draws, lens);
    }
  }

  /** The offspring pool `hab_sex_reproduce_mutate` leaves: the offspring of the pairs of
      occupancy o (taken after the shuffles), litter by litter. */
  function SexPoolOf(o: Occupancy, birthRate: real, coin: nat -> real, mrate: real,
                     draws: nat -> BirthDraw, lens: seq<nat>): (r: seq<Individual>)
    requires IndexMatches(o) && GridConforms(o.microsites, lens) && DrawsConform(draws, lens)
    ensures |r| == SexBroodSize(PairCount(o.speciesOrder, o.category), birthRate, coin)
  {
    PairsAreMates(o);
    PairsLength(o.speciesOrder, o.category);
    SexPoolOfPairs(o.microsites, Pairs(o.speciesOrder, o.category), birthRate, coin, mrate, draws, lens)
  }

  /** Every member of the sexual pool is the offspring, under its own draws, of the female
      and the male of one pair of the same species. */
  lemma SexPoolFromPairs(o: Occupancy, birthRate: real, coin: nat -> real, mrate: real,
                         draws: nat -> BirthDraw, lens: seq<nat>)
    requires IndexMatches(o) && GridConforms(o.microsites, lens) && DrawsConform(draws, lens)
    ensures BredFromPairs(o.microsites, Pairs(o.speciesOrder, o.category),
                          SexPoolOf(o, birthRate, coin, mrate, draws, lens), mrate, draws)
  {
    var g, pairs := o.microsites, Pairs(o.speciesOrder, o.category);
    PairsAreMates(o);
    var parents := SexParents(g, pairs, birthRate, coin);
    SexPoolOfPairsParents(g, pairs, birthRate, coin, mrate, draws, lens);
    SexPoolFromParents(g, pairs, parents, mrate, draws, lens);
  }

  lemma SexPoolFromParents(g: Grid, pairs: seq<(Pos, Pos)>, parents: seq<(Individual, Individual)>, mrate: real,
                           draws: nat -> BirthDraw, lens: seq<nat>)
    requires PairsMate(g, pairs)
    requires forall i :: 0 <= i < |parents| ==> PairOfOccupants(g, pairs, parents[i])
    requires GridConforms(g, lens) && DrawsConform(draws, lens)
    requires forall i :: 0 <= i < |parents| ==> Conforms(parents[i].0, lens) && Conforms(parents[i].1, lens)
    ensures BredFromPairs(g, pairs, SexPool(parents, mrate, draws, lens), mrate, draws)
  {
    var r := SexPool(parents, mrate, draws, lens);
    forall i | 0 <= i < |r| ensures BredOfSomePair(g, pairs, r[i], mrate, draws(i)) {
      var j :| 0 <= j < |pairs| && At(g, pairs[j].0) == Some(parents[i].0) && At(g, pairs[j].1) == Some(parents[i].1);
      SexPoolAt(parents, mrate, draws, lens, i);
      ParentsMate(g, pairs[j], parents[i], r[i], mrate, draws(i), lens);
    }
  }

  /** Every member of r is the offspring, under its own draws, of one of the pairs. */
  ghost predicate BredFromPairs(g: Grid, pairs: seq<(Pos, Pos)>, r: seq<Individual>, mrate: real, draws: nat -> BirthDraw) {
    forall i :: 0 <= i < |r| ==> BredOfSomePair(g, pairs, r[i], mrate, draws(i))
  }

  ghost predicate BredOfSomePair(g: Grid, pairs: seq<(Pos, Pos)>, x: Individual, mrate: real, d: BirthDraw) {
    exists j :: 0 <= j < |pairs| && MateOffspring(g, pairs[j], x, mrate, d)
  }

  lemma ParentsMate(g: Grid, pair: (Pos, Pos), parents: (Individual, Individual), x: Individual, mrate: real,
                    d: BirthDraw, lens: seq<nat>)
    requires At(g, pair.0) == Some(parents.0) && At(g, pair.1) == Some(parents.1)
    requires parents.0.gender == Female && parents.1.gender == Male && parents.0.species == parents.1.species
    requires Conforms(parents.0, lens) && Conforms(parents.1, lens) && DrawConforms(d, lens)
    requires WellFormed(parents.0) && WellFormed(parents.1) && SameShape(parents.0, parents.1) && BirthDrawFits(parents.0, d)
    requires x == SexOffspring(parents.0, parents.1, mrate, d)
    ensures MateOffspring(g, pair, x, mrate, d)
  {
  }

  /** x is the sexual offspring under draw d of the female and the male at the two
      microsites of `pair`, who are of one species. */
  ghost predicate MateOffspring(g: Grid, pair: (Pos, Pos), x: Individual, mrate: real, d: BirthDraw) {
    var f, m := At(g, pair.0), At(g, pair.1);
    f.Some? && m.Some? && f.value.gender == Female && m.value.gender == Male &&
    f.value.species == m.value.species &&
    WellFormed(f.value) && WellFormed(m.value) && SameShape(f.value, m.value) && BirthDrawFits(f.value, d) &&
    x == SexOffspring(f.value, m.value, mrate, d)
  }

  /** How many offspring the sexual pool gets: the litter sizes of the pairs. */
  function SexBroodSize(pairCount: nat, birthRate: real, coin: nat -> real): nat {
    if pairCount == 0 then 0
    else SexBroodSize(pairCount - 1, birthRate, coin) + LitterSize(birthRate, coin(pairCount - 1))
  }

  /** Each pair adds floor(b) or floor(b) + 1 offspring. */
  lemma {:induction false} SexBroodSizeBounds(pairCount: nat, birthRate: real, coin: nat -> real)
    requires 0.0 <= birthRate && forall k :: 0.0 <= coin(k) < 1.0
    ensures birthRate.Floor * pairCount <= SexBroodSize(pairCount, birthRate, coin) <= (birthRate.Floor + 1) * pairCount
  {
    if pairCount > 0 {
      SexBroodSizeBounds(pairCount - 1, birthRate, coin);
      LitterSizeBounds(birthRate, coin(pairCount - 1));
      var b, c := birthRate.Floor, pairCount - 1;
      assert b * (c + 1) == b * c + b;
      assert (b + 1) * (c + 1) == (b + 1) * c + (b + 1);
    }
  }

  /** The breeding loop of `hab_sex_reproduce_mutate` over the pairs of grid g, in order. */
  method SexBroods(g: Grid, pairs: seq<(Pos, Pos)>, birthRate: real, mrate: real, coin: nat -> real,
                   draws: nat -> BirthDraw, lens: seq<nat>) returns (pool: seq<Individual>)
    requires PairsOccupied(g, pairs) && GridConforms(g, lens) && DrawsConform(draws, lens)
    ensures pool == SexPoolOfPairs(g, pairs, birthRate, coin, mrate, draws, lens)
  {
    pool := [];
    var i := 0;
    while i < |pairs|
      invariant i <= |pairs|
      invariant pool == SexPoolOfPairs(g, pairs[..i], birthRate, coin, mrate, draws, lens)
    {
      var litter := SexPairOffspring(g, pairs, i, |pool|, birthRate, mrate, coin, draws, lens);
      pool := pool + litter;
      i := i + 1;
    }
    assert pairs[..|pairs|] == pairs;
  }

  /** The litter of pair i in `hab_sex_reproduce_mutate`: `int(birth_rate)` offspring of the
      female and the male, and one more when the draw coin(i) falls below the fractional
      part of the birth rate. */
  method SexPairOffspring(g: Grid, pairs: seq<(Pos, Pos)>, i: nat, next: nat, birthRate: real,
                          mrate: real, coin: nat -> real, draws: nat -> BirthDraw, lens: seq<nat>)
    returns (litter: seq<Individual>)
    requires PairsOccupied(g, pairs) && i < |pairs|
    requires GridConforms(g, lens) && DrawsConform(draws, lens)
    requires next == SexBroodSize(i, birthRate, coin)
    ensures SexPoolOfPairs(g, pairs[..i + 1], birthRate, coin, mrate, draws, lens) ==
      SexPoolOfPairs(g, pairs[..i], birthRate, coin, mrate, draws, lens) + litter
  {
    assert pairs[..i + 1] == pairs[..i] + [pairs[i]];
    assert PairsOccupied(g, pairs[..i]) by {
      assert forall k :: 0 <= k < i ==> pairs[..i][k] == pairs[k];
    }
    SexPoolOfPairsSnoc(g, pairs[..i], pairs[i], birthRate, coin, mrate, draws, lens);
    var (f, m) := pairs[i];
    var female := g[f.0][f.1].value;
    var male := g[m.0][m.1].value;
    assert At(g, f) == Some(female) && At(g, m) == Some(male);
    var nums := Trunc(birthRate);
    var rate := birthRate - nums as real;
    var n := if nums > 0 then nums else 0;
    litter := SexLitter(female, male, n, mrate, draws, next, lens);
    if rate > coin(i) {
      SexBroodSnoc(female, male, n, mrate, draws, next, lens);
      var child := SexBirth(female, male, mrate, draws(next + n));
      litter := litter + [child];
    }
  }

  // ---------------------------------------------------------------- reproduction with a quota

  /** The loop of `hab_asex_reproduce_mutate_with_num` over the sampled parent microsites:
      one offspring per site, the i-th drawn under `draws(i)`. */
  method OccupantsOffspring(g: Grid, sites: seq<Pos>, mrate: real, draws: nat -> BirthDraw, lens: seq<nat>)
    returns (pool: seq<Individual>)
    requires forall i :: 0 <= i < |sites| ==> At(g, sites[i]).Some?
    requires GridConforms(g, lens) && DrawsConform(draws, lens)
    ensures |pool| == |sites|
    ensures forall i :: 0 <= i < |sites| ==> OccupantOffspring(g, sites[i], pool[i], mrate, draws(i))
  {
    pool := [];
    for i := 0 to |sites|
      invariant |pool| == i
      invariant forall k :: 0 <= k < i ==> OccupantOffspring(g, sites[k], pool[k], mrate, draws(k))
    {
      var p := sites[i];
      var parent := g[p.0][p.1].value;
      assert At(g, p) == Some(parent);
      ConformsFit(parent, draws(i), lens);
      var child := AsexBirth(parent, mrate, draws(i));
      pool := pool + [child];
    }
  }

  /** The loop of `hab_sex_reproduce_mutate_with_num` over the sampled pairs: one offspring
      per pair, the i-th drawn under `draws(i)`. */
  method PairsOffspring(g: Grid, pairs: seq<(Pos, Pos)>, mrate: real, draws: nat -> BirthDraw, lens: seq<nat>)
    returns (pool: seq<Individual>)
    requires forall i :: 0 <= i < |pairs| ==>
      var (f, m) := pairs[i];
      At(g, f).Some? && At(g, m).Some? &&
      At(g, f).value.gender == Female && At(g, m).value.gender == Male &&
      At(g, f).value.species == At(g, m).value.species
    requires GridConforms(g, lens) && DrawsConform(draws, lens)
    ensures |pool| == |pairs|
    ensures forall i :: 0 <= i < |pairs| ==> MateOffspring(g, pairs[i], pool[i], mrate, draws(i))
  {
    pool := [];
    for i := 0 to |pairs|
      invariant |pool| == i
      invariant forall k :: 0 <= k < i ==> MateOffspring(g, pairs[k], pool[k], mrate, draws(k))
    {
      var (f, m) := pairs[i];
      var female := g[f.0][f.1].value;
      var male := g[m.0][m.1].value;
      assert At(g, f) == Some(female) && At(g, m) == Some(male);
      ConformsFit(female, draws(i), lens);
      ConformsFit(male, draws(i), lens);
      ConformsAlike(female, male, lens);
      var child := SexBirth(female, male, mrate, draws(i));
      pool := pool + [child];
    }
  }
}
