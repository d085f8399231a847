/** The occupancy index of one habitat as a value: the microsite grid
    (`set['microsite_individuals']`), the occupied and empty position lists, `indi_num`, and
    the species -> gender -> position-list index `species_category` (with its key order, as
    Python dicts keep insertion order).  `add_individual` and `del_individual` are Add and
    Del; Consistent is the invariant they keep. */
module Occupancy {
  import opened Wrappers
  import opened Sampling
  import opened Genetics

  /** A microsite (len_id, wid_id). */
  type Pos = (nat, nat)
  type Grid = seq<seq<Option<Individual>>>
  type Category = map<string, map<Gender, seq<Pos>>>

  datatype Occupancy = Occupancy(microsites: Grid, occupied: seq<Pos>, empty: seq<Pos>, indiNum: int,
                                 speciesOrder: seq<string>, category: Category)

  predicate InGrid(length: nat, width: nat, p: Pos) {
    p.0 < length && p.1 < width
  }

  predicate Shaped(g: Grid, length: nat, width: nat) {
    |g| == length && forall r :: 0 <= r < length ==> |g[r]| == width
  }

  /** The occupant of microsite p; None for an empty microsite or one outside the grid. */
  function At(g: Grid, p: Pos): Option<Individual> {
    if p.0 < |g| && p.1 < |g[p.0]| then g[p.0][p.1] else None
  }

  /** `species_category[sp][gender]`, or [] where a key is missing. */
  function Lookup(cat: Category, sp: string, gender: Gender): seq<Pos> {
    if sp in cat && gender in cat[sp] then cat[sp][gender] else []
  }

  /** The row-major list `[(i, j) for i in range(length) for j in range(width)]`. */
  function RowMajor(length: nat, width: nat): (r: seq<Pos>)
    ensures |r| == length * width
  {
    if length == 0 then [] else RowMajor(length - 1, width) + Row(length - 1, width)
  }

  function Row(i: nat, width: nat): seq<Pos> {
    seq(width, j requires 0 <= j < width => (i, j))
  }

  /** `[[None for i in range(length)] for i in range(width)]`, as the constructor writes it:
      `width` rows of `length` entries. */
  function GridAsWritten(length: nat, width: nat): Grid {
    seq(width, _ => seq(length, _ => None))
  }

  /** The grid as written has the shape its indexing needs exactly when it is square: a
      2 x 1 habitat gets one row of two microsites, and its microsite (1, 0) is missing. */
  lemma GridAsWrittenShape(length: nat, width: nat)
    ensures Shaped(GridAsWritten(length, width), length, width) <==> length == width
    ensures length == 2 && width == 1 ==> |GridAsWritten(length, width)| == 1
  {
  }

  /** A grid of `length` rows of `width` empty microsites, the shape the indexing
      `[len_id][wid_id]` needs. */
  function EmptyGrid(length: nat, width: nat): (g: Grid)
    ensures Shaped(g, length, width)
    ensures forall p :: At(g, p).None?
  {
    seq(length, _ => seq(width, _ => None))
  }

  /** The occupancy of a new habitat: every microsite empty, in row-major order. */
  function Fresh(length: nat, width: nat): Occupancy {
    Occupancy(EmptyGrid(length, width), [], RowMajor(length, width), 0, [], map[])
  }

  /** `list.remove(x)`: drops the first occurrence of x. */
  function Remove<T(==)>(s: seq<T>, x: T): (r: seq<T>)
    ensures x in s ==> |r| == |s| - 1
    ensures x !in s ==> r == s
    ensures forall y :: y in r ==> y in s
    ensures forall y :: y in s && y != x ==> y in r
  {
    if s == [] then []
    else if s[0] == x then s[1..]
    else [s[0]] + Remove(s[1..], x)
  }

  function SetCell(g: Grid, p: Pos, v: Option<Individual>): Grid
    requires p.0 < |g| && p.1 < |g[p.0]|
  {
    g[p.0 := g[p.0][p.1 := v]]
  }

  function AddToCategory(cat: Category, sp: string, gender: Gender, p: Pos): Category {
    if sp in cat then
      if gender in cat[sp] then cat[sp := cat[sp][gender := cat[sp][gender] + [p]]]
      else cat[sp := cat[sp][gender := [p]]]
    else cat[sp := map[gender := [p]]]
  }

  function RemoveFromCategory(cat: Category, sp: string, gender: Gender, p: Pos): Category {
    if sp in cat && gender in cat[sp] then cat[sp := cat[sp][gender := Remove(cat[sp][gender], p)]]
    else cat
  }

  /** `add_individual(ind, p.0, p.1)`.  On an occupied microsite it only prints, so nothing
      changes; callers pass microsites of the grid (outside it Python raises IndexError). */
  function Add(o: Occupancy, ind: Individual, p: Pos): Occupancy {
    if !(p.0 < |o.microsites| && p.1 < |o.microsites[p.0]|) || At(o.microsites, p).Some? then o
    else Occupancy(SetCell(o.microsites, p, Some(ind)),
                   o.occupied + [p],
                   Remove(o.empty, p),
                   o.indiNum + 1,
                   if ind.species in o.category then o.speciesOrder else o.speciesOrder + [ind.species],
                   AddToCategory(o.category, ind.species, ind.gender, p))
  }

  /** `del_individual(p.0, p.1)`.  On an empty microsite it only prints, so nothing changes. */
  function Del(o: Occupancy, p: Pos): Occupancy {
    match At(o.microsites, p)
    case None => o
    case Some(ind) =>
      Occupancy(SetCell(o.microsites, p, None),
                Remove(o.occupied, p),
                o.empty + [p],
                o.indiNum - 1,
                o.speciesOrder,
                RemoveFromCategory(o.category, ind.species, ind.gender, p))
  }

  /** The position lists and `indi_num` agree with the grid: the occupied list holds each
      occupied microsite once, the empty list each empty microsite of the grid once. */
  ghost predicate ListsMatch(o: Occupancy, length: nat, width: nat) {
    Shaped(o.microsites, length, width) &&
    NoDup(o.occupied) && NoDup(o.empty) &&
    (forall p :: p in o.occupied <==> At(o.microsites, p).Some?) &&
    (forall p :: p in o.empty <==> InGrid(length, width, p) && At(o.microsites, p).None?) &&
    o.indiNum == |o.occupied|
  }

  /** The species/gender index lists, once each, exactly the occupied microsites of each
      species and gender, and the key order names each species key once. */
  ghost predicate IndexMatches(o: Occupancy) {
    (forall sp, gender, p :: p in Lookup(o.category, sp, gender) ==>
       At(o.microsites, p).Some? && At(o.microsites, p).value.species == sp &&
       At(o.microsites, p).value.gender == gender) &&
    (forall p :: At(o.microsites, p).Some? ==>
       p in Lookup(o.category, At(o.microsites, p).value.species, At(o.microsites, p).value.gender)) &&
    (forall sp, gender :: NoDup(Lookup(o.category, sp, gender))) &&
    NoDup(o.speciesOrder) && (forall sp :: sp in o.speciesOrder <==> sp in o.category)
  }

  /** The invariant `add_individual` and `del_individual` keep. */
  ghost predicate Consistent(o: Occupancy, length: nat, width: nat) {
    ListsMatch(o, length, width) && IndexMatches(o)
  }

  // ---------------------------------------------------------------- lemmas

  lemma RemoveNoDup<T>(s: seq<T>, x: T)
    requires NoDup(s)
    ensures NoDup(Remove(s, x))
    ensures x !in Remove(s, x)
  {
    if s != [] && s[0] != x {
      RemoveNoDup(s[1..], x);
      var r := Remove(s, x);
      assert r == [s[0]] + Remove(s[1..], x);
      assert s[0] !in s[1..];
    }
  }

  lemma AtSetCell(g: Grid, p: Pos, v: Option<Individual>, q: Pos)
    requires p.0 < |g| && p.1 < |g[p.0]|
    ensures At(SetCell(g, p, v), q) == if q == p then v else At(g, q)
  {
  }

  lemma LookupAdd(cat: Category, sp: string, gender: Gender, p: Pos, sp': string, gender': Gender)
    ensures Lookup(AddToCategory(cat, sp, gender, p), sp', gender') ==
      if sp' == sp && gender' == gender then Lookup(cat, sp, gender) + [p] else Lookup(cat, sp', gender')
  {
  }

  lemma LookupRemove(cat: Category, sp: string, gender: Gender, p: Pos, sp': string, gender': Gender)
    ensures Lookup(RemoveFromCategory(cat, sp, gender, p), sp', gender') ==
      if sp' == sp && gender' == gender then Remove(Lookup(cat, sp, gender), p) else Lookup(cat, sp', gender')
  {
  }

  lemma {:induction false} RowMajorMembers(length: nat, width: nat)
    ensures forall p :: p in RowMajor(length, width) <==> InGrid(length, width, p)
    ensures NoDup(RowMajor(length, width))
  {
    if length > 0 {
      RowMajorMembers(length - 1, width);
      var a, b := RowMajor(length - 1, width), Row(length - 1, width);
      assert RowMajor(length, width) == a + b;
      forall p: Pos | InGrid(length, width, p) ensures p in a + b {
        if p.0 == length - 1 { assert b[p.1] == p; } else { assert p in a; }
      }
      forall i, j | 0 <= i < j < |a + b| ensures (a + b)[i] != (a + b)[j] {
        if j >= |a| && i < |a| { assert (a + b)[i] in a; }
      }
    }
  }

  /** The row-major walk, cut after microsite (row, col), grows by that microsite. */
  lemma RowMajorStep(row: nat, width: nat, col: nat)
    requires col < width
    ensures RowMajor(row, width) + Row(row, width)[..col + 1] == RowMajor(row, width) + Row(row, width)[..col] + [(row, col)]
    ensures RowMajor(row, width) + Row(row, width)[..0] == RowMajor(row, width)
    ensures RowMajor(row, width) + Row(row, width)[..width] == RowMajor(row + 1, width)
  {
    assert Row(row, width)[..col + 1] == Row(row, width)[..col] + [(row, col)];
    assert Row(row, width)[..width] == Row(row, width);
  }

  /** A new habitat satisfies the invariant. */
  lemma FreshConsistent(length: nat, width: nat)
    ensures Consistent(Fresh(length, width), length, width)
  {
    RowMajorMembers(length, width);
  }

  lemma AtAdd(o: Occupancy, ind: Individual, p: Pos, q: Pos)
    requires p.0 < |o.microsites| && p.1 < |o.microsites[p.0]| && At(o.microsites, p).None?
    ensures At(Add(o, ind, p).microsites, q) == if q == p then Some(ind) else At(o.microsites, q)
  {
    AtSetCell(o.microsites, p, Some(ind), q);
  }

  lemma AtDel(o: Occupancy, p: Pos, q: Pos)
    ensures At(Del(o, p).microsites, q) == if q == p then None else At(o.microsites, q)
  {
    if At(o.microsites, p).Some? {
      AtSetCell(o.microsites, p, None, q);
    }
  }

  lemma AddLists(o: Occupancy, length: nat, width: nat, ind: Individual, p: Pos)
    requires ListsMatch(o, length, width) && p in o.empty
    ensures var o' := Add(o, ind, p);
      ListsMatch(o', length, width) &&
      o'.occupied == o.occupied + [p] && o'.indiNum == o.indiNum + 1 &&
      o'.empty == Remove(o.empty, p) && p !in o'.empty
  {
    forall q ensures At(Add(o, ind, p).microsites, q) == if q == p then Some(ind) else At(o.microsites, q) {
      AtAdd(o, ind, p, q);
    }
    RemoveNoDup(o.empty, p);
  }

  lemma AddIndex(o: Occupancy, ind: Individual, p: Pos)
    requires IndexMatches(o)
    requires p.0 < |o.microsites| && p.1 < |o.microsites[p.0]| && At(o.microsites, p).None?
    ensures IndexMatches(Add(o, ind, p))
  {
    var o' := Add(o, ind, p);
    AddIndexListed(o, ind, p);
    AddIndexOccupants(o, ind, p);
    forall sp, gender ensures NoDup(Lookup(o'.category, sp, gender)) {
      LookupAdd(o.category, ind.species, ind.gender, p, sp, gender);
      assert p !in Lookup(o.category, sp, gender);
    }
  }

  /** After `add_individual` every listed microsite holds an individual of its key. */
  lemma AddIndexListed(o: Occupancy, ind: Individual, p: Pos)
    requires IndexMatches(o)
    requires p.0 < |o.microsites| && p.1 < |o.microsites[p.0]| && At(o.microsites, p).None?
    ensures var o' := Add(o, ind, p);
      forall sp, gender, q :: q in Lookup(o'.category, sp, gender) ==>
        At(o'.microsites, q).Some? && At(o'.microsites, q).value.species == sp &&
        At(o'.microsites, q).value.gender == gender
  {
    var o' := Add(o, ind, p);
    forall sp, gender, q | q in Lookup(o'.category, sp, gender)
      ensures At(o'.microsites, q).Some? && At(o'.microsites, q).value.species == sp &&
        At(o'.microsites, q).value.gender == gender
    {
      AtAdd(o, ind, p, q);
      LookupAdd(o.category, ind.species, ind.gender, p, sp, gender);
    }
  }

  /** After `add_individual` every occupied microsite is listed under its occupant's key. */
  lemma AddIndexOccupants(o: Occupancy, ind: Individual, p: Pos)
    requires IndexMatches(o)
    requires p.0 < |o.microsites| && p.1 < |o.microsites[p.0]| && At(o.microsites, p).None?
    ensures var o' := Add(o, ind, p);
      forall q :: At(o'.microsites, q).Some? ==>
        q in Lookup(o'.category, At(o'.microsites, q).value.species, At(o'.microsites, q).value.gender)
  {
    var o' := Add(o, ind, p);
    forall q | At(o'.microsites, q).Some?
      ensures q in Lookup(o'.category, At(o'.microsites, q).value.species, At(o'.microsites, q).value.gender)
    {
      AtAdd(o, ind, p, q);
      var x := At(o'.microsites, q).value;
      LookupAdd(o.category, ind.species, ind.gender, p, x.species, x.gender);
    }
  }

  /** `add_individual` on a listed empty microsite: the occupant appears there and nowhere
      else changes, the microsite moves from the empty list to the end of the occupied list,
      `indi_num` grows by one, and the invariant is kept. */
  lemma AddEffect(o: Occupancy, length: nat, width: nat, ind: Individual, p: Pos)
    requires Consistent(o, length, width) && p in o.empty
    ensures var o' := Add(o, ind, p);
      Consistent(o', length, width) &&
      o'.occupied == o.occupied + [p] && o'.indiNum == o.indiNum + 1 &&
      o'.empty == Remove(o.empty, p) && p !in o'.empty &&
      forall q :: At(o'.microsites, q) == if q == p then Some(ind) else At(o.microsites, q)
  {
    AddLists(o, length, width, ind, p);
    AddIndex(o, ind, p);
    forall q ensures At(Add(o, ind, p).microsites, q) == if q == p then Some(ind) else At(o.microsites, q) {
      AtAdd(o, ind, p, q);
    }
  }

  /** `add_individual` on any microsite of the grid keeps the invariant: on an occupied one it
      changes nothing. */
  lemma AddConsistent(o: Occupancy, length: nat, width: nat, ind: Individual, p: Pos)
    requires Consistent(o, length, width) && InGrid(length, width, p)
    ensures Consistent(Add(o, ind, p), length, width)
  {
    if At(o.microsites, p).None? {
      AddEffect(o, length, width, ind, p);
    }
  }

  lemma DelLists(o: Occupancy, length: nat, width: nat, p: Pos)
    requires ListsMatch(o, length, width) && At(o.microsites, p).Some?
    ensures var o' := Del(o, p);
      ListsMatch(o', length, width) &&
      o'.occupied == Remove(o.occupied, p) && o'.indiNum == o.indiNum - 1 &&
      o'.empty == o.empty + [p]
  {
    forall q ensures At(Del(o, p).microsites, q) == if q == p then None else At(o.microsites, q) {
      AtDel(o, p, q);
    }
    RemoveNoDup(o.occupied, p);
    assert p !in o.empty;
  }

  lemma DelIndex(o: Occupancy, p: Pos)
    requires IndexMatches(o)
    ensures IndexMatches(Del(o, p))
  {
    if At(o.microsites, p).Some? {
      var ind := At(o.microsites, p).value;
      var o' := Del(o, p);
      forall q ensures At(o'.microsites, q) == if q == p then None else At(o.microsites, q) {
        AtDel(o, p, q);
      }
      forall sp, gender ensures Lookup(o'.category, sp, gender) ==
        if sp == ind.species && gender == ind.gender then Remove(Lookup(o.category, sp, gender), p)
        else Lookup(o.category, sp, gender)
      {
        LookupRemove(o.category, ind.species, ind.gender, p, sp, gender);
      }
      forall sp, gender ensures NoDup(Lookup(o'.category, sp, gender)) && p !in Lookup(o'.category, sp, gender) {
        RemoveNoDup(Lookup(o.category, sp, gender), p);
      }
    }
  }

  /** `del_individual` on an occupied microsite: it becomes empty and nowhere else changes,
      it moves from the occupied list to the end of the empty list, `indi_num` drops by one,
      and the invariant is kept. */
  lemma DelEffect(o: Occupancy, length: nat, width: nat, p: Pos)
    requires Consistent(o, length, width) && At(o.microsites, p).Some?
    ensures var o' := Del(o, p);
      Consistent(o', length, width) &&
      o'.occupied == Remove(o.occupied, p) && o'.indiNum == o.indiNum - 1 &&
      o'.empty == o.empty + [p] &&
      forall q :: At(o'.microsites, q) == if q == p then None else At(o.microsites, q)
  {
    DelLists(o, length, width, p);
    DelIndex(o, p);
    forall q ensures At(Del(o, p).microsites, q) == if q == p then None else At(o.microsites, q) {
      AtDel(o, p, q);
    }
  }

  /** `del_individual` keeps the invariant: on an empty microsite it changes nothing. */
  lemma DelConsistent(o: Occupancy, length: nat, width: nat, p: Pos)
    requires Consistent(o, length, width)
    ensures Consistent(Del(o, p), length, width)
  {
    if At(o.microsites, p).Some? {
      DelEffect(o, length, width, p);
    }
  }

  /** Occupied and empty partition the microsites: disjoint, covering the grid, and
      together as many as the grid has. */
  lemma Partition(o: Occupancy, length: nat, width: nat)
    requires ListsMatch(o, length, width)
    ensures forall p :: p in o.occupied ==> InGrid(length, width, p) && p !in o.empty
    ensures forall p :: InGrid(length, width, p) ==> p in o.occupied || p in o.empty
    ensures |o.occupied| + |o.empty| == length * width
  {
    RowMajorMembers(length, width);
    SplitLengths(o.occupied, o.empty, RowMajor(length, width));
  }

  // ---------------------------------------------------------------- passes over many microsites

  /** The `add_individual` calls of a `zip(sites, individuals)` loop, in order. */
  function PlaceAll(o: Occupancy, ps: seq<(Pos, Individual)>): Occupancy {
    if ps == [] then o
    else Add(PlaceAll(o, ps[..|ps| - 1]), ps[|ps| - 1].1, ps[|ps| - 1].0)
  }

  function Sites(ps: seq<(Pos, Individual)>): (r: seq<Pos>)
    ensures |r| == |ps| && forall i :: 0 <= i < |ps| ==> r[i] == ps[i].0
  {
    if ps == [] then [] else Sites(ps[..|ps| - 1]) + [ps[|ps| - 1].0]
  }

  /** `list.remove` of each of xs in turn. */
  function RemoveAll<T(==)>(s: seq<T>, xs: seq<T>): seq<T> {
    if xs == [] then s else Remove(RemoveAll(s, xs[..|xs| - 1]), xs[|xs| - 1])
  }

  lemma {:induction false} RemoveAllMembers<T>(s: seq<T>, xs: seq<T>)
    requires NoDup(s)
    ensures NoDup(RemoveAll(s, xs))
    ensures forall y :: y in RemoveAll(s, xs) <==> y in s && y !in xs
  {
    if xs != [] {
      var n := |xs| - 1;
      RemoveAllMembers(s, xs[..n]);
      RemoveNoDup(RemoveAll(s, xs[..n]), xs[n]);
      assert xs == xs[..n] + [xs[n]];
    }
  }

  /** Removing the first k entries of a duplicate-free list one by one leaves its tail. */
  lemma {:induction false} RemoveAllPrefix<T>(s: seq<T>, k: nat)
    requires NoDup(s) && k <= |s|
    ensures RemoveAll(s, s[..k]) == s[k..]
  {
    if k > 0 {
      assert s[..k][..k - 1] == s[..k - 1];
      RemoveAllPrefix(s, k - 1);
      assert s[k - 1..] == [s[k - 1]] + s[k..];
    }
  }

  /** Placing individuals on distinct empty microsites appends the sites to the occupied
      list in order, removes them from the empty list and raises `indi_num` by one per
      individual. */
  lemma {:induction false} PlaceAllLists(o: Occupancy, length: nat, width: nat, ps: seq<(Pos, Individual)>)
    requires ListsMatch(o, length, width)
    requires NoDup(Sites(ps)) && forall i :: 0 <= i < |ps| ==> ps[i].0 in o.empty
    ensures var o' := PlaceAll(o, ps);
      ListsMatch(o', length, width) &&
      o'.occupied == o.occupied + Sites(ps) &&
      o'.indiNum == o.indiNum + |ps| &&
      o'.empty == RemoveAll(o.empty, Sites(ps))
  {
    if ps != [] {
      var n := |ps| - 1;
      var init := ps[..n];
      PlaceAllLists(o, length, width, init);
      var o1 := PlaceAll(o, init);
      var p := ps[n].0;
      var o' := PlaceAll(o, ps);
      assert o' == Add(o1, ps[n].1, p);
      assert p in o1.empty by {
        assert p !in Sites(init);
        RemoveAllMembers(o.empty, Sites(init));
      }
      AddLists(o1, length, width, ps[n].1, p);
      var sites := Sites(ps);
      assert sites == Sites(init) + [p] && sites[..n] == Sites(init);
      AppendAssoc(o.occupied, Sites(init), [p]);
    }
  }

  /** Placing individuals on distinct empty microsites keeps the species/gender index. */
  lemma {:induction false} PlaceAllIndex(o: Occupancy, length: nat, width: nat, ps: seq<(Pos, Individual)>)
    requires Consistent(o, length, width)
    requires NoDup(Sites(ps)) && forall i :: 0 <= i < |ps| ==> ps[i].0 in o.empty
    ensures IndexMatches(PlaceAll(o, ps))
  {
    if ps != [] {
      var n := |ps| - 1;
      var init := ps[..n];
      PlaceAllIndex(o, length, width, init);
      var o1 := PlaceAll(o, init);
      var p := ps[n].0;
      assert p.0 < |o1.microsites| && p.1 < |o1.microsites[p.0]| && At(o1.microsites, p).None? by {
        PlaceAllLists(o, length, width, init);
        assert p !in Sites(init);
        RemoveAllMembers(o.empty, Sites(init));
        assert p in o1.empty;
      }
      AddIndex(o1, ps[n].1, p);
    }
  }

  /** Placing individuals on distinct empty microsites keeps the invariant. */
  lemma PlaceAllKeeps(o: Occupancy, length: nat, width: nat, ps: seq<(Pos, Individual)>)
    requires Consistent(o, length, width)
    requires NoDup(Sites(ps)) && forall i :: 0 <= i < |ps| ==> ps[i].0 in o.empty
    ensures var o' := PlaceAll(o, ps);
      Consistent(o', length, width) &&
      o'.occupied == o.occupied + Sites(ps) &&
      o'.indiNum == o.indiNum + |ps| &&
      o'.empty == RemoveAll(o.empty, Sites(ps))
  {
    PlaceAllLists(o, length, width, ps);
    PlaceAllIndex(o, length, width, ps);
  }

  /** Germination: placing the pool `zip`ped with the empty list fills the first
      min(#empty, #pool) empty microsites, in list order, and keeps the invariant. */
  lemma ZipPlaceKeeps(o: Occupancy, length: nat, width: nat, pool: seq<Individual>)
    requires Consistent(o, length, width)
    ensures var c := Min(|o.empty|, |pool|);
      var o' := PlaceAll(o, Zip(o.empty, pool));
      Consistent(o', length, width) && o'.occupied == o.occupied + o.empty[..c] &&
      o'.indiNum == o.indiNum + c && o'.empty == o.empty[c..]
  {
    var ps := Zip(o.empty, pool);
    var c := |ps|;
    assert Sites(ps) == o.empty[..c];
    assert NoDup(o.empty[..c]);
    assert forall i :: 0 <= i < c ==> ps[i].0 in o.empty;
    PlaceAllKeeps(o, length, width, ps);
    RemoveAllPrefix(o.empty, c);
  }

  /** Settling the i-th individual of `pool` on the i-th of distinct empty microsites
      `sites` puts it there, and leaves every microsite it does not settle on as it was. */
  lemma ZipPlaceCells(o: Occupancy, length: nat, width: nat, sites: seq<Pos>, pool: seq<Individual>)
    requires ListsMatch(o, length, width)
    requires NoDup(sites) && forall i :: 0 <= i < |sites| ==> sites[i] in o.empty
    ensures forall i :: 0 <= i < Min(|sites|, |pool|) ==>
      At(PlaceAll(o, Zip(sites, pool)).microsites, sites[i]) == Some(pool[i])
    ensures forall q :: q !in sites[..Min(|sites|, |pool|)] ==>
      At(PlaceAll(o, Zip(sites, pool)).microsites, q) == At(o.microsites, q)
  {
    var ps := Zip(sites, pool);
    var c := |ps|;
    assert NoDup(Sites(ps)) && Sites(ps) == sites[..c] by {
      assert Sites(ps) == sites[..c];
    }
    forall i | 0 <= i < c ensures Vacant(o.microsites, ps[i].0) {
      assert ps[i].0 == sites[i] && sites[i] in o.empty;
    }
    PlaceAllCells(o, ps);
    var g := PlaceAll(o, ps).microsites;
    forall i | 0 <= i < c ensures At(g, sites[i]) == Some(pool[i]) {
      assert ps[i] == (sites[i], pool[i]);
    }
  }

  /** The row lengths of a grid. */
  function RowLengths(g: Grid): seq<nat> {
    seq(|g|, r requires 0 <= r < |g| => |g[r]|)
  }

  /** Microsite p lies on the grid and is empty. */
  predicate Vacant(g: Grid, p: Pos) {
    p.0 < |g| && p.1 < |g[p.0]| && g[p.0][p.1].None?
  }

  /** Placing individuals on distinct vacant microsites puts each one on its microsite,
      leaves every other microsite as it was, and keeps the shape of the grid. */
  lemma {:induction false} PlaceAllCells(o: Occupancy, ps: seq<(Pos, Individual)>)
    requires NoDup(Sites(ps)) && forall i :: 0 <= i < |ps| ==> Vacant(o.microsites, ps[i].0)
    ensures RowLengths(PlaceAll(o, ps).microsites) == RowLengths(o.microsites)
    ensures forall q :: q !in Sites(ps) ==> At(PlaceAll(o, ps).microsites, q) == At(o.microsites, q)
    ensures forall i :: 0 <= i < |ps| ==> At(PlaceAll(o, ps).microsites, ps[i].0) == Some(ps[i].1)
  {
    if ps != [] {
      var n := |ps| - 1;
      var init := ps[..n];
      assert NoDup(Sites(init)) && Sites(ps) == Sites(init) + [ps[n].0] by {
        assert Sites(ps)[..n] == Sites(init);
      }
      PlaceAllCells(o, init);
      var o1 := PlaceAll(o, init);
      var p := ps[n].0;
      assert p !in Sites(init);
      assert Vacant(o1.microsites, p) by {
        assert RowLengths(o1.microsites)[p.0] == RowLengths(o.microsites)[p.0];
        assert At(o1.microsites, p) == At(o.microsites, p);
      }
      AddCells(o1, ps[n].1, p);
      var g', g1 := PlaceAll(o, ps).microsites, o1.microsites;
      forall i | 0 <= i < n ensures At(g', ps[i].0) == Some(ps[i].1) {
        assert init[i] == ps[i] && Sites(ps)[i] != p;
      }
    }
  }

  /** `add_individual` on a vacant microsite fills that microsite and no other. */
  lemma AddCells(o: Occupancy, ind: Individual, p: Pos)
    requires Vacant(o.microsites, p)
    ensures RowLengths(Add(o, ind, p).microsites) == RowLengths(o.microsites)
    ensures forall q :: At(Add(o, ind, p).microsites, q) == if q == p then Some(ind) else At(o.microsites, q)
  {
    forall q ensures At(Add(o, ind, p).microsites, q) == if q == p then Some(ind) else At(o.microsites, q) {
      AtAdd(o, ind, p, q);
    }
  }

  /** The `del_individual` calls of `hab_dead_selection`: a microsite of `ps` whose occupant
      fails its survival draw (`dies`) is emptied, in order. */
  function KillPass(o: Occupancy, ps: seq<Pos>, dies: Pos -> bool): Occupancy {
    if ps == [] then o
    else
      var o1 := KillPass(o, ps[..|ps| - 1], dies);
      var p := ps[|ps| - 1];
      if At(o1.microsites, p).Some? && dies(p) then Del(o1, p) else o1
  }

  /** A kill pass over the first col + 1 microsites of a row visits microsite col last. */
  lemma KillPassRowStep(o: Occupancy, row: nat, col: nat, dies: Pos -> bool)
    ensures var o1 := KillPass(o, Row(row, col), dies);
      KillPass(o, Row(row, col + 1), dies) ==
        if At(o1.microsites, (row, col)).Some? && dies((row, col)) then Del(o1, (row, col)) else o1
  {
    assert Row(row, col + 1)[..col] == Row(row, col);
  }

  /** A kill pass over xs + ys is one over xs followed by one over ys. */
  lemma {:induction false} KillPassAppend(o: Occupancy, xs: seq<Pos>, ys: seq<Pos>, dies: Pos -> bool)
    ensures KillPass(o, xs + ys, dies) == KillPass(KillPass(o, xs, dies), ys, dies)
  {
    if ys == [] {
      assert xs + ys == xs;
    } else {
      var n := |ys| - 1;
      KillPassAppend(o, xs, ys[..n], dies);
      assert (xs + ys)[..|xs + ys| - 1] == xs + ys[..n];
    }
  }

  /** A kill pass over distinct microsites keeps the invariant, empties exactly the
      occupied microsites whose draw failed, and lowers `indi_num` by one per death. */
  lemma {:induction false} KillPassEffect(o: Occupancy, length: nat, width: nat, ps: seq<Pos>, dies: Pos -> bool)
    requires Consistent(o, length, width) && NoDup(ps)
    ensures var o' := KillPass(o, ps, dies);
      Consistent(o', length, width) &&
      (forall q :: At(o'.microsites, q) ==
         if q in ps && At(o.microsites, q).Some? && dies(q) then None else At(o.microsites, q)) &&
      o'.indiNum <= o.indiNum
  {
    if ps != [] {
      var n := |ps| - 1;
      KillPassEffect(o, length, width, ps[..n], dies);
      var o1 := KillPass(o, ps[..n], dies);
      var p := ps[n];
      assert p !in ps[..n];
      DelConsistent(o1, length, width, p);
      forall q ensures At(Del(o1, p).microsites, q) == if q == p then None else At(o1.microsites, q) {
        if At(o1.microsites, p).Some? { AtSetCell(o1.microsites, p, None, q); }
      }
      forall q | q in ps ensures q in ps[..n] || q == p {
        var i :| 0 <= i < |ps| && ps[i] == q;
        if i < n { assert ps[..n][i] == q; }
      }
    }
  }

  /** A kill pass over the whole grid empties exactly its occupied microsites whose draw
      failed, and keeps the invariant. */
  lemma KillPassGrid(o: Occupancy, length: nat, width: nat, dies: Pos -> bool)
    requires Consistent(o, length, width)
    ensures var o' := KillPass(o, RowMajor(length, width), dies);
      Consistent(o', length, width) &&
      forall q :: At(o'.microsites, q) ==
        if InGrid(length, width, q) && At(o.microsites, q).Some? && dies(q) then None else At(o.microsites, q)
  {
    RowMajorMembers(length, width);
    KillPassEffect(o, length, width, RowMajor(length, width), dies);
  }

  /** How many microsites of ps are occupied. */
  function CountOccupied(g: Grid, ps: seq<Pos>): (r: nat)
    ensures r <= |ps|
  {
    if ps == [] then 0
    else CountOccupied(g, ps[..|ps| - 1]) + (if At(g, ps[|ps| - 1]).Some? then 1 else 0)
  }

  lemma {:induction false} CountOccupiedIsCard(g: Grid, ps: seq<Pos>)
    requires NoDup(ps)
    ensures CountOccupied(g, ps) == |set p | p in ps && At(g, p).Some?|
  {
    if ps != [] {
      var n := |ps| - 1;
      CountOccupiedIsCard(g, ps[..n]);
      var prev := set p | p in ps[..n] && At(g, p).Some?;
      var last := ps[n];
      assert last !in ps[..n];
      if At(g, last).Some? {
        assert (set p | p in ps && At(g, p).Some?) == prev + {last};
      } else {
        assert (set p | p in ps && At(g, p).Some?) == prev;
      }
    }
  }

  /** Counting occupied microsites over the whole grid gives `indi_num`. */
  lemma OccupiedCountIsIndiNum(o: Occupancy, length: nat, width: nat)
    requires Consistent(o, length, width)
    ensures CountOccupied(o.microsites, RowMajor(length, width)) == o.indiNum
  {
    RowMajorMembers(length, width);
    CountOccupiedIsCard(o.microsites, RowMajor(length, width));
    Partition(o, length, width);
    assert (set p | p in RowMajor(length, width) && At(o.microsites, p).Some?) == set p | p in o.occupied;
    DistinctCard(o.occupied);
  }
}
