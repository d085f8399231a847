/** A patch of the metacommunity (class `patch` of metacommunity_IBM.py): habitats kept in
    the insertion order of the dict `set`, keyed by their names, and a birth rate.  The
    aggregate getters are functions of the habitats' fields, each computed by a loop proved
    against it; the dispersal methods act on the habitats through their own methods. */
module Patches {
  import opened Wrappers
  import opened Sampling
  import opened Numeric
  import opened Genetics
  import opened Occupancy
  import opened Breeding
  import opened Habitats

  // ---------------------------------------------------------------- lists of the habitats

  function Sum(xs: seq<int>): int {
    if xs == [] then 0 else Sum(xs[..|xs| - 1]) + xs[|xs| - 1]
  }

  /** The per-habitat lists joined in key order, leaving out the habitat named `skip`
      (`for h_id, h_object in self.set.items(): if h_id != target.name: ls += ...`). */
  function Gather<T>(xss: seq<seq<T>>, names: seq<string>, skip: Option<string>): seq<T>
    requires |xss| == |names|
  {
    if xss == [] then []
    else
      var n := |xss| - 1;
      Gather(xss[..n], names[..n], skip) + (if skip == Some(names[n]) then [] else xss[n])
  }

  /** Joining one more list appends it, unless it is the skipped habitat's. */
  lemma GatherSnoc<T>(xss: seq<seq<T>>, names: seq<string>, skip: Option<string>, i: nat)
    requires |xss| == |names| && i < |xss|
    ensures Gather(xss[..i + 1], names[..i + 1], skip) ==
      Gather(xss[..i], names[..i], skip) + (if skip == Some(names[i]) then [] else xss[i])
  {
    assert xss[..i + 1][..i] == xss[..i];
    assert names[..i + 1][..i] == names[..i];
  }

  /** `(h_id, ) + pos` for each position of one habitat. */
  function Tag(name: string, ps: seq<Pos>): (r: seq<(string, Pos)>)
    ensures |r| == |ps| && forall k :: 0 <= k < |ps| ==> r[k] == (name, ps[k])
  {
    seq(|ps|, k requires 0 <= k < |ps| => (name, ps[k]))
  }

  function TagAll(names: seq<string>, pss: seq<seq<Pos>>): (r: seq<seq<(string, Pos)>>)
    requires |names| == |pss|
    ensures |r| == |pss| && forall i :: 0 <= i < |pss| ==> r[i] == Tag(names[i], pss[i])
  {
    seq(|pss|, i requires 0 <= i < |pss| => Tag(names[i], pss[i]))
  }

  lemma PrefixSnoc<T>(s: seq<T>, m: nat)
    requires m < |s|
    ensures s[..m + 1] == s[..m] + [s[m]]
  {
  }

  /** Joining everything gives as many entries as the lists hold together. */
  lemma {:induction false} GatherAllLength<T>(xss: seq<seq<T>>, names: seq<string>)
    requires |xss| == |names|
    ensures |Gather(xss, names, None)| == Sum(Lengths(xss))
  {
    if xss != [] {
      var n := |xss| - 1;
      GatherAllLength(xss[..n], names[..n]);
      assert Lengths(xss)[..n] == Lengths(xss[..n]);
    }
  }

  /** Leaving out one habitat of distinct names loses exactly its list. */
  lemma {:induction false} GatherSkipLength<T>(xss: seq<seq<T>>, names: seq<string>, i: nat)
    requires |xss| == |names| && NoDup(names) && i < |names|
    ensures |Gather(xss, names, Some(names[i]))| + |xss[i]| == |Gather(xss, names, None)|
  {
    var n := |xss| - 1;
    if i < n {
      GatherSkipLength(xss[..n], names[..n], i);
      assert names[n] != names[i];
    } else {
      GatherNotNamed(xss[..n], names[..n], names[i]);
    }
  }

  /** Leaving out a name no habitat carries leaves nothing out. */
  lemma {:induction false} GatherNotNamed<T>(xss: seq<seq<T>>, names: seq<string>, name: string)
    requires |xss| == |names| && name !in names
    ensures Gather(xss, names, Some(name)) == Gather(xss, names, None)
  {
    if xss != [] {
      var n := |xss| - 1;
      GatherNotNamed(xss[..n], names[..n], name);
    }
  }

  /** An entry of the joined list comes from the list of a habitat not left out, and each
      entry of such a list is in it. */
  lemma {:induction false} GatherMembers<T>(xss: seq<seq<T>>, names: seq<string>, skip: Option<string>)
    requires |xss| == |names|
    ensures forall x :: x in Gather(xss, names, skip) ==>
      exists i :: 0 <= i < |xss| && skip != Some(names[i]) && x in xss[i]
    ensures forall x, i :: 0 <= i < |xss| && skip != Some(names[i]) && x in xss[i] ==>
      x in Gather(xss, names, skip)
  {
    if xss != [] {
      var n := |xss| - 1;
      GatherMembers(xss[..n], names[..n], skip);
      forall x | x in Gather(xss, names, skip)
        ensures exists i :: 0 <= i < |xss| && skip != Some(names[i]) && x in xss[i]
      {
        if x in Gather(xss[..n], names[..n], skip) {
          var i :| 0 <= i < |xss[..n]| && skip != Some(names[..n][i]) && x in xss[..n][i];
          assert skip != Some(names[i]) && x in xss[i];
        } else {
          assert skip != Some(names[n]) && x in xss[n];
        }
      }
      forall x, i | 0 <= i < |xss| && skip != Some(names[i]) && x in xss[i]
        ensures x in Gather(xss, names, skip)
      {
        if i < n {
          assert skip != Some(names[..n][i]) && x in xss[..n][i];
        }
      }
    }
  }

  // ---------------------------------------------------------------- fields of the habitats

  function Names(hs: seq<Habitat>): (r: seq<string>)
    ensures |r| == |hs| && forall i :: 0 <= i < |hs| ==> r[i] == hs[i].name
  {
    seq(|hs|, i requires 0 <= i < |hs| => hs[i].name)
  }

  /** `h.size`, that is length * width, per habitat. */
  function Sizes(hs: seq<Habitat>): (r: seq<int>)
    ensures |r| == |hs| && forall i :: 0 <= i < |hs| ==> r[i] == hs[i].length * hs[i].width
  {
    seq(|hs|, i requires 0 <= i < |hs| => hs[i].length * hs[i].width)
  }

  function IndiNums(hs: seq<Habitat>): (r: seq<int>)
    reads hs
    ensures |r| == |hs| && forall i :: 0 <= i < |hs| ==> r[i] == hs[i].indiNum
  {
    if hs == [] then [] else IndiNums(hs[..|hs| - 1]) + [hs[|hs| - 1].indiNum]
  }

  /** The occupied (`occupied`) or the empty position list of each habitat. */
  function PosLists(hs: seq<Habitat>, occupied: bool): (r: seq<seq<Pos>>)
    reads hs
    ensures |r| == |hs|
    ensures forall i :: 0 <= i < |hs| ==> r[i] == if occupied then hs[i].occupiedSites else hs[i].emptySites
  {
    if hs == [] then []
    else
      var h := hs[|hs| - 1];
      PosLists(hs[..|hs| - 1], occupied) + [if occupied then h.occupiedSites else h.emptySites]
  }

  /** The (habitat name, position) list of the habitats' occupied or empty microsites,
      leaving out the habitat named `skip`. */
  function TaggedSites(hs: seq<Habitat>, occupied: bool, skip: Option<string>): seq<(string, Pos)>
    reads hs
  {
    if hs == [] then []
    else
      var h := hs[|hs| - 1];
      TaggedSites(hs[..|hs| - 1], occupied, skip) +
        (if skip == Some(h.name) then [] else Tag(h.name, if occupied then h.occupiedSites else h.emptySites))
  }

  /** ... which is the habitats' tagged lists joined. */
  lemma {:induction false} TaggedSitesGathered(hs: seq<Habitat>, occupied: bool, skip: Option<string>)
    ensures TaggedSites(hs, occupied, skip) == Gather(TagAll(Names(hs), PosLists(hs, occupied)), Names(hs), skip)
  {
    if hs != [] {
      var n := |hs| - 1;
      TaggedSitesGathered(hs[..n], occupied, skip);
      TagAllPrefix(hs, occupied, n);
      var xss := TagAll(Names(hs), PosLists(hs, occupied));
      assert xss[n] == Tag(hs[n].name, if occupied then hs[n].occupiedSites else hs[n].emptySites);
    }
  }

  lemma TagAllPrefix(hs: seq<Habitat>, occupied: bool, n: nat)
    requires n <= |hs|
    ensures Names(hs)[..n] == Names(hs[..n])
    ensures TagAll(Names(hs), PosLists(hs, occupied))[..n] == TagAll(Names(hs[..n]), PosLists(hs[..n], occupied))
  {
    assert Names(hs)[..n] == Names(hs[..n]);
    assert PosLists(hs, occupied)[..n] == PosLists(hs[..n], occupied);
  }

  function OffspringPools(hs: seq<Habitat>): (r: seq<seq<Individual>>)
    reads hs
    ensures |r| == |hs| && forall i :: 0 <= i < |hs| ==> r[i] == hs[i].offspringPool
  {
    if hs == [] then [] else OffspringPools(hs[..|hs| - 1]) + [hs[|hs| - 1].offspringPool]
  }

  /** `hab_sexual_pairwise_parents_num()` of each habitat. */
  function PairCounts(hs: seq<Habitat>): (r: seq<int>)
    reads hs
    ensures |r| == |hs| && forall i :: 0 <= i < |hs| ==> r[i] == PairCount(hs[i].speciesOrder, hs[i].speciesCategory)
  {
    if hs == [] then []
    else PairCounts(hs[..|hs| - 1]) + [PairCount(hs[|hs| - 1].speciesOrder, hs[|hs| - 1].speciesCategory)]
  }

  /** The integer share `int(q * (n / total))` of a quota q for a habitat with n of the
      patch's total parents. */
  function Share(q: int, n: int, total: int): int
    requires total != 0
  {
    Trunc(q as real * (n as real / total as real))
  }

  function Shares(q: int, counts: seq<int>, total: int): (r: seq<int>)
    requires total != 0
    ensures |r| == |counts| && forall i :: 0 <= i < |counts| ==> r[i] == Share(q, counts[i], total)
  {
    seq(|counts|, i requires 0 <= i < |counts| => Share(q, counts[i], total))
  }

  /** A share is non-negative and at most the quota's part of n. */
  lemma ShareScaled(q: nat, n: nat, total: nat)
    requires total > 0
    ensures 0 <= Share(q, n, total)
    ensures Share(q, n, total) * total <= q * n
  {
    var t := total as real;
    var x := q as real * (n as real / t);
    var s := Share(q, n, total);
    assert x * t == q as real * n as real by {
      var d := n as real / t;
      assert d * t == n as real;
      assert x * t == q as real * (d * t);
    }
    assert s as real * t <= x * t by {
      assert s as real <= x;
    }
    assert (s * total) as real == s as real * t;
    assert (q * n) as real == q as real * n as real;
  }

  /** When the quota does not exceed the total, a share is at most n. */
  lemma ShareFits(q: nat, n: nat, total: nat)
    requires 0 < total && q <= total
    ensures Share(q, n, total) <= n
  {
    ShareScaled(q, n, total);
    var s := Share(q, n, total);
    assert q * n <= total * n;
    assert (s - n) * total <= 0;
  }

  lemma {:induction false} SharesSum(q: nat, counts: seq<nat>, total: nat)
    requires total > 0
    ensures Sum(Shares(q, counts, total)) * total <= q * Sum(counts)
    ensures Sum(Shares(q, counts, total)) >= 0
  {
    if counts != [] {
      var n := |counts| - 1;
      var shares := Shares(q, counts, total);
      SharesSum(q, counts[..n], total);
      assert shares[..n] == Shares(q, counts[..n], total);
      ShareScaled(q, counts[n], total);
      ScaledSumStep(Sum(shares[..n]), shares[n], Sum(counts[..n]), counts[n], q, total);
    }
  }

  /** One more term keeps a scaled sum below its bound. */
  lemma ScaledSumStep(a: int, b: int, m: int, c: int, q: int, t: int)
    requires a * t <= q * m && b * t <= q * c
    ensures (a + b) * t <= q * (m + c)
  {
    assert (a + b) * t == a * t + b * t;
    assert q * (m + c) == q * m + q * c;
  }

  lemma ScaledLe(a: int, b: int, t: int)
    requires 0 < t && a * t <= b * t
    ensures a <= b
  {
    assert (a - b) * t <= 0;
  }

  /** Proportional allocation: the habitats' shares of a quota q are non-negative and
      together at most q, and when q does not exceed the total each share fits its habitat. */
  lemma SharesWithinQuota(q: nat, counts: seq<nat>, total: nat)
    requires total > 0 && Sum(counts) == total
    ensures Sum(Shares(q, counts, total)) <= q
    ensures forall i :: 0 <= i < |counts| ==> 0 <= Shares(q, counts, total)[i]
    ensures q <= total ==> forall i :: 0 <= i < |counts| ==> Shares(q, counts, total)[i] <= counts[i]
  {
    SharesSum(q, counts, total);
    ScaledLe(Sum(Shares(q, counts, total)), q, total);
    forall i | 0 <= i < |counts|
      ensures 0 <= Shares(q, counts, total)[i] && (q <= total ==> Shares(q, counts, total)[i] <= counts[i])
    {
      ShareScaled(q, counts[i], total);
      if q <= total {
        ShareFits(q, counts[i], total);
      }
    }
  }

  lemma {:induction false} SumNonNegative(xs: seq<int>)
    requires forall i :: 0 <= i < |xs| ==> xs[i] >= 0
    ensures Sum(xs) >= 0
  {
    if xs != [] {
      SumNonNegative(xs[..|xs| - 1]);
    }
  }

  /** Growing a prefix by one element adds that element. */
  lemma SumSnoc(xs: seq<int>, i: nat)
    requires i < |xs|
    ensures Sum(xs[..i + 1]) == Sum(xs[..i]) + xs[i]
  {
    assert xs[..i + 1][..i] == xs[..i];
  }

  /** What the among-patches loops accumulate from the shares of the first n counts, in
      order: the number of offspring, or None once a share is not a size `random.sample`
      accepts. */
  function Contribution(q: int, counts: seq<int>, total: int, n: nat): Option<int>
    requires total != 0 && n <= |counts|
  {
    if n == 0 then Some(0)
    else
      var k := Share(q, counts[n - 1], total);
      match Contribution(q, counts, total, n - 1)
      case None => None
      case Some(s) => if 0 <= k <= counts[n - 1] then Some(s + k) else None
  }

  /** The accumulation fails exactly when some share does not fit its count. */
  lemma {:induction false} ContributionFails(q: int, counts: seq<int>, total: int, n: nat)
    requires total != 0 && n <= |counts|
    ensures Contribution(q, counts, total, n).None? <==>
      exists i :: 0 <= i < n && !(0 <= Share(q, counts[i], total) <= counts[i])
  {
    if n > 0 {
      ContributionFails(q, counts, total, n - 1);
    }
  }

  /** When it succeeds, the accumulation is the sum of the shares. */
  lemma {:induction false} ContributionSum(q: int, counts: seq<int>, total: int, n: nat)
    requires total != 0 && n <= |counts| && Contribution(q, counts, total, n).Some?
    ensures Contribution(q, counts, total, n).value == Sum(Shares(q, counts, total)[..n])
  {
    if n > 0 {
      ContributionSum(q, counts, total, n - 1);
      SumSnoc(Shares(q, counts, total), n - 1);
    }
  }

  /** A share that fits its count adds to the accumulation. */
  lemma ContributionGrows(q: int, counts: seq<int>, total: int, i: nat, s: int, k: int)
    requires total != 0 && i < |counts| && Contribution(q, counts, total, i) == Some(s)
    requires k == Share(q, counts[i], total) && 0 <= k <= counts[i]
    ensures Contribution(q, counts, total, i + 1) == Some(s + k)
  {
  }

  /** Once the accumulation has failed, it stays failed. */
  lemma {:induction false} ContributionStaysNone(q: int, counts: seq<int>, total: int, i: nat, n: nat)
    requires total != 0 && i <= n <= |counts| && Contribution(q, counts, total, i).None?
    ensures Contribution(q, counts, total, n).None?
  {
    if i < n {
      ContributionStaysNone(q, counts, total, i, n - 1);
    }
  }

  /** Some habitat's share of the quota q is not a size `random.sample` accepts from its
      count. */
  ghost predicate SomeShareMisfits(q: int, counts: seq<int>, total: int)
    requires total != 0
  {
    exists i :: 0 <= i < |counts| && !(0 <= Share(q, counts[i], total) <= counts[i])
  }

  /** The whole accumulation over a patch's counts: it fails exactly when some share does
      not fit its count, it is the sum of the shares when it succeeds, and a quota between 0
      and the total neither fails nor is exceeded. */
  lemma ContributionOutcome(q: int, counts: seq<int>, total: int)
    requires total == Sum(counts) && total != 0
    requires forall i :: 0 <= i < |counts| ==> counts[i] >= 0
    ensures Contribution(q, counts, total, |counts|).None? <==>
      SomeShareMisfits(q, counts, total)
    ensures Contribution(q, counts, total, |counts|).Some? ==>
      Contribution(q, counts, total, |counts|).value == Sum(Shares(q, counts, total))
    ensures 0 <= q <= total ==>
      Contribution(q, counts, total, |counts|).Some? && Contribution(q, counts, total, |counts|).value <= q
  {
    ContributionFails(q, counts, total, |counts|);
    if Contribution(q, counts, total, |counts|).Some? {
      ContributionSum(q, counts, total, |counts|);
      assert Shares(q, counts, total)[..|counts|] == Shares(q, counts, total);
    }
    if 0 <= q {
      SumNonNegative(counts);
      SharesWithinQuota(q, counts, total);
    }
  }

  lemma {:induction false} SumsAdd(a: seq<int>, b: seq<int>, c: seq<int>)
    requires |a| == |b| == |c| && forall i :: 0 <= i < |a| ==> a[i] + b[i] == c[i]
    ensures Sum(a) + Sum(b) == Sum(c)
  {
    if a != [] {
      var n := |a| - 1;
      SumsAdd(a[..n], b[..n], c[..n]);
    }
  }

  /** The position of key n in the key order. */
  function Find(names: seq<string>, n: string): (i: nat)
    requires n in names
    ensures i < |names| && names[i] == n && n !in names[..i]
  {
    if names[0] == n then 0 else 1 + Find(names[1..], n)
  }

  /** `(h_id, ) + pos` entries name their habitat and position. */
  lemma TagMembers(name: string, ps: seq<Pos>)
    ensures forall e: (string, Pos) :: e in Tag(name, ps) <==> e.0 == name && e.1 in ps
  {
    forall e: (string, Pos) | e.0 == name && e.1 in ps ensures e in Tag(name, ps) {
      var k :| 0 <= k < |ps| && ps[k] == e.1;
      assert Tag(name, ps)[k] == e;
    }
  }

  // ---------------------------------------------------------------- the habitat loops of dispersal among patches

  /** Distinct keys make distinct habitat objects. */
  lemma DistinctHabitats(hs: seq<Habitat>)
    requires NoDup(Names(hs))
    ensures NoDup(hs)
  {
    forall j, k | 0 <= j < k < |hs|
      ensures hs[j] != hs[k]
    {
      assert Names(hs)[j] != Names(hs)[k];
    }
  }

  /** The shuffle draws perm(i) fit the index lists of habitat i. */
  ghost predicate PermsFit(hs: seq<Habitat>, perm: nat -> (string, Gender) -> seq<nat>)
    reads hs
  {
    forall i {:trigger PermFits(hs[i].speciesCategory, perm(i))} :: 0 <= i < |hs| ==>
      PermFits(hs[i].speciesCategory, perm(i))
  }

  /** Habitat h keeps its invariant and its pair count is c. */
  ghost predicate Kept(h: Habitat, c: int)
    reads h
  {
    h.Valid() && PairCount(h.speciesOrder, h.speciesCategory) == c
  }

  /** The loop of `get_patch_sexual_pairwise_parents_num` over habitats hs in key order, with
      pair counts counts: habitat i shuffles its index lists with perm(i)
      (`hab_sexual_pairwise_parents_num`), and the pair counts, which shuffling keeps, add
      up.  Only index lists change. */
  method ShuffleCounts(hs: seq<Habitat>, ghost counts: seq<nat>, perm: nat -> (string, Gender) -> seq<nat>)
    returns (n: int)
    requires NoDup(hs) && PermsFit(hs, perm) && |counts| == |hs|
    requires forall j {:trigger Kept(hs[j], counts[j])} :: 0 <= j < |hs| ==> Kept(hs[j], counts[j])
    modifies hs`speciesCategory
    ensures forall j {:trigger Kept(hs[j], counts[j])} :: 0 <= j < |hs| ==> Kept(hs[j], counts[j])
    ensures forall j {:trigger hs[j].speciesCategory} :: 0 <= j < |hs| ==>
      hs[j].speciesCategory == ShuffleAll(old(hs[j].speciesCategory), hs[j].speciesOrder, perm(j))
    ensures n == Sum(counts)
  {
    n := 0;
    for i := 0 to |hs|
      invariant forall j {:trigger Kept(hs[j], counts[j])} :: 0 <= j < |hs| ==> Kept(hs[j], counts[j])
      invariant forall j {:trigger hs[j].speciesCategory} :: 0 <= j < |hs| ==>
        hs[j].speciesCategory ==
          if j < i then ShuffleAll(old(hs[j].speciesCategory), hs[j].speciesOrder, perm(j))
          else old(hs[j].speciesCategory)
      invariant n == Sum(counts[..i])
    {
      var h := hs[i];
      assert Kept(h, counts[i]) && h.speciesCategory == old(h.speciesCategory);
      assert PermFits(old(h.speciesCategory), perm(i));
      var k := h.PairwiseParentsNum(perm(i));
      PairCountShuffled(h.speciesOrder, old(h.speciesCategory), h.speciesOrder, perm(i));
      SumSnoc(counts, i);
      n := n + k;
    }
    assert counts[..|hs|] == counts;
  }

  /** Pair counts that agree with counts at every habitat are counts. */
  lemma PairCountsPointwise(hs: seq<Habitat>, counts: seq<nat>)
    requires |counts| == |hs|
    requires forall j {:trigger PairCount(hs[j].speciesOrder, hs[j].speciesCategory)} :: 0 <= j < |hs| ==>
      PairCount(hs[j].speciesOrder, hs[j].speciesCategory) == counts[j]
    ensures PairCounts(hs) == counts
  {
    var r := PairCounts(hs);
    forall j | 0 <= j < |hs|
      ensures r[j] == counts[j]
    {
      assert PairCount(hs[j].speciesOrder, hs[j].speciesCategory) == counts[j];
    }
  }

  /** The lists joined in order, as `+=` over the habitats joins their contributions. */
  function Flatten<T>(xss: seq<seq<T>>): seq<T> {
    if xss == [] then [] else Flatten(xss[..|xss| - 1]) + xss[|xss| - 1]
  }

  /** after is the index lists before shuffled with p1 and then with p2, both draws fitting
      the lists. */
  ghost predicate ShuffledTwice(before: Category, after: Category, order: seq<string>,
                                p1: (string, Gender) -> seq<nat>, p2: (string, Gender) -> seq<nat>)
  {
    PermFits(before, p1) && PermFits(before, p2) &&
    after == ShuffleAll(ShuffleAll(before, order, p1), order, p2)
  }

  /** after is the index lists before shuffled with p0, p1 and then p2, every draw fitting
      the lists. */
  ghost predicate ShuffledThrice(before: Category, after: Category, order: seq<string>,
                                 p0: (string, Gender) -> seq<nat>, p1: (string, Gender) -> seq<nat>,
                                 p2: (string, Gender) -> seq<nat>)
  {
    PermFits(before, p0) && PermFits(before, p1) && PermFits(before, p2) &&
    ShuffledTwice(ShuffleAll(before, order, p0), after, order, p1, p2)
  }

  /** Joining one more list appends it. */
  lemma FlattenSnoc<T>(xss: seq<seq<T>>, xs: seq<T>)
    ensures Flatten(xss + [xs]) == Flatten(xss) + xs
  {
    assert (xss + [xs])[..|xss|] == xss;
  }

  /** kids are the offspring of the occupants habitat h samples with pick from its occupied
      list: the m-th is the offspring, under draws(m), of the occupant at the m-th sampled
      microsite. */
  ghost predicate OccupantsKids(h: Habitat, pick: seq<nat>, kids: seq<Individual>, mrate: real,
                                draws: nat -> BirthDraw)
    reads h
  {
    IsSample(pick, |kids|, |h.occupiedSites|) &&
    forall m :: 0 <= m < |kids| ==>
      OccupantOffspring(h.microsites, Sample(h.occupiedSites, pick)[m], kids[m], mrate, draws(m))
  }

  /** kids are the offspring of the pairs habitat h samples with pick from the pairs of its
      current index lists: the m-th is the offspring, under draws(m), of the m-th sampled
      female and male. */
  ghost predicate PairsKids(h: Habitat, pick: seq<nat>, kids: seq<Individual>, mrate: real,
                            draws: nat -> BirthDraw)
    reads h
  {
    IsSample(pick, |kids|, |Pairs(h.speciesOrder, h.speciesCategory)|) &&
    forall m :: 0 <= m < |kids| ==>
      MateOffspring(h.microsites, Sample(Pairs(h.speciesOrder, h.speciesCategory), pick)[m], kids[m], mrate, draws(m))
  }

  /** One habitat's turn in `asex_reproduce_mutate_for_dispersal_among_patches`: the
      offspring of Share(q, n, total) of its n individuals, or the sampling error when that
      share is negative or above n. */
  method AsexShare(h: Habitat, mrate: real, q: int, total: int, pick: seq<nat>, draws: nat -> BirthDraw,
                   lens: seq<nat>) returns (r: Result<seq<Individual>>)
    requires total != 0 && h.Valid() && GridConforms(h.microsites, lens) && DrawsConform(draws, lens)
    requires var s := Share(q, h.indiNum, total);
      0 <= s <= h.indiNum ==> IsSample(pick, s, h.indiNum)
    ensures r.Ok? || r.SamplingError?
    ensures r.SamplingError? <==> !(0 <= Share(q, h.indiNum, total) <= h.indiNum)
    ensures r.Ok? ==> |r.value| == Share(q, h.indiNum, total)
    ensures r.Ok? ==> OccupantsKids(h, pick, r.value, mrate, draws)
  {
    var n := Share(q, h.indiNum, total);
    r := h.AsexReproduceWithNum(mrate, n, pick, draws, lens);
  }

  /** The first |segs| habitats of hs have given their contributions segs: segs[j] is the
      offspring of habitat j's share of sampled occupants. */
  ghost predicate OccupantsTaken(hs: seq<Habitat>, segs: seq<seq<Individual>>, mrate: real, q: int, total: int,
                                 picks: nat -> seq<nat>, draws: nat -> nat -> BirthDraw)
    reads hs
  {
    |segs| <= |hs| && total != 0 &&
    forall j {:trigger segs[j]} :: 0 <= j < |segs| ==>
      |segs[j]| == Share(q, hs[j].indiNum, total) && OccupantsKids(hs[j], picks(j), segs[j], mrate, draws(j))
  }

  /** The next habitat's contribution kids extends the contributions taken. */
  lemma OccupantsTakenSnoc(hs: seq<Habitat>, segs: seq<seq<Individual>>, kids: seq<Individual>, mrate: real,
                           q: int, total: int, picks: nat -> seq<nat>, draws: nat -> nat -> BirthDraw)
    requires OccupantsTaken(hs, segs, mrate, q, total, picks, draws) && |segs| < |hs|
    requires var i := |segs|;
      |kids| == Share(q, hs[i].indiNum, total) && OccupantsKids(hs[i], picks(i), kids, mrate, draws(i))
    ensures OccupantsTaken(hs, segs + [kids], mrate, q, total, picks, draws)
  {
    var s := segs + [kids];
    forall j | 0 <= j < |s|
      ensures |s[j]| == Share(q, hs[j].indiNum, total) && OccupantsKids(hs[j], picks(j), s[j], mrate, draws(j))
    {
      if j < |segs| {
        assert s[j] == segs[j];
      }
    }
  }

/** The loop of `asex_reproduce_mutate_for_dispersal_among_patches` over habitats hs in
      key order (index draw picks(i), offspring draws draws(i) for habitat i); it stops at
      the first share `random.sample` refuses.  On success the pool is the habitats'
      contributions segs joined in key order. */
  method AsexShares(hs: seq<Habitat>, mrate: real, q: int, total: int, picks: nat -> seq<nat>,
                    draws: nat -> nat -> BirthDraw, lens: seq<nat>)
    returns (r: Result<seq<Individual>>, ghost segs: seq<seq<Individual>>)
    requires total != 0
    requires forall j {:trigger hs[j].Valid()} :: 0 <= j < |hs| ==> hs[j].Valid()
    requires forall j {:trigger GridConforms(hs[j].microsites, lens)} :: 0 <= j < |hs| ==> GridConforms(hs[j].microsites, lens)
    requires forall i :: DrawsConform(draws(i), lens)
    requires forall j {:trigger picks(j)} :: 0 <= j < |hs| ==>
      var s := Share(q, hs[j].indiNum, total);
      0 <= s <= hs[j].indiNum ==> IsSample(picks(j), s, hs[j].indiNum)
    ensures r.Ok? || r.SamplingError?
    ensures r.SamplingError? <==> Contribution(q, IndiNums(hs), total, |hs|).None?
    ensures r.Ok? ==> Contribution(q, IndiNums(hs), total, |hs|) == Some(|r.value|)
    ensures r.Ok? ==> |segs| == |hs| && r.value == Flatten(segs)
    ensures r.Ok? ==> OccupantsTaken(hs, segs, mrate, q, total, picks, draws)
  {
    ghost var counts := IndiNums(hs);
    var pool := [];
    segs := [];
    for i := 0 to |hs|
      invariant Contribution(q, counts, total, i) == Some(|pool|)
      invariant |segs| == i && pool == Flatten(segs)
      invariant OccupantsTaken(hs, segs, mrate, q, total, picks, draws)
    {
      var kids := AsexShare(hs[i], mrate, q, total, picks(i), draws(i), lens);
      if kids.SamplingError? {
        ContributionStaysNone(q, counts, total, i + 1, |hs|);
        return SamplingError, segs;
      }
      PoolGrows(q, counts, total, i, segs, pool, kids.value);
      OccupantsTakenSnoc(hs, segs, kids.value, mrate, q, total, picks, draws);
      pool := pool + kids.value;
      segs := segs + [kids.value];
    }
    r := Ok(pool);
  }

  /** Some share misfits the population counts exactly when it misfits some habitat's
      population. */
  lemma HabitatShareMisfits(hs: seq<Habitat>, q: int, total: int)
    requires total != 0
    ensures SomeShareMisfits(q, IndiNums(hs), total) <==>
      exists i :: 0 <= i < |hs| && !(0 <= Share(q, hs[i].indiNum, total) <= hs[i].indiNum)
  {
    var counts := IndiNums(hs);
    if SomeShareMisfits(q, counts, total) {
      var i :| 0 <= i < |counts| && !(0 <= Share(q, counts[i], total) <= counts[i]);
      assert !(0 <= Share(q, hs[i].indiNum, total) <= hs[i].indiNum);
    }
    if exists i :: 0 <= i < |hs| && !(0 <= Share(q, hs[i].indiNum, total) <= hs[i].indiNum) {
      var i :| 0 <= i < |hs| && !(0 <= Share(q, hs[i].indiNum, total) <= hs[i].indiNum);
      assert !(0 <= Share(q, counts[i], total) <= counts[i]);
    }
  }

  /** The body of `asex_reproduce_mutate_for_dispersal_among_patches` over habitats hs in
      key order with total population total != 0: the sampling error exactly when some
      habitat's share misfits its population; otherwise the contributions segs joined in key
      order, as many as the shares add up to, and at most q when 0 <= q <= total. */
  method AsexAmong(hs: seq<Habitat>, mrate: real, q: int, total: int, picks: nat -> seq<nat>,
                   draws: nat -> nat -> BirthDraw, lens: seq<nat>)
    returns (r: Result<seq<Individual>>, ghost segs: seq<seq<Individual>>)
    requires total == Sum(IndiNums(hs)) && total != 0
    requires forall j {:trigger hs[j].Valid()} :: 0 <= j < |hs| ==> hs[j].Valid()
    requires forall j {:trigger GridConforms(hs[j].microsites, lens)} :: 0 <= j < |hs| ==> GridConforms(hs[j].microsites, lens)
    requires forall i :: DrawsConform(draws(i), lens)
    requires forall i :: 0 <= i < |hs| ==>
      var s := Share(q, hs[i].indiNum, total);
      0 <= s <= hs[i].indiNum ==> IsSample(picks(i), s, hs[i].indiNum)
    ensures r.Ok? || r.SamplingError?
    ensures r.SamplingError? <==>
      exists i :: 0 <= i < |hs| && !(0 <= Share(q, hs[i].indiNum, total) <= hs[i].indiNum)
    ensures r.Ok? ==> |r.value| == Sum(Shares(q, IndiNums(hs), total))
    ensures 0 <= q <= total ==> r.Ok? && |r.value| <= q
    ensures r.Ok? ==> |segs| == |hs| && r.value == Flatten(segs)
    ensures r.Ok? ==> OccupantsTaken(hs, segs, mrate, q, total, picks, draws)
  {
    ghost var counts := IndiNums(hs);
    forall j | 0 <= j < |hs|
      ensures counts[j] >= 0
    {
      assert hs[j].Valid();
    }
    r, segs := AsexShares(hs, mrate, q, total, picks, draws, lens);
    ContributionOutcome(q, counts, total);
    HabitatShareMisfits(hs, q, total);
  }

  /** What one habitat's turn in `sex_reproduce_mutate_for_dispersal_among_patches` needs: its
      invariant and its pair count c, traits as `geno_len_ls` describes, shuffle draws that
      fit its index lists, and an index draw for its share of the quota q out of total
      pairs. */
  ghost predicate ReadyToBreed(h: Habitat, c: int, q: int, total: int, permShare: (string, Gender) -> seq<nat>,
                               permBreed: (string, Gender) -> seq<nat>, pick: seq<nat>,
                               draws: nat -> BirthDraw, lens: seq<nat>)
    reads h
  {
    total != 0 && Kept(h, c) && GridConforms(h.microsites, lens) && DrawsConform(draws, lens) &&
    PermFits(h.speciesCategory, permShare) && PermFits(h.speciesCategory, permBreed) &&
    var s := Share(q, c, total);
    0 <= s <= c ==> IsSample(pick, s, c)
  }

  /** One habitat's turn in `sex_reproduce_mutate_for_dispersal_among_patches`: the habitat
      counts its c pairs (`hab_sexual_pairwise_parents_num`, shuffling with permShare), then
      gives the offspring of Share(q, c, total) pairs (`hab_sex_reproduce_mutate_with_num`,
      shuffling with permBreed), or the sampling error when that share is negative or above
      c.  Only the index lists change, and they keep their pair count. */
  method SexShare(h: Habitat, ghost c: int, mrate: real, q: int, total: int, permShare: (string, Gender) -> seq<nat>,
                  permBreed: (string, Gender) -> seq<nat>, pick: seq<nat>, draws: nat -> BirthDraw,
                  lens: seq<nat>) returns (r: Result<seq<Individual>>)
    requires ReadyToBreed(h, c, q, total, permShare, permBreed, pick, draws, lens)
    modifies h`speciesCategory
    ensures Kept(h, c)
    ensures r.Ok? || r.SamplingError?
    ensures r.SamplingError? <==> !(0 <= Share(q, c, total) <= c)
    ensures r.Ok? ==> |r.value| == Share(q, c, total)
    ensures ShuffledTwice(old(h.speciesCategory), h.speciesCategory, h.speciesOrder, permShare, permBreed)
    ensures r.Ok? ==> PairsKids(h, pick, r.value, mrate, draws)
  {
    var k := h.PairwiseParentsNum(permShare);
    var n := Share(q, k, total);
    PairCountShuffled(h.speciesOrder, old(h.speciesCategory), h.speciesOrder, permShare);
    ghost var cat := h.speciesCategory;
    assert PermFits(cat, permBreed);
    r := h.SexReproduceWithNum(mrate, n, permBreed, pick, draws, lens);
    PairCountShuffled(h.speciesOrder, cat, h.speciesOrder, permBreed);
  }

  /** The index lists of each habitat. */
  ghost function Categories(hs: seq<Habitat>): (r: seq<Category>)
    reads hs
    ensures |r| == |hs| && forall j :: 0 <= j < |hs| ==> r[j] == hs[j].speciesCategory
  {
    seq(|hs|, j requires 0 <= j < |hs| reads hs => hs[j].speciesCategory)
  }

  /** The habitats done, the first |done| in key order, have taken their turns from the index
      lists cats: each keeps its invariant and its pair count, its lists went through both
      shuffles, and segs[j] is its contribution, the offspring of its share of sampled
      pairs. */
  ghost predicate TurnsTaken(done: seq<Habitat>, counts: seq<nat>, cats: seq<Category>,
                             segs: seq<seq<Individual>>, mrate: real, q: int, total: int,
                             permShare: nat -> (string, Gender) -> seq<nat>,
                             permBreed: nat -> (string, Gender) -> seq<nat>, picks: nat -> seq<nat>,
                             draws: nat -> nat -> BirthDraw)
    reads done
  {
    |segs| == |done| <= |counts| && |done| <= |cats| && total != 0 &&
    forall j {:trigger segs[j]} :: 0 <= j < |done| ==>
      Kept(done[j], counts[j]) &&
      ShuffledTwice(cats[j], done[j].speciesCategory, done[j].speciesOrder, permShare(j), permBreed(j)) &&
      |segs[j]| == Share(q, counts[j], total) && PairsKids(done[j], picks(j), segs[j], mrate, draws(j))
  }

  /** Habitats i .. of hs are still ready for their turns, with the index lists cats. */
  ghost predicate TurnsAhead(hs: seq<Habitat>, counts: seq<nat>, cats: seq<Category>, i: nat, q: int, total: int,
                             permShare: nat -> (string, Gender) -> seq<nat>,
                             permBreed: nat -> (string, Gender) -> seq<nat>, picks: nat -> seq<nat>,
                             draws: nat -> nat -> BirthDraw, lens: seq<nat>)
    reads hs
  {
    |counts| == |hs| && |cats| == |hs| &&
    forall j {:trigger cats[j]} :: i <= j < |hs| ==>
      hs[j].speciesCategory == cats[j] &&
      ReadyToBreed(hs[j], counts[j], q, total, permShare(j), permBreed(j), picks(j), draws(j), lens)
  }

  /** The turn of the next habitat h, taken from its index lists with contribution kids,
      extends the turns taken. */
  lemma TurnsTakenSnoc(done: seq<Habitat>, h: Habitat, counts: seq<nat>, cats: seq<Category>,
                       segs: seq<seq<Individual>>, kids: seq<Individual>, mrate: real, q: int, total: int,
                       permShare: nat -> (string, Gender) -> seq<nat>,
                       permBreed: nat -> (string, Gender) -> seq<nat>, picks: nat -> seq<nat>,
                       draws: nat -> nat -> BirthDraw)
    requires TurnsTaken(done, counts, cats, segs, mrate, q, total, permShare, permBreed, picks, draws)
    requires |done| < |counts| && |done| < |cats|
    requires var i := |done|;
      Kept(h, counts[i]) &&
      ShuffledTwice(cats[i], h.speciesCategory, h.speciesOrder, permShare(i), permBreed(i)) &&
      |kids| == Share(q, counts[i], total) && PairsKids(h, picks(i), kids, mrate, draws(i))
    ensures TurnsTaken(done + [h], counts, cats, segs + [kids], mrate, q, total, permShare, permBreed, picks, draws)
  {
    var d, s := done + [h], segs + [kids];
    forall j | 0 <= j < |d|
      ensures Kept(d[j], counts[j]) &&
        ShuffledTwice(cats[j], d[j].speciesCategory, d[j].speciesOrder, permShare(j), permBreed(j)) &&
        |s[j]| == Share(q, counts[j], total) && PairsKids(d[j], picks(j), s[j], mrate, draws(j))
    {
      if j < |done| {
        assert s[j] == segs[j] && d[j] == done[j];
      }
    }
  }

  /** Habitat i of hs takes its turn (SexShare) from its index lists cats[i]: the habitats
      before it have taken theirs, and the habitats after it stay ready for their own.  On
      success its contribution extends segs. */
  method SexTurn(hs: seq<Habitat>, ghost counts: seq<nat>, ghost cats: seq<Category>, ghost segs: seq<seq<Individual>>,
                 i: nat, mrate: real, q: int, total: int,
                 permShare: nat -> (string, Gender) -> seq<nat>, permBreed: nat -> (string, Gender) -> seq<nat>,
                 picks: nat -> seq<nat>, draws: nat -> nat -> BirthDraw, lens: seq<nat>)
    returns (r: Result<seq<Individual>>)
    requires NoDup(hs) && i < |hs|
    requires TurnsTaken(hs[..i], counts, cats, segs, mrate, q, total, permShare, permBreed, picks, draws)
    requires TurnsAhead(hs, counts, cats, i, q, total, permShare, permBreed, picks, draws, lens)
    modifies hs`speciesCategory
    ensures TurnsTaken(hs[..i], counts, cats, segs, mrate, q, total, permShare, permBreed, picks, draws)
    ensures TurnsAhead(hs, counts, cats, i + 1, q, total, permShare, permBreed, picks, draws, lens)
    ensures Kept(hs[i], counts[i])
    ensures r.Ok? || r.SamplingError?
    ensures r.SamplingError? <==> !(0 <= Share(q, counts[i], total) <= counts[i])
    ensures r.Ok? ==> |r.value| == Share(q, counts[i], total)
    ensures r.Ok? ==> TurnsTaken(hs[..i + 1], counts, cats, segs + [r.value], mrate, q, total, permShare, permBreed, picks, draws)
  {
    assert hs[i].speciesCategory == cats[i] &&
      ReadyToBreed(hs[i], counts[i], q, total, permShare(i), permBreed(i), picks(i), draws(i), lens);
    r := SexShare(hs[i], counts[i], mrate, q, total, permShare(i), permBreed(i), picks(i), draws(i), lens);
    forall j | 0 <= j < |hs| && j != i
      ensures unchanged(hs[j])
    {
      assert hs[j] != hs[i];
    }
    assert unchanged(hs[..i]);
    forall j | i + 1 <= j < |hs|
      ensures hs[j].speciesCategory == cats[j] &&
        ReadyToBreed(hs[j], counts[j], q, total, permShare(j), permBreed(j), picks(j), draws(j), lens)
    {
      assert unchanged(hs[j]) && old(hs[j].speciesCategory) == cats[j];
      assert old(ReadyToBreed(hs[j], counts[j], q, total, permShare(j), permBreed(j), picks(j), draws(j), lens));
    }
    if r.Ok? {
      TurnsTakenSnoc(hs[..i], hs[i], counts, cats, segs, r.value, mrate, q, total, permShare, permBreed, picks, draws);
      assert hs[..i] + [hs[i]] == hs[..i + 1];
    }
  }

  /** Habitat i's contribution kids, of its whole share, extends the pool joined from segs
      and its running size. */
  lemma PoolGrows(q: int, counts: seq<int>, total: int, i: nat, segs: seq<seq<Individual>>,
                  pool: seq<Individual>, kids: seq<Individual>)
    requires total != 0 && i < |counts| && Contribution(q, counts, total, i) == Some(|pool|)
    requires pool == Flatten(segs)
    requires |kids| == Share(q, counts[i], total) && 0 <= Share(q, counts[i], total) <= counts[i]
    ensures Contribution(q, counts, total, i + 1) == Some(|pool + kids|)
    ensures pool + kids == Flatten(segs + [kids])
  {
    ContributionGrows(q, counts, total, i, |pool|, |kids|);
    FlattenSnoc(segs, kids);
  }

  /** When the first i habitats have taken their turns, habitat i keeps its invariant and
      every later one is ready, every habitat keeps its invariant and pair count. */
  lemma TurnsKept(hs: seq<Habitat>, counts: seq<nat>, cats: seq<Category>, i: nat,
                  segs: seq<seq<Individual>>, mrate: real, q: int, total: int,
                  permShare: nat -> (string, Gender) -> seq<nat>,
                  permBreed: nat -> (string, Gender) -> seq<nat>, picks: nat -> seq<nat>,
                  draws: nat -> nat -> BirthDraw, lens: seq<nat>)
    requires i <= |hs|
    requires TurnsTaken(hs[..i], counts, cats, segs, mrate, q, total, permShare, permBreed, picks, draws)
    requires TurnsAhead(hs, counts, cats, i + 1, q, total, permShare, permBreed, picks, draws, lens)
    requires i < |hs| ==> Kept(hs[i], counts[i])
    ensures forall j {:trigger Kept(hs[j], counts[j])} :: 0 <= j < |hs| ==> Kept(hs[j], counts[j])
  {
    forall j | 0 <= j < |hs|
      ensures Kept(hs[j], counts[j])
    {
      if j < i {
        assert segs[j] == segs[j] && hs[..i][j] == hs[j];
      } else if j > i {
        assert cats[j] == cats[j];
      }
    }
  }

  /** Once every habitat has taken its turn, each keeps its invariant, its lists went
      through both shuffles from cats, and segs holds the contributions. */
  lemma TurnsComplete(hs: seq<Habitat>, counts: seq<nat>, cats: seq<Category>, segs: seq<seq<Individual>>,
                      mrate: real, q: int, total: int, permShare: nat -> (string, Gender) -> seq<nat>,
                      permBreed: nat -> (string, Gender) -> seq<nat>, picks: nat -> seq<nat>,
                      draws: nat -> nat -> BirthDraw)
    requires TurnsTaken(hs, counts, cats, segs, mrate, q, total, permShare, permBreed, picks, draws)
    ensures |segs| == |hs|
    ensures forall j {:trigger Kept(hs[j], counts[j])} :: 0 <= j < |hs| ==> Kept(hs[j], counts[j])
    ensures forall j {:trigger hs[j].speciesCategory} :: 0 <= j < |hs| ==>
      ShuffledTwice(cats[j], hs[j].speciesCategory, hs[j].speciesOrder, permShare(j), permBreed(j))
    ensures forall j {:trigger segs[j]} :: 0 <= j < |hs| ==>
      |segs[j]| == Share(q, counts[j], total) && PairsKids(hs[j], picks(j), segs[j], mrate, draws(j))
  {
    forall j | 0 <= j < |hs|
      ensures Kept(hs[j], counts[j])
      ensures ShuffledTwice(cats[j], hs[j].speciesCategory, hs[j].speciesOrder, permShare(j), permBreed(j))
    {
      assert segs[j] == segs[j];
    }
  }

  /** The breeding loop of `sex_reproduce_mutate_for_dispersal_among_patches` over habitats
      hs in key order with pair counts counts: habitat i takes its turn (SexShare, with draws
      permShare(i), permBreed(i), picks(i) and draws(i)); the loop stops at the first share
      `random.sample` refuses.  Only index lists change, and they keep their pair counts.  On
      success every habitat's lists went through both shuffles, and the pool is the
      contributions segs joined in key order. */
  method SexShares(hs: seq<Habitat>, ghost counts: seq<nat>, mrate: real, q: int, total: int,
                   permShare: nat -> (string, Gender) -> seq<nat>, permBreed: nat -> (string, Gender) -> seq<nat>,
                   picks: nat -> seq<nat>, draws: nat -> nat -> BirthDraw, lens: seq<nat>)
    returns (r: Result<seq<Individual>>, ghost segs: seq<seq<Individual>>)
    requires total != 0 && NoDup(hs) && |counts| == |hs|
    requires forall j {:trigger ReadyToBreed(hs[j], counts[j], q, total, permShare(j), permBreed(j), picks(j), draws(j), lens)} ::
      0 <= j < |hs| ==> ReadyToBreed(hs[j], counts[j], q, total, permShare(j), permBreed(j), picks(j), draws(j), lens)
    modifies hs`speciesCategory
    ensures forall j {:trigger Kept(hs[j], counts[j])} :: 0 <= j < |hs| ==> Kept(hs[j], counts[j])
    ensures r.Ok? || r.SamplingError?
    ensures r.SamplingError? <==> Contribution(q, counts, total, |hs|).None?
    ensures r.Ok? ==> Contribution(q, counts, total, |hs|) == Some(|r.value|)
    ensures r.Ok? ==> forall j {:trigger hs[j].speciesCategory} :: 0 <= j < |hs| ==>
      ShuffledTwice(old(hs[j].speciesCategory), hs[j].speciesCategory, hs[j].speciesOrder, permShare(j), permBreed(j))
    ensures r.Ok? ==> |segs| == |hs| && r.value == Flatten(segs)
    ensures r.Ok? ==> forall j {:trigger segs[j]} :: 0 <= j < |hs| ==>
      |segs[j]| == Share(q, counts[j], total) && PairsKids(hs[j], picks(j), segs[j], mrate, draws(j))
  {
    ghost var cats := Categories(hs);
    var pool := [];
    segs := [];
    for i := 0 to |hs|
      invariant TurnsTaken(hs[..i], counts, cats, segs, mrate, q, total, permShare, permBreed, picks, draws)
      invariant TurnsAhead(hs, counts, cats, i, q, total, permShare, permBreed, picks, draws, lens)
      invariant Contribution(q, counts, total, i) == Some(|pool|)
      invariant pool == Flatten(segs)
    {
      var kids := SexTurn(hs, counts, cats, segs, i, mrate, q, total, permShare, permBreed, picks, draws, lens);
      if kids.SamplingError? {
        ContributionStaysNone(q, counts, total, i + 1, |hs|);
        TurnsKept(hs, counts, cats, i, segs, mrate, q, total, permShare, permBreed, picks, draws, lens);
        return SamplingError, segs;
      }
      PoolGrows(q, counts, total, i, segs, pool, kids.value);
      pool := pool + kids.value;
      segs := segs + [kids.value];
    }
    assert hs[..|hs|] == hs;
    TurnsComplete(hs, counts, cats, segs, mrate, q, total, permShare, permBreed, picks, draws);
    r := Ok(pool);
  }

  /** The body of `sex_reproduce_mutate_for_dispersal_among_patches` over habitats hs in
      key order with pair counts counts: the shuffling count pass (ShuffleCounts with
      permCount), nothing when q or the total is 0, and otherwise the breeding loop
      (SexShares).  Only index lists change, and they keep their pair counts.  On success
      every habitat's lists went through the three shuffles, and the pool is the
      contributions segs joined in key order: habitat i's has int(q * (p_i / P)) members, the
      offspring of the pairs picks(i) samples from its reshuffled lists. */
  method SexAmong(hs: seq<Habitat>, ghost counts: seq<nat>, mrate: real, q: int,
                  permCount: nat -> (string, Gender) -> seq<nat>,
                  permShare: nat -> (string, Gender) -> seq<nat>,
                  permBreed: nat -> (string, Gender) -> seq<nat>,
                  picks: nat -> seq<nat>, draws: nat -> nat -> BirthDraw, lens: seq<nat>)
    returns (r: Result<seq<Individual>>, ghost segs: seq<seq<Individual>>)
    requires NoDup(hs) && |counts| == |hs|
    requires forall j {:trigger Kept(hs[j], counts[j])} :: 0 <= j < |hs| ==> Kept(hs[j], counts[j])
    requires forall j {:trigger GridConforms(hs[j].microsites, lens)} :: 0 <= j < |hs| ==> GridConforms(hs[j].microsites, lens)
    requires forall i :: DrawsConform(draws(i), lens)
    requires PermsFit(hs, permCount) && PermsFit(hs, permShare) && PermsFit(hs, permBreed)
    requires Sum(counts) != 0 ==> forall i :: 0 <= i < |hs| ==>
      var s := Share(q, counts[i], Sum(counts));
      0 <= s <= counts[i] ==> IsSample(picks(i), s, counts[i])
    modifies hs`speciesCategory
    ensures forall j {:trigger Kept(hs[j], counts[j])} :: 0 <= j < |hs| ==> Kept(hs[j], counts[j])
    ensures r.Ok? || r.SamplingError?
    ensures q == 0 || Sum(counts) == 0 ==> r == Ok([])
    ensures r.SamplingError? <==> (q != 0 && Sum(counts) != 0 &&
      SomeShareMisfits(q, counts, Sum(counts)))
    ensures r.Ok? && q != 0 && Sum(counts) != 0 ==> |r.value| == Sum(Shares(q, counts, Sum(counts)))
    ensures 0 <= q <= Sum(counts) ==> r.Ok? && |r.value| <= q
    ensures q == 0 || Sum(counts) == 0 ==> forall j {:trigger hs[j].speciesCategory} :: 0 <= j < |hs| ==>
      hs[j].speciesCategory == ShuffleAll(old(hs[j].speciesCategory), hs[j].speciesOrder, permCount(j))
    ensures r.Ok? && q != 0 && Sum(counts) != 0 ==> forall j {:trigger hs[j].speciesCategory} :: 0 <= j < |hs| ==>
      ShuffledThrice(old(hs[j].speciesCategory), hs[j].speciesCategory, hs[j].speciesOrder, permCount(j), permShare(j),
                     permBreed(j))
    ensures r.Ok? && q != 0 && Sum(counts) != 0 ==> |segs| == |hs| && r.value == Flatten(segs)
    ensures r.Ok? && q != 0 && Sum(counts) != 0 ==> forall j {:trigger segs[j]} :: 0 <= j < |hs| ==>
      |segs[j]| == Share(q, counts[j], Sum(counts)) && PairsKids(hs[j], picks(j), segs[j], mrate, draws(j))
  {
    var total := ShuffleCounts(hs, counts, permCount);
    if q == 0 || total == 0 {
      return Ok([]), [];
    }
    forall j | 0 <= j < |hs|
      ensures ReadyToBreed(hs[j], counts[j], q, total, permShare(j), permBreed(j), picks(j), draws(j), lens)
    {
      var h := hs[j];
      assert Kept(h, counts[j]);
      assert PermFits(old(h.speciesCategory), permShare(j));
      assert PermFits(old(h.speciesCategory), permBreed(j));
      assert GridConforms(h.microsites, lens);
    }
    r, segs := SexShares(hs, counts, mrate, q, total, permShare, permBreed, picks, draws, lens);
    ContributionOutcome(q, counts, total);
  }

  // ---------------------------------------------------------------- dispersal within the patch from the offspring pools

  /** `int(len(h_empty_site_ls) * disp_within_rate)`: how many of a habitat's empty
      microsites the within-patch dispersal methods fill at most. */
  function WithinSiteNum(empty: int, rate: real): int {
    Trunc(empty as real * rate)
  }

  /** With a rate in [0, 1] the number is a size `random.sample` accepts from the empty list. */
  lemma WithinSiteNumFits(empty: nat, rate: real)
    requires 0.0 <= rate <= 1.0
    ensures 0 <= WithinSiteNum(empty, rate) <= empty
  {
    var e := empty as real;
    assert 0.0 <= e * rate by {
      assert 0.0 <= e && 0.0 <= rate;
    }
    assert e * rate <= e by {
      assert e - e * rate == e * (1.0 - rate);
      assert 0.0 <= e * (1.0 - rate);
    }
    var r := Trunc(e * rate);
    assert r as real <= e;
  }

  /** The disperser draw of one habitat's turn fits a pool of n offspring and k microsites:
      a sample of k when the pool is larger, a shuffle of the pool otherwise. */
  predicate PoolDrawFits(n: nat, k: nat, pick: seq<nat>, perm: seq<nat>) {
    if n > k then IsSample(pick, k, n) else IsPermutation(perm, n)
  }

  /** The dispersers of `patch_disp_within_from_offsprings_pool` for k chosen microsites:
      `random.sample(pool, k)` when the pool is larger, otherwise the whole pool shuffled in
      place.  Either way min(k, #pool) members of the pool, and all of it when it is not
      larger. */
  function PoolSettlers(pool: seq<Individual>, k: nat, pick: seq<nat>, perm: seq<nat>): (r: seq<Individual>)
    requires PoolDrawFits(|pool|, k, pick, perm)
    ensures |r| == Min(k, |pool|)
    ensures forall x :: x in r ==> x in pool
    ensures |pool| <= k ==> forall x :: x in pool ==> x in r
  {
    if |pool| > k then (SampleFromPopulation(pool, pick); Sample(pool, pick))
    else (ShuffleSameElements(pool, perm); Shuffle(pool, perm))
  }

  /** The draws of one habitat's turn with `empty` empty microsites and an offered pool of
      poolSize offspring fit: a sample of the microsites when its size is valid, and the
      disperser draw. */
  predicate PoolTurnDrawsFit(empty: nat, poolSize: nat, rate: real, pickSites: seq<nat>, pickPool: seq<nat>,
                             permPool: seq<nat>) {
    var k := WithinSiteNum(empty, rate);
    0 <= k <= empty ==> IsSample(pickSites, k, empty) && PoolDrawFits(poolSize, k, pickPool, permPool)
  }

  /** The (microsite, disperser) pairs of one habitat's turn: `zip` of the sampled empty
      microsites and the dispersers. */
  function PoolPlacement(empty: seq<Pos>, pool: seq<Individual>, rate: real, pickSites: seq<nat>,
                         pickPool: seq<nat>, permPool: seq<nat>): seq<(Pos, Individual)>
    requires PoolTurnDrawsFit(|empty|, |pool|, rate, pickSites, pickPool, permPool)
    requires 0 <= WithinSiteNum(|empty|, rate) <= |empty|
  {
    Zip(Sample(empty, pickSites), PoolSettlers(pool, WithinSiteNum(|empty|, rate), pickPool, permPool))
  }

  /** The outcome of one habitat's turn with `empty` empty microsites, the sample size
      k = int(#empty * rate), offered poolSize offspring: the number settled, min(k, #pool),
      or the sampling error when k is negative or above #empty. */
  function PoolOutcome(empty: nat, poolSize: nat, k: int): Result<nat> {
    if 0 <= k <= empty then Ok(Min(k, poolSize)) else SamplingError
  }

  /** One habitat's turn in `patch_disp_within_from_offsprings_pool`, offered the pool `pool`:
      `random.sample` draws int(#empty * rate) of its empty microsites (pickSites), the
      dispersers are drawn from the pool (PoolSettlers), and the i-th disperser settles on
      the i-th drawn microsite; the number settled is returned.  A negative sample size or
      one above #empty is the sampling error, raised before anything changes. */
  method PoolTurn(h: Habitat, pool: seq<Individual>, rate: real, pickSites: seq<nat>, pickPool: seq<nat>,
                  permPool: seq<nat>) returns (r: Result<nat>)
    requires h.Valid() && PoolTurnDrawsFit(|h.emptySites|, |pool|, rate, pickSites, pickPool, permPool)
    modifies h
    ensures h.Valid() && h.offspringPool == old(h.offspringPool) && h.dormancyPool == old(h.dormancyPool)
    ensures r == PoolOutcome(|old(h.emptySites)|, |pool|, WithinSiteNum(|old(h.emptySites)|, rate))
    ensures r.SamplingError? ==> h.State() == old(h.State())
    ensures r.Ok? ==>
      var ps := PoolPlacement(old(h.emptySites), pool, rate, pickSites, pickPool, permPool);
      r.value == |ps| && h.State() == PlaceAll(old(h.State()), ps) && h.indiNum == old(h.indiNum) + r.value &&
      forall i :: 0 <= i < |ps| ==> At(h.microsites, ps[i].0) == Some(ps[i].1) && ps[i].1 in pool
  {
    var k := WithinSiteNum(|h.emptySites|, rate);
    if k < 0 || k > |h.emptySites| {
      return SamplingError;
    }
    var sites := Sample(h.emptySites, pickSites);
    SampleFromPopulation(h.emptySites, pickSites);
    var settlers := PoolSettlers(pool, k, pickPool, permPool);
    var n := h.SettleOn(sites, settlers);
    r := Ok(n);
  }

  /** The states of the habitats, in key order. */
  ghost function States(hs: seq<Habitat>): (r: seq<Occupancy>)
    reads hs
    ensures |r| == |hs| && forall i :: 0 <= i < |hs| ==> r[i] == hs[i].State()
  {
    if hs == [] then [] else States(hs[..|hs| - 1]) + [hs[|hs| - 1].State()]
  }

  function DormancyPools(hs: seq<Habitat>): (r: seq<seq<Individual>>)
    reads hs
    ensures |r| == |hs| && forall i :: 0 <= i < |hs| ==> r[i] == hs[i].dormancyPool
  {
    if hs == [] then [] else DormancyPools(hs[..|hs| - 1]) + [hs[|hs| - 1].dormancyPool]
  }

  /** The pool `get_disp_within_offsprings_pool` offers each habitat, given the habitats'
      offspring pools xss. */
  function WithinPools(xss: seq<seq<Individual>>, names: seq<string>): (r: seq<seq<Individual>>)
    requires |xss| == |names|
    ensures |r| == |names| && forall i :: 0 <= i < |names| ==> r[i] == Gather(xss, names, Some(names[i]))
  {
    seq(|names|, i requires 0 <= i < |names| => Gather(xss, names, Some(names[i])))
  }

  /** The sample size int(#empty * rate) of each state. */
  function SiteNums(s0: seq<Occupancy>, rate: real): (r: seq<int>)
    ensures |r| == |s0| && forall i :: 0 <= i < |s0| ==> r[i] == WithinSiteNum(|s0[i].empty|, rate)
  {
    seq(|s0|, i requires 0 <= i < |s0| => WithinSiteNum(|s0[i].empty|, rate))
  }

  /** The sample size of state i of s0. */
  function SiteNumAt(s0: seq<Occupancy>, rate: real, i: nat): int
    requires i < |s0|
  {
    WithinSiteNum(|s0[i].empty|, rate)
  }

  /** ks are the sample sizes of s0, each read only where a turn asks for it. */
  ghost predicate SiteNumsOf(ks: seq<int>, s0: seq<Occupancy>, rate: real) {
    |ks| == |s0| && forall i {:trigger SiteNumAt(s0, rate, i)} :: 0 <= i < |s0| ==> ks[i] == SiteNumAt(s0, rate, i)
  }

  /** The number of empty microsites of each state. */
  function EmptyNums(s0: seq<Occupancy>): (r: seq<int>)
    ensures |r| == |s0| && forall i :: 0 <= i < |s0| ==> r[i] == |s0[i].empty|
  {
    seq(|s0|, i requires 0 <= i < |s0| => |s0[i].empty|)
  }

  /** The draws of every habitat's turn fit, the habitats having states s0 and being offered
      the pools `pools` when their turns come. */
  predicate PoolDrawsFit(s0: seq<Occupancy>, pools: seq<seq<Individual>>, rate: real, pickSites: nat -> seq<nat>,
                         pickPool: nat -> seq<nat>, permPool: nat -> seq<nat>)
    requires |s0| == |pools|
  {
    forall j {:trigger PoolTurnDrawsFit(|s0[j].empty|, |pools[j]|, rate, pickSites(j), pickPool(j), permPool(j))} ::
      0 <= j < |s0| ==> PoolTurnDrawsFit(|s0[j].empty|, |pools[j]|, rate, pickSites(j), pickPool(j), permPool(j))
  }

  /** What `patch_disp_within_from_offsprings_pool` adds to its counter over the first n
      habitats, with states s0, sample sizes ks and offered pools `pools`: the sum of their
      turns' outcomes, or None once a turn is the sampling error. */
  function PoolTally(s0: seq<Occupancy>, pools: seq<seq<Individual>>, ks: seq<int>, n: nat): Option<int>
    requires n <= |s0| == |pools| == |ks|
  {
    if n == 0 then Some(0)
    else
      match PoolTally(s0, pools, ks, n - 1)
      case None => None
      case Some(s) =>
        match PoolOutcome(|s0[n - 1].empty|, |pools[n - 1]|, ks[n - 1])
        case Ok(m) => Some(s + m)
        case _ => None
  }

  /** Some habitat among the first n draws a sample size `random.sample` refuses. */
  ghost predicate SomeSiteNumMisfits(s0: seq<Occupancy>, ks: seq<int>, n: nat)
    requires n <= |s0| == |ks|
  {
    exists j :: 0 <= j < n && !(0 <= ks[j] <= |s0[j].empty|)
  }

  /** The tally fails exactly when some habitat's sample size is one `random.sample` refuses. */
  lemma {:induction false} PoolTallyFails(s0: seq<Occupancy>, pools: seq<seq<Individual>>, ks: seq<int>, n: nat)
    requires n <= |s0| == |pools| == |ks|
    ensures PoolTally(s0, pools, ks, n).None? <==> SomeSiteNumMisfits(s0, ks, n)
  {
    if n > 0 {
      PoolTallyFails(s0, pools, ks, n - 1);
      if SomeSiteNumMisfits(s0, ks, n - 1) {
        var j :| 0 <= j < n - 1 && !(0 <= ks[j] <= |s0[j].empty|);
        assert 0 <= j < n;
      } else if !(0 <= ks[n - 1] <= |s0[n - 1].empty|) {
        assert SomeSiteNumMisfits(s0, ks, n);
      }
    }
  }

  /** A tally that succeeds settles no more individuals than there were empty microsites, nor
      more than the pools offered. */
  lemma {:induction false} PoolTallyBounds(s0: seq<Occupancy>, pools: seq<seq<Individual>>, ks: seq<int>, n: nat)
    requires n <= |s0| == |pools| == |ks| && PoolTally(s0, pools, ks, n).Some?
    ensures 0 <= PoolTally(s0, pools, ks, n).value <= Sum(EmptyNums(s0)[..n])
    ensures PoolTally(s0, pools, ks, n).value <= Sum(Lengths(pools)[..n])
  {
    if n > 0 {
      PoolTallyBounds(s0, pools, ks, n - 1);
      var t := PoolTally(s0, pools, ks, n - 1).value;
      var k := ks[n - 1];
      assert 0 <= k <= |s0[n - 1].empty| && PoolTally(s0, pools, ks, n).value == t + Min(k, |pools[n - 1]|);
      SumSnoc(EmptyNums(s0), n - 1);
      SumSnoc(Lengths(pools), n - 1);
    }
  }

  /** With a rate in [0, 1] no sample size is refused. */
  lemma PoolTallyRate(s0: seq<Occupancy>, pools: seq<seq<Individual>>, rate: real)
    requires |s0| == |pools| && 0.0 <= rate <= 1.0
    ensures PoolTally(s0, pools, SiteNums(s0, rate), |s0|).Some?
  {
    PoolTallyFails(s0, pools, SiteNums(s0, rate), |s0|);
    forall j | 0 <= j < |s0|
      ensures 0 <= WithinSiteNum(|s0[j].empty|, rate) <= |s0[j].empty|
    {
      WithinSiteNumFits(|s0[j].empty|, rate);
    }
  }

  /** Once the tally has failed, it stays failed. */
  lemma {:induction false} PoolTallyStaysNone(s0: seq<Occupancy>, pools: seq<seq<Individual>>, ks: seq<int>, i: nat, n: nat)
    requires i <= n <= |s0| == |pools| == |ks| && PoolTally(s0, pools, ks, i).None?
    ensures PoolTally(s0, pools, ks, n).None?
  {
    if i < n {
      PoolTallyStaysNone(s0, pools, ks, i, n - 1);
    }
  }

  /** Habitats i and j of hs, when distinct indexes, are distinct objects. */
  ghost predicate Apart(hs: seq<Habitat>, i: int, j: int) {
    0 <= i < |hs| && 0 <= j < |hs| && i != j ==> hs[i] != hs[j]
  }

  /** NoDup(hs), instantiated only where a step asks for two habitats to be apart. */
  ghost predicate Separate(hs: seq<Habitat>) {
    forall i, j {:trigger Apart(hs, i, j)} :: Apart(hs, i, j)
  }

  lemma SeparateHabitats(hs: seq<Habitat>)
    requires NoDup(hs)
    ensures Separate(hs)
  {
    forall i, j ensures Apart(hs, i, j) {
      if 0 <= i < |hs| && 0 <= j < |hs| && i != j {
        if i < j {
          assert hs[i] != hs[j];
        } else {
          assert hs[j] != hs[i];
        }
      }
    }
  }

  /** Habitat h keeps its invariant and its state is o. */
  ghost predicate Untouched(h: Habitat, o: Occupancy)
    reads h
  {
    h.Valid() && h.State() == o
  }

  /** Habitat h's pools are off and dorm. */
  ghost predicate PoolsKept(h: Habitat, off: seq<Individual>, dorm: seq<Individual>)
    reads h
  {
    h.offspringPool == off && h.dormancyPool == dorm
  }

  /** Habitat h, whose state was o, has taken its turn with the offered pool `pool` and the
      given draws, and keeps its invariant. */
  ghost predicate PoolSettled(h: Habitat, o: Occupancy, pool: seq<Individual>, rate: real, pickSites: seq<nat>,
                              pickPool: seq<nat>, permPool: seq<nat>)
    reads h
  {
    h.Valid() && PoolTurnDrawsFit(|o.empty|, |pool|, rate, pickSites, pickPool, permPool) &&
    0 <= WithinSiteNum(|o.empty|, rate) <= |o.empty| &&
    h.State() == PlaceAll(o, PoolPlacement(o.empty, pool, rate, pickSites, pickPool, permPool))
  }

  /** The offspring offered to habitat i of hs: those of every other habitat, in key order. */
  method OfferedPool(hs: seq<Habitat>, ghost offs: seq<seq<Individual>>, ghost dorms: seq<seq<Individual>>, i: nat)
    returns (pool: seq<Individual>)
    requires i < |hs| && |offs| == |hs| && |dorms| == |hs|
    requires forall j {:trigger PoolsKept(hs[j], offs[j], dorms[j])} :: 0 <= j < |hs| ==> PoolsKept(hs[j], offs[j], dorms[j])
    ensures pool == WithinPools(offs, Names(hs))[i]
  {
    KeptPools(hs, offs, dorms);
    pool := Gather(OffspringPools(hs), Names(hs), Some(hs[i].name));
  }

  /** The tally after turn i: grown by the turn's count, or None for good when the turn
      refuses its sample size. */
  lemma PoolTallyNext(s0: seq<Occupancy>, pools: seq<seq<Individual>>, ks: seq<int>, i: nat, added: int)
    requires i < |s0| == |pools| == |ks| && PoolTally(s0, pools, ks, i) == Some(added)
    ensures var o := PoolOutcome(|s0[i].empty|, |pools[i]|, ks[i]);
      (o.Ok? || o.SamplingError?) &&
      (o.Ok? ==> PoolTally(s0, pools, ks, i + 1) == Some(added + o.value)) &&
      (o.SamplingError? ==> PoolTally(s0, pools, ks, |s0|).None?)
  {
    var o := PoolOutcome(|s0[i].empty|, |pools[i]|, ks[i]);
    if o.SamplingError? {
      PoolTallyStaysNone(s0, pools, ks, i + 1, |s0|);
    }
  }

  /** The loop of `patch_disp_within_from_offsprings_pool` has run over the first i habitats
      of hs: those have taken their turn, the rest are untouched, and no pool has changed. */
  ghost predicate PoolProgress(hs: seq<Habitat>, s0: seq<Occupancy>, pools: seq<seq<Individual>>,
                               offs: seq<seq<Individual>>, dorms: seq<seq<Individual>>, rate: real,
                               pickSites: nat -> seq<nat>, pickPool: nat -> seq<nat>, permPool: nat -> seq<nat>, i: nat)
    reads hs
  {
    i <= |hs| && |s0| == |hs| && |pools| == |hs| && |offs| == |hs| && |dorms| == |hs| &&
    (forall j {:trigger PoolSettled(hs[j], s0[j], pools[j], rate, pickSites(j), pickPool(j), permPool(j))} ::
       0 <= j < i ==> PoolSettled(hs[j], s0[j], pools[j], rate, pickSites(j), pickPool(j), permPool(j))) &&
    (forall j {:trigger Untouched(hs[j], s0[j])} :: i <= j < |hs| ==> Untouched(hs[j], s0[j])) &&
    (forall j {:trigger PoolsKept(hs[j], offs[j], dorms[j])} :: 0 <= j < |hs| ==> PoolsKept(hs[j], offs[j], dorms[j]))
  }

  /** Habitat i of hs takes its turn (PoolTurn), offered the offspring of the other habitats,
      and the tally of the first i turns grows by its outcome. */
  method PoolStep(hs: seq<Habitat>, ghost s0: seq<Occupancy>, ghost pools: seq<seq<Individual>>,
                  ghost offs: seq<seq<Individual>>, ghost dorms: seq<seq<Individual>>, ghost ks: seq<int>, i: nat,
                  rate: real, pickSites: nat -> seq<nat>, pickPool: nat -> seq<nat>,
                  permPool: nat -> seq<nat>) returns (r: Result<nat>)
    requires Separate(hs) && PoolProgress(hs, s0, pools, offs, dorms, rate, pickSites, pickPool, permPool, i)
    requires i < |hs| && pools == WithinPools(offs, Names(hs))
    requires PoolDrawsFit(s0, pools, rate, pickSites, pickPool, permPool) && SiteNumsOf(ks, s0, rate)
    modifies hs[i]
    ensures r == PoolOutcome(|s0[i].empty|, |pools[i]|, ks[i])
    ensures r.SamplingError? ==> PoolProgress(hs, s0, pools, offs, dorms, rate, pickSites, pickPool, permPool, i)
    ensures r.Ok? ==> PoolProgress(hs, s0, pools, offs, dorms, rate, pickSites, pickPool, permPool, i + 1)
  {
    var pool := OfferedPool(hs, offs, dorms, i);
    var h := hs[i];
    assert Untouched(h, s0[i]) && PoolsKept(h, offs[i], dorms[i]);
    assert PoolTurnDrawsFit(|s0[i].empty|, |pools[i]|, rate, pickSites(i), pickPool(i), permPool(i));
    assert |h.emptySites| == |s0[i].empty| && ks[i] == SiteNumAt(s0, rate, i);
    r := PoolTurn(h, pool, rate, pickSites(i), pickPool(i), permPool(i));
    forall j | 0 <= j < |hs| && j != i
      ensures j < i ==> PoolSettled(hs[j], s0[j], pools[j], rate, pickSites(j), pickPool(j), permPool(j))
      ensures i < j ==> Untouched(hs[j], s0[j])
      ensures PoolsKept(hs[j], offs[j], dorms[j])
    {
      assert Apart(hs, i, j);
      assert unchanged(hs[j]);
      if j < i {
        assert old(PoolSettled(hs[j], s0[j], pools[j], rate, pickSites(j), pickPool(j), permPool(j)));
      } else {
        assert old(Untouched(hs[j], s0[j]));
      }
      assert old(PoolsKept(hs[j], offs[j], dorms[j]));
    }
  }

  /** Pools that are still offs and dorms at every habitat are the pools offs and dorms. */
  lemma KeptPools(hs: seq<Habitat>, offs: seq<seq<Individual>>, dorms: seq<seq<Individual>>)
    requires |offs| == |hs| && |dorms| == |hs|
    requires forall j {:trigger PoolsKept(hs[j], offs[j], dorms[j])} :: 0 <= j < |hs| ==> PoolsKept(hs[j], offs[j], dorms[j])
    ensures OffspringPools(hs) == offs && DormancyPools(hs) == dorms
  {
    forall j | 0 <= j < |hs|
      ensures OffspringPools(hs)[j] == offs[j] && DormancyPools(hs)[j] == dorms[j]
    {
      assert PoolsKept(hs[j], offs[j], dorms[j]);
    }
  }

  /** Wherever the loop stopped, every habitat has taken its turn or is untouched, so every
      habitat keeps its invariant, and no pool has changed. */
  lemma PoolProgressHabitats(hs: seq<Habitat>, s0: seq<Occupancy>, pools: seq<seq<Individual>>,
                             offs: seq<seq<Individual>>, dorms: seq<seq<Individual>>, rate: real,
                             pickSites: nat -> seq<nat>, pickPool: nat -> seq<nat>, permPool: nat -> seq<nat>, i: nat)
    requires PoolProgress(hs, s0, pools, offs, dorms, rate, pickSites, pickPool, permPool, i)
    ensures forall j :: 0 <= j < |hs| ==> hs[j].Valid()
    ensures OffspringPools(hs) == offs && DormancyPools(hs) == dorms
  {
    forall j | 0 <= j < |hs|
      ensures hs[j].Valid()
    {
      if j < i {
        assert PoolSettled(hs[j], s0[j], pools[j], rate, pickSites(j), pickPool(j), permPool(j));
      } else {
        assert Untouched(hs[j], s0[j]);
      }
    }
    KeptPools(hs, offs, dorms);
  }

  /** The loop of `patch_disp_within_from_offsprings_pool` over habitats hs in key order,
      with states s0, offspring pools offs and dormancy pools dorms: habitat i takes its turn
      (PoolStep), offered the offspring of the others, and the counter grows by the number
      settled; the loop stops at the first refused sample size. */
  method PoolTurns(hs: seq<Habitat>, ghost s0: seq<Occupancy>, ghost pools: seq<seq<Individual>>,
                   ghost offs: seq<seq<Individual>>, ghost dorms: seq<seq<Individual>>, ghost ks: seq<int>,
                   rate: real, counter: int, pickSites: nat -> seq<nat>, pickPool: nat -> seq<nat>,
                   permPool: nat -> seq<nat>) returns (r: Result<int>, ghost stop: nat)
    requires Separate(hs) && PoolProgress(hs, s0, pools, offs, dorms, rate, pickSites, pickPool, permPool, 0)
    requires pools == WithinPools(offs, Names(hs))
    requires PoolDrawsFit(s0, pools, rate, pickSites, pickPool, permPool) && SiteNumsOf(ks, s0, rate)
    modifies hs
    ensures PoolProgress(hs, s0, pools, offs, dorms, rate, pickSites, pickPool, permPool, stop)
    ensures r.Ok? || r.SamplingError?
    ensures var t := PoolTally(s0, pools, ks, |hs|);
      (r.SamplingError? <==> t.None?) && (r.Ok? ==> r.value == counter + t.value)
    ensures r.Ok? ==> stop == |hs|
  {
    var added: int := 0;
    for i := 0 to |hs|
      invariant PoolProgress(hs, s0, pools, offs, dorms, rate, pickSites, pickPool, permPool, i)
      invariant PoolTally(s0, pools, ks, i) == Some(added)
    {
      PoolTallyNext(s0, pools, ks, i, added);
      var n := PoolStep(hs, s0, pools, offs, dorms, ks, i, rate, pickSites, pickPool, permPool);
      if n.SamplingError? {
        return SamplingError, i;
      }
      added := added + n.value;
    }
    r, stop := Ok(counter + added), |hs|;
  }

  // ---------------------------------------------------------------- asexual reproduction for dispersal within the patch

  /** `random.sample` draws as a strategy: pick(i, k, n) is the index sample of size k from a
      population of n that the i-th turn draws, for every size the population allows. */
  ghost predicate SampleStrategy(pick: (nat, nat, nat) -> seq<nat>) {
    forall i, k, n :: k <= n ==> IsSample(pick(i, k, n), k, n)
  }

  /** The offspring draws (noise and one mutation round per trait) of the m-th offspring of
      turn i fit the traits. */
  ghost predicate RoundsStrategy(draws: nat -> nat -> RoundsDraw, lens: seq<nat>) {
    forall i: nat, m: nat :: RoundsDrawConforms(draws(i)(m), lens)
  }

  /** (length, width) of each habitat. */
  function Shapes(hs: seq<Habitat>): (r: seq<(nat, nat)>)
    ensures |r| == |hs| && forall i :: 0 <= i < |hs| ==> r[i] == (hs[i].length, hs[i].width)
  {
    seq(|hs|, i requires 0 <= i < |hs| => (hs[i].length, hs[i].width))
  }

  /** The states cur of the habitats with keys `names` and shapes `shapes` keep the habitat
      invariant, and every occupant has the traits `lens` describes. */
  ghost predicate Live(cur: seq<Occupancy>, names: seq<string>, shapes: seq<(nat, nat)>, lens: seq<nat>) {
    |cur| == |names| && |shapes| == |names| && NoDup(names) &&
    forall j :: 0 <= j < |cur| ==> LiveAt(cur, shapes, lens, j)
  }

  /** State j keeps the habitat invariant for shape j, and its occupants have the traits
      `lens` describes. */
  ghost predicate LiveAt(cur: seq<Occupancy>, shapes: seq<(nat, nat)>, lens: seq<nat>, j: nat)
    requires j < |cur| && j < |shapes|
  {
    Consistent(cur[j], shapes[j].0, shapes[j].1) && GridConforms(cur[j].microsites, lens)
  }

  /** The occupied list of each state. */
  function OccupiedLists(cur: seq<Occupancy>): (r: seq<seq<Pos>>)
    ensures |r| == |cur| && forall j :: 0 <= j < |cur| ==> r[j] == cur[j].occupied
  {
    seq(|cur|, j requires 0 <= j < |cur| => cur[j].occupied)
  }

  /** `get_disp_within_asex_parent_pos_ls` on the states cur: (habitat key, position) of every
      occupied microsite of every habitat but the i-th. */
  function ParentSites(cur: seq<Occupancy>, names: seq<string>, i: nat): seq<(string, Pos)>
    requires |cur| == |names| && i < |names|
  {
    Gather(TagAll(names, OccupiedLists(cur)), names, Some(names[i]))
  }

  /** `self.set[h_id].set['microsite_individuals'][row][col]` for the entry (h_id, (row, col)). */
  function ParentOf(cur: seq<Occupancy>, names: seq<string>, t: (string, Pos)): Option<Individual>
    requires |cur| == |names|
  {
    if t.0 in names then At(cur[Find(names, t.0)].microsites, t.1) else None
  }

  /** Every listed parent position holds an individual with the traits `lens` describes. */
  ghost predicate ParentsLive(cur: seq<Occupancy>, names: seq<string>, parents: seq<(string, Pos)>, lens: seq<nat>)
    requires |cur| == |names|
  {
    forall m :: 0 <= m < |parents| ==>
      ParentOf(cur, names, parents[m]).Some? && Conforms(ParentOf(cur, names, parents[m]).value, lens)
  }

  /** Every entry of turn i's parent list names another habitat and one of its occupants. */
  lemma ParentSitesLive(cur: seq<Occupancy>, names: seq<string>, shapes: seq<(nat, nat)>, lens: seq<nat>, i: nat)
    requires Live(cur, names, shapes, lens) && i < |cur|
    ensures forall t :: t in ParentSites(cur, names, i) ==>
      t.0 in names && Find(names, t.0) != i && t.1 in cur[Find(names, t.0)].occupied &&
      ParentOf(cur, names, t).Some? && Conforms(ParentOf(cur, names, t).value, lens)
  {
    var xss := TagAll(names, OccupiedLists(cur));
    GatherMembers(xss, names, Some(names[i]));
    forall t | t in ParentSites(cur, names, i)
      ensures t.0 in names && Find(names, t.0) != i && t.1 in cur[Find(names, t.0)].occupied
      ensures ParentOf(cur, names, t).Some? && Conforms(ParentOf(cur, names, t).value, lens)
    {
      var j :| 0 <= j < |xss| && Some(names[i]) != Some(names[j]) && t in xss[j];
      TagMembers(names[j], cur[j].occupied);
      assert t.0 == names[j] && t.1 in cur[j].occupied;
      assert Find(names, t.0) == j;
      assert LiveAt(cur, shapes, lens, j);
    }
  }

  /** The offspring of the parents, the m-th drawn with draws(m): a copy of its parent with
      the phenotype redrawn and one mutation round per trait. */
  function AsexWithinKids(cur: seq<Occupancy>, names: seq<string>, parents: seq<(string, Pos)>, mrate: real,
                          draws: nat -> RoundsDraw, lens: seq<nat>): (r: seq<Individual>)
    requires |cur| == |names| && ParentsLive(cur, names, parents, lens)
    requires forall m: nat :: RoundsDrawConforms(draws(m), lens)
    ensures |r| == |parents|
    ensures forall m :: 0 <= m < |parents| ==>
      r[m] == WithinAsexOffspring(ParentOf(cur, names, parents[m]).value, mrate, draws(m), lens)
  {
    seq(|parents|, m requires 0 <= m < |parents| =>
      WithinAsexOffspring(ParentOf(cur, names, parents[m]).value, mrate, draws(m), lens))
  }

  /** The sample size of one turn: int(#parents * birth_rate) offspring expected, but no more
      than int(#empty * disp_within_rate) microsites. */
  function WithinQuota(parents: nat, empty: nat, birthRate: real, rate: real): int {
    var expected := Trunc(parents as real * birthRate);
    var sites := WithinSiteNum(empty, rate);
    if expected > sites then sites else expected
  }

  lemma WithinQuotaFitsIf(parents: nat, empty: nat, birthRate: real, rate: real)
    ensures 0.0 <= birthRate <= 1.0 && 0.0 <= rate <= 1.0 ==>
      var k := WithinQuota(parents, empty, birthRate, rate);
      0 <= k <= empty && k <= parents
  {
    if 0.0 <= birthRate <= 1.0 && 0.0 <= rate <= 1.0 {
      WithinQuotaFits(parents, empty, birthRate, rate);
    }
  }

  /** With rates in [0, 1] both samples of a turn are sizes `random.sample` accepts. */
  lemma WithinQuotaFits(parents: nat, empty: nat, birthRate: real, rate: real)
    requires 0.0 <= birthRate <= 1.0 && 0.0 <= rate <= 1.0
    ensures var k := WithinQuota(parents, empty, birthRate, rate);
      0 <= k <= empty && k <= parents
  {
    WithinSiteNumFits(empty, rate);
    WithinSiteNumFits(parents, birthRate);
  }

  /** One habitat's turn of `asex_reproduce_mutate_for_dispersal_within_patch` on the states
      cur: with the parent list P of the other habitats and the empty list E of habitat i,
      k = WithinQuota(#P, #E) microsites of E (pickSites) and k entries of P (pickParents)
      are sampled, and the offspring of the m-th parent settles on the m-th microsite.  The
      new state of habitat i and k, or the sampling error when k is negative or above #E or
      #P. */
  function AsexWithinTurn(cur: seq<Occupancy>, names: seq<string>, shapes: seq<(nat, nat)>, i: nat,
                          birthRate: real, rate: real, mrate: real, pickSites: (nat, nat, nat) -> seq<nat>,
                          pickParents: (nat, nat, nat) -> seq<nat>, draws: nat -> nat -> RoundsDraw,
                          lens: seq<nat>): Result<(Occupancy, nat)>
    requires Live(cur, names, shapes, lens) && i < |cur|
    requires SampleStrategy(pickSites) && SampleStrategy(pickParents) && RoundsStrategy(draws, lens)
  {
    var P := ParentSites(cur, names, i);
    var E := cur[i].empty;
    var k := WithinQuota(|P|, |E|, birthRate, rate);
    if k < 0 || k > |E| || k > |P| then SamplingError
    else
      var sites := Sample(E, pickSites(i, k, |E|));
      var parents := Sample(P, pickParents(i, k, |P|));
      ParentSitesLive(cur, names, shapes, lens, i);
      SampleFromPopulation(P, pickParents(i, k, |P|));
      Ok((AsexPlace(cur, names, i, sites, parents, mrate, draws(i), lens), k))
  }

  /** Settling kids[m] on sites[m], for distinct empty microsites, keeps the habitat
      invariant and the traits, appends the sites to the occupied list, counts the kids,
      puts each kid on its microsite and leaves every other microsite as it was. */
  lemma SettleSample(o: Occupancy, length: nat, width: nat, sites: seq<Pos>, kids: seq<Individual>, lens: seq<nat>)
    requires Consistent(o, length, width) && GridConforms(o.microsites, lens)
    requires |sites| == |kids| && NoDup(sites) && forall m :: 0 <= m < |sites| ==> sites[m] in o.empty
    requires forall m :: 0 <= m < |kids| ==> Conforms(kids[m], lens)
    ensures var o' := PlaceAll(o, Zip(sites, kids));
      Consistent(o', length, width) && GridConforms(o'.microsites, lens) &&
      o'.occupied == o.occupied + sites && o'.indiNum == o.indiNum + |sites| &&
      (forall m :: 0 <= m < |sites| ==> At(o'.microsites, sites[m]) == Some(kids[m])) &&
      (forall q :: q !in sites ==> At(o'.microsites, q) == At(o.microsites, q))
  {
    var ps := Zip(sites, kids);
    var k := |sites|;
    assert |ps| == k && sites[..k] == sites;
    assert Sites(ps) == sites;
    ZipPlaceCells(o, length, width, sites, kids);
    PlaceAllKeeps(o, length, width, ps);
    PlacedConform(o.microsites, PlaceAll(o, ps).microsites, sites, kids, lens);
  }

  /** A grid that differs from a conforming one only on `sites`, where it holds conforming
      individuals, conforms too. */
  lemma PlacedConform(g: Grid, g': Grid, sites: seq<Pos>, kids: seq<Individual>, lens: seq<nat>)
    requires GridConforms(g, lens) && |sites| == |kids|
    requires forall m :: 0 <= m < |kids| ==> Conforms(kids[m], lens)
    requires forall m :: 0 <= m < |sites| ==> At(g', sites[m]) == Some(kids[m])
    requires forall q :: q !in sites ==> At(g', q) == At(g, q)
    ensures GridConforms(g', lens)
  {
    forall p | At(g', p).Some?
      ensures Conforms(At(g', p).value, lens)
    {
      if p in sites {
        var m :| 0 <= m < |sites| && sites[m] == p;
        assert At(g', p) == Some(kids[m]);
      }
    }
  }

  /** The samples of a turn that succeeds: k distinct empty microsites of habitat i and k
      parent entries, each an occupant of another habitat. */
  lemma AsexWithinSamples(cur: seq<Occupancy>, names: seq<string>, shapes: seq<(nat, nat)>, i: nat, k: nat,
                          pickSites: seq<nat>, pickParents: seq<nat>, lens: seq<nat>)
    requires Live(cur, names, shapes, lens) && i < |cur|
    requires IsSample(pickSites, k, |cur[i].empty|) && IsSample(pickParents, k, |ParentSites(cur, names, i)|)
    ensures var sites := Sample(cur[i].empty, pickSites);
      var parents := Sample(ParentSites(cur, names, i), pickParents);
      |sites| == k && |parents| == k && NoDup(sites) &&
      (forall m :: 0 <= m < k ==> sites[m] in cur[i].empty) &&
      (forall m :: 0 <= m < k ==> parents[m].0 in names && Find(names, parents[m].0) != i) &&
      ParentsLive(cur, names, parents, lens)
  {
    var P := ParentSites(cur, names, i);
    var parents := Sample(P, pickParents);
    ParentSitesLive(cur, names, shapes, lens, i);
    SampleFromPopulation(P, pickParents);
    SampleFromPopulation(cur[i].empty, pickSites);
    assert NoDup(cur[i].empty) by {
      assert LiveAt(cur, shapes, lens, i);
    }
    forall m | 0 <= m < k
      ensures parents[m].0 in names && Find(names, parents[m].0) != i
      ensures ParentOf(cur, names, parents[m]).Some? && Conforms(ParentOf(cur, names, parents[m]).value, lens)
    {
      assert parents[m] in P;
    }
  }

  /** The microsite holds the offspring that WithinAsexOffspring draws with d from the
      occupant at parent entry t. */
  ghost predicate BornOf(cur: seq<Occupancy>, names: seq<string>, t: (string, Pos), kid: Option<Individual>,
                         mrate: real, d: RoundsDraw, lens: seq<nat>)
    requires |cur| == |names|
  {
    var par := ParentOf(cur, names, t);
    par.Some? && Conforms(par.value, lens) && RoundsDrawConforms(d, lens) &&
    kid == Some(WithinAsexOffspring(par.value, mrate, d, lens))
  }

  /** Habitat i's new state when the offspring of parents[m], drawn with d(m), settles on
      sites[m]. */
  function AsexPlace(cur: seq<Occupancy>, names: seq<string>, i: nat, sites: seq<Pos>, parents: seq<(string, Pos)>,
                     mrate: real, d: nat -> RoundsDraw, lens: seq<nat>): Occupancy
    requires |cur| == |names| && i < |cur| && ParentsLive(cur, names, parents, lens)
    requires forall m: nat :: RoundsDrawConforms(d(m), lens)
  {
    PlaceAll(cur[i], Zip(sites, AsexWithinKids(cur, names, parents, mrate, d, lens)))
  }

  /** o, the new state of habitat i, keeps the invariant of the patch, adds the distinct
      empty microsites `sites` to the occupied list and one individual per site, holds on
      sites[m] the offspring drawn with d(m) from the occupant at parents[m] (an occupant of
      another habitat, whose species and gender it keeps), and leaves every other microsite
      as it was. */
  ghost predicate AsexSettled(cur: seq<Occupancy>, names: seq<string>, shapes: seq<(nat, nat)>, i: nat, o: Occupancy,
                              sites: seq<Pos>, parents: seq<(string, Pos)>, mrate: real, d: nat -> RoundsDraw,
                              lens: seq<nat>)
    requires |cur| == |names| && i < |cur|
  {
    Live(cur[i := o], names, shapes, lens) && |sites| == |parents| &&
    o.occupied == cur[i].occupied + sites && o.indiNum == cur[i].indiNum + |sites| &&
    (forall m :: 0 <= m < |sites| ==>
       sites[m] in cur[i].empty && parents[m].0 in names && Find(names, parents[m].0) != i &&
       BornOf(cur, names, parents[m], At(o.microsites, sites[m]), mrate, d(m), lens) &&
       At(o.microsites, sites[m]).value.species == ParentOf(cur, names, parents[m]).value.species &&
       At(o.microsites, sites[m]).value.gender == ParentOf(cur, names, parents[m]).value.gender) &&
    (forall q :: q !in sites ==> At(o.microsites, q) == At(cur[i].microsites, q))
  }

  /** Settling sampled offspring on sampled empty microsites has the effect AsexSettled
      describes. */
  lemma AsexPlaceSettles(cur: seq<Occupancy>, names: seq<string>, shapes: seq<(nat, nat)>, i: nat, sites: seq<Pos>,
                         parents: seq<(string, Pos)>, mrate: real, d: nat -> RoundsDraw, lens: seq<nat>)
    requires Live(cur, names, shapes, lens) && i < |cur|
    requires |sites| == |parents| && NoDup(sites) && forall m :: 0 <= m < |sites| ==> sites[m] in cur[i].empty
    requires forall m :: 0 <= m < |parents| ==> parents[m].0 in names && Find(names, parents[m].0) != i
    requires ParentsLive(cur, names, parents, lens) && forall m: nat :: RoundsDrawConforms(d(m), lens)
    ensures AsexSettled(cur, names, shapes, i, AsexPlace(cur, names, i, sites, parents, mrate, d, lens),
                        sites, parents, mrate, d, lens)
  {
    var kids := AsexWithinKids(cur, names, parents, mrate, d, lens);
    assert LiveAt(cur, shapes, lens, i);
    SettleSample(cur[i], shapes[i].0, shapes[i].1, sites, kids, lens);
    var o := AsexPlace(cur, names, i, sites, parents, mrate, d, lens);
    var c := cur[i := o];
    forall j | 0 <= j < |c|
      ensures LiveAt(c, shapes, lens, j)
    {
      if j != i {
        assert LiveAt(cur, shapes, lens, j);
      }
    }
    forall m | 0 <= m < |sites|
      ensures BornOf(cur, names, parents[m], At(o.microsites, sites[m]), mrate, d(m), lens)
    {
      assert At(o.microsites, sites[m]) == Some(kids[m]);
    }
  }

  /** A turn that succeeds samples k = WithinQuota(#P, #E) microsites and parents and
      settles the offspring as AsexSettled describes. */
  lemma AsexWithinTurnPlaces(cur: seq<Occupancy>, names: seq<string>, shapes: seq<(nat, nat)>, i: nat,
                             birthRate: real, rate: real, mrate: real, pickSites: (nat, nat, nat) -> seq<nat>,
                             pickParents: (nat, nat, nat) -> seq<nat>, draws: nat -> nat -> RoundsDraw,
                             lens: seq<nat>)
    requires Live(cur, names, shapes, lens) && i < |cur|
    requires SampleStrategy(pickSites) && SampleStrategy(pickParents) && RoundsStrategy(draws, lens)
    ensures var t := AsexWithinTurn(cur, names, shapes, i, birthRate, rate, mrate, pickSites, pickParents, draws, lens);
      var P := ParentSites(cur, names, i);
      var E := cur[i].empty;
      t.Ok? ==>
        var k := t.value.1;
        k == WithinQuota(|P|, |E|, birthRate, rate) && 0 <= k <= |E| && k <= |P| &&
        AsexSettled(cur, names, shapes, i, t.value.0, Sample(E, pickSites(i, k, |E|)),
                    Sample(P, pickParents(i, k, |P|)), mrate, draws(i), lens)
  {
    var t := AsexWithinTurn(cur, names, shapes, i, birthRate, rate, mrate, pickSites, pickParents, draws, lens);
    if t.Ok? {
      var P := ParentSites(cur, names, i);
      var E := cur[i].empty;
      var k := t.value.1;
      assert k == WithinQuota(|P|, |E|, birthRate, rate) && 0 <= k <= |E| && k <= |P|;
      AsexWithinSamples(cur, names, shapes, i, k, pickSites(i, k, |E|), pickParents(i, k, |P|), lens);
      AsexPlaceSettles(cur, names, shapes, i, Sample(E, pickSites(i, k, |E|)), Sample(P, pickParents(i, k, |P|)),
                       mrate, draws(i), lens);
    }
  }

  /** Both samples of turn i accept its quota k: 0 <= k <= #E and k <= #P. */
  predicate TurnFits(cur: seq<Occupancy>, names: seq<string>, i: nat, birthRate: real, rate: real)
    requires |cur| == |names| && i < |cur|
  {
    var P := ParentSites(cur, names, i);
    var k := WithinQuota(|P|, |cur[i].empty|, birthRate, rate);
    0 <= k <= |cur[i].empty| && k <= |P|
  }

  /** The individual count of each state. */
  function Populations(cur: seq<Occupancy>): (r: seq<int>)
    ensures |r| == |cur| && forall j {:trigger r[j]} :: 0 <= j < |cur| ==> r[j] == cur[j].indiNum
  {
    seq(|cur|, j requires 0 <= j < |cur| => cur[j].indiNum)
  }

  lemma {:induction false} SumUpdate(xs: seq<int>, i: nat, v: int)
    requires i < |xs|
    ensures Sum(xs[i := v]) == Sum(xs) - xs[i] + v
  {
    var n := |xs| - 1;
    var ys := xs[i := v];
    assert ys[..n] == if i == n then xs[..n] else xs[..n][i := v];
    if i < n {
      SumUpdate(xs[..n], i, v);
    }
  }

  lemma PopulationsUpdate(cur: seq<Occupancy>, i: nat, o: Occupancy)
    requires i < |cur|
    ensures Populations(cur[i := o]) == Populations(cur)[i := o.indiNum]
  {
    var a, b := Populations(cur[i := o]), Populations(cur)[i := o.indiNum];
    forall j | 0 <= j < |cur| ensures a[j] == b[j] {
      if j != i {
        assert cur[i := o][j] == cur[j];
      }
    }
  }

  /** The states after turn i: state i replaced by the turn's new state, and the number of
      offspring it settled; the sampling error when its quota does not fit. */
  function AsexWithinNext(cur: seq<Occupancy>, names: seq<string>, shapes: seq<(nat, nat)>, i: nat, birthRate: real,
                          rate: real, mrate: real, pickSites: (nat, nat, nat) -> seq<nat>,
                          pickParents: (nat, nat, nat) -> seq<nat>, draws: nat -> nat -> RoundsDraw,
                          lens: seq<nat>): (r: Result<(seq<Occupancy>, int)>)
    requires Live(cur, names, shapes, lens) && i < |cur|
    requires SampleStrategy(pickSites) && SampleStrategy(pickParents) && RoundsStrategy(draws, lens)
    ensures r.Ok? <==> TurnFits(cur, names, i, birthRate, rate)
    ensures r.Ok? || r.SamplingError?
    ensures r.Ok? ==> Live(r.value.0, names, shapes, lens)
    ensures r.Ok? ==> Sum(Populations(r.value.0)) == Sum(Populations(cur)) + r.value.1
    ensures 0.0 <= birthRate <= 1.0 && 0.0 <= rate <= 1.0 ==> r.Ok?
  {
    WithinQuotaFitsIf(|ParentSites(cur, names, i)|, |cur[i].empty|, birthRate, rate);
    if !TurnFits(cur, names, i, birthRate, rate) then SamplingError
    else
      var t := AsexWithinTurn(cur, names, shapes, i, birthRate, rate, mrate, pickSites, pickParents, draws, lens);
      AsexWithinTurnPlaces(cur, names, shapes, i, birthRate, rate, mrate, pickSites, pickParents, draws, lens);
      var E, k := cur[i].empty, t.value.1;
      assert |Sample(E, pickSites(i, k, |E|))| == k;
      assert t.value.0.indiNum == cur[i].indiNum + k;
      PopulationsUpdate(cur, i, t.value.0);
      SumUpdate(Populations(cur), i, t.value.0.indiNum);
      Ok((cur[i := t.value.0], k))
  }

  /** The turns of habitats 0 .. n-1 in key order, each on the states the earlier turns
      left (so a later turn's parents include the offspring settled before it): the states
      after them and the number of offspring settled, or the sampling error of the first turn
      that raises it. */
  function AsexWithinRun(cur: seq<Occupancy>, names: seq<string>, shapes: seq<(nat, nat)>, birthRate: real, rate: real,
                         mrate: real, pickSites: (nat, nat, nat) -> seq<nat>, pickParents: (nat, nat, nat) -> seq<nat>,
                         draws: nat -> nat -> RoundsDraw, lens: seq<nat>, n: nat): (r: Result<(seq<Occupancy>, int)>)
    requires Live(cur, names, shapes, lens) && n <= |cur|
    requires SampleStrategy(pickSites) && SampleStrategy(pickParents) && RoundsStrategy(draws, lens)
    ensures r.Ok? || r.SamplingError?
    ensures r.Ok? ==> Live(r.value.0, names, shapes, lens)
    ensures r.Ok? ==> Sum(Populations(r.value.0)) == Sum(Populations(cur)) + r.value.1
    ensures 0.0 <= birthRate <= 1.0 && 0.0 <= rate <= 1.0 ==> r.Ok?
  {
    if n == 0 then Ok((cur, 0))
    else
      var prev := AsexWithinRun(cur, names, shapes, birthRate, rate, mrate, pickSites, pickParents, draws, lens, n - 1);
      if !prev.Ok? then SamplingError
      else
        var next := AsexWithinNext(prev.value.0, names, shapes, n - 1, birthRate, rate, mrate, pickSites, pickParents,
                                   draws, lens);
        if !next.Ok? then SamplingError
        else Ok((next.value.0, prev.value.1 + next.value.1))
  }

  /** Turn j of the run raises the sampling error: the turns before it succeed and its
      quota does not fit its samples. */
  ghost predicate TurnMisfits(cur: seq<Occupancy>, names: seq<string>, shapes: seq<(nat, nat)>, birthRate: real, rate: real,
                              mrate: real, pickSites: (nat, nat, nat) -> seq<nat>, pickParents: (nat, nat, nat) -> seq<nat>,
                              draws: nat -> nat -> RoundsDraw, lens: seq<nat>, j: nat)
    requires Live(cur, names, shapes, lens) && j < |cur|
    requires SampleStrategy(pickSites) && SampleStrategy(pickParents) && RoundsStrategy(draws, lens)
  {
    var prev := AsexWithinRun(cur, names, shapes, birthRate, rate, mrate, pickSites, pickParents, draws, lens, j);
    prev.Ok? && !TurnFits(prev.value.0, names, j, birthRate, rate)
  }

  /** The run never fails before its first turn, and it fails after turn n-1 exactly when it
      had failed before that turn or that turn's quota does not fit: so it raises the
      sampling error exactly when some turn's quota does not fit, and that first misfit ends
      it. */
  lemma AsexWithinRunStep(cur: seq<Occupancy>, names: seq<string>, shapes: seq<(nat, nat)>,
                          birthRate: real, rate: real, mrate: real,
                          pickSites: (nat, nat, nat) -> seq<nat>, pickParents: (nat, nat, nat) -> seq<nat>,
                          draws: nat -> nat -> RoundsDraw, lens: seq<nat>, n: nat)
    requires Live(cur, names, shapes, lens) && n <= |cur|
    requires SampleStrategy(pickSites) && SampleStrategy(pickParents) && RoundsStrategy(draws, lens)
    ensures n == 0 ==> AsexWithinRun(cur, names, shapes, birthRate, rate, mrate, pickSites, pickParents, draws, lens, n).Ok?
    ensures n > 0 ==> (AsexWithinRun(cur, names, shapes, birthRate, rate, mrate, pickSites, pickParents, draws, lens, n).SamplingError? <==>
      AsexWithinRun(cur, names, shapes, birthRate, rate, mrate, pickSites, pickParents, draws, lens, n - 1).SamplingError? || TurnMisfits(cur, names, shapes, birthRate, rate, mrate, pickSites, pickParents, draws, lens, n - 1))
  {
  }

  /** The run's turn n, after turns 0 .. n-1 that succeeded: it succeeds exactly when the turn
      on their states does, adding that turn's states and count. */
  lemma AsexWithinRunNext(cur: seq<Occupancy>, names: seq<string>, shapes: seq<(nat, nat)>,
                          birthRate: real, rate: real, mrate: real,
                          pickSites: (nat, nat, nat) -> seq<nat>, pickParents: (nat, nat, nat) -> seq<nat>,
                          draws: nat -> nat -> RoundsDraw, lens: seq<nat>, n: nat)
    requires Live(cur, names, shapes, lens) && n < |cur|
    requires SampleStrategy(pickSites) && SampleStrategy(pickParents) && RoundsStrategy(draws, lens)
    requires AsexWithinRun(cur, names, shapes, birthRate, rate, mrate, pickSites, pickParents, draws, lens, n).Ok?
    ensures var prev := AsexWithinRun(cur, names, shapes, birthRate, rate, mrate, pickSites, pickParents, draws, lens, n);
      var next := AsexWithinNext(prev.value.0, names, shapes, n, birthRate, rate, mrate, pickSites, pickParents, draws,
                                 lens);
      var run := AsexWithinRun(cur, names, shapes, birthRate, rate, mrate, pickSites, pickParents, draws, lens, n + 1);
      (run.Ok? <==> next.Ok?) &&
      (run.Ok? ==> run.value.0 == next.value.0 && run.value.1 == prev.value.1 + next.value.1)
  {
  }

  /** Habitat j of hs keeps its invariant with state cur[j] and pools offs[j] and dorms[j],
      for every j. */
  ghost predicate AsexProgress(hs: seq<Habitat>, cur: seq<Occupancy>, offs: seq<seq<Individual>>,
                               dorms: seq<seq<Individual>>)
    reads hs
  {
    |cur| == |hs| && |offs| == |hs| && |dorms| == |hs| &&
    (forall j {:trigger Untouched(hs[j], cur[j])} :: 0 <= j < |hs| ==> Untouched(hs[j], cur[j])) &&
    (forall j {:trigger PoolsKept(hs[j], offs[j], dorms[j])} :: 0 <= j < |hs| ==> PoolsKept(hs[j], offs[j], dorms[j]))
  }

  /** Habitats whose states are cur keep their invariant, and hold the states and pools
      recorded. */
  lemma AsexProgressStates(hs: seq<Habitat>, cur: seq<Occupancy>, offs: seq<seq<Individual>>,
                           dorms: seq<seq<Individual>>)
    requires AsexProgress(hs, cur, offs, dorms)
    ensures forall j :: 0 <= j < |hs| ==> hs[j].Valid()
    ensures States(hs) == cur && OffspringPools(hs) == offs && DormancyPools(hs) == dorms
  {
    forall j | 0 <= j < |hs|
      ensures hs[j].Valid() && States(hs)[j] == cur[j]
    {
      assert Untouched(hs[j], cur[j]);
    }
    KeptPools(hs, offs, dorms);
  }

  /** The loop of `get_disp_within_asex_parent_pos_ls` for habitat i of hs, whose states are
      cur. */
  method CollectParentSites(hs: seq<Habitat>, ghost cur: seq<Occupancy>, ghost offs: seq<seq<Individual>>,
                            ghost dorms: seq<seq<Individual>>, i: nat) returns (ls: seq<(string, Pos)>)
    requires AsexProgress(hs, cur, offs, dorms) && i < |hs|
    ensures ls == ParentSites(cur, Names(hs), i)
  {
    ghost var names := Names(hs);
    ghost var xss := TagAll(names, OccupiedLists(cur));
    var skip := Some(hs[i].name);
    ls := [];
    for j := 0 to |hs|
      invariant ls == Gather(xss[..j], names[..j], skip)
    {
      GatherSnoc(xss, names, skip, j);
      var h := hs[j];
      if skip != Some(h.name) {
        assert Untouched(h, cur[j]);
        ls := Patch.AppendTagged(ls, h.name, h.occupiedSites);
      }
    }
    assert xss[..|hs|] == xss && names[..|hs|] == names;
  }

  /** `self.set[h_id].set['microsite_individuals'][row][col]` for the parent entry t, and its
      offspring drawn with dm. */
  method AsexWithinBirthOf(hs: seq<Habitat>, ghost cur: seq<Occupancy>, ghost offs: seq<seq<Individual>>,
                           ghost dorms: seq<seq<Individual>>, t: (string, Pos), mrate: real, dm: RoundsDraw,
                           lens: seq<nat>) returns (kid: Individual)
    requires AsexProgress(hs, cur, offs, dorms) && RoundsDrawConforms(dm, lens)
    requires ParentOf(cur, Names(hs), t).Some? && Conforms(ParentOf(cur, Names(hs), t).value, lens)
    ensures kid == WithinAsexOffspring(ParentOf(cur, Names(hs), t).value, mrate, dm, lens)
  {
    var names := Names(hs);
    var j := Find(names, t.0);
    assert Untouched(hs[j], cur[j]);
    kid := WithinAsexBirth(At(hs[j].microsites, t.1).value, mrate, dm, lens);
  }

  /** The offspring loop of one turn: the m-th offspring is drawn with d(m) from the occupant
      at parents[m], looked up in the habitats hs whose states are cur. */
  method AsexWithinBirths(hs: seq<Habitat>, ghost cur: seq<Occupancy>, ghost offs: seq<seq<Individual>>,
                          ghost dorms: seq<seq<Individual>>, parents: seq<(string, Pos)>, mrate: real,
                          d: nat -> RoundsDraw, lens: seq<nat>) returns (kids: seq<Individual>)
    requires AsexProgress(hs, cur, offs, dorms) && ParentsLive(cur, Names(hs), parents, lens)
    requires forall m: nat :: RoundsDrawConforms(d(m), lens)
    ensures kids == AsexWithinKids(cur, Names(hs), parents, mrate, d, lens)
  {
    ghost var all := AsexWithinKids(cur, Names(hs), parents, mrate, d, lens);
    kids := [];
    for m := 0 to |parents|
      invariant kids == all[..m]
    {
      var kid := AsexWithinBirthOf(hs, cur, offs, dorms, parents[m], mrate, d(m), lens);
      assert kid == all[m];
      PrefixSnoc(all, m);
      kids := kids + [kid];
    }
    assert all[..|parents|] == all;
  }

  /** Habitat i's turn of `asex_reproduce_mutate_for_dispersal_within_patch` on the habitats
      hs, whose states are cur: the turn AsexWithinNext describes, done in place. */
  method AsexWithinStep(hs: seq<Habitat>, ghost cur: seq<Occupancy>, ghost offs: seq<seq<Individual>>,
                        ghost dorms: seq<seq<Individual>>, i: nat, birthRate: real, rate: real, mrate: real,
                        pickSites: (nat, nat, nat) -> seq<nat>, pickParents: (nat, nat, nat) -> seq<nat>,
                        draws: nat -> nat -> RoundsDraw, lens: seq<nat>) returns (r: Result<int>)
    requires Separate(hs) && AsexProgress(hs, cur, offs, dorms) && i < |hs|
    requires Live(cur, Names(hs), Shapes(hs), lens)
    requires SampleStrategy(pickSites) && SampleStrategy(pickParents) && RoundsStrategy(draws, lens)
    modifies hs[i]
    ensures var next := AsexWithinNext(cur, Names(hs), Shapes(hs), i, birthRate, rate, mrate, pickSites, pickParents,
                                       draws, lens);
      (r.Ok? <==> next.Ok?) && (r.Ok? || r.SamplingError?) &&
      (r.Ok? ==> r.value == next.value.1 && AsexProgress(hs, next.value.0, offs, dorms)) &&
      (r.SamplingError? ==> AsexProgress(hs, cur, offs, dorms))
  {
    ghost var names, shapes := Names(hs), Shapes(hs);
    var h := hs[i];
    assert Untouched(h, cur[i]) && PoolsKept(h, offs[i], dorms[i]);
    var P := CollectParentSites(hs, cur, offs, dorms, i);
    var E := h.emptySites;
    var k := WithinQuota(|P|, |E|, birthRate, rate);
    if k < 0 || k > |E| || k > |P| {
      return SamplingError;
    }
    var sites, parents, kids := AsexWithinDraw(hs, cur, offs, dorms, i, k, P, mrate, pickSites, pickParents, draws, lens);
    SettleHabitat(hs, cur, offs, dorms, i, sites, kids);
    r := Ok(k);
    AsexWithinNextOk(cur, names, shapes, i, birthRate, rate, mrate, pickSites, pickParents, draws, lens, k, sites,
                     parents, kids);
  }

  /** The draws of a turn whose quota k fits: k distinct empty microsites of habitat i, k
      entries of its parent list P, and the offspring of each sampled parent. */
  method AsexWithinDraw(hs: seq<Habitat>, ghost cur: seq<Occupancy>, ghost offs: seq<seq<Individual>>,
                        ghost dorms: seq<seq<Individual>>, i: nat, k: nat, P: seq<(string, Pos)>, mrate: real,
                        pickSites: (nat, nat, nat) -> seq<nat>, pickParents: (nat, nat, nat) -> seq<nat>,
                        draws: nat -> nat -> RoundsDraw, lens: seq<nat>)
    returns (sites: seq<Pos>, parents: seq<(string, Pos)>, kids: seq<Individual>)
    requires AsexProgress(hs, cur, offs, dorms) && i < |hs| && Live(cur, Names(hs), Shapes(hs), lens)
    requires SampleStrategy(pickSites) && SampleStrategy(pickParents) && RoundsStrategy(draws, lens)
    requires P == ParentSites(cur, Names(hs), i) && k <= |cur[i].empty| && k <= |P|
    ensures sites == Sample(cur[i].empty, pickSites(i, k, |cur[i].empty|))
    ensures parents == Sample(P, pickParents(i, k, |P|))
    ensures NoDup(sites) && forall m :: 0 <= m < |sites| ==> sites[m] in cur[i].empty
    ensures ParentsLive(cur, Names(hs), parents, lens)
    ensures kids == AsexWithinKids(cur, Names(hs), parents, mrate, draws(i), lens)
  {
    var E := hs[i].emptySites;
    assert Untouched(hs[i], cur[i]);
    var pickS, pickP := pickSites(i, k, |E|), pickParents(i, k, |P|);
    sites, parents := Sample(E, pickS), Sample(P, pickP);
    AsexWithinSamples(cur, Names(hs), Shapes(hs), i, k, pickS, pickP, lens);
    kids := AsexWithinBirths(hs, cur, offs, dorms, parents, mrate, draws(i), lens);
  }

  /** A turn whose quota k fits, with the samples and offspring it draws: the states after
      it are cur with habitat i's offspring settled on the sampled microsites. */
  lemma AsexWithinNextOk(cur: seq<Occupancy>, names: seq<string>, shapes: seq<(nat, nat)>, i: nat, birthRate: real,
                         rate: real, mrate: real, pickSites: (nat, nat, nat) -> seq<nat>,
                         pickParents: (nat, nat, nat) -> seq<nat>, draws: nat -> nat -> RoundsDraw,
                         lens: seq<nat>, k: int, sites: seq<Pos>, parents: seq<(string, Pos)>, kids: seq<Individual>)
    requires Live(cur, names, shapes, lens) && i < |cur|
    requires SampleStrategy(pickSites) && SampleStrategy(pickParents) && RoundsStrategy(draws, lens)
    requires k == WithinQuota(|ParentSites(cur, names, i)|, |cur[i].empty|, birthRate, rate)
    requires 0 <= k <= |cur[i].empty| && k <= |ParentSites(cur, names, i)|
    requires sites == Sample(cur[i].empty, pickSites(i, k, |cur[i].empty|))
    requires parents == Sample(ParentSites(cur, names, i), pickParents(i, k, |ParentSites(cur, names, i)|))
    requires ParentsLive(cur, names, parents, lens)
    requires kids == AsexWithinKids(cur, names, parents, mrate, draws(i), lens)
    ensures AsexWithinNext(cur, names, shapes, i, birthRate, rate, mrate, pickSites, pickParents, draws, lens)
            == Ok((cur[i := PlaceAll(cur[i], Zip(sites, kids))], k))
  {
    assert TurnFits(cur, names, i, birthRate, rate);
  }

  /** Settling kids[m] on the distinct empty microsites sites[m] of habitat i, in place: the
      habitats keep their invariant, habitat i's state is the placement, and every other
      habitat and every pool is as it was. */
  method SettleHabitat(hs: seq<Habitat>, ghost cur: seq<Occupancy>, ghost offs: seq<seq<Individual>>,
                       ghost dorms: seq<seq<Individual>>, i: nat, sites: seq<Pos>, kids: seq<Individual>)
    requires Separate(hs) && AsexProgress(hs, cur, offs, dorms) && i < |hs|
    requires NoDup(sites) && forall m :: 0 <= m < |sites| ==> sites[m] in cur[i].empty
    modifies hs[i]
    ensures AsexProgress(hs, cur[i := PlaceAll(cur[i], Zip(sites, kids))], offs, dorms)
  {
    var h := hs[i];
    assert Untouched(h, cur[i]) && PoolsKept(h, offs[i], dorms[i]);
    var settled := h.SettleOn(sites, kids);
    ghost var c := cur[i := h.State()];
    forall j | 0 <= j < |hs|
      ensures Untouched(hs[j], c[j]) && PoolsKept(hs[j], offs[j], dorms[j])
    {
      if j != i {
        assert Apart(hs, i, j);
        assert old(Untouched(hs[j], cur[j]) && PoolsKept(hs[j], offs[j], dorms[j]));
      }
    }
  }

  /** trace[k] is the run from the states s0 of the habitats `names` after its turns
      0 .. k-1, for every k up to the number of habitats. */
  ghost predicate Traces(trace: seq<Result<(seq<Occupancy>, int)>>, s0: seq<Occupancy>, names: seq<string>,
                         shapes: seq<(nat, nat)>, birthRate: real, rate: real, mrate: real,
                         pickSites: (nat, nat, nat) -> seq<nat>, pickParents: (nat, nat, nat) -> seq<nat>,
                         draws: nat -> nat -> RoundsDraw, lens: seq<nat>)
  {
    Live(s0, names, shapes, lens) && |trace| == |s0| + 1 &&
    SampleStrategy(pickSites) && SampleStrategy(pickParents) && RoundsStrategy(draws, lens) &&
    forall k {:trigger AsexWithinRun(s0, names, shapes, birthRate, rate, mrate, pickSites, pickParents, draws, lens, k)} :: 0 <= k <= |s0| ==>
      trace[k] == AsexWithinRun(s0, names, shapes, birthRate, rate, mrate, pickSites, pickParents, draws, lens, k)
  }

  /** The run's trace from the states s0, turn by turn. */
  ghost function AsexWithinTrace(s0: seq<Occupancy>, names: seq<string>, shapes: seq<(nat, nat)>,
                                 birthRate: real, rate: real, mrate: real,
                                 pickSites: (nat, nat, nat) -> seq<nat>, pickParents: (nat, nat, nat) -> seq<nat>,
                                 draws: nat -> nat -> RoundsDraw, lens: seq<nat>): (trace: seq<Result<(seq<Occupancy>, int)>>)
    requires Live(s0, names, shapes, lens)
    requires SampleStrategy(pickSites) && SampleStrategy(pickParents) && RoundsStrategy(draws, lens)
    ensures Traces(trace, s0, names, shapes, birthRate, rate, mrate, pickSites, pickParents, draws, lens)
  {
    seq(|s0| + 1, k requires 0 <= k <= |s0| => AsexWithinRun(s0, names, shapes, birthRate, rate, mrate, pickSites, pickParents, draws, lens, k))
  }

  /** Turn i of the loop, after turns 0 .. i-1 of the run left the states cur, having settled
      `added`: the run's turn i done in place (AsexWithinStep), or the sampling error when its
      quota does not fit. */
  method AsexWithinTurnAt(hs: seq<Habitat>, ghost s0: seq<Occupancy>, ghost offs: seq<seq<Individual>>,
                          ghost dorms: seq<seq<Individual>>, birthRate: real, rate: real, mrate: real,
                          pickSites: (nat, nat, nat) -> seq<nat>, pickParents: (nat, nat, nat) -> seq<nat>,
                          draws: nat -> nat -> RoundsDraw, lens: seq<nat>, i: nat,
                          ghost trace: seq<Result<(seq<Occupancy>, int)>>, ghost cur: seq<Occupancy>, ghost added: int)
    returns (r: Result<int>, ghost cur': seq<Occupancy>)
    requires Separate(hs) && i < |hs| && Traces(trace, s0, Names(hs), Shapes(hs), birthRate, rate, mrate, pickSites, pickParents, draws, lens)
    requires trace[i].Ok? && trace[i].value.0 == cur && trace[i].value.1 == added
    requires AsexProgress(hs, cur, offs, dorms)
    modifies hs[i]
    ensures r.Ok? || r.SamplingError?
    ensures r.Ok? ==>
      trace[i + 1].Ok? && trace[i + 1].value.0 == cur' && trace[i + 1].value.1 == added + r.value &&
      AsexProgress(hs, cur', offs, dorms)
    ensures r.SamplingError? ==>
      cur' == cur && AsexProgress(hs, cur, offs, dorms) && !TurnFits(cur, Names(hs), i, birthRate, rate)
  {
    ghost var names, shapes := Names(hs), Shapes(hs);
    AsexWithinRunNext(s0, names, shapes, birthRate, rate, mrate, pickSites, pickParents, draws, lens, i);
    r := AsexWithinStep(hs, cur, offs, dorms, i, birthRate, rate, mrate, pickSites, pickParents, draws, lens);
    cur' := if r.Ok? then AsexWithinNext(cur, names, shapes, i, birthRate, rate, mrate, pickSites, pickParents, draws, lens).value.0 else cur;
  }

  /** The loop of `asex_reproduce_mutate_for_dispersal_within_patch` over the habitats hs,
      whose states were s0 and whose run is traced by trace, from turn i on, with the counter
      at `counter` and the turns before i having settled `added`: turn i is AsexWithinStep,
      and the counter grows by the number settled; the first turn whose quota does not fit
      stops it with the sampling error. */
  method AsexWithinTurns(hs: seq<Habitat>, ghost s0: seq<Occupancy>, ghost offs: seq<seq<Individual>>,
                         ghost dorms: seq<seq<Individual>>, counter: int, birthRate: real, rate: real, mrate: real,
                         pickSites: (nat, nat, nat) -> seq<nat>, pickParents: (nat, nat, nat) -> seq<nat>,
                         draws: nat -> nat -> RoundsDraw, lens: seq<nat>, i: nat,
                         ghost trace: seq<Result<(seq<Occupancy>, int)>>, ghost cur: seq<Occupancy>, ghost added: int)
    returns (r: Result<int>, ghost stop: nat, ghost cur': seq<Occupancy>)
    requires Separate(hs) && i <= |hs| && Traces(trace, s0, Names(hs), Shapes(hs), birthRate, rate, mrate, pickSites, pickParents, draws, lens)
    requires trace[i].Ok? && trace[i].value.0 == cur && trace[i].value.1 == added
    requires AsexProgress(hs, cur, offs, dorms)
    modifies hs
    decreases |hs| - i
    ensures i <= stop <= |hs| && (r.Ok? || r.SamplingError?) && AsexProgress(hs, cur', offs, dorms)
    ensures trace[stop].Ok? && trace[stop].value.0 == cur'
    ensures r.Ok? ==> stop == |hs| && trace[stop].value.1 == added + (r.value - counter)
    ensures r.SamplingError? ==> stop < |hs| && !TurnFits(cur', Names(hs), stop, birthRate, rate)
  {
    if i == |hs| {
      return Ok(counter), i, cur;
    }
    var n, next := AsexWithinTurnAt(hs, s0, offs, dorms, birthRate, rate, mrate, pickSites, pickParents, draws, lens, i,
                                    trace, cur, added);
    if n.SamplingError? {
      return SamplingError, i, cur;
    }
    r, stop, cur' := AsexWithinTurns(hs, s0, offs, dorms, counter + n.value, birthRate, rate, mrate, pickSites, pickParents,
                                     draws, lens, i + 1, trace, next, added + n.value);
  }

  // ---------------------------------------------------------------- sexual reproduction for dispersal within the patch

  /** The draws of `sex_reproduce_mutate_for_dispersal_within_patch`: shuffle(i, j, sp, gender,
      n) is the `random.shuffle` that turn i draws for the n-entry list of species sp and that
      gender in habitat j; pickSites and pickPairs are the turns' `random.sample` draws;
      births(i)(m) draws the gender, the inherited vectors, the noise and the mutation of the
      m-th offspring of turn i. */
  datatype SexWithinDraws = SexWithinDraws(shuffle: (nat, nat, string, Gender, nat) -> seq<nat>,
                                           pickSites: (nat, nat, nat) -> seq<nat>,
                                           pickPairs: (nat, nat, nat) -> seq<nat>,
                                           births: nat -> nat -> BirthDraw)

  /** Every shuffle draw is a permutation of its list. */
  ghost predicate ShuffleStrategy(shuffle: (nat, nat, string, Gender, nat) -> seq<nat>) {
    forall i, j, sp, gender, n :: IsPermutation(shuffle(i, j, sp, gender, n), n)
  }

  /** Every draw is one the source can make: shuffles are permutations, samples have the
      size asked for, and offspring draws fit the traits `lens` describes. */
  ghost predicate SexDrawsFit(d: SexWithinDraws, lens: seq<nat>) {
    ShuffleStrategy(d.shuffle) && SampleStrategy(d.pickSites) && SampleStrategy(d.pickPairs) &&
    forall i: nat :: DrawsConform(d.births(i), lens)
  }

  /** The shuffles turn i draws for the lists of habitat j, whose index is cat. */
  function TurnShuffle(shuffle: (nat, nat, string, Gender, nat) -> seq<nat>, i: nat, j: nat, cat: Category)
    : (string, Gender) -> seq<nat>
  {
    (sp: string, gender: Gender) => shuffle(i, j, sp, gender, |Lookup(cat, sp, gender)|)
  }

  lemma TurnShuffleFits(shuffle: (nat, nat, string, Gender, nat) -> seq<nat>, i: nat, j: nat, cat: Category)
    requires ShuffleStrategy(shuffle)
    ensures PermFits(cat, TurnShuffle(shuffle, i, j, cat))
  {
  }

  /** State o of habitat j after `hab_sexual_pairwise_parents_ls` in turn i: the female and
      male lists of each species shuffled in place. */
  function Reshuffle(o: Occupancy, shuffle: (nat, nat, string, Gender, nat) -> seq<nat>, i: nat, j: nat): Occupancy
    requires ShuffleStrategy(shuffle)
  {
    TurnShuffleFits(shuffle, i, j, o.category);
    o.(category := ShuffleAll(o.category, o.speciesOrder, TurnShuffle(shuffle, i, j, o.category)))
  }

  /** The states after the pair listing of turn i: every habitat but the i-th reshuffled. */
  function ReshuffledOthers(cur: seq<Occupancy>, shuffle: (nat, nat, string, Gender, nat) -> seq<nat>, i: nat)
    : (r: seq<Occupancy>)
    requires ShuffleStrategy(shuffle)
    ensures |r| == |cur|
    ensures forall j :: 0 <= j < |cur| ==> r[j] == if j == i then cur[j] else Reshuffle(cur[j], shuffle, i, j)
  {
    seq(|cur|, j requires 0 <= j < |cur| => if j == i then cur[j] else Reshuffle(cur[j], shuffle, i, j))
  }

  /** The pair count of each state. */
  function StatePairCounts(cur: seq<Occupancy>): (r: seq<int>)
    ensures |r| == |cur| && forall j :: 0 <= j < |cur| ==> r[j] == PairCount(cur[j].speciesOrder, cur[j].category)
  {
    seq(|cur|, j requires 0 <= j < |cur| => PairCount(cur[j].speciesOrder, cur[j].category))
  }

  /** Shuffling the lists of the other habitats keeps every habitat invariant, every grid,
      list and count, and every pair count: only which female meets which male changes. */
  lemma ReshuffledKeeps(cur: seq<Occupancy>, names: seq<string>, shapes: seq<(nat, nat)>, lens: seq<nat>,
                        shuffle: (nat, nat, string, Gender, nat) -> seq<nat>, i: nat)
    requires Live(cur, names, shapes, lens) && ShuffleStrategy(shuffle)
    ensures var r := ReshuffledOthers(cur, shuffle, i);
      Live(r, names, shapes, lens) && StatePairCounts(r) == StatePairCounts(cur) &&
      Populations(r) == Populations(cur) &&
      forall j :: 0 <= j < |cur| ==>
        r[j].microsites == cur[j].microsites && r[j].occupied == cur[j].occupied &&
        r[j].empty == cur[j].empty && r[j].speciesOrder == cur[j].speciesOrder
  {
    var r := ReshuffledOthers(cur, shuffle, i);
    forall j | 0 <= j < |cur|
      ensures LiveAt(r, shapes, lens, j)
      ensures PairCount(r[j].speciesOrder, r[j].category) == PairCount(cur[j].speciesOrder, cur[j].category)
    {
      assert LiveAt(cur, shapes, lens, j);
      if j != i {
        var perm := TurnShuffle(shuffle, i, j, cur[j].category);
        TurnShuffleFits(shuffle, i, j, cur[j].category);
        ShuffleKeepsIndex(cur[j], perm);
        PairCountShuffled(cur[j].speciesOrder, cur[j].category, cur[j].speciesOrder, perm);
      }
    }
    assert StatePairCounts(r) == StatePairCounts(cur);
    assert Populations(r) == Populations(cur);
  }

  /** The pair listing of turn i keeps the invariant of the patch and the length of habitat
      i's pair list. */
  lemma ReshuffledPairSites(cur: seq<Occupancy>, names: seq<string>, shapes: seq<(nat, nat)>, lens: seq<nat>,
                            shuffle: (nat, nat, string, Gender, nat) -> seq<nat>, i: nat)
    requires Live(cur, names, shapes, lens) && ShuffleStrategy(shuffle) && i < |cur|
    ensures var r := ReshuffledOthers(cur, shuffle, i);
      Live(r, names, shapes, lens) && |PairSites(r, names, i)| == |PairSites(cur, names, i)|
  {
    ReshuffledKeeps(cur, names, shapes, lens, shuffle, i);
    PairSitesCount(cur, names, i);
    PairSitesCount(ReshuffledOthers(cur, shuffle, i), names, i);
  }

  /** `((h_id, ) + female_pos, (h_id, ) + male_pos)` for each pair of one habitat. */
  function TagPairs(name: string, ps: seq<(Pos, Pos)>): (r: seq<((string, Pos), (string, Pos))>)
    ensures |r| == |ps| && forall k :: 0 <= k < |ps| ==> r[k] == ((name, ps[k].0), (name, ps[k].1))
  {
    seq(|ps|, k requires 0 <= k < |ps| => ((name, ps[k].0), (name, ps[k].1)))
  }

  /** The tagged pairs of each state, as `hab_sexual_pairwise_parents_ls` lists them. */
  function PairLists(cur: seq<Occupancy>, names: seq<string>): (r: seq<seq<((string, Pos), (string, Pos))>>)
    requires |cur| == |names|
    ensures |r| == |cur| &&
      forall j :: 0 <= j < |cur| ==> r[j] == TagPairs(names[j], Pairs(cur[j].speciesOrder, cur[j].category))
  {
    seq(|cur|, j requires 0 <= j < |cur| => TagPairs(names[j], Pairs(cur[j].speciesOrder, cur[j].category)))
  }

  /** The list `get_disp_within_sex_pairwise_parents_pos_ls` builds for habitat i, read on
      the states cur after its shuffles: the tagged pairs of every other habitat, in key
      order. */
  function PairSites(cur: seq<Occupancy>, names: seq<string>, i: nat): seq<((string, Pos), (string, Pos))>
    requires |cur| == |names| && i < |names|
  {
    Gather(PairLists(cur, names), names, Some(names[i]))
  }

  /** Habitat i is offered the pairs of the other habitats: as many as the sum of their pair
      counts. */
  lemma PairSitesCount(cur: seq<Occupancy>, names: seq<string>, i: nat)
    requires |cur| == |names| && NoDup(names) && i < |cur|
    ensures |PairSites(cur, names, i)| == Sum(StatePairCounts(cur)) - StatePairCounts(cur)[i]
  {
    var xss := PairLists(cur, names);
    GatherSkipLength(xss, names, i);
    GatherAllLength(xss, names);
    forall j | 0 <= j < |cur|
      ensures Lengths(xss)[j] == StatePairCounts(cur)[j]
    {
      PairsLength(cur[j].speciesOrder, cur[j].category);
    }
    assert Lengths(xss) == StatePairCounts(cur);
  }

  /** The entry e names the microsite of a female and of a male of one species, both with
      the traits `lens` describes. */
  ghost predicate MatesAt(cur: seq<Occupancy>, names: seq<string>, e: ((string, Pos), (string, Pos)), lens: seq<nat>)
    requires |cur| == |names|
  {
    var f, m := ParentOf(cur, names, e.0), ParentOf(cur, names, e.1);
    f.Some? && m.Some? && f.value.gender == Female && m.value.gender == Male &&
    f.value.species == m.value.species && Conforms(f.value, lens) && Conforms(m.value, lens)
  }

  /** Every entry of habitat i's pair list is a female and a male of one species in one
      other habitat. */
  lemma PairSitesMate(cur: seq<Occupancy>, names: seq<string>, shapes: seq<(nat, nat)>, lens: seq<nat>, i: nat)
    requires Live(cur, names, shapes, lens) && i < |cur|
    ensures forall e :: e in PairSites(cur, names, i) ==>
      e.0.0 == e.1.0 && e.0.0 in names && Find(names, e.0.0) != i && MatesAt(cur, names, e, lens)
  {
    var xss := PairLists(cur, names);
    GatherMembers(xss, names, Some(names[i]));
    forall e | e in PairSites(cur, names, i)
      ensures e.0.0 == e.1.0 && e.0.0 in names && Find(names, e.0.0) != i && MatesAt(cur, names, e, lens)
    {
      var j :| 0 <= j < |xss| && Some(names[i]) != Some(names[j]) && e in xss[j];
      var ps := Pairs(cur[j].speciesOrder, cur[j].category);
      var k :| 0 <= k < |ps| && xss[j][k] == e;
      assert LiveAt(cur, shapes, lens, j);
      PairsAreMates(cur[j]);
      assert e == ((names[j], ps[k].0), (names[j], ps[k].1));
      assert Find(names, names[j]) == j;
    }
  }

  /** The female and the male an entry of a pair list names. */
  function Mates(cur: seq<Occupancy>, names: seq<string>, e: ((string, Pos), (string, Pos)), lens: seq<nat>)
    : (r: (Individual, Individual))
    requires |cur| == |names| && MatesAt(cur, names, e, lens)
    ensures r.0.gender == Female && r.1.gender == Male && r.0.species == r.1.species
    ensures Conforms(r.0, lens) && Conforms(r.1, lens)
  {
    (ParentOf(cur, names, e.0).value, ParentOf(cur, names, e.1).value)
  }

  /** The (female, male) individuals of the pair entries. */
  function PairParents(cur: seq<Occupancy>, names: seq<string>, pairs: seq<((string, Pos), (string, Pos))>,
                       lens: seq<nat>): (r: seq<(Individual, Individual)>)
    requires |cur| == |names| && forall m :: 0 <= m < |pairs| ==> MatesAt(cur, names, pairs[m], lens)
    ensures |r| == |pairs|
    ensures forall m :: 0 <= m < |pairs| ==>
      r[m] == Mates(cur, names, pairs[m], lens) && Conforms(r[m].0, lens) && Conforms(r[m].1, lens)
  {
    seq(|pairs|, m requires 0 <= m < |pairs| => Mates(cur, names, pairs[m], lens))
  }

  /** Habitat i's new state when the offspring of pairs[m], drawn with d(m), settles on
      sites[m]. */
  function SexPlace(cur: seq<Occupancy>, names: seq<string>, i: nat, sites: seq<Pos>,
                    pairs: seq<((string, Pos), (string, Pos))>, mrate: real, d: nat -> BirthDraw,
                    lens: seq<nat>): Occupancy
    requires |cur| == |names| && i < |cur| && DrawsConform(d, lens)
    requires forall m :: 0 <= m < |pairs| ==> MatesAt(cur, names, pairs[m], lens)
  {
    PlaceAll(cur[i], Zip(sites, SexPool(PairParents(cur, names, pairs, lens), mrate, d, lens)))
  }

  /** Turn i's quota fits both samples: int(#pairs * birth_rate), capped by int(#empty *
      disp_within_rate), is at most #empty and #pairs, where #pairs is the length of the
      pair list (PairSitesCount: the sum of the pair counts of the other habitats). */
  predicate SexTurnFits(cur: seq<Occupancy>, names: seq<string>, i: nat, birthRate: real, rate: real)
    requires |cur| == |names| && i < |cur|
  {
    var pairs := |PairSites(cur, names, i)|;
    var k := WithinQuota(pairs, |cur[i].empty|, birthRate, rate);
    0 <= k <= |cur[i].empty| && k <= pairs
  }

  /** o, the new state of habitat i, keeps the invariant of the patch, adds the distinct
      empty microsites `sites` to the occupied list and one individual per site, holds on
      sites[m] the offspring drawn with d(m) from the female and the male at pairs[m] (one
      species, another habitat), and leaves every other microsite as it was. */
  ghost predicate SexSettled(cur: seq<Occupancy>, names: seq<string>, shapes: seq<(nat, nat)>, i: nat, o: Occupancy,
                             sites: seq<Pos>, pairs: seq<((string, Pos), (string, Pos))>, mrate: real,
                             d: nat -> BirthDraw, lens: seq<nat>)
    requires |cur| == |names| && i < |cur|
  {
    Live(cur[i := o], names, shapes, lens) && |sites| == |pairs| &&
    o.occupied == cur[i].occupied + sites && o.indiNum == cur[i].indiNum + |sites| &&
    (forall m :: 0 <= m < |sites| ==>
       sites[m] in cur[i].empty && pairs[m].0.0 == pairs[m].1.0 && pairs[m].0.0 in names &&
       Find(names, pairs[m].0.0) != i && MatesAt(cur, names, pairs[m], lens) &&
       var (f, male) := Mates(cur, names, pairs[m], lens);
       WellFormed(f) && WellFormed(male) && SameShape(f, male) && BirthDrawFits(f, d(m)) &&
       At(o.microsites, sites[m]) == Some(SexOffspring(f, male, mrate, d(m)))) &&
    (forall q :: q !in sites ==> At(o.microsites, q) == At(cur[i].microsites, q))
  }

  /** The samples of a turn that succeeds: k distinct empty microsites of habitat i and k
      pair entries, each a female and a male of one species in another habitat. */
  lemma SexWithinSamples(cur: seq<Occupancy>, names: seq<string>, shapes: seq<(nat, nat)>, i: nat, k: nat,
                         pickSites: seq<nat>, pickPairs: seq<nat>, lens: seq<nat>)
    requires Live(cur, names, shapes, lens) && i < |cur|
    requires IsSample(pickSites, k, |cur[i].empty|) && IsSample(pickPairs, k, |PairSites(cur, names, i)|)
    ensures var sites := Sample(cur[i].empty, pickSites);
      var pairs := Sample(PairSites(cur, names, i), pickPairs);
      |sites| == k && |pairs| == k && NoDup(sites) &&
      (forall m :: 0 <= m < k ==> sites[m] in cur[i].empty) &&
      forall m :: 0 <= m < k ==>
        pairs[m].0.0 == pairs[m].1.0 && pairs[m].0.0 in names && Find(names, pairs[m].0.0) != i &&
        MatesAt(cur, names, pairs[m], lens)
  {
    var P := PairSites(cur, names, i);
    PairSitesMate(cur, names, shapes, lens, i);
    SampleFromPopulation(P, pickPairs);
    SampleFromPopulation(cur[i].empty, pickSites);
    assert NoDup(cur[i].empty) by {
      assert LiveAt(cur, shapes, lens, i);
    }
    forall m | 0 <= m < k
      ensures var e := Sample(P, pickPairs)[m];
        e.0.0 == e.1.0 && e.0.0 in names && Find(names, e.0.0) != i && MatesAt(cur, names, e, lens)
    {
      assert Sample(P, pickPairs)[m] in P;
    }
  }

  /** Settling sampled offspring of sampled pairs on sampled empty microsites has the effect
      SexSettled describes. */
  lemma SexPlaceSettles(cur: seq<Occupancy>, names: seq<string>, shapes: seq<(nat, nat)>, i: nat, sites: seq<Pos>,
                        pairs: seq<((string, Pos), (string, Pos))>, mrate: real, d: nat -> BirthDraw, lens: seq<nat>)
    requires Live(cur, names, shapes, lens) && i < |cur| && DrawsConform(d, lens)
    requires |sites| == |pairs| && NoDup(sites) && forall m :: 0 <= m < |sites| ==> sites[m] in cur[i].empty
    requires forall m :: 0 <= m < |pairs| ==>
      pairs[m].0.0 == pairs[m].1.0 && pairs[m].0.0 in names && Find(names, pairs[m].0.0) != i &&
      MatesAt(cur, names, pairs[m], lens)
    ensures SexSettled(cur, names, shapes, i, SexPlace(cur, names, i, sites, pairs, mrate, d, lens), sites, pairs,
                       mrate, d, lens)
  {
    var parents := PairParents(cur, names, pairs, lens);
    var kids := SexPool(parents, mrate, d, lens);
    forall m | 0 <= m < |kids|
      ensures Conforms(kids[m], lens)
      ensures WellFormed(parents[m].0) && WellFormed(parents[m].1) && SameShape(parents[m].0, parents[m].1)
      ensures BirthDrawFits(parents[m].0, d(m)) && kids[m] == SexOffspring(parents[m].0, parents[m].1, mrate, d(m))
    {
      SexPoolAt(parents, mrate, d, lens, m);
      OffspringConforms(kids[m], parents[m].0, lens);
    }
    assert LiveAt(cur, shapes, lens, i);
    SettleSample(cur[i], shapes[i].0, shapes[i].1, sites, kids, lens);
    var o := SexPlace(cur, names, i, sites, pairs, mrate, d, lens);
    var c := cur[i := o];
    forall j | 0 <= j < |c|
      ensures LiveAt(c, shapes, lens, j)
    {
      if j != i {
        assert LiveAt(cur, shapes, lens, j);
      }
    }
    forall m | 0 <= m < |sites|
      ensures At(o.microsites, sites[m]) == Some(SexOffspring(parents[m].0, parents[m].1, mrate, d(m)))
    {
      assert At(o.microsites, sites[m]) == Some(kids[m]);
    }
  }

  /** Habitat i's turn on the states cur its pair listing left: k = WithinQuota(#pairs,
      #empty) offspring, each of a sampled pair, settled on sampled empty microsites; the
      sampling error when k does not fit both samples. */
  function SexWithinTurn(cur: seq<Occupancy>, names: seq<string>, shapes: seq<(nat, nat)>, i: nat,
                         birthRate: real, rate: real, mrate: real, d: SexWithinDraws, lens: seq<nat>)
    : Result<(Occupancy, nat)>
    requires Live(cur, names, shapes, lens) && i < |cur| && SexDrawsFit(d, lens)
  {
    var P := PairSites(cur, names, i);
    var E := cur[i].empty;
    var k := WithinQuota(|P|, |E|, birthRate, rate);
    if k < 0 || k > |E| || k > |P| then SamplingError
    else
      var sites := Sample(E, d.pickSites(i, k, |E|));
      var pairs := Sample(P, d.pickPairs(i, k, |P|));
      SexWithinSamples(cur, names, shapes, i, k, d.pickSites(i, k, |E|), d.pickPairs(i, k, |P|), lens);
      Ok((SexPlace(cur, names, i, sites, pairs, mrate, d.births(i), lens), k))
  }

  /** A turn that succeeds samples k = WithinQuota(#pairs, #empty) microsites and pairs and
      settles the offspring as SexSettled describes. */
  lemma SexWithinTurnPlaces(cur: seq<Occupancy>, names: seq<string>, shapes: seq<(nat, nat)>, i: nat,
                            birthRate: real, rate: real, mrate: real, d: SexWithinDraws, lens: seq<nat>)
    requires Live(cur, names, shapes, lens) && i < |cur| && SexDrawsFit(d, lens)
    ensures var t := SexWithinTurn(cur, names, shapes, i, birthRate, rate, mrate, d, lens);
      var P := PairSites(cur, names, i);
      var E := cur[i].empty;
      (t.Ok? <==> SexTurnFits(cur, names, i, birthRate, rate)) &&
      (t.Ok? ==>
         var k := t.value.1;
         k == WithinQuota(|P|, |E|, birthRate, rate) && 0 <= k <= |E| && k <= |P| &&
         SexSettled(cur, names, shapes, i, t.value.0, Sample(E, d.pickSites(i, k, |E|)),
                    Sample(P, d.pickPairs(i, k, |P|)), mrate, d.births(i), lens))
  {
    var t := SexWithinTurn(cur, names, shapes, i, birthRate, rate, mrate, d, lens);
    if t.Ok? {
      var P := PairSites(cur, names, i);
      var E := cur[i].empty;
      var k := t.value.1;
      assert k == WithinQuota(|P|, |E|, birthRate, rate) && 0 <= k <= |E| && k <= |P|;
      SexWithinSamples(cur, names, shapes, i, k, d.pickSites(i, k, |E|), d.pickPairs(i, k, |P|), lens);
      SexPlaceSettles(cur, names, shapes, i, Sample(E, d.pickSites(i, k, |E|)), Sample(P, d.pickPairs(i, k, |P|)),
                      mrate, d.births(i), lens);
    }
  }

  /** A turn that succeeds keeps the invariant of the patch and adds k individuals to
      habitat i. */
  lemma SexWithinTurnCounts(cur: seq<Occupancy>, names: seq<string>, shapes: seq<(nat, nat)>, i: nat,
                            birthRate: real, rate: real, mrate: real, d: SexWithinDraws, lens: seq<nat>)
    requires Live(cur, names, shapes, lens) && i < |cur| && SexDrawsFit(d, lens)
    ensures var t := SexWithinTurn(cur, names, shapes, i, birthRate, rate, mrate, d, lens);
      (t.Ok? <==> SexTurnFits(cur, names, i, birthRate, rate)) &&
      (t.Ok? ==> Live(cur[i := t.value.0], names, shapes, lens) && t.value.0.indiNum == cur[i].indiNum + t.value.1)
  {
    SexWithinTurnPlaces(cur, names, shapes, i, birthRate, rate, mrate, d, lens);
    var t := SexWithinTurn(cur, names, shapes, i, birthRate, rate, mrate, d, lens);
    if t.Ok? {
      var E, k := cur[i].empty, t.value.1;
      assert |Sample(E, d.pickSites(i, k, |E|))| == k;
    }
  }

  /** What turn i does, on the states its pair listing reshuffled: it succeeds exactly when
      its quota fits (always with rates in [0, 1]), keeps the invariant of the patch and adds
      what it settles to the population. */
  lemma SexWithinNextFacts(cur: seq<Occupancy>, names: seq<string>, shapes: seq<(nat, nat)>, i: nat, birthRate: real,
                           rate: real, mrate: real, d: SexWithinDraws, lens: seq<nat>)
    requires Live(cur, names, shapes, lens) && i < |cur| && SexDrawsFit(d, lens)
    ensures Live(ReshuffledOthers(cur, d.shuffle, i), names, shapes, lens)
    ensures var sh := ReshuffledOthers(cur, d.shuffle, i);
      var t := SexWithinTurn(sh, names, shapes, i, birthRate, rate, mrate, d, lens);
      (t.Ok? <==> SexTurnFits(cur, names, i, birthRate, rate)) &&
      (0.0 <= birthRate <= 1.0 && 0.0 <= rate <= 1.0 ==> t.Ok?) &&
      (t.Ok? ==>
         Live(sh[i := t.value.0], names, shapes, lens) &&
         Sum(Populations(sh[i := t.value.0])) == Sum(Populations(cur)) + t.value.1)
  {
    var sh := ReshuffledOthers(cur, d.shuffle, i);
    ReshuffledKeeps(cur, names, shapes, lens, d.shuffle, i);
    ReshuffledPairSites(cur, names, shapes, lens, d.shuffle, i);
    WithinQuotaFitsIf(|PairSites(sh, names, i)|, |sh[i].empty|, birthRate, rate);
    assert sh[i] == cur[i];
    var t := SexWithinTurn(sh, names, shapes, i, birthRate, rate, mrate, d, lens);
    SexWithinTurnCounts(sh, names, shapes, i, birthRate, rate, mrate, d, lens);
    if t.Ok? {
      PopulationsUpdate(sh, i, t.value.0);
      SumUpdate(Populations(sh), i, t.value.0.indiNum);
    }
  }

  /** The states after turn i of the sexual within-patch dispersal: the other habitats'
      lists reshuffled by its pair listing, state i replaced by the turn's new state, and the
      number of offspring settled; the sampling error when its quota does not fit. */
  function SexWithinNext(cur: seq<Occupancy>, names: seq<string>, shapes: seq<(nat, nat)>, i: nat, birthRate: real,
                         rate: real, mrate: real, d: SexWithinDraws, lens: seq<nat>): (r: Result<(seq<Occupancy>, int)>)
    requires Live(cur, names, shapes, lens) && i < |cur| && SexDrawsFit(d, lens)
    ensures r.Ok? <==> SexTurnFits(cur, names, i, birthRate, rate)
    ensures r.Ok? || r.SamplingError?
    ensures r.Ok? ==> Live(r.value.0, names, shapes, lens) && |r.value.0| == |cur|
    ensures r.Ok? ==> forall j :: 0 <= j < |cur| && j != i ==> r.value.0[j] == Reshuffle(cur[j], d.shuffle, i, j)
    ensures r.Ok? ==> Sum(Populations(r.value.0)) == Sum(Populations(cur)) + r.value.1
    ensures 0.0 <= birthRate <= 1.0 && 0.0 <= rate <= 1.0 ==> r.Ok?
  {
    var sh := ReshuffledOthers(cur, d.shuffle, i);
    SexWithinNextFacts(cur, names, shapes, i, birthRate, rate, mrate, d, lens);
    var t := SexWithinTurn(sh, names, shapes, i, birthRate, rate, mrate, d, lens);
    if !t.Ok? then SamplingError else Ok((sh[i := t.value.0], t.value.1))
  }

  /** The sexual turns of habitats 0 .. n-1 in key order, each on the states the earlier
      turns left (their reshuffled lists and settled offspring): the states after them and
      the number of offspring settled, or the sampling error of the first turn that raises
      it. */
  function SexWithinRun(cur: seq<Occupancy>, names: seq<string>, shapes: seq<(nat, nat)>, birthRate: real, rate: real,
                        mrate: real, d: SexWithinDraws, lens: seq<nat>, n: nat): (r: Result<(seq<Occupancy>, int)>)
    requires Live(cur, names, shapes, lens) && n <= |cur| && SexDrawsFit(d, lens)
    ensures r.Ok? || r.SamplingError?
    ensures r.Ok? ==> Live(r.value.0, names, shapes, lens)
    ensures r.Ok? ==> Sum(Populations(r.value.0)) == Sum(Populations(cur)) + r.value.1
    ensures 0.0 <= birthRate <= 1.0 && 0.0 <= rate <= 1.0 ==> r.Ok?
  {
    if n == 0 then Ok((cur, 0))
    else
      var prev := SexWithinRun(cur, names, shapes, birthRate, rate, mrate, d, lens, n - 1);
      if !prev.Ok? then SamplingError
      else
        var next := SexWithinNext(prev.value.0, names, shapes, n - 1, birthRate, rate, mrate, d, lens);
        if !next.Ok? then SamplingError
        else Ok((next.value.0, prev.value.1 + next.value.1))
  }

  /** Sexual turn j of the run raises the sampling error: the turns before it succeed and
      its quota does not fit its samples. */
  ghost predicate SexTurnMisfits(cur: seq<Occupancy>, names: seq<string>, shapes: seq<(nat, nat)>, birthRate: real,
                                 rate: real, mrate: real, d: SexWithinDraws, lens: seq<nat>, j: nat)
    requires Live(cur, names, shapes, lens) && j < |cur| && SexDrawsFit(d, lens)
  {
    var prev := SexWithinRun(cur, names, shapes, birthRate, rate, mrate, d, lens, j);
    prev.Ok? && !SexTurnFits(prev.value.0, names, j, birthRate, rate)
  }

  /** The sexual run never fails before its first turn, and it fails after turn n-1 exactly
      when it had failed before that turn or that turn's quota does not fit. */
  lemma SexWithinRunStep(cur: seq<Occupancy>, names: seq<string>, shapes: seq<(nat, nat)>,
                         birthRate: real, rate: real, mrate: real, d: SexWithinDraws, lens: seq<nat>, n: nat)
    requires Live(cur, names, shapes, lens) && n <= |cur| && SexDrawsFit(d, lens)
    ensures n == 0 ==> SexWithinRun(cur, names, shapes, birthRate, rate, mrate, d, lens, n).Ok?
    ensures n > 0 ==> (SexWithinRun(cur, names, shapes, birthRate, rate, mrate, d, lens, n).SamplingError? <==>
      SexWithinRun(cur, names, shapes, birthRate, rate, mrate, d, lens, n - 1).SamplingError? ||
      SexTurnMisfits(cur, names, shapes, birthRate, rate, mrate, d, lens, n - 1))
  {
  }

  /** The sexual run's turn n, after turns 0 .. n-1 that succeeded: it succeeds exactly when
      the turn on their states does, adding that turn's states and count. */
  lemma SexWithinRunNext(cur: seq<Occupancy>, names: seq<string>, shapes: seq<(nat, nat)>,
                         birthRate: real, rate: real, mrate: real, d: SexWithinDraws, lens: seq<nat>, n: nat)
    requires Live(cur, names, shapes, lens) && n < |cur| && SexDrawsFit(d, lens)
    requires SexWithinRun(cur, names, shapes, birthRate, rate, mrate, d, lens, n).Ok?
    ensures var prev := SexWithinRun(cur, names, shapes, birthRate, rate, mrate, d, lens, n);
      var next := SexWithinNext(prev.value.0, names, shapes, n, birthRate, rate, mrate, d, lens);
      var run := SexWithinRun(cur, names, shapes, birthRate, rate, mrate, d, lens, n + 1);
      (run.Ok? <==> next.Ok?) &&
      (run.Ok? ==> run.value.0 == next.value.0 && run.value.1 == prev.value.1 + next.value.1)
  {
  }

  /** The loop that appends `((h_id, ) + female_pos, (h_id, ) + male_pos)` for each pair of
      habitat `name`. */
  method AppendPairs(ls0: seq<((string, Pos), (string, Pos))>, name: string, pairs: seq<(Pos, Pos)>)
    returns (ls: seq<((string, Pos), (string, Pos))>)
    ensures ls == ls0 + TagPairs(name, pairs)
  {
    ls := ls0;
    for k := 0 to |pairs|
      invariant ls == ls0 + TagPairs(name, pairs[..k])
    {
      assert TagPairs(name, pairs[..k + 1]) == TagPairs(name, pairs[..k]) + [((name, pairs[k].0), (name, pairs[k].1))];
      ls := ls + [((name, pairs[k].0), (name, pairs[k].1))];
    }
    assert pairs[..|pairs|] == pairs;
  }

  /** Habitats 0 .. j-1 of hs hold their states in cur', the others theirs in cur, and
      every habitat keeps its invariant and its pools offs and dorms. */
  ghost predicate ShuffledUpTo(hs: seq<Habitat>, cur: seq<Occupancy>, cur': seq<Occupancy>, offs: seq<seq<Individual>>,
                               dorms: seq<seq<Individual>>, j: nat)
    reads hs
  {
    |cur| == |hs| && |cur'| == |hs| && |offs| == |hs| && |dorms| == |hs| && j <= |hs| &&
    (forall l {:trigger Untouched(hs[l], cur'[l])} :: 0 <= l < j ==> Untouched(hs[l], cur'[l])) &&
    (forall l {:trigger Untouched(hs[l], cur[l])} :: j <= l < |hs| ==> Untouched(hs[l], cur[l])) &&
    (forall l {:trigger PoolsKept(hs[l], offs[l], dorms[l])} :: 0 <= l < |hs| ==> PoolsKept(hs[l], offs[l], dorms[l]))
  }

  /** One step of the loop of `get_disp_within_sex_pairwise_parents_pos_ls` for habitat i:
      habitat j, unless it is the i-th, lists its pairs (shuffling its lists in place) and
      they are appended, tagged with its key. */
  method ListPairsOf(hs: seq<Habitat>, ghost cur: seq<Occupancy>, ghost offs: seq<seq<Individual>>,
                     ghost dorms: seq<seq<Individual>>, i: nat, j: nat, shuffle: (nat, nat, string, Gender, nat) -> seq<nat>,
                     ls0: seq<((string, Pos), (string, Pos))>)
    returns (ls: seq<((string, Pos), (string, Pos))>)
    requires Separate(hs) && NoDup(Names(hs)) && i < |hs| && j < |hs| && ShuffleStrategy(shuffle)
    requires ShuffledUpTo(hs, cur, ReshuffledOthers(cur, shuffle, i), offs, dorms, j)
    modifies hs[j]
    ensures ShuffledUpTo(hs, cur, ReshuffledOthers(cur, shuffle, i), offs, dorms, j + 1)
    ensures ls == ls0 + (if Some(hs[i].name) == Some(Names(hs)[j]) then []
                         else PairLists(ReshuffledOthers(cur, shuffle, i), Names(hs))[j])
  {
    ghost var cur' := ReshuffledOthers(cur, shuffle, i);
    var h := hs[j];
    assert Untouched(h, cur[j]) && PoolsKept(h, offs[j], dorms[j]);
    forall l | 0 <= l < |hs| && l != j
      ensures hs[l] != h
    {
      assert Apart(hs, j, l);
    }
    if hs[i].name != h.name {
      var perm := TurnShuffle(shuffle, i, j, h.speciesCategory);
      TurnShuffleFits(shuffle, i, j, h.speciesCategory);
      var pairs := h.PairwiseParents(perm);
      ls := AppendPairs(ls0, h.name, pairs);
    } else {
      assert Names(hs)[i] == Names(hs)[j];
      ls := ls0;
    }
  }

  /** `get_disp_within_sex_pairwise_parents_pos_ls` for habitat i of hs, whose states are
      cur: every other habitat lists its pairs, shuffling its lists in place with the draws
      of turn i, so the states become cur', and the list is the tagged pairs of cur'. */
  method CollectPairSites(hs: seq<Habitat>, ghost cur: seq<Occupancy>, ghost offs: seq<seq<Individual>>,
                          ghost dorms: seq<seq<Individual>>, i: nat, shuffle: (nat, nat, string, Gender, nat) -> seq<nat>)
    returns (ls: seq<((string, Pos), (string, Pos))>, ghost cur': seq<Occupancy>)
    requires Separate(hs) && AsexProgress(hs, cur, offs, dorms) && NoDup(Names(hs)) && i < |hs|
    requires ShuffleStrategy(shuffle)
    modifies hs
    ensures cur' == ReshuffledOthers(cur, shuffle, i) && AsexProgress(hs, cur', offs, dorms)
    ensures ls == PairSites(cur', Names(hs), i)
  {
    ghost var names := Names(hs);
    cur' := ReshuffledOthers(cur, shuffle, i);
    ghost var xss := PairLists(cur', names);
    ls := [];
    for j := 0 to |hs|
      invariant ls == Gather(xss[..j], names[..j], Some(names[i]))
      invariant ShuffledUpTo(hs, cur, cur', offs, dorms, j)
    {
      GatherSnoc(xss, names, Some(names[i]), j);
      ls := ListPairsOf(hs, cur, offs, dorms, i, j, shuffle, ls);
    }
    assert xss[..|hs|] == xss && names[..|hs|] == names;
    assert forall l :: 0 <= l < |hs| ==> Untouched(hs[l], cur'[l]);
  }

  /** `self.set[h_id].set['microsite_individuals'][row][col]` for the female and the male of
      the pair entry e, and their offspring drawn with dm. */
  method SexWithinBirthOf(hs: seq<Habitat>, ghost cur: seq<Occupancy>, ghost offs: seq<seq<Individual>>,
                          ghost dorms: seq<seq<Individual>>, e: ((string, Pos), (string, Pos)), mrate: real,
                          dm: BirthDraw, lens: seq<nat>) returns (kid: Individual)
    requires AsexProgress(hs, cur, offs, dorms) && DrawConforms(dm, lens) && MatesAt(cur, Names(hs), e, lens)
    ensures var (f, m) := Mates(cur, Names(hs), e, lens);
      WellFormed(f) && WellFormed(m) && SameShape(f, m) && BirthDrawFits(f, dm) &&
      kid == SexOffspring(f, m, mrate, dm)
  {
    var names := Names(hs);
    var jf, jm := Find(names, e.0.0), Find(names, e.1.0);
    assert Untouched(hs[jf], cur[jf]) && Untouched(hs[jm], cur[jm]);
    var female, male := At(hs[jf].microsites, e.0.1).value, At(hs[jm].microsites, e.1.1).value;
    ConformsFit(female, dm, lens);
    ConformsFit(male, dm, lens);
    ConformsAlike(female, male, lens);
    kid := SexBirth(female, male, mrate, dm);
  }

  /** The offspring loop of one sexual turn: the m-th offspring is drawn with d(m) from the
      female and the male at pairs[m], looked up in the habitats hs whose states are cur. */
  method SexWithinBirths(hs: seq<Habitat>, ghost cur: seq<Occupancy>, ghost offs: seq<seq<Individual>>,
                         ghost dorms: seq<seq<Individual>>, pairs: seq<((string, Pos), (string, Pos))>, mrate: real,
                         d: nat -> BirthDraw, lens: seq<nat>) returns (kids: seq<Individual>)
    requires AsexProgress(hs, cur, offs, dorms) && DrawsConform(d, lens)
    requires forall m :: 0 <= m < |pairs| ==> MatesAt(cur, Names(hs), pairs[m], lens)
    ensures kids == SexPool(PairParents(cur, Names(hs), pairs, lens), mrate, d, lens)
  {
    ghost var parents := PairParents(cur, Names(hs), pairs, lens);
    ghost var all := SexPool(parents, mrate, d, lens);
    kids := [];
    for m := 0 to |pairs|
      invariant kids == all[..m]
    {
      var kid := SexWithinBirthOf(hs, cur, offs, dorms, pairs[m], mrate, d(m), lens);
      SexPoolAt(parents, mrate, d, lens, m);
      PrefixSnoc(all, m);
      kids := kids + [kid];
    }
    assert all[..|pairs|] == all;
  }

  /** The placing part of habitat i's sexual turn on the habitats hs, whose states sh are
      those its pair listing left and whose pair list for i is P: the turn SexWithinTurn
      describes, done in place on habitat i. */
  method SexWithinPlace(hs: seq<Habitat>, ghost sh: seq<Occupancy>, ghost offs: seq<seq<Individual>>,
                        ghost dorms: seq<seq<Individual>>, i: nat, P: seq<((string, Pos), (string, Pos))>,
                        birthRate: real, rate: real, mrate: real, d: SexWithinDraws, lens: seq<nat>)
    returns (r: Result<int>)
    requires Separate(hs) && AsexProgress(hs, sh, offs, dorms) && i < |hs|
    requires Live(sh, Names(hs), Shapes(hs), lens) && SexDrawsFit(d, lens) && P == PairSites(sh, Names(hs), i)
    modifies hs[i]
    ensures var t := SexWithinTurn(sh, Names(hs), Shapes(hs), i, birthRate, rate, mrate, d, lens);
      (r.Ok? <==> t.Ok?) && (r.Ok? || r.SamplingError?) &&
      (r.Ok? ==> r.value == t.value.1 && AsexProgress(hs, sh[i := t.value.0], offs, dorms)) &&
      (r.SamplingError? ==> AsexProgress(hs, sh, offs, dorms))
  {
    ghost var names, shapes := Names(hs), Shapes(hs);
    var h := hs[i];
    assert Untouched(h, sh[i]) && PoolsKept(h, offs[i], dorms[i]);
    var E := h.emptySites;
    var k := WithinQuota(|P|, |E|, birthRate, rate);
    if k < 0 || k > |E| || k > |P| {
      return SamplingError;
    }
    var pickS, pickP := d.pickSites(i, k, |E|), d.pickPairs(i, k, |P|);
    var sites, pairs := Sample(E, pickS), Sample(P, pickP);
    SexWithinSamples(sh, names, shapes, i, k, pickS, pickP, lens);
    SexWithinSettle(hs, sh, offs, dorms, i, sites, pairs, mrate, d.births(i), lens);
    r := Ok(k);
  }

  /** The offspring of pairs[m], drawn with d(m), settled on the distinct empty microsites
      sites[m] of habitat i of hs, whose states are sh. */
  method SexWithinSettle(hs: seq<Habitat>, ghost sh: seq<Occupancy>, ghost offs: seq<seq<Individual>>,
                         ghost dorms: seq<seq<Individual>>, i: nat, sites: seq<Pos>,
                         pairs: seq<((string, Pos), (string, Pos))>, mrate: real, d: nat -> BirthDraw, lens: seq<nat>)
    requires Separate(hs) && AsexProgress(hs, sh, offs, dorms) && i < |hs| && DrawsConform(d, lens)
    requires NoDup(sites) && forall m :: 0 <= m < |sites| ==> sites[m] in sh[i].empty
    requires forall m :: 0 <= m < |pairs| ==> MatesAt(sh, Names(hs), pairs[m], lens)
    modifies hs[i]
    ensures AsexProgress(hs, sh[i := SexPlace(sh, Names(hs), i, sites, pairs, mrate, d, lens)], offs, dorms)
  {
    var h := hs[i];
    assert Untouched(h, sh[i]) && PoolsKept(h, offs[i], dorms[i]);
    var kids := SexWithinBirths(hs, sh, offs, dorms, pairs, mrate, d, lens);
    var settled := h.SettleOn(sites, kids);
    ghost var c := sh[i := h.State()];
    forall j | 0 <= j < |hs|
      ensures Untouched(hs[j], c[j]) && PoolsKept(hs[j], offs[j], dorms[j])
    {
      if j != i {
        assert Apart(hs, i, j);
        assert old(Untouched(hs[j], sh[j]) && PoolsKept(hs[j], offs[j], dorms[j]));
      }
    }
  }

  /** Habitat i's turn of `sex_reproduce_mutate_for_dispersal_within_patch` on the habitats
      hs, whose states are cur: the turn SexWithinNext describes, done in place.  When its
      quota does not fit, the other habitats' lists have been shuffled all the same. */
  method SexWithinStep(hs: seq<Habitat>, ghost cur: seq<Occupancy>, ghost offs: seq<seq<Individual>>,
                       ghost dorms: seq<seq<Individual>>, i: nat, birthRate: real, rate: real, mrate: real,
                       d: SexWithinDraws, lens: seq<nat>) returns (r: Result<int>)
    requires Separate(hs) && AsexProgress(hs, cur, offs, dorms) && i < |hs|
    requires Live(cur, Names(hs), Shapes(hs), lens) && SexDrawsFit(d, lens)
    modifies hs
    ensures var next := SexWithinNext(cur, Names(hs), Shapes(hs), i, birthRate, rate, mrate, d, lens);
      (r.Ok? <==> next.Ok?) && (r.Ok? || r.SamplingError?) &&
      (r.Ok? ==> r.value == next.value.1 && AsexProgress(hs, next.value.0, offs, dorms)) &&
      (r.SamplingError? ==> AsexProgress(hs, ReshuffledOthers(cur, d.shuffle, i), offs, dorms))
  {
    var P, sh := CollectPairSites(hs, cur, offs, dorms, i, d.shuffle);
    SexWithinNextFacts(cur, Names(hs), Shapes(hs), i, birthRate, rate, mrate, d, lens);
    r := SexWithinPlace(hs, sh, offs, dorms, i, P, birthRate, rate, mrate, d, lens);
  }

  /** sexTrace[k] is the sexual run from the states s0 of the habitats `names` after its turns
      0 .. k-1, for every k up to the number of habitats. */
  ghost predicate SexTraces(trace: seq<Result<(seq<Occupancy>, int)>>, s0: seq<Occupancy>, names: seq<string>,
                            shapes: seq<(nat, nat)>, birthRate: real, rate: real, mrate: real, d: SexWithinDraws,
                            lens: seq<nat>)
  {
    Live(s0, names, shapes, lens) && |trace| == |s0| + 1 && SexDrawsFit(d, lens) &&
    forall k {:trigger SexWithinRun(s0, names, shapes, birthRate, rate, mrate, d, lens, k)} :: 0 <= k <= |s0| ==>
      trace[k] == SexWithinRun(s0, names, shapes, birthRate, rate, mrate, d, lens, k)
  }

  /** The sexual run's trace from the states s0, turn by turn. */
  ghost function SexWithinTrace(s0: seq<Occupancy>, names: seq<string>, shapes: seq<(nat, nat)>,
                                birthRate: real, rate: real, mrate: real, d: SexWithinDraws, lens: seq<nat>)
    : (trace: seq<Result<(seq<Occupancy>, int)>>)
    requires Live(s0, names, shapes, lens) && SexDrawsFit(d, lens)
    ensures SexTraces(trace, s0, names, shapes, birthRate, rate, mrate, d, lens)
  {
    seq(|s0| + 1, k requires 0 <= k <= |s0| => SexWithinRun(s0, names, shapes, birthRate, rate, mrate, d, lens, k))
  }

  /** The outcome of the sexual within-patch dispersal from the states s0: the result r is
      the counter or the sampling error, and `stop` turns have been taken as the run of
      SexWithinRun describes.  On success every turn was taken, the states are the run's and
      the counter is the number settled; on the sampling error, turn `stop` did not fit, the
      states are the run's up to it with the other habitats' lists shuffled by its pair
      listing. */
  ghost predicate SexWithinOutcome(s0: seq<Occupancy>, names: seq<string>, shapes: seq<(nat, nat)>, birthRate: real,
                                   rate: real, mrate: real, d: SexWithinDraws, lens: seq<nat>, r: Result<int>,
                                   stop: nat, states: seq<Occupancy>)
    requires Live(s0, names, shapes, lens) && SexDrawsFit(d, lens)
  {
    stop <= |s0| && (r.Ok? || r.SamplingError?) &&
    var run := SexWithinRun(s0, names, shapes, birthRate, rate, mrate, d, lens, stop);
    run.Ok? &&
    (r.Ok? ==> stop == |s0| && states == run.value.0 && r.value == run.value.1) &&
    (r.SamplingError? ==>
       stop < |s0| && states == ReshuffledOthers(run.value.0, d.shuffle, stop) &&
       SexTurnMisfits(s0, names, shapes, birthRate, rate, mrate, d, lens, stop))
  }

  /** What the loop of turns promises, read through the trace, is the outcome of the run. */
  lemma SexTraceOutcome(trace: seq<Result<(seq<Occupancy>, int)>>, s0: seq<Occupancy>, names: seq<string>,
                        shapes: seq<(nat, nat)>, birthRate: real, rate: real, mrate: real, d: SexWithinDraws,
                        lens: seq<nat>, r: Result<int>, stop: nat, cur: seq<Occupancy>)
    requires SexTraces(trace, s0, names, shapes, birthRate, rate, mrate, d, lens)
    requires stop <= |s0| && (r.Ok? || r.SamplingError?) && trace[stop].Ok?
    requires r.Ok? ==> stop == |s0| && cur == trace[stop].value.0 && trace[stop].value.1 == r.value
    requires r.SamplingError? ==>
      stop < |s0| && |trace[stop].value.0| == |names| && cur == ReshuffledOthers(trace[stop].value.0, d.shuffle, stop) &&
      !SexTurnFits(trace[stop].value.0, names, stop, birthRate, rate)
    ensures SexWithinOutcome(s0, names, shapes, birthRate, rate, mrate, d, lens, r, stop, cur)
  {
    assert trace[stop] == SexWithinRun(s0, names, shapes, birthRate, rate, mrate, d, lens, stop);
  }

  /** Sexual turn i of the loop, after turns 0 .. i-1 of the run left the states cur, having
      settled `added`: the run's turn i done in place (SexWithinStep), or the sampling error
      when its quota does not fit, after the other habitats' lists were shuffled. */
  method SexWithinTurnAt(hs: seq<Habitat>, ghost s0: seq<Occupancy>, ghost offs: seq<seq<Individual>>,
                         ghost dorms: seq<seq<Individual>>, birthRate: real, rate: real, mrate: real,
                         d: SexWithinDraws, lens: seq<nat>, i: nat,
                         ghost trace: seq<Result<(seq<Occupancy>, int)>>, ghost cur: seq<Occupancy>, ghost added: int)
    returns (r: Result<int>, ghost cur': seq<Occupancy>)
    requires Separate(hs) && i < |hs| && SexTraces(trace, s0, Names(hs), Shapes(hs), birthRate, rate, mrate, d, lens)
    requires trace[i].Ok? && trace[i].value.0 == cur && trace[i].value.1 == added
    requires AsexProgress(hs, cur, offs, dorms)
    modifies hs
    ensures r.Ok? || r.SamplingError?
    ensures AsexProgress(hs, cur', offs, dorms)
    ensures r.Ok? ==> trace[i + 1].Ok? && trace[i + 1].value.0 == cur' && trace[i + 1].value.1 == added + r.value
    ensures r.SamplingError? ==>
      cur' == ReshuffledOthers(cur, d.shuffle, i) && !SexTurnFits(cur, Names(hs), i, birthRate, rate)
  {
    ghost var names, shapes := Names(hs), Shapes(hs);
    SexWithinRunNext(s0, names, shapes, birthRate, rate, mrate, d, lens, i);
    r := SexWithinStep(hs, cur, offs, dorms, i, birthRate, rate, mrate, d, lens);
    cur' := if r.Ok? then SexWithinNext(cur, names, shapes, i, birthRate, rate, mrate, d, lens).value.0
            else ReshuffledOthers(cur, d.shuffle, i);
  }

  /** The loop of `sex_reproduce_mutate_for_dispersal_within_patch` over the habitats hs,
      whose states were s0 and whose sexual run is traced by trace, from turn i on, with the
      counter at `counter` and the turns before i having settled `added`: turn i is
      SexWithinStep, and the counter grows by the number settled; the first turn whose quota
      does not fit stops it with the sampling error, after shuffling the others' lists. */
  method SexWithinTurns(hs: seq<Habitat>, ghost s0: seq<Occupancy>, ghost offs: seq<seq<Individual>>,
                        ghost dorms: seq<seq<Individual>>, counter: int, birthRate: real, rate: real, mrate: real,
                        d: SexWithinDraws, lens: seq<nat>, i: nat,
                        ghost trace: seq<Result<(seq<Occupancy>, int)>>, ghost cur: seq<Occupancy>, ghost added: int)
    returns (r: Result<int>, ghost stop: nat, ghost cur': seq<Occupancy>)
    requires Separate(hs) && i <= |hs| && SexTraces(trace, s0, Names(hs), Shapes(hs), birthRate, rate, mrate, d, lens)
    requires trace[i].Ok? && trace[i].value.0 == cur && trace[i].value.1 == added
    requires AsexProgress(hs, cur, offs, dorms)
    modifies hs
    decreases |hs| - i
    ensures i <= stop <= |hs| && (r.Ok? || r.SamplingError?) && AsexProgress(hs, cur', offs, dorms)
    ensures trace[stop].Ok?
    ensures r.Ok? ==>
      stop == |hs| && cur' == trace[stop].value.0 && trace[stop].value.1 == added + (r.value - counter)
    ensures r.SamplingError? ==>
      stop < |hs| && |trace[stop].value.0| == |hs| && cur' == ReshuffledOthers(trace[stop].value.0, d.shuffle, stop) &&
      !SexTurnFits(trace[stop].value.0, Names(hs), stop, birthRate, rate)
  {
    if i == |hs| {
      return Ok(counter), i, cur;
    }
    var n, next := SexWithinTurnAt(hs, s0, offs, dorms, birthRate, rate, mrate, d, lens, i, trace, cur, added);
    if n.SamplingError? {
      return SamplingError, i, next;
    }
    r, stop, cur' := SexWithinTurns(hs, s0, offs, dorms, counter + n.value, birthRate, rate, mrate, d, lens, i + 1,
                                    trace, next, added + n.value);
  }

  // ---------------------------------------------------------------- the patch

  class Patch {
    const name: string
    const birthRate: real
    /** The values of `set`, in key order; each habitat's key is its name. */
    var habitats: seq<Habitat>
    /** `hab_num`: one more per `add_habitat` call. */
    var habNum: nat

    /** Distinct keys, and every habitat keeps its own invariant. */
    ghost predicate Valid()
      reads this, habitats
    {
      NoDup(Names(habitats)) && forall i {:trigger habitats[i].Valid()} :: 0 <= i < |habitats| ==> habitats[i].Valid()
    }

    /** Distinct keys make distinct habitat objects, so changing one leaves the others. */
    lemma Apart(i: nat)
      requires NoDup(Names(habitats)) && i < |habitats|
      ensures forall j :: 0 <= j < |habitats| && j != i ==> habitats[j] != habitats[i]
    {
      forall j | 0 <= j < |habitats| && j != i
        ensures habitats[j] != habitats[i]
      {
        assert Names(habitats)[j] != Names(habitats)[i];
      }
    }

    constructor (name: string, birthRate: real)
      ensures this.name == name && this.birthRate == birthRate
      ensures habitats == [] && habNum == 0 && Valid()
    {
      this.name := name;
      this.birthRate := birthRate;
      habitats := [];
      habNum := 0;
    }

    /** `get_patch_size`. */
    function Size(): int
      reads this
    {
      Sum(Sizes(habitats))
    }

    /** `get_patch_individual_num`. */
    function IndividualNum(): int
      reads this, habitats
    {
      Sum(IndiNums(habitats))
    }

    /** `get_patch_offsprings_pool`. */
    function OffspringsPool(): seq<Individual>
      reads this, habitats
    {
      Gather(OffspringPools(habitats), Names(habitats), None)
    }

    /** `get_patch_empty_sites_ls`: (habitat name, position) of every empty microsite. */
    function EmptySitesLs(): seq<(string, Pos)>
      reads this, habitats
    {
      TaggedSites(habitats, false, None)
    }

    /** `get_disp_within_offsprings_pool`: the offspring of every habitat but the target. */
    function DispWithinOffspringsPool(target: string): seq<Individual>
      reads this, habitats
    {
      Gather(OffspringPools(habitats), Names(habitats), Some(target))
    }

    /** `get_disp_within_asex_parent_pos_ls`: (habitat name, position) of every occupied
        microsite of every habitat but the target. */
    function DispWithinAsexParentPosLs(target: string): seq<(string, Pos)>
      reads this, habitats
    {
      TaggedSites(habitats, true, Some(target))
    }

    // ------------------------------------------------------------ the getters' loops

    /** The loop of `get_patch_size`. */
    method GetSize() returns (size: int)
      ensures size == Size()
    {
      size := 0;
      for i := 0 to |habitats|
        invariant size == Sum(Sizes(habitats[..i]))
      {
        assert Sizes(habitats[..i + 1])[..i] == Sizes(habitats[..i]);
        size := size + habitats[i].length * habitats[i].width;
      }
      assert habitats[..|habitats|] == habitats;
    }

    /** The loop of `get_patch_individual_num`. */
    method GetIndividualNum() returns (num: int)
      ensures num == IndividualNum()
    {
      num := 0;
      for i := 0 to |habitats|
        invariant num == Sum(IndiNums(habitats[..i]))
      {
        assert habitats[..i + 1][..i] == habitats[..i];
        num := num + habitats[i].indiNum;
      }
      assert habitats[..|habitats|] == habitats;
    }

    /** The loop of `get_patch_offsprings_pool` and of `get_disp_within_offsprings_pool`,
        which skips the habitat named `skip`. */
    method GetOffspringsPool(skip: Option<string>) returns (pool: seq<Individual>)
      ensures pool == Gather(OffspringPools(habitats), Names(habitats), skip)
    {
      ghost var xss, names := OffspringPools(habitats), Names(habitats);
      pool := [];
      for i := 0 to |habitats|
        invariant pool == Gather(xss[..i], names[..i], skip)
      {
        GatherSnoc(xss, names, skip, i);
        if skip != Some(habitats[i].name) {
          pool := pool + habitats[i].offspringPool;
        }
      }
      assert xss[..|habitats|] == xss && names[..|habitats|] == names;
    }

    /** `patch_offsprings_num`. */
    method OffspringsNum() returns (n: nat)
      ensures n == |OffspringsPool()|
    {
      var pool := GetOffspringsPool(None);
      n := |pool|;
    }

    /** The nested loops of `get_patch_empty_sites_ls` (`skip` None, `occupied` false) and
        of `get_disp_within_asex_parent_pos_ls` (the target's name, `occupied` true). */
    method GetPosLs(skip: Option<string>, occupied: bool) returns (ls: seq<(string, Pos)>)
      ensures ls == TaggedSites(habitats, occupied, skip)
    {
      ghost var names := Names(habitats);
      ghost var xss := TagAll(names, PosLists(habitats, occupied));
      ls := [];
      for i := 0 to |habitats|
        invariant ls == Gather(xss[..i], names[..i], skip)
      {
        var h := habitats[i];
        GatherSnoc(xss, names, skip, i);
        if skip != Some(h.name) {
          var sites := if occupied then h.occupiedSites else h.emptySites;
          ls := AppendTagged(ls, h.name, sites);
        }
      }
      assert xss[..|habitats|] == xss && names[..|habitats|] == names;
      TaggedSitesGathered(habitats, occupied, skip);
    }

    static method AppendTagged(ls0: seq<(string, Pos)>, name: string, sites: seq<Pos>) returns (ls: seq<(string, Pos)>)
      ensures ls == ls0 + Tag(name, sites)
    {
      ls := ls0;
      for k := 0 to |sites|
        invariant ls == ls0 + Tag(name, sites[..k])
      {
        ls := ls + [(name, sites[k])];
      }
      assert sites[..|sites|] == sites;
    }

    /** `patch_empty_sites_num`. */
    method EmptySitesNum() returns (n: nat)
      ensures n == |EmptySitesLs()|
    {
      var ls := GetPosLs(None, false);
      n := |ls|;
    }

    // ------------------------------------------------------------ properties of the getters

    /** The patch's individuals and empty microsites together fill it. */
    lemma SizePartition()
      requires Valid()
      ensures IndividualNum() + |EmptySitesLs()| == Size()
    {
      var hs := habitats;
      var tagged := TagAll(Names(hs), PosLists(hs, false));
      TaggedSitesGathered(hs, false, None);
      forall i | 0 <= i < |hs| ensures IndiNums(hs)[i] + Lengths(tagged)[i] == Sizes(hs)[i] {
        assert hs[i].Valid();
        Partition(hs[i].State(), hs[i].length, hs[i].width);
      }
      SumsAdd(IndiNums(hs), Lengths(tagged), Sizes(hs));
      GatherAllLength(tagged, Names(hs));
    }

    /** The pool offered to a habitat for within-patch dispersal is the patch's pool less the
        habitat's own offspring, and a name no habitat carries leaves out nothing. */
    lemma DispWithinPoolSize(target: string)
      requires Valid()
      ensures forall i :: 0 <= i < |habitats| && habitats[i].name == target ==>
        |DispWithinOffspringsPool(target)| + |habitats[i].offspringPool| == |OffspringsPool()|
      ensures target !in Names(habitats) ==> DispWithinOffspringsPool(target) == OffspringsPool()
    {
      forall i | 0 <= i < |habitats| && habitats[i].name == target
        ensures |DispWithinOffspringsPool(target)| + |habitats[i].offspringPool| == |OffspringsPool()|
      {
        GatherSkipLength(OffspringPools(habitats), Names(habitats), i);
      }
      if target !in Names(habitats) {
        GatherNotNamed(OffspringPools(habitats), Names(habitats), target);
      }
    }

    /** The asexual parents offered to a habitat for within-patch dispersal number the
        patch's individuals less the habitat's own. */
    lemma DispWithinParentsCount(i: nat)
      requires Valid() && i < |habitats|
      ensures |DispWithinAsexParentPosLs(habitats[i].name)| + habitats[i].indiNum == IndividualNum()
    {
      var hs := habitats;
      var tagged := TagAll(Names(hs), PosLists(hs, true));
      TaggedSitesGathered(hs, true, Some(hs[i].name));
      GatherSkipLength(tagged, Names(hs), i);
      GatherAllLength(tagged, Names(hs));
      assert Lengths(tagged) == IndiNums(hs) by {
        forall j | 0 <= j < |hs|
          ensures Lengths(tagged)[j] == IndiNums(hs)[j]
        {
          assert hs[j].Valid();
        }
      }
    }

    /** ... they are the individuals of the other habitats: each entry names another habitat
        and one of its occupied microsites, and each such microsite is listed. */
    lemma DispWithinParentsListed(i: nat)
      requires Valid() && i < |habitats|
      ensures forall e :: e in DispWithinAsexParentPosLs(habitats[i].name) ==>
        e.0 != habitats[i].name &&
        exists j :: 0 <= j < |habitats| && habitats[j].name == e.0 && e.1 in habitats[j].occupiedSites
      ensures forall j, p :: 0 <= j < |habitats| && j != i && p in habitats[j].occupiedSites ==>
        (habitats[j].name, p) in DispWithinAsexParentPosLs(habitats[i].name)
    {
      var hs := habitats;
      var tagged := TagAll(Names(hs), PosLists(hs, true));
      var skip := Some(hs[i].name);
      TaggedSitesGathered(hs, true, skip);
      GatherMembers(tagged, Names(hs), skip);
      forall e | e in DispWithinAsexParentPosLs(hs[i].name)
        ensures e.0 != hs[i].name && exists j :: 0 <= j < |hs| && hs[j].name == e.0 && e.1 in hs[j].occupiedSites
      {
        var j :| 0 <= j < |tagged| && skip != Some(Names(hs)[j]) && e in tagged[j];
        TagMembers(hs[j].name, hs[j].occupiedSites);
      }
      forall j, p | 0 <= j < |hs| && j != i && p in hs[j].occupiedSites
        ensures (hs[j].name, p) in DispWithinAsexParentPosLs(hs[i].name)
      {
        TagMembers(hs[j].name, hs[j].occupiedSites);
        assert Names(hs)[j] != Names(hs)[i];
        assert (hs[j].name, p) in tagged[j];
      }
    }

    /** `add_habitat`: a new, empty habitat under the key hname; an existing key keeps its
        place in the key order and gets the new habitat.  `hab_num` counts the calls. */
    method AddHabitat(hname: string, length: nat, width: nat, meanEnv: seq<real>)
      requires Valid()
      modifies this
      ensures Valid() && habNum == old(habNum) + 1
      ensures Names(habitats) == if hname in Names(old(habitats)) then Names(old(habitats)) else Names(old(habitats)) + [hname]
      ensures forall i :: 0 <= i < |habitats| && habitats[i].name != hname ==> habitats[i] == old(habitats)[i]
      ensures forall i :: 0 <= i < |habitats| && habitats[i].name == hname ==>
        fresh(habitats[i]) && habitats[i].State() == Fresh(length, width) &&
        habitats[i].length == length && habitats[i].width == width && habitats[i].meanEnv == meanEnv &&
        habitats[i].offspringPool == [] && habitats[i].dormancyPool == []
    {
      var h := new Habitat(hname, length, width, meanEnv);
      if hname in Names(habitats) {
        var k := Find(Names(habitats), hname);
        habitats := habitats[k := h];
        assert Names(habitats) == Names(old(habitats));
      } else {
        habitats := habitats + [h];
        assert Names(habitats) == Names(old(habitats)) + [hname];
      }
      habNum := habNum + 1;
    }

    // ------------------------------------------------------------ reproduction for dispersal among patches

    /** Every occupant of every habitat has the traits `geno_len_ls` describes. */
    ghost predicate Conforming(lens: seq<nat>)
      reads this, habitats
    {
      forall i {:trigger GridConforms(habitats[i].microsites, lens)} :: 0 <= i < |habitats| ==> GridConforms(habitats[i].microsites, lens)
    }

    /** `asex_reproduce_mutate_for_dispersal_among_patches`: nothing when the quota q or the
        patch's population N is 0; otherwise habitat i contributes the offspring of
        int(q * (n_i / N)) of its individuals (`hab_asex_reproduce_mutate_with_num` with the
        index draw picks(i) and the offspring draws draws(i)), in key order.  A share above
        its habitat's population is the sampling error.  On success the list is the
        contributions segs joined in key order: habitat i's has int(q * (n_i / N)) members,
        the offspring of the occupants picks(i) samples, in sample order. */
    method AsexForDispersalAmongPatches(mrate: real, q: int, picks: nat -> seq<nat>, draws: nat -> nat -> BirthDraw,
                                        lens: seq<nat>) returns (r: Result<seq<Individual>>, ghost segs: seq<seq<Individual>>)
      requires Valid() && Conforming(lens) && forall i :: DrawsConform(draws(i), lens)
      requires IndividualNum() != 0 ==> forall i :: 0 <= i < |habitats| ==>
        var s := Share(q, habitats[i].indiNum, IndividualNum());
        0 <= s <= habitats[i].indiNum ==> IsSample(picks(i), s, habitats[i].indiNum)
      ensures r.Ok? || r.SamplingError?
      ensures q == 0 || IndividualNum() == 0 ==> r == Ok([])
      ensures r.SamplingError? <==> (q != 0 && IndividualNum() != 0 &&
        exists i :: 0 <= i < |habitats| && !(0 <= Share(q, habitats[i].indiNum, IndividualNum()) <= habitats[i].indiNum))
      ensures r.Ok? && q != 0 && IndividualNum() != 0 ==>
        |r.value| == Sum(Shares(q, IndiNums(habitats), IndividualNum()))
      ensures 0 <= q <= IndividualNum() ==> r.Ok? && |r.value| <= q
      ensures r.Ok? && q != 0 && IndividualNum() != 0 ==> |segs| == |habitats| && r.value == Flatten(segs)
      ensures r.Ok? && q != 0 && IndividualNum() != 0 ==>
        OccupantsTaken(habitats, segs, mrate, q, IndividualNum(), picks, draws)
    {
      var total := GetIndividualNum();
      if q == 0 || total == 0 {
        return Ok([]), [];
      }
      r, segs := AsexAmong(habitats, mrate, q, total, picks, draws, lens);
      assert total == IndividualNum();
    }

    /** The loop of `get_patch_sexual_pairwise_parents_num`: habitat i's index lists are
        shuffled with perm(i) as `hab_sexual_pairwise_parents_num` does, and the pair counts
        add up. */
    method GetSexualPairwiseParentsNum(perm: nat -> (string, Gender) -> seq<nat>) returns (n: int)
      requires Valid() && PermsFit(habitats, perm)
      modifies habitats`speciesCategory
      ensures Valid()
      ensures forall j :: 0 <= j < |habitats| ==> habitats[j].Unshuffled() == old(habitats[j].Unshuffled())
      ensures forall j :: 0 <= j < |habitats| ==>
        habitats[j].speciesCategory == ShuffleAll(old(habitats[j].speciesCategory), habitats[j].speciesOrder, perm(j))
      ensures PairCounts(habitats) == old(PairCounts(habitats))
      ensures n == Sum(PairCounts(habitats))
    {
      DistinctHabitats(habitats);
      ghost var counts: seq<nat> := PairCounts(habitats);
      forall j | 0 <= j < |habitats|
        ensures Kept(habitats[j], counts[j])
      {
        assert habitats[j].Valid();
      }
      n := ShuffleCounts(habitats, counts, perm);
      forall j | 0 <= j < |habitats|
        ensures habitats[j].Valid() && PairCount(habitats[j].speciesOrder, habitats[j].speciesCategory) == counts[j]
      {
        assert Kept(habitats[j], counts[j]);
      }
      PairCountsPointwise(habitats, counts);
    }

    /** Habitats that keep their invariants keep the patch's. */
    lemma KeptValid(counts: seq<nat>)
      requires NoDup(Names(habitats)) && |counts| == |habitats|
      requires forall j {:trigger Kept(habitats[j], counts[j])} :: 0 <= j < |habitats| ==> Kept(habitats[j], counts[j])
      ensures Valid()
    {
      forall j | 0 <= j < |habitats|
        ensures habitats[j].Valid()
      {
        assert Kept(habitats[j], counts[j]);
      }
    }

    /** `sex_reproduce_mutate_for_dispersal_among_patches`: the patch's pair count P (its
        loop shuffles habitat i with permCount(i)); nothing when q or P is 0; otherwise
        habitat i contributes int(q * (p_i / P)) offspring of its pairs: its own pair count
        (shuffling with permShare(i)), then `hab_sex_reproduce_mutate_with_num` (shuffling
        with permBreed(i), index draw picks(i), offspring draws draws(i)).  Shuffles keep
        the pair counts, so the shares are those of the counts on entry; a share above its
        habitat's pair count is the sampling error.  Only index lists change.  On success
        every habitat's lists went through the three shuffles, and the list is the
        contributions segs joined in key order: habitat i's has int(q * (p_i / P)) members,
        the offspring of the pairs picks(i) samples from its reshuffled lists, in sample
        order. */
    method SexForDispersalAmongPatches(mrate: real, q: int, permCount: nat -> (string, Gender) -> seq<nat>,
                                       permShare: nat -> (string, Gender) -> seq<nat>,
                                       permBreed: nat -> (string, Gender) -> seq<nat>,
                                       picks: nat -> seq<nat>, draws: nat -> nat -> BirthDraw, lens: seq<nat>)
      returns (r: Result<seq<Individual>>, ghost segs: seq<seq<Individual>>)
      requires Valid() && Conforming(lens) && forall i :: DrawsConform(draws(i), lens)
      requires PermsFit(habitats, permCount) && PermsFit(habitats, permShare) && PermsFit(habitats, permBreed)
      requires var counts := PairCounts(habitats);
        Sum(counts) != 0 ==> forall i :: 0 <= i < |habitats| ==>
          var s := Share(q, counts[i], Sum(counts));
          0 <= s <= counts[i] ==> IsSample(picks(i), s, counts[i])
      modifies habitats`speciesCategory
      ensures Valid() && Conforming(lens)
      ensures forall j :: 0 <= j < |habitats| ==> habitats[j].Unshuffled() == old(habitats[j].Unshuffled())
      ensures r.Ok? || r.SamplingError?
      ensures var counts := old(PairCounts(habitats));
        q == 0 || Sum(counts) == 0 ==> r == Ok([])
      ensures var counts := old(PairCounts(habitats));
        r.SamplingError? <==> (q != 0 && Sum(counts) != 0 &&
          SomeShareMisfits(q, counts, Sum(counts)))
      ensures var counts := old(PairCounts(habitats));
        r.Ok? && q != 0 && Sum(counts) != 0 ==> |r.value| == Sum(Shares(q, counts, Sum(counts)))
      ensures var counts := old(PairCounts(habitats));
        0 <= q <= Sum(counts) ==> r.Ok? && |r.value| <= q
      ensures var counts := old(PairCounts(habitats));
        r.Ok? && q != 0 && Sum(counts) != 0 ==> forall j {:trigger habitats[j].speciesCategory} :: 0 <= j < |habitats| ==>
          ShuffledThrice(old(habitats[j].speciesCategory), habitats[j].speciesCategory, habitats[j].speciesOrder,
                         permCount(j), permShare(j), permBreed(j))
      ensures var counts := old(PairCounts(habitats));
        r.Ok? && q != 0 && Sum(counts) != 0 ==> |segs| == |habitats| && r.value == Flatten(segs)
      ensures var counts := old(PairCounts(habitats));
        r.Ok? && q != 0 && Sum(counts) != 0 ==> forall j {:trigger segs[j]} :: 0 <= j < |habitats| ==>
          |segs[j]| == Share(q, counts[j], Sum(counts)) && PairsKids(habitats[j], picks(j), segs[j], mrate, draws(j))
    {
      DistinctHabitats(habitats);
      ghost var counts: seq<nat> := PairCounts(habitats);
      forall j | 0 <= j < |habitats|
        ensures Kept(habitats[j], counts[j])
      {
        assert habitats[j].Valid();
      }
      r, segs := SexAmong(habitats, counts, mrate, q, permCount, permShare, permBreed, picks, draws, lens);
      KeptValid(counts);
    }

    // ------------------------------------------------------------ dispersal within the patch

    /** `patch_disp_within_from_offsprings_pool`: in key order, habitat i takes its turn
        (PoolTurn) offered `get_disp_within_offsprings_pool`, the offspring of every other
        habitat, with the draws pickSites(i), pickPool(i) and permPool(i); the counter grows
        by the number settled.  No pool changes, so each habitat is offered the pools of the
        start.  The first refused sample size is the sampling error; the habitats before it
        have taken their turns. */
    method DispWithinFromOffspringsPool(rate: real, counter: int, pickSites: nat -> seq<nat>, pickPool: nat -> seq<nat>,
                                        permPool: nat -> seq<nat>) returns (r: Result<int>)
      requires Valid()
      requires PoolDrawsFit(States(habitats), WithinPools(OffspringPools(habitats), Names(habitats)), rate,
                            pickSites, pickPool, permPool)
      modifies habitats
      ensures Valid()
      ensures OffspringPools(habitats) == old(OffspringPools(habitats))
      ensures DormancyPools(habitats) == old(DormancyPools(habitats))
      ensures r.Ok? || r.SamplingError?
      ensures var t := PoolTally(old(States(habitats)), WithinPools(OffspringPools(habitats), Names(habitats)),
                                 SiteNums(old(States(habitats)), rate), |habitats|);
        (r.SamplingError? <==> t.None?) && (r.Ok? ==> r.value == counter + t.value)
      ensures r.Ok? ==> forall j :: 0 <= j < |habitats| ==>
        PoolSettled(habitats[j], old(States(habitats))[j], WithinPools(OffspringPools(habitats), Names(habitats))[j],
                    rate, pickSites(j), pickPool(j), permPool(j))
    {
      DistinctHabitats(habitats);
      SeparateHabitats(habitats);
      ghost var s0, offs, dorms := States(habitats), OffspringPools(habitats), DormancyPools(habitats);
      ghost var pools := WithinPools(offs, Names(habitats));
      forall j | 0 <= j < |habitats|
        ensures Untouched(habitats[j], s0[j]) && PoolsKept(habitats[j], offs[j], dorms[j])
      {
        assert habitats[j].Valid();
      }
      ghost var ks := SiteNums(s0, rate);
      assert SiteNumsOf(ks, s0, rate);
      ghost var stop;
      r, stop := PoolTurns(habitats, s0, pools, offs, dorms, ks, rate, counter, pickSites, pickPool, permPool);
      PoolProgressHabitats(habitats, s0, pools, offs, dorms, rate, pickSites, pickPool, permPool, stop);
    }

    /** `asex_reproduce_mutate_for_dispersal_within_patch`: the habitats take their turns in
        key order (AsexWithinStep), each on the states the earlier turns left, and the counter
        grows by the number settled.  The first quota that does not fit its samples is the
        sampling error: the turns before it (`stop` of them) have been taken, and the run of
        AsexWithinRun describes them. */
    method AsexForDispersalWithinPatch(mrate: real, rate: real, counter: int, pickSites: (nat, nat, nat) -> seq<nat>,
                                       pickParents: (nat, nat, nat) -> seq<nat>, draws: nat -> nat -> RoundsDraw,
                                       lens: seq<nat>) returns (r: Result<int>, ghost stop: nat)
      requires Valid() && Live(States(habitats), Names(habitats), Shapes(habitats), lens)
      requires SampleStrategy(pickSites) && SampleStrategy(pickParents) && RoundsStrategy(draws, lens)
      modifies habitats
      ensures Valid()
      ensures OffspringPools(habitats) == old(OffspringPools(habitats))
      ensures DormancyPools(habitats) == old(DormancyPools(habitats))
      ensures r.Ok? || r.SamplingError?
      ensures stop <= |habitats|
      ensures var run := AsexWithinRun(old(States(habitats)), Names(habitats), Shapes(habitats), birthRate, rate, mrate,
                                       pickSites, pickParents, draws, lens, stop);
        run.Ok? && States(habitats) == run.value.0 &&
        (r.Ok? ==> stop == |habitats| && r.value == counter + run.value.1) &&
        (r.SamplingError? ==>
           stop < |habitats| &&
           TurnMisfits(old(States(habitats)), Names(habitats), Shapes(habitats), birthRate, rate, mrate, pickSites,
                       pickParents, draws, lens, stop))
    {
      DistinctHabitats(habitats);
      SeparateHabitats(habitats);
      ghost var s0, offs, dorms := States(habitats), OffspringPools(habitats), DormancyPools(habitats);
      forall j | 0 <= j < |habitats|
        ensures Untouched(habitats[j], s0[j]) && PoolsKept(habitats[j], offs[j], dorms[j])
      {
        assert habitats[j].Valid();
      }
      ghost var trace := AsexWithinTrace(s0, Names(habitats), Shapes(habitats), birthRate, rate, mrate, pickSites,
                                         pickParents, draws, lens);
      ghost var cur;
      r, stop, cur := AsexWithinTurns(habitats, s0, offs, dorms, counter, birthRate, rate, mrate, pickSites, pickParents,
                                      draws, lens, 0, trace, s0, 0);
      AsexProgressStates(habitats, cur, offs, dorms);
    }

    /** `sex_reproduce_mutate_for_dispersal_within_patch`: the habitats take their turns in
        key order (SexWithinStep), each on the states the earlier turns left, and the counter,
        from 0, grows by the number settled.  The first quota that does not fit its samples is
        the sampling error: the turns before it (`stop` of them) have been taken, as the run of
        SexWithinRun describes, and the failing turn has shuffled the others' lists. */
    method SexForDispersalWithinPatch(mrate: real, rate: real, d: SexWithinDraws, lens: seq<nat>)
      returns (r: Result<int>, ghost stop: nat)
      requires Valid() && Live(States(habitats), Names(habitats), Shapes(habitats), lens) && SexDrawsFit(d, lens)
      modifies habitats
      ensures Valid()
      ensures OffspringPools(habitats) == old(OffspringPools(habitats))
      ensures DormancyPools(habitats) == old(DormancyPools(habitats))
      ensures SexWithinOutcome(old(States(habitats)), Names(habitats), Shapes(habitats), birthRate, rate, mrate, d, lens,
                               r, stop, States(habitats))
    {
      DistinctHabitats(habitats);
      SeparateHabitats(habitats);
      ghost var s0, offs, dorms := States(habitats), OffspringPools(habitats), DormancyPools(habitats);
      forall j | 0 <= j < |habitats|
        ensures Untouched(habitats[j], s0[j]) && PoolsKept(habitats[j], offs[j], dorms[j])
      {
        assert habitats[j].Valid();
      }
      ghost var names, shapes := Names(habitats), Shapes(habitats);
      ghost var trace := SexWithinTrace(s0, names, shapes, birthRate, rate, mrate, d, lens);
      ghost var cur;
      r, stop, cur := SexWithinTurns(habitats, s0, offs, dorms, 0, birthRate, rate, mrate, d, lens, 0, trace, s0, 0);
      assert |s0| == |names| == |habitats| && names == Names(habitats);
      AsexProgressStates(habitats, cur, offs, dorms);
      SexTraceOutcome(trace, s0, names, shapes, birthRate, rate, mrate, d, lens, r, stop, cur);
    }
  }
}
