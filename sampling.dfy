/** The simulation's random choices, made explicit.  A draw of `random.shuffle` is a
    permutation of the list's indexes; a draw of `random.sample(population, k)` is a list of
    k distinct indexes into the population.  Contracts then hold for every possible draw. */
module Sampling {

  predicate NoDup<T(==)>(s: seq<T>) {
    forall i, j :: 0 <= i < j < |s| ==> s[i] != s[j]
  }

  /** `perm` lists every index below n exactly once. */
  predicate IsPermutation(perm: seq<nat>, n: nat) {
    |perm| == n && NoDup(perm) &&
    (forall i :: 0 <= i < n ==> perm[i] < n) &&
    (forall j :: 0 <= j < n ==> j in perm)
  }

  /** `k` distinct indexes below n, in the order `random.sample` returned them. */
  predicate IsSample(pick: seq<nat>, k: nat, n: nat) {
    |pick| == k && NoDup(pick) && forall i :: 0 <= i < k ==> pick[i] < n
  }

  /** The list after an in-place `random.shuffle` that drew `perm`. */
  function Shuffle<T>(s: seq<T>, perm: seq<nat>): (r: seq<T>)
    requires IsPermutation(perm, |s|)
    ensures |r| == |s|
    ensures forall i :: 0 <= i < |s| ==> r[i] == s[perm[i]]
  {
    seq(|s|, i requires 0 <= i < |s| => s[perm[i]])
  }

  /** The list `random.sample(s, |pick|)` returns for the index draw `pick`. */
  function Sample<T>(s: seq<T>, pick: seq<nat>): (r: seq<T>)
    requires IsSample(pick, |pick|, |s|)
    ensures |r| == |pick|
    ensures forall i :: 0 <= i < |pick| ==> r[i] == s[pick[i]]
  {
    seq(|pick|, i requires 0 <= i < |pick| => s[pick[i]])
  }

  /** Python's `list(zip(a, b))`: pairs up to the shorter list. */
  function Zip<A, B>(a: seq<A>, b: seq<B>): (r: seq<(A, B)>)
    ensures |r| == if |a| < |b| then |a| else |b|
    ensures forall i :: 0 <= i < |r| ==> r[i] == (a[i], b[i])
  {
    if |a| == 0 || |b| == 0 then [] else [(a[0], b[0])] + Zip(a[1..], b[1..])
  }

  function Min(a: int, b: int): int { if a < b then a else b }

  /** A shuffled list holds exactly the elements of the original, each as often: for
      lists without duplicates, the same elements and still no duplicates. */
  lemma ShuffleSameElements<T>(s: seq<T>, perm: seq<nat>)
    requires IsPermutation(perm, |s|)
    ensures forall x :: x in Shuffle(s, perm) <==> x in s
    ensures NoDup(s) ==> NoDup(Shuffle(s, perm))
  {
    var r := Shuffle(s, perm);
    forall x | x in s ensures x in r {
      var j :| 0 <= j < |s| && s[j] == x;
      assert j in perm;
      var i :| 0 <= i < |perm| && perm[i] == j;
      assert r[i] == x;
    }
  }

  /** A sample draws distinct members of the population. */
  lemma SampleFromPopulation<T>(s: seq<T>, pick: seq<nat>)
    requires IsSample(pick, |pick|, |s|)
    ensures forall x :: x in Sample(s, pick) ==> x in s
    ensures NoDup(s) ==> NoDup(Sample(s, pick))
  {
  }

  /** A list without duplicates has as many distinct elements as entries. */
  lemma {:induction false} DistinctCard<T>(s: seq<T>)
    requires NoDup(s)
    ensures |set x | x in s| == |s|
  {
    if s != [] {
      var t := s[..|s| - 1];
      DistinctCard(t);
      assert (set x | x in s) == (set x | x in t) + {s[|s| - 1]};
      assert s[|s| - 1] !in (set x | x in t);
    }
  }

  /** The length of each list, in order. */
  function Lengths<T>(xss: seq<seq<T>>): (r: seq<nat>)
    ensures |r| == |xss| && forall i :: 0 <= i < |xss| ==> r[i] == |xss[i]|
  {
    seq(|xss|, i requires 0 <= i < |xss| => |xss[i]|)
  }

  /** Two duplicate-free lists that split a third between them are as long together as it. */
  lemma SplitLengths<T>(a: seq<T>, b: seq<T>, c: seq<T>)
    requires NoDup(a) && NoDup(b) && NoDup(c)
    requires forall x :: x in c <==> x in a || x in b
    requires forall x :: x in a ==> x !in b
    ensures |a| + |b| == |c|
  {
    var sa, sb, sc := set x | x in a, set x | x in b, set x | x in c;
    assert sa * sb == {};
    assert sa + sb == sc;
    DistinctCard(a);
    DistinctCard(b);
    DistinctCard(c);
  }

  lemma AppendAssoc<T>(a: seq<T>, b: seq<T>, c: seq<T>)
    ensures a + (b + c) == a + b + c
  {
  }
}
