/** Dispersal among patches (`metacommunity`): the emigrant and immigrant matrices built from a
    given dispersal-rate matrix, `mat_around`, the element-wise minimum of the two, and the
    per-destination placement loop.  The kernel and its normalisation (networkx shortest paths,
    `exp`) are inputs: the rate matrices are given real matrices. */
module Flows {
  import opened Wrappers
  import opened Sampling
  import opened Numeric

  type Matrix = seq<seq<real>>

  /** An n-by-n matrix of any entries. */
  predicate Square<T>(m: seq<seq<T>>, n: nat) {
    |m| == n && forall i :: 0 <= i < n ==> |m[i]| == n
  }

  /** Every entry of the n-by-n matrix m lies in [0, 1]: a matrix of dispersal rates. */
  predicate Rates(m: Matrix, n: nat) {
    Square(m, n) && forall i, j :: 0 <= i < n && 0 <= j < n ==> 0.0 <= m[i][j] <= 1.0
  }

  function RealSum(xs: seq<real>): real {
    if xs == [] then 0.0 else RealSum(xs[..|xs| - 1]) + xs[|xs| - 1]
  }

  /** Column j of m. */
  function Column(m: Matrix, n: nat, j: nat): (r: seq<real>)
    requires Square(m, n) && j < n
    ensures |r| == n && forall i :: 0 <= i < n ==> r[i] == m[i][j]
  {
    seq(n, i requires 0 <= i < n => m[i][j])
  }

  function Reals(ns: seq<nat>): (r: seq<real>)
    ensures |r| == |ns| && forall i :: 0 <= i < |ns| ==> r[i] == ns[i] as real
  {
    seq(|ns|, i requires 0 <= i < |ns| => ns[i] as real)
  }

  // ---------------------------------------------------------------- the two flow matrices

  /** `patch_offs_num_matrix * emigrant_disp_rate_matrix`: the diagonal matrix of the patches'
      offspring numbers times the rate matrix, so row i is rate row i scaled by counts[i]. */
  function Emigrants(counts: seq<real>, rate: Matrix): (r: Matrix)
    requires Square(rate, |counts|)
    ensures Square(r, |counts|)
  {
    seq(|counts|, i requires 0 <= i < |counts| =>
      seq(|counts|, j requires 0 <= j < |counts| => counts[i] * rate[i][j]))
  }

  /** `immigrant_disp_rate_matrix * patch_empty_sites_num_matrix`: the rate matrix times the
      diagonal matrix of the patches' empty-site numbers, so column j is rate column j scaled
      by empties[j]. */
  function Immigrants(rate: Matrix, empties: seq<real>): (r: Matrix)
    requires Square(rate, |empties|)
    ensures Square(r, |empties|)
  {
    seq(|empties|, i requires 0 <= i < |empties| =>
      seq(|empties|, j requires 0 <= j < |empties| => rate[i][j] * empties[j]))
  }

  /** Scaling a list scales its sum. */
  lemma {:induction false} ScaledSum(c: real, xs: seq<real>, ys: seq<real>)
    requires |ys| == |xs| && forall k :: 0 <= k < |xs| ==> ys[k] == c * xs[k]
    ensures RealSum(ys) == c * RealSum(xs)
  {
    if xs != [] {
      var n := |xs| - 1;
      ScaledSum(c, xs[..n], ys[..n]);
    }
  }

  /** Row i of the emigrant matrix sums to counts[i] times the sum of rate row i: when the
      rate rows sum to 1, every patch sends out all its offspring. */
  lemma EmigrantRowSum(counts: seq<real>, rate: Matrix, i: nat)
    requires Square(rate, |counts|) && i < |counts|
    ensures RealSum(Emigrants(counts, rate)[i]) == counts[i] * RealSum(rate[i])
  {
    ScaledSum(counts[i], rate[i], Emigrants(counts, rate)[i]);
  }

  /** Column j of the immigrant matrix sums to empties[j] times the sum of rate column j:
      when the rate columns sum to 1, every patch is offered all its empty sites. */
  lemma ImmigrantColumnSum(rate: Matrix, empties: seq<real>, j: nat)
    requires Square(rate, |empties|) && j < |empties|
    ensures RealSum(Column(Immigrants(rate, empties), |empties|, j)) == empties[j] * RealSum(Column(rate, |empties|, j))
  {
    var n := |empties|;
    var col := Column(Immigrants(rate, empties), n, j);
    forall k | 0 <= k < n
      ensures col[k] == empties[j] * Column(rate, n, j)[k]
    {
    }
    ScaledSum(empties[j], Column(rate, n, j), col);
  }

  // ---------------------------------------------------------------- mat_around

  /** The matrix after the diagonal loop of `mat_around`: a diagonal entry strictly between 0
      and 1 becomes 1, every other entry stays. */
  function Lifted(m: Matrix): (r: Matrix)
    ensures |r| == |m| && forall i :: 0 <= i < |m| ==> |r[i]| == |m[i]|
  {
    seq(|m|, i requires 0 <= i < |m| =>
      seq(|m[i]|, j requires 0 <= j < |m[i]| => if i == j && 0.0 < m[i][j] < 1.0 then 1.0 else m[i][j]))
  }

  /** `np.around` of every entry. */
  function Around(m: Matrix): (r: seq<seq<int>>)
    ensures |r| == |m| && forall i :: 0 <= i < |m| ==> |r[i]| == |m[i]|
  {
    seq(|m|, i requires 0 <= i < |m| => seq(|m[i]|, j requires 0 <= j < |m[i]| => RoundHalfEven(m[i][j])))
  }

  /** The entries of a two-dimensional array, row by row. */
  function Entries(a: array2<real>): (r: Matrix)
    reads a
    ensures Square(r, a.Length0) || a.Length0 != a.Length1
  {
    seq(a.Length0, i requires 0 <= i < a.Length0 reads a =>
      seq(a.Length1, j requires 0 <= j < a.Length1 reads a => a[i, j]))
  }

  /** `mat_around`: the diagonal loop lifts, in place, the diagonal entries strictly between 0
      and 1 to 1, and the result is the rounded matrix. */
  method MatAround(matrix: array2<real>) returns (r: seq<seq<int>>)
    requires matrix.Length0 == matrix.Length1
    modifies matrix
    ensures Entries(matrix) == Lifted(old(Entries(matrix)))
    ensures r == Around(Entries(matrix))
  {
    ghost var m0 := Entries(matrix);
    var n := matrix.Length0;
    for i := 0 to n
      invariant forall a, b :: 0 <= a < n && 0 <= b < n ==>
        matrix[a, b] == if a == b && a < i && 0.0 < m0[a][b] < 1.0 then 1.0 else m0[a][b]
    {
      if 0.0 < matrix[i, i] < 1.0 {
        matrix[i, i] := 1.0;
      }
    }
    assert Entries(matrix) == Lifted(m0) by {
      var e, l := Entries(matrix), Lifted(m0);
      forall a | 0 <= a < n
        ensures e[a] == l[a]
      {
      }
    }
    r := Around(Entries(matrix));
  }

  /** What `mat_around` makes of each entry: a diagonal entry strictly between 0 and 1 comes out
      as 1, and every other entry as its nearest integer (ties to even), within 0.5 of it. */
  lemma MatAroundEntries(m: Matrix, n: nat, i: nat, j: nat)
    requires Square(m, n) && i < n && j < n
    ensures var r := Around(Lifted(m));
      (i == j && 0.0 < m[i][j] < 1.0 ==> r[i][j] == 1) &&
      (!(i == j && 0.0 < m[i][j] < 1.0) ==>
         r[i][j] == RoundHalfEven(m[i][j]) && m[i][j] - 0.5 <= r[i][j] as real <= m[i][j] + 0.5)
  {
    RoundOfInteger(1);
  }

  /** Integer bounds on the entries survive `mat_around`: an entry in [lo, hi] comes out in
      [lo, hi]. */
  lemma MatAroundWithin(m: Matrix, n: nat, i: nat, j: nat, lo: int, hi: int)
    requires Square(m, n) && i < n && j < n && lo as real <= m[i][j] <= hi as real
    ensures lo <= Around(Lifted(m))[i][j] <= hi
  {
    var x := Lifted(m)[i][j];
    assert lo as real <= x <= hi as real;
    RoundMonotone(lo as real, x);
    RoundMonotone(x, hi as real);
    RoundOfInteger(lo);
    RoundOfInteger(hi);
  }

  /** With rates in [0, 1], a patch with c offspring sends between 0 and c of them to any
      patch, after `mat_around`. */
  lemma EmigrantsFit(counts: seq<nat>, rate: Matrix, i: nat, j: nat)
    requires Rates(rate, |counts|) && i < |counts| && j < |counts|
    ensures 0 <= Around(Lifted(Emigrants(Reals(counts), rate)))[i][j] <= counts[i]
  {
    var c, d := counts[i] as real, rate[i][j];
    assert 0.0 <= c * d <= c * 1.0;
    assert Emigrants(Reals(counts), rate)[i][j] == c * d;
    MatAroundWithin(Emigrants(Reals(counts), rate), |counts|, i, j, 0, counts[i]);
  }

  /** With rates in [0, 1], a patch with e empty sites is offered between 0 and e of them by
      any patch, after `mat_around`. */
  lemma ImmigrantsFit(rate: Matrix, empties: seq<nat>, i: nat, j: nat)
    requires Rates(rate, |empties|) && i < |empties| && j < |empties|
    ensures 0 <= Around(Lifted(Immigrants(rate, Reals(empties))))[i][j] <= empties[j]
  {
    var d, e := rate[i][j], empties[j] as real;
    assert 0.0 <= d * e <= 1.0 * e;
    assert Immigrants(rate, Reals(empties))[i][j] == d * e;
    MatAroundWithin(Immigrants(rate, Reals(empties)), |empties|, i, j, 0, empties[j]);
  }

  // ---------------------------------------------------------------- np.minimum

  /** `np.minimum(emigrants_matrix, immigrants_matrix)`. */
  function Minimum(a: seq<seq<int>>, b: seq<seq<int>>, n: nat): (r: seq<seq<int>>)
    requires Square(a, n) && Square(b, n)
    ensures Square(r, n)
  {
    seq(n, i requires 0 <= i < n => seq(n, j requires 0 <= j < n => if a[i][j] < b[i][j] then a[i][j] else b[i][j]))
  }

  /** The minimum is below both matrices and equal to one of them at every entry. */
  lemma MinimumBelow(a: seq<seq<int>>, b: seq<seq<int>>, n: nat, i: nat, j: nat)
    requires Square(a, n) && Square(b, n) && i < n && j < n
    ensures var r := Minimum(a, b, n);
      r[i][j] <= a[i][j] && r[i][j] <= b[i][j] && (r[i][j] == a[i][j] || r[i][j] == b[i][j])
  {
  }

  /** The migrant matrix of the three dispersals among patches: the minimum of the rounded
      emigrant matrix of the patches' offspring numbers (the pools' sizes, or the expected
      births of `emigrant_matrix_expectation_asexual` / `_sexual`) and the rounded immigrant
      matrix of the empty-site numbers. */
  function Migrants(counts: seq<real>, empties: seq<nat>, emRate: Matrix, imRate: Matrix): (r: seq<seq<int>>)
    requires |empties| == |counts| && Square(emRate, |counts|) && Square(imRate, |counts|)
    ensures Square(r, |counts|)
  {
    var n := |counts|;
    Minimum(Around(Lifted(Emigrants(counts, emRate))), Around(Lifted(Immigrants(imRate, Reals(empties)))), n)
  }

  /** With rates in [0, 1] and offspring numbers that are not negative, a patch never sends a
      negative number of migrants, nor more than a destination has empty sites. */
  lemma MigrantsFit(counts: seq<real>, empties: seq<nat>, emRate: Matrix, imRate: Matrix, i: nat, j: nat)
    requires |empties| == |counts| && Rates(emRate, |counts|) && Rates(imRate, |counts|)
    requires forall k :: 0 <= k < |counts| ==> 0.0 <= counts[k]
    requires i < |counts| && j < |counts|
    ensures var m := Migrants(counts, empties, emRate, imRate);
      0 <= m[i][j] <= empties[j]
  {
    var n := |counts|;
    var em := Emigrants(counts, emRate);
    var a, b := Around(Lifted(em)), Around(Lifted(Immigrants(imRate, Reals(empties))));
    var c, d := counts[i], emRate[i][j];
    assert 0.0 <= c * d;
    assert em[i][j] == c * d;
    assert Lifted(em)[i][j] == if i == j && 0.0 < c * d < 1.0 then 1.0 else c * d;
    RoundMonotone(0.0, Lifted(em)[i][j]);
    RoundOfInteger(0);
    ImmigrantsFit(imRate, empties, i, j);
    MinimumBelow(a, b, n, i, j);
  }

  /** For the pool-based dispersal the offspring numbers are the pools' sizes, and a patch
      never sends more migrants than its pool holds. */
  lemma PoolMigrantsFit(pools: seq<nat>, empties: seq<nat>, emRate: Matrix, imRate: Matrix, i: nat, j: nat)
    requires |empties| == |pools| && Rates(emRate, |pools|) && Rates(imRate, |pools|)
    requires i < |pools| && j < |pools|
    ensures var m := Migrants(Reals(pools), empties, emRate, imRate);
      0 <= m[i][j] <= pools[i] && m[i][j] <= empties[j]
  {
    var n := |pools|;
    var a, b := Around(Lifted(Emigrants(Reals(pools), emRate))), Around(Lifted(Immigrants(imRate, Reals(empties))));
    EmigrantsFit(pools, emRate, i, j);
    ImmigrantsFit(imRate, empties, i, j);
    MinimumBelow(a, b, n, i, j);
  }

  // ---------------------------------------------------------------- the placement loop

  /** The shuffles of the placement loop: sitePerm(j, n) shuffles destination j's n empty
      sites, migrantPerm(j, n) its n incoming migrants. */
  datatype FlowDraws = FlowDraws(sitePerm: (nat, nat) -> seq<nat>, migrantPerm: (nat, nat) -> seq<nat>)

  ghost predicate FlowDrawsFit(d: FlowDraws) {
    (forall j, n :: IsPermutation(d.sitePerm(j, n), n)) && (forall j, n :: IsPermutation(d.migrantPerm(j, n), n))
  }

  /** emit(i, j, k) is what patch i sends to patch j when asked for k migrants: a list of
      migrants, or the sampling error. */
  ghost predicate Emits<T>(emit: (nat, nat, int) -> Result<seq<T>>) {
    forall i, j, k :: emit(i, j, k).Ok? || emit(i, j, k).SamplingError?
  }

  /** A patch that sends exactly what it is asked for (`random.sample` of its pool); the
      reproduce-and-disperse variants send the sum of their habitats' rounded shares instead. */
  ghost predicate Exact<T>(emit: (nat, nat, int) -> Result<seq<T>>) {
    forall i, j, k :: emit(i, j, k).Ok? ==> |emit(i, j, k).value| == k
  }

  /** Σ_{i < n, i ≠ j} m[i][j]: the migrants patches 0 .. n-1 other than j send to j. */
  function InFlow(m: seq<seq<int>>, j: nat, n: nat): int
    requires n <= |m| && forall i :: 0 <= i < |m| ==> j < |m[i]|
  {
    if n == 0 then 0 else InFlow(m, j, n - 1) + (if n - 1 == j then 0 else m[n - 1][j])
  }

  /** `migrants_indi_object_ls` of destination j after sources 0 .. n-1: the concatenation
      of what every source but j sends, or the sampling error of the first that fails. */
  function Incoming<T>(m: seq<seq<int>>, emit: (nat, nat, int) -> Result<seq<T>>, j: nat, n: nat): (r: Result<seq<T>>)
    requires n <= |m| && forall i :: 0 <= i < |m| ==> j < |m[i]|
    requires Emits(emit)
    ensures r.Ok? || r.SamplingError?
    ensures r.Ok? <==> forall i :: 0 <= i < n && i != j ==> emit(i, j, m[i][j]).Ok?
    ensures r.Ok? && Exact(emit) ==> |r.value| == InFlow(m, j, n)
  {
    if n == 0 then Ok([])
    else
      var prev := Incoming(m, emit, j, n - 1);
      if !prev.Ok? || n - 1 == j then prev
      else
        var e := emit(n - 1, j, m[n - 1][j]);
        if e.Ok? then Ok(prev.value + e.value) else SamplingError
  }

  /** Every incoming migrant is one that some other patch sent. */
  lemma {:induction false} IncomingFrom<T>(m: seq<seq<int>>, emit: (nat, nat, int) -> Result<seq<T>>, j: nat, n: nat, x: T)
    requires n <= |m| && forall i :: 0 <= i < |m| ==> j < |m[i]|
    requires Emits(emit) && Incoming(m, emit, j, n).Ok? && x in Incoming(m, emit, j, n).value
    ensures exists i :: 0 <= i < n && i != j && emit(i, j, m[i][j]).Ok? && x in emit(i, j, m[i][j]).value
  {
    var prev := Incoming(m, emit, j, n - 1);
    if n - 1 == j || x in prev.value {
      IncomingFrom(m, emit, j, n - 1, x);
    } else {
      assert x in emit(n - 1, j, m[n - 1][j]).value;
    }
  }

  /** The placements at destination j: its shuffled empty sites zipped with its shuffled
      incoming migrants, or the sampling error. */
  function Destination<S, T>(m: seq<seq<int>>, emit: (nat, nat, int) -> Result<seq<T>>, empties: seq<seq<S>>,
                             d: FlowDraws, j: nat): (r: Result<seq<(S, T)>>)
    requires Square(m, |empties|) && j < |empties| && Emits(emit) && FlowDrawsFit(d)
  {
    var inc := Incoming(m, emit, j, |m|);
    if !inc.Ok? then SamplingError
    else Ok(Zip(Shuffle(empties[j], d.sitePerm(j, |empties[j]|)), Shuffle(inc.value, d.migrantPerm(j, |inc.value|))))
  }

  /** Destination j fails exactly when some other patch cannot send what the migrant matrix
      asks of it; otherwise min(#empty_j, Σ_{i ≠ j} m[i][j]) migrants are placed, on distinct
      empty sites of j when its list has no repeats, and each is one that another patch sent. */
  lemma DestinationPlaces<S, T>(m: seq<seq<int>>, emit: (nat, nat, int) -> Result<seq<T>>, empties: seq<seq<S>>,
                                d: FlowDraws, j: nat)
    requires Square(m, |empties|) && j < |empties| && Emits(emit) && FlowDrawsFit(d)
    ensures var r := Destination(m, emit, empties, d, j);
      (r.Ok? <==> forall i :: 0 <= i < |m| && i != j ==> emit(i, j, m[i][j]).Ok?) &&
      (r.Ok? || r.SamplingError?) &&
      (r.Ok? ==>
         |r.value| == Min(|empties[j]|, |Incoming(m, emit, j, |m|).value|) &&
         (Exact(emit) ==> |r.value| == Min(|empties[j]|, InFlow(m, j, |m|))) &&
         (forall k :: 0 <= k < |r.value| ==> r.value[k].0 in empties[j]) &&
         (NoDup(empties[j]) ==> forall k, l :: 0 <= k < l < |r.value| ==> r.value[k].0 != r.value[l].0) &&
         forall k :: 0 <= k < |r.value| ==>
           exists i :: 0 <= i < |m| && i != j && emit(i, j, m[i][j]).Ok? && r.value[k].1 in emit(i, j, m[i][j]).value)
  {
    var r := Destination(m, emit, empties, d, j);
    var inc := Incoming(m, emit, j, |m|);
    if r.Ok? {
      var sites := Shuffle(empties[j], d.sitePerm(j, |empties[j]|));
      var kids := Shuffle(inc.value, d.migrantPerm(j, |inc.value|));
      ShuffleSameElements(empties[j], d.sitePerm(j, |empties[j]|));
      ShuffleSameElements(inc.value, d.migrantPerm(j, |inc.value|));
      forall k | 0 <= k < |r.value|
        ensures r.value[k].0 == sites[k] && r.value[k].0 in empties[j]
        ensures exists i :: 0 <= i < |m| && i != j && emit(i, j, m[i][j]).Ok? && r.value[k].1 in emit(i, j, m[i][j]).value
      {
        assert r.value[k] == (sites[k], kids[k]);
        assert sites[k] in sites && kids[k] in kids;
        IncomingFrom(m, emit, j, |m|, kids[k]);
      }
    }
  }

  /** The number of placements in a list of per-destination placements. */
  function Count<P>(xss: seq<seq<P>>): nat {
    if xss == [] then 0 else Count(xss[..|xss| - 1]) + |xss[|xss| - 1]|
  }

  /** Σ_{j < n} min(#empty_j, Σ_{i ≠ j} m[i][j]): what the migrant matrix promises to place at
      destinations 0 .. n-1. */
  function Placed<S>(m: seq<seq<int>>, empties: seq<seq<S>>, n: nat): int
    requires Square(m, |empties|) && n <= |empties|
  {
    if n == 0 then 0 else Placed(m, empties, n - 1) + Min(|empties[n - 1]|, InFlow(m, n - 1, |m|))
  }

  /** When every patch sends exactly what it is asked for, the counter of the placement loop
      is what the migrant matrix promises. */
  lemma {:induction false} PlacedExact<S, T>(m: seq<seq<int>>, emit: (nat, nat, int) -> Result<seq<T>>,
                                             empties: seq<seq<S>>, d: FlowDraws, out: seq<seq<(S, T)>>, n: nat)
    requires Square(m, |empties|) && Emits(emit) && Exact(emit) && FlowDrawsFit(d)
    requires n <= |out| == |empties|
    requires forall j :: 0 <= j < |empties| ==>
      Destination(m, emit, empties, d, j).Ok? && out[j] == Destination(m, emit, empties, d, j).value
    ensures Count(out[..n]) == Placed(m, empties, n)
  {
    if n > 0 {
      PlacedExact(m, emit, empties, d, out, n - 1);
      assert out[..n][..n - 1] == out[..n - 1];
      DestinationPlaces(m, emit, empties, d, n - 1);
    }
  }

  /** The inner loop of the placement: what the other patches send to destination j, source
      by source, stopping at the first that cannot send what it is asked. */
  method CollectMigrants<T>(m: seq<seq<int>>, emit: (nat, nat, int) -> Result<seq<T>>, j: nat) returns (r: Result<seq<T>>)
    requires |m| > j && (forall i :: 0 <= i < |m| ==> j < |m[i]|) && Emits(emit)
    ensures r == Incoming(m, emit, j, |m|)
  {
    var ls: seq<T> := [];
    for i := 0 to |m|
      invariant Incoming(m, emit, j, i).Ok? && ls == Incoming(m, emit, j, i).value
    {
      if i != j {
        var e := emit(i, j, m[i][j]);
        if !e.Ok? {
          assert !Incoming(m, emit, j, |m|).Ok?;
          return SamplingError;
        }
        ls := ls + e.value;
      }
    }
    r := Ok(ls);
  }

  /** The placement loop of `meta_disp_among_patches_from_offsprings_pool` (and of the
      reproduce-and-disperse variants, whose sources send fresh offspring): destination by
      destination, the incoming migrants are gathered source by source, both lists are
      shuffled and zipped, and the counter grows by the number placed.  It returns every
      destination's placements and the counter, or the sampling error of the first source
      that cannot send what it is asked. */
  method DispAmongPatches<S, T>(m: seq<seq<int>>, emit: (nat, nat, int) -> Result<seq<T>>, empties: seq<seq<S>>,
                                d: FlowDraws) returns (r: Result<(seq<seq<(S, T)>>, int)>)
    requires Square(m, |empties|) && Emits(emit) && FlowDrawsFit(d)
    ensures r.Ok? || r.SamplingError?
    ensures r.Ok? <==> forall j :: 0 <= j < |empties| ==> Destination(m, emit, empties, d, j).Ok?
    ensures r.Ok? ==>
      |r.value.0| == |empties| && r.value.1 == Count(r.value.0) &&
      forall j :: 0 <= j < |empties| ==> r.value.0[j] == Destination(m, emit, empties, d, j).value
  {
    var n := |empties|;
    var out: seq<seq<(S, T)>> := [];
    var counter := 0;
    for j := 0 to n
      invariant |out| == j && counter == Count(out)
      invariant forall k :: 0 <= k < j ==>
        Destination(m, emit, empties, d, k).Ok? && out[k] == Destination(m, emit, empties, d, k).value
    {
      var inc := CollectMigrants(m, emit, j);
      if !inc.Ok? {
        assert !Destination(m, emit, empties, d, j).Ok?;
        return SamplingError;
      }
      var ls := inc.value;
      var sites := Shuffle(empties[j], d.sitePerm(j, |empties[j]|));
      var migrants := Shuffle(ls, d.migrantPerm(j, |ls|));
      var placed := Zip(sites, migrants);
      assert (out + [placed])[..j] == out;
      out := out + [placed];
      counter := counter + |placed|;
    }
    r := Ok((out, counter));
  }

  // ---------------------------------------------------------------- sampling from the pools

  /** The draws of `random.sample(patch_i_offspring_pool, migrants_num)` for destination j. */
  ghost predicate PoolPicks(pick: (nat, nat, nat, nat) -> seq<nat>) {
    forall i, j, k, n :: k <= n ==> IsSample(pick(i, j, k, n), k, n)
  }

  /** What source i sends to destination j in `meta_disp_among_patches_from_offsprings_pool`:
      a sample of k members of its offspring pool, or the sampling error when k is negative or
      exceeds the pool. */
  function PoolEmit<T>(pools: seq<seq<T>>, pick: (nat, nat, nat, nat) -> seq<nat>): (nat, nat, int) -> Result<seq<T>>
    requires PoolPicks(pick)
  {
    (i: nat, j: nat, k: int) =>
      if i < |pools| && 0 <= k <= |pools[i]| then Ok(Sample(pools[i], pick(i, j, k, |pools[i]|))) else SamplingError
  }

  /** A source fails exactly when its migrant number is negative or exceeds its pool, and
      sends members of its pool otherwise. */
  lemma PoolEmitSpec<T>(pools: seq<seq<T>>, pick: (nat, nat, nat, nat) -> seq<nat>)
    requires PoolPicks(pick)
    ensures Emits(PoolEmit(pools, pick)) && Exact(PoolEmit(pools, pick))
    ensures forall i: nat, j: nat, k: int :: i < |pools| ==>
      (PoolEmit(pools, pick)(i, j, k).Ok? <==> 0 <= k <= |pools[i]|) &&
      (PoolEmit(pools, pick)(i, j, k).Ok? ==> forall x :: x in PoolEmit(pools, pick)(i, j, k).value ==> x in pools[i])
  {
    forall i: nat, j: nat, k: int | i < |pools| && 0 <= k <= |pools[i]|
      ensures forall x :: x in PoolEmit(pools, pick)(i, j, k).value ==> x in pools[i]
    {
      SampleFromPopulation(pools[i], pick(i, j, k, |pools[i]|));
    }
  }

  /** Destination j of `meta_disp_among_patches_from_offsprings_pool` fails exactly when some
      other patch is asked for a negative number of migrants or for more than its pool holds;
      otherwise min(#empty_j, Σ_{i ≠ j} m[i][j]) migrants are placed, each from another
      patch's pool. */
  lemma PoolDestination<S, T>(pools: seq<seq<T>>, empties: seq<seq<S>>, m: seq<seq<int>>,
                              pick: (nat, nat, nat, nat) -> seq<nat>, d: FlowDraws, j: nat)
    requires Square(m, |empties|) && |pools| == |empties| && j < |empties|
    requires PoolPicks(pick) && FlowDrawsFit(d)
    ensures Emits(PoolEmit(pools, pick))
    ensures var r := Destination(m, PoolEmit(pools, pick), empties, d, j);
      (r.Ok? <==> forall i :: 0 <= i < |m| && i != j ==> 0 <= m[i][j] <= |pools[i]|) &&
      (r.Ok? ==>
         |r.value| == Min(|empties[j]|, InFlow(m, j, |m|)) &&
         forall k :: 0 <= k < |r.value| ==> exists i :: 0 <= i < |m| && i != j && r.value[k].1 in pools[i])
  {
    var emit := PoolEmit(pools, pick);
    PoolEmitSpec(pools, pick);
    DestinationPlaces(m, emit, empties, d, j);
  }

  /** With rate matrices in [0, 1] and the emigrant matrix built from the pools' own sizes,
      the pool-based dispersal among patches never raises the sampling error. */
  lemma PoolDispersalFits<S, T>(pools: seq<seq<T>>, empties: seq<seq<S>>, emRate: Matrix, imRate: Matrix,
                                pick: (nat, nat, nat, nat) -> seq<nat>, d: FlowDraws, j: nat)
    requires |empties| == |pools| && Rates(emRate, |pools|) && Rates(imRate, |pools|)
    requires PoolPicks(pick) && FlowDrawsFit(d) && j < |pools|
    ensures var m := Migrants(Reals(Lengths(pools)), Lengths(empties), emRate, imRate);
      Emits(PoolEmit(pools, pick)) && Destination(m, PoolEmit(pools, pick), empties, d, j).Ok?
  {
    var m := Migrants(Reals(Lengths(pools)), Lengths(empties), emRate, imRate);
    var emit := PoolEmit(pools, pick);
    PoolEmitSpec(pools, pick);
    forall i | 0 <= i < |m| && i != j
      ensures emit(i, j, m[i][j]).Ok?
    {
      PoolMigrantsFit(Lengths(pools), Lengths(empties), emRate, imRate, i, j);
    }
    DestinationPlaces(m, emit, empties, d, j);
  }
}
