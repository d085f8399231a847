/** Individuals, their diploid bit-vector genotypes and the genetic operations of
    metacommunity_IBM.py: random initialisation, mutation, asexual and sexual offspring.
    Gaussian noise is an input real; uniform draws are input reals compared with a rate. */
module Genetics {
  import opened Wrappers
  import opened Sampling
  import opened Numeric

  type Bit = b: int | 0 <= b <= 1

  datatype Gender = Female | Male

  /** The pair of allele vectors `genotype_set[trait] == [first, second]`. */
  datatype Diploid = Diploid(first: seq<Bit>, second: seq<Bit>)

  /** One individual; traits are indexed by position (`pheno_names_ls[t]` names trait t). */
  datatype Individual = Individual(species: string, gender: Gender, genotype: seq<Diploid>, phenotype: seq<real>)

  /** Every trait has a phenotype and two allele vectors of one common, positive length. */
  predicate WellFormed(ind: Individual) {
    |ind.phenotype| == |ind.genotype| &&
    forall t :: 0 <= t < |ind.genotype| ==> 0 < |ind.genotype[t].first| == |ind.genotype[t].second|
  }

  /** The individual has exactly the traits `geno_len_ls` describes: one phenotype and two
      allele vectors of length lens[t] per trait. */
  predicate Conforms(ind: Individual, lens: seq<nat>) {
    |ind.genotype| == |lens| && |ind.phenotype| == |lens| &&
    forall t :: 0 <= t < |lens| ==>
      0 < lens[t] && |ind.genotype[t].first| == lens[t] && |ind.genotype[t].second| == lens[t]
  }

  /** The two individuals have the same traits with the same allele-vector lengths. */
  predicate SameShape(a: Individual, b: Individual) {
    |a.genotype| == |b.genotype| &&
    forall t :: 0 <= t < |a.genotype| ==>
      |a.genotype[t].first| == |b.genotype[t].first| && |a.genotype[t].second| == |b.genotype[t].second|
  }

  /** Number of active (1) positions. */
  function Ones(v: seq<Bit>): (r: nat)
    ensures r <= |v|
  {
    if v == [] then 0 else Ones(v[..|v| - 1]) + v[|v| - 1]
  }

  /** `np.mean(genotype)` of a trait: the active fraction over both vectors. */
  function GenotypeMean(g: Diploid): (r: real)
    requires |g.first| + |g.second| > 0
    ensures 0.0 <= r <= 1.0
  {
    var ones, n := Ones(g.first) + Ones(g.second), |g.first| + |g.second|;
    FractionBounds(ones, n);
    ones as real / n as real
  }

  lemma FractionBounds(a: nat, n: nat)
    requires a <= n && 0 < n
    ensures 0.0 <= a as real / n as real <= 1.0
  {
    assert a as real / n as real * n as real == a as real;
  }

  // ---------------------------------------------------------------- random_init_indi

  /** `int(mean * geno_len)`: how many positions of each vector are set to 1. */
  function ActiveCount(mean: real, len: nat): int {
    Trunc(mean * len as real)
  }

  /** `np.array([1 if i in pick else 0 for i in range(len)])`. */
  function Indicator(len: nat, pick: seq<nat>): seq<Bit> {
    seq(len, i => if i in pick then 1 else 0)
  }

  lemma {:induction false} OnesOfIndicatorUpTo(len: nat, pick: seq<nat>)
    ensures Ones(Indicator(len, pick)) == |set x: nat | x in pick && x < len|
  {
    if len > 0 {
      OnesOfIndicatorUpTo(len - 1, pick);
      assert Indicator(len, pick)[..len - 1] == Indicator(len - 1, pick);
      var below := set x: nat | x in pick && x < len - 1;
      if len - 1 in pick {
        assert (set x: nat | x in pick && x < len) == below + {len - 1};
      } else {
        assert (set x: nat | x in pick && x < len) == below;
      }
    }
  }

  /** A vector built from a sample of k distinct positions has exactly k active positions. */
  lemma OnesOfIndicator(len: nat, pick: seq<nat>)
    requires IsSample(pick, |pick|, len)
    ensures |Indicator(len, pick)| == len
    ensures Ones(Indicator(len, pick)) == |pick|
  {
    OnesOfIndicatorUpTo(len, pick);
    var below := set x: nat | x in pick && x < len;
    var all := set x: nat | x in pick;
    assert below == all;
    DistinctCard<nat>(pick);
    assert |all| == |pick|;
  }

  /** The draws of one trait in `random_init_indi`: the two position samples and the noise. */
  datatype InitDraw = InitDraw(pick1: seq<nat>, pick2: seq<nat>, noise: real)

  /** The trait's sample size is one `random.sample(range(len), k)` accepts. */
  predicate CountFeasible(mean: real, len: nat) {
    0 <= ActiveCount(mean, len) <= len
  }

  predicate InitDrawsFit(means: seq<real>, lens: seq<nat>, draws: seq<InitDraw>) {
    |means| == |lens| == |draws| &&
    forall t :: 0 <= t < |lens| && CountFeasible(means[t], lens[t]) ==>
      IsSample(draws[t].pick1, ActiveCount(means[t], lens[t]), lens[t]) &&
      IsSample(draws[t].pick2, ActiveCount(means[t], lens[t]), lens[t])
  }

  /** ind is what `random_init_indi` makes: the given species and gender, and per trait t
      two allele vectors of length lens[t], active exactly at the positions of that trait's
      two samples, with int(mean_t * len_t) active positions each,
      and phenotype mean_t plus noise. */
  predicate Seeded(ind: Individual, species: string, gender: Gender, means: seq<real>, lens: seq<nat>,
                   draws: seq<InitDraw>)
  {
    |means| == |lens| == |draws| &&
    ind.species == species && ind.gender == gender &&
    |ind.genotype| == |lens| && |ind.phenotype| == |lens| &&
    forall t :: 0 <= t < |lens| ==>
      |ind.genotype[t].first| == lens[t] && |ind.genotype[t].second| == lens[t] &&
      ind.genotype[t].first == Indicator(lens[t], draws[t].pick1) &&
      ind.genotype[t].second == Indicator(lens[t], draws[t].pick2) &&
      Ones(ind.genotype[t].first) == ActiveCount(means[t], lens[t]) &&
      Ones(ind.genotype[t].second) == ActiveCount(means[t], lens[t]) &&
      ind.phenotype[t] == means[t] + draws[t].noise
  }

  /** `individual.random_init_indi`: each allele vector of trait t is active exactly at
      its sampled positions, int(mean_t * len_t) of them, and the phenotype is mean_t plus noise.  A count
      that is negative or above the length makes `random.sample` fail. */
  method RandomInitIndividual(species: string, gender: Gender, means: seq<real>, lens: seq<nat>,
                              draws: seq<InitDraw>) returns (r: Result<Individual>)
    requires InitDrawsFit(means, lens, draws)
    ensures r.Ok? <==> forall t :: 0 <= t < |lens| ==> CountFeasible(means[t], lens[t])
    ensures r.Ok? ==> Seeded(r.value, species, gender, means, lens, draws)
  {
    var genotype: seq<Diploid> := [];
    var phenotype: seq<real> := [];
    var t := 0;
    while t < |lens|
      invariant 0 <= t <= |lens|
      invariant |genotype| == t && |phenotype| == t
      invariant forall u :: 0 <= u < t ==> CountFeasible(means[u], lens[u])
      invariant forall u :: 0 <= u < t ==>
        |genotype[u].first| == lens[u] && |genotype[u].second| == lens[u] &&
        genotype[u].first == Indicator(lens[u], draws[u].pick1) &&
        genotype[u].second == Indicator(lens[u], draws[u].pick2) &&
        Ones(genotype[u].first) == ActiveCount(means[u], lens[u]) &&
        Ones(genotype[u].second) == ActiveCount(means[u], lens[u]) &&
        phenotype[u] == means[u] + draws[u].noise
    {
      if !CountFeasible(means[t], lens[t]) {
        return SamplingError;
      }
      var v1 := Indicator(lens[t], draws[t].pick1);
      var v2 := Indicator(lens[t], draws[t].pick2);
      OnesOfIndicator(lens[t], draws[t].pick1);
      OnesOfIndicator(lens[t], draws[t].pick2);
      genotype := genotype + [Diploid(v1, v2)];
      phenotype := phenotype + [means[t] + draws[t].noise];
      t := t + 1;
    }
    r := Ok(Individual(species, gender, genotype, phenotype));
  }

  // ---------------------------------------------------------------- mutation

  /** The uniform draws of one trait in `mutation`, one per allele position, and the noise
      used if the phenotype is re-derived. */
  datatype TraitDraw = TraitDraw(first: seq<real>, second: seq<real>, noise: real)

  predicate MutationDrawsFit(ind: Individual, draws: seq<TraitDraw>) {
    |draws| == |ind.genotype| &&
    forall t :: 0 <= t < |draws| ==>
      |draws[t].first| == |ind.genotype[t].first| && |draws[t].second| == |ind.genotype[t].second|
  }

  /** A vector whose position k flipped (0 <-> 1) exactly when `rate > u[k]`. */
  function Flipped(v: seq<Bit>, u: seq<real>, rate: real): (r: seq<Bit>)
    requires |u| == |v|
    ensures |r| == |v|
  {
    seq(|v|, k requires 0 <= k < |v| => if rate > u[k] then 1 - v[k] else v[k])
  }

  /** Position k changed exactly when its draw fell below the rate. */
  lemma FlippedAt(v: seq<Bit>, u: seq<real>, rate: real)
    requires |u| == |v|
    ensures forall k :: 0 <= k < |v| ==> (Flipped(v, u, rate)[k] != v[k] <==> rate > u[k])
  {
  }

  /** How many of the draws fall below the rate: the flips `mutation_counter` counts. */
  function FlipCount(u: seq<real>, rate: real): (r: nat)
    ensures r <= |u|
  {
    if u == [] then 0
    else FlipCount(u[..|u| - 1], rate) + (if rate > u[|u| - 1] then 1 else 0)
  }

  /** No flip happens exactly when no draw falls below the rate. */
  lemma {:induction false} FlipCountZero(u: seq<real>, rate: real)
    ensures FlipCount(u, rate) == 0 <==> forall k :: 0 <= k < |u| ==> rate <= u[k]
  {
    if u != [] {
      var init := u[..|u| - 1];
      FlipCountZero(init, rate);
      assert forall k :: 0 <= k < |init| ==> init[k] == u[k];
    }
  }

  /** One trait after mutation: the flipped vectors, and the phenotype re-derived from them
      only if at least one position flipped. */
  function MutatedTrait(g: Diploid, p: real, d: TraitDraw, rate: real): (Diploid, real)
    requires |d.first| == |g.first| && |d.second| == |g.second|
  {
    var g' := Diploid(Flipped(g.first, d.first, rate), Flipped(g.second, d.second, rate));
    if FlipCount(d.first, rate) + FlipCount(d.second, rate) >= 1
    then (g', GenotypeMean(g') + d.noise)
    else (g', p)
  }

  /** `individual.mutation(rate, ...)` as a value: every allele position of every trait flips
      exactly when its draw is below `rate`; a trait with no flip keeps its phenotype, any
      other trait gets its new genotype mean plus noise. */
  function Mutated(ind: Individual, rate: real, draws: seq<TraitDraw>): (r: Individual)
    requires MutationDrawsFit(ind, draws) && |ind.phenotype| == |ind.genotype|
    ensures r.species == ind.species && r.gender == ind.gender
    ensures |r.genotype| == |ind.genotype| && |r.phenotype| == |ind.phenotype|
    ensures SameShape(r, ind) && (WellFormed(ind) ==> WellFormed(r))
  {
    var n := |ind.genotype|;
    var traits := seq(n, t requires 0 <= t < n =>
                        MutatedTrait(ind.genotype[t], ind.phenotype[t], draws[t], rate));
    var r := ind.(genotype := seq(n, t requires 0 <= t < n => traits[t].0),
                  phenotype := seq(n, t requires 0 <= t < n => traits[t].1));
    r
  }

  /** What `mutation` does to each trait: an allele position flips exactly when its draw
      falls below the rate; a trait without flips keeps genotype and phenotype, any other
      trait gets its new genotype mean plus the noise draw. */
  lemma MutatedSpec(ind: Individual, rate: real, draws: seq<TraitDraw>)
    requires MutationDrawsFit(ind, draws) && |ind.phenotype| == |ind.genotype|
    ensures var r := Mutated(ind, rate, draws);
      forall t, k :: 0 <= t < |ind.genotype| && 0 <= k < |ind.genotype[t].first| ==>
        (r.genotype[t].first[k] != ind.genotype[t].first[k] <==> rate > draws[t].first[k])
    ensures var r := Mutated(ind, rate, draws);
      forall t, k :: 0 <= t < |ind.genotype| && 0 <= k < |ind.genotype[t].second| ==>
        (r.genotype[t].second[k] != ind.genotype[t].second[k] <==> rate > draws[t].second[k])
    ensures var r := Mutated(ind, rate, draws);
      forall t :: 0 <= t < |ind.genotype| ==>
        if FlipCount(draws[t].first, rate) + FlipCount(draws[t].second, rate) == 0
        then r.genotype[t] == ind.genotype[t] && r.phenotype[t] == ind.phenotype[t]
        else r.phenotype[t] == GenotypeMean(r.genotype[t]) + draws[t].noise
  {
    var r := Mutated(ind, rate, draws);
    forall t | 0 <= t < |ind.genotype|
      ensures forall k :: 0 <= k < |ind.genotype[t].first| ==>
        (r.genotype[t].first[k] != ind.genotype[t].first[k] <==> rate > draws[t].first[k])
      ensures forall k :: 0 <= k < |ind.genotype[t].second| ==>
        (r.genotype[t].second[k] != ind.genotype[t].second[k] <==> rate > draws[t].second[k])
      ensures FlipCount(draws[t].first, rate) + FlipCount(draws[t].second, rate) == 0 ==>
        r.genotype[t] == ind.genotype[t] && r.phenotype[t] == ind.phenotype[t]
    {
      var g, d := ind.genotype[t], draws[t];
      FlippedAt(g.first, d.first, rate);
      FlippedAt(g.second, d.second, rate);
      FlipCountZero(d.first, rate);
      FlipCountZero(d.second, rate);
      if FlipCount(d.first, rate) + FlipCount(d.second, rate) == 0 {
        assert Flipped(g.first, d.first, rate) == g.first;
        assert Flipped(g.second, d.second, rate) == g.second;
      }
    }
  }

  /** The inner loop of `mutation` on one numpy allele vector, flipping in place. */
  method FlipInPlace(v: array<Bit>, u: seq<real>, rate: real) returns (count: nat)
    requires |u| == v.Length
    modifies v
    ensures v[..] == Flipped(old(v[..]), u, rate)
    ensures count == FlipCount(u, rate)
  {
    count := 0;
    var index := 0;
    while index < v.Length
      invariant 0 <= index <= v.Length
      invariant count == FlipCount(u[..index], rate)
      invariant forall k :: 0 <= k < index ==> v[k] == Flipped(old(v[..]), u, rate)[k]
      invariant forall k :: index <= k < v.Length ==> v[k] == old(v[k])
    {
      assert u[..index + 1][..index] == u[..index];
      if rate > u[index] {
        count := count + 1;
        v[index] := 1 - v[index];
      }
      index := index + 1;
    }
    assert u[..index] == u;
  }

  /** One pass of the trait loop of `mutation`: both position loops, then the phenotype
      update when `mutation_counter >= 1`. */
  method MutateTrait(g: Diploid, p: real, d: TraitDraw, rate: real) returns (g': Diploid, p': real)
    requires |d.first| == |g.first| && |d.second| == |g.second|
    ensures (g', p') == MutatedTrait(g, p, d, rate)
  {
    var a1 := new Bit[|g.first|](k requires 0 <= k < |g.first| => g.first[k]);
    var a2 := new Bit[|g.second|](k requires 0 <= k < |g.second| => g.second[k]);
    assert a1[..] == g.first && a2[..] == g.second;
    var c1 := FlipInPlace(a1, d.first, rate);
    var c2 := FlipInPlace(a2, d.second, rate);
    var mutationCounter := c1 + c2;
    g' := Diploid(a1[..], a2[..]);
    p' := p;
    if mutationCounter >= 1 {
      p' := GenotypeMean(g') + d.noise;
    }
  }

  /** `individual.mutation`: the trait loop over in-place flips of both allele vectors. */
  method Mutation(ind: Individual, rate: real, draws: seq<TraitDraw>) returns (r: Individual)
    requires MutationDrawsFit(ind, draws) && |ind.phenotype| == |ind.genotype|
    ensures r == Mutated(ind, rate, draws)
  {
    var n := |ind.genotype|;
    var genotype := ind.genotype;
    var phenotype := ind.phenotype;
    var i := 0;
    while i < n
      invariant 0 <= i <= n
      invariant |genotype| == n && |phenotype| == n
      invariant forall t :: 0 <= t < i ==>
        (genotype[t], phenotype[t]) == MutatedTrait(ind.genotype[t], ind.phenotype[t], draws[t], rate)
    {
      var g', p' := MutateTrait(ind.genotype[i], ind.phenotype[i], draws[i], rate);
      genotype := genotype[i := g'];
      phenotype := phenotype[i := p'];
      i := i + 1;
    }
    r := ind.(genotype := genotype, phenotype := phenotype);
    var m := Mutated(ind, rate, draws);
    assert r.genotype == m.genotype;
    assert r.phenotype == m.phenotype;
  }

  /** With a rate no draw falls below, mutation changes nothing. */
  lemma MutationBelowAllDraws(ind: Individual, rate: real, draws: seq<TraitDraw>)
    requires MutationDrawsFit(ind, draws) && |ind.phenotype| == |ind.genotype|
    requires forall t, k :: 0 <= t < |draws| && 0 <= k < |draws[t].first| ==> rate <= draws[t].first[k]
    requires forall t, k :: 0 <= t < |draws| && 0 <= k < |draws[t].second| ==> rate <= draws[t].second[k]
    ensures Mutated(ind, rate, draws) == ind
  {
    var r := Mutated(ind, rate, draws);
    MutatedSpec(ind, rate, draws);
    forall t | 0 <= t < |ind.genotype|
      ensures r.genotype[t] == ind.genotype[t] && r.phenotype[t] == ind.phenotype[t]
    {
      FlipCountZero(draws[t].first, rate);
      FlipCountZero(draws[t].second, rate);
    }
    assert r.genotype == ind.genotype;
    assert r.phenotype == ind.phenotype;
  }

  // ---------------------------------------------------------------- offspring

  /** The draws behind one offspring: its gender, which vector of each parent's pair it
      inherits (`random.sample(bi_genotype, 1)[0]`, true = the first), phenotype noise, and
      the mutation draws. */
  datatype BirthDraw = BirthDraw(gender: Gender, fromFemale: seq<bool>, fromMale: seq<bool>,
                                 noise: seq<real>, mutation: seq<TraitDraw>)

  predicate BirthDrawFits(parent: Individual, d: BirthDraw) {
    |d.fromFemale| == |parent.genotype| && |d.fromMale| == |parent.genotype| &&
    |d.noise| == |parent.genotype| && MutationDrawsFit(parent, d.mutation)
  }

  /** The draws have the shape of an individual conforming to `lens`. */
  predicate DrawConforms(d: BirthDraw, lens: seq<nat>) {
    |d.fromFemale| == |lens| && |d.fromMale| == |lens| && |d.noise| == |lens| && |d.mutation| == |lens| &&
    forall t :: 0 <= t < |lens| ==> |d.mutation[t].first| == lens[t] && |d.mutation[t].second| == lens[t]
  }

  /** An asexual offspring (metacommunity_IBM.py:162-170): a copy of the parent whose
      phenotypes are re-drawn around the parent's genotype means, then mutated.  Species,
      gender and (up to mutation) genotype are the parent's, and every phenotype is the
      offspring's own genotype mean plus a noise draw. */
  function AsexOffspring(parent: Individual, rate: real, d: BirthDraw): (r: Individual)
    requires WellFormed(parent) && BirthDrawFits(parent, d)
    ensures r.species == parent.species && r.gender == parent.gender
    ensures WellFormed(r) && SameShape(r, parent)
  {
    var n := |parent.genotype|;
    var clone := parent.(phenotype := seq(n, t requires 0 <= t < n => GenotypeMean(parent.genotype[t]) + d.noise[t]));
    Mutated(clone, rate, d.mutation)
  }

  /** Each trait of an asexual offspring: the parent's allele vectors after the flips, and
      the new genotype mean plus the birth noise, or plus the mutation noise after a flip. */
  lemma AsexOffspringSpec(parent: Individual, rate: real, d: BirthDraw)
    requires WellFormed(parent) && BirthDrawFits(parent, d)
    ensures var r := AsexOffspring(parent, rate, d);
      forall t :: 0 <= t < |parent.genotype| ==>
        r.genotype[t].first == Flipped(parent.genotype[t].first, d.mutation[t].first, rate) &&
        r.genotype[t].second == Flipped(parent.genotype[t].second, d.mutation[t].second, rate)
    ensures var r := AsexOffspring(parent, rate, d);
      forall t :: 0 <= t < |parent.genotype| ==>
        r.phenotype[t] == GenotypeMean(r.genotype[t]) +
          (if FlipCount(d.mutation[t].first, rate) + FlipCount(d.mutation[t].second, rate) == 0
           then d.noise[t] else d.mutation[t].noise)
  {
    var n := |parent.genotype|;
    var clone := parent.(phenotype := seq(n, t requires 0 <= t < n => GenotypeMean(parent.genotype[t]) + d.noise[t]));
    MutatedSpec(clone, rate, d.mutation);
  }

  /** The allele vector `random.sample(bi_genotype, 1)[0]` picks. */
  function Choose(g: Diploid, first: bool): seq<Bit> {
    if first then g.first else g.second
  }

  /** A sexual offspring (metacommunity_IBM.py:217-235): species of the female, drawn
      gender, and for each trait one vector from the female's pair and one from the male's,
      then mutated; every phenotype is the offspring's own genotype mean plus noise. */
  function SexOffspring(female: Individual, male: Individual, rate: real, d: BirthDraw): (r: Individual)
    requires WellFormed(female) && WellFormed(male) && SameShape(female, male)
    requires BirthDrawFits(female, d)
    ensures r.species == female.species && r.gender == d.gender
    ensures WellFormed(r) && SameShape(r, female)
  {
    var n := |female.genotype|;
    var genotype := seq(n, t requires 0 <= t < n =>
                          Diploid(Choose(female.genotype[t], d.fromFemale[t]), Choose(male.genotype[t], d.fromMale[t])));
    var child := female.(gender := d.gender, genotype := genotype,
                         phenotype := seq(n, t requires 0 <= t < n => GenotypeMean(genotype[t]) + d.noise[t]));
    Mutated(child, rate, d.mutation)
  }

  /** Each trait of a sexual offspring: one allele vector inherited from each parent, after
      the flips, and the new genotype mean plus the birth noise, or plus the mutation noise
      after a flip. */
  lemma SexOffspringSpec(female: Individual, male: Individual, rate: real, d: BirthDraw)
    requires WellFormed(female) && WellFormed(male) && SameShape(female, male)
    requires BirthDrawFits(female, d)
    ensures var r := SexOffspring(female, male, rate, d);
      forall t :: 0 <= t < |female.genotype| ==>
        r.genotype[t].first == Flipped(Choose(female.genotype[t], d.fromFemale[t]), d.mutation[t].first, rate) &&
        r.genotype[t].second == Flipped(Choose(male.genotype[t], d.fromMale[t]), d.mutation[t].second, rate)
    ensures var r := SexOffspring(female, male, rate, d);
      forall t :: 0 <= t < |female.genotype| ==>
        r.phenotype[t] == GenotypeMean(r.genotype[t]) +
          (if FlipCount(d.mutation[t].first, rate) + FlipCount(d.mutation[t].second, rate) == 0
           then d.noise[t] else d.mutation[t].noise)
  {
    var n := |female.genotype|;
    var genotype := seq(n, t requires 0 <= t < n =>
                          Diploid(Choose(female.genotype[t], d.fromFemale[t]), Choose(male.genotype[t], d.fromMale[t])));
    var child := female.(gender := d.gender, genotype := genotype,
                         phenotype := seq(n, t requires 0 <= t < n => GenotypeMean(genotype[t]) + d.noise[t]));
    MutatedSpec(child, rate, d.mutation);
  }

  /** The asexual birth step as the source writes it: a deep copy of the parent whose
      phenotypes are re-drawn trait by trait, then `mutation`. */
  method AsexBirth(parent: Individual, rate: real, d: BirthDraw) returns (r: Individual)
    requires WellFormed(parent) && BirthDrawFits(parent, d)
    ensures r == AsexOffspring(parent, rate, d)
  {
    var n := |parent.genotype|;
    var phenotype := parent.phenotype;
    for t := 0 to n
      invariant |phenotype| == n
      invariant forall u :: 0 <= u < t ==> phenotype[u] == GenotypeMean(parent.genotype[u]) + d.noise[u]
    {
      phenotype := phenotype[t := GenotypeMean(parent.genotype[t]) + d.noise[t]];
    }
    var clone := parent.(phenotype := phenotype);
    assert phenotype == seq(n, t requires 0 <= t < n => GenotypeMean(parent.genotype[t]) + d.noise[t]);
    r := Mutation(clone, rate, d.mutation);
  }

  /** The sexual birth step as the source writes it: a deep copy of the female with a drawn
      gender, whose allele pairs are rebuilt trait by trait from one vector of each parent,
      then `mutation`. */
  method SexBirth(female: Individual, male: Individual, rate: real, d: BirthDraw) returns (r: Individual)
    requires WellFormed(female) && WellFormed(male) && SameShape(female, male)
    requires BirthDrawFits(female, d)
    ensures r == SexOffspring(female, male, rate, d)
  {
    var n := |female.genotype|;
    var genotype := female.genotype;
    var phenotype := female.phenotype;
    for t := 0 to n
      invariant |genotype| == n && |phenotype| == n
      invariant forall u :: 0 <= u < t ==>
        genotype[u] == Diploid(Choose(female.genotype[u], d.fromFemale[u]), Choose(male.genotype[u], d.fromMale[u]))
      invariant forall u :: 0 <= u < t ==> phenotype[u] == GenotypeMean(genotype[u]) + d.noise[u]
    {
      var pair := Diploid(Choose(female.genotype[t], d.fromFemale[t]), Choose(male.genotype[t], d.fromMale[t]));
      genotype := genotype[t := pair];
      phenotype := phenotype[t := GenotypeMean(pair) + d.noise[t]];
    }
    var genotype' := seq(n, t requires 0 <= t < n =>
                           Diploid(Choose(female.genotype[t], d.fromFemale[t]), Choose(male.genotype[t], d.fromMale[t])));
    assert genotype == genotype';
    assert phenotype == seq(n, t requires 0 <= t < n => GenotypeMean(genotype'[t]) + d.noise[t]);
    r := Mutation(female.(gender := d.gender, genotype := genotype, phenotype := phenotype), rate, d.mutation);
  }

  // ---------------------------------------------------------------- within-patch asexual offspring

  /** The draws behind one asexual offspring of within-patch dispersal: a noise per trait
      for the phenotype re-draw, and the draws of one `mutation` call per trait, since the
      source calls `mutation` inside its loop over the traits. */
  datatype RoundsDraw = RoundsDraw(noise: seq<real>, rounds: seq<seq<TraitDraw>>)

  /** Allele vectors of the lengths `geno_len_ls` gives. */
  predicate AllelesFit(g: seq<Diploid>, lens: seq<nat>) {
    |g| == |lens| && forall t :: 0 <= t < |lens| ==> |g[t].first| == lens[t] && |g[t].second| == lens[t]
  }

  /** The draws of one `mutation` call on such allele vectors. */
  predicate RoundFits(u: seq<TraitDraw>, lens: seq<nat>) {
    |u| == |lens| && forall t :: 0 <= t < |lens| ==> |u[t].first| == lens[t] && |u[t].second| == lens[t]
  }

  /** The draws have the shape of an individual conforming to `lens`. */
  predicate RoundsDrawConforms(d: RoundsDraw, lens: seq<nat>) {
    |d.noise| == |lens| && |d.rounds| == |lens| && forall s :: 0 <= s < |lens| ==> RoundFits(d.rounds[s], lens)
  }

  /** Allele vectors with every position flipped whose draw falls below the rate. */
  function FlipRound(g: seq<Diploid>, u: seq<TraitDraw>, rate: real, lens: seq<nat>): (r: seq<Diploid>)
    requires AllelesFit(g, lens) && RoundFits(u, lens)
    ensures AllelesFit(r, lens)
  {
    seq(|g|, t requires 0 <= t < |g| => Diploid(Flipped(g[t].first, u[t].first, rate), Flipped(g[t].second, u[t].second, rate)))
  }

  /** The allele vectors after the first n rounds, phenotypes aside. */
  function RoundsGenotype(g: seq<Diploid>, rate: real, d: RoundsDraw, lens: seq<nat>, n: nat): (r: seq<Diploid>)
    requires RoundsDrawConforms(d, lens) && n <= |lens| && AllelesFit(g, lens)
    ensures AllelesFit(r, lens)
  {
    if n == 0 then g else FlipRound(RoundsGenotype(g, rate, d, lens, n - 1), d.rounds[n - 1], rate, lens)
  }

  /** Draws of one `mutation` call fit an individual of the lengths they fit. */
  lemma RoundFitsIndividual(ind: Individual, draws: seq<TraitDraw>, lens: seq<nat>)
    requires Conforms(ind, lens) && RoundFits(draws, lens)
    ensures MutationDrawsFit(ind, draws) && |ind.phenotype| == |ind.genotype|
  {
  }

  /** Mutation flips the allele vectors position by position. */
  lemma MutatedGenotype(ind: Individual, rate: real, draws: seq<TraitDraw>, lens: seq<nat>)
    requires Conforms(ind, lens) && RoundFits(draws, lens)
    ensures MutationDrawsFit(ind, draws)
    ensures Mutated(ind, rate, draws).genotype == FlipRound(ind.genotype, draws, rate, lens)
  {
    var r, f := Mutated(ind, rate, draws).genotype, FlipRound(ind.genotype, draws, rate, lens);
    forall t | 0 <= t < |f| ensures r[t] == f[t] { }
  }

  /** Trait t's phenotype re-drawn around its current genotype mean. */
  function Redrawn(ind: Individual, d: RoundsDraw, lens: seq<nat>, t: nat): (r: Individual)
    requires Conforms(ind, lens) && RoundsDrawConforms(d, lens) && t < |lens|
    ensures Conforms(r, lens) && r.genotype == ind.genotype && r.species == ind.species && r.gender == ind.gender
  {
    ind.(phenotype := ind.phenotype[t := GenotypeMean(ind.genotype[t]) + d.noise[t]])
  }

  /** Round t of the trait loop: the re-draw of trait t, then the whole individual mutated. */
  function Round(ind: Individual, rate: real, d: RoundsDraw, lens: seq<nat>, t: nat): (r: Individual)
    requires Conforms(ind, lens) && RoundsDrawConforms(d, lens) && t < |lens|
    ensures Conforms(r, lens) && r.species == ind.species && r.gender == ind.gender
    ensures r.genotype == FlipRound(ind.genotype, d.rounds[t], rate, lens)
  {
    MutatedGenotype(Redrawn(ind, d, lens, t), rate, d.rounds[t], lens);
    Mutated(Redrawn(ind, d, lens, t), rate, d.rounds[t])
  }

  /** The copy after the first n rounds of the trait loop. */
  function MutationRounds(ind: Individual, rate: real, d: RoundsDraw, lens: seq<nat>, n: nat): (r: Individual)
    requires Conforms(ind, lens) && RoundsDrawConforms(d, lens) && n <= |lens|
    ensures Conforms(r, lens) && r.species == ind.species && r.gender == ind.gender
    ensures r.genotype == RoundsGenotype(ind.genotype, rate, d, lens, n)
  {
    if n == 0 then ind else Round(MutationRounds(ind, rate, d, lens, n - 1), rate, d, lens, n - 1)
  }

  /** Round t comes after the rounds before it. */
  lemma MutationRoundsStep(ind: Individual, rate: real, d: RoundsDraw, lens: seq<nat>, t: nat)
    requires Conforms(ind, lens) && RoundsDrawConforms(d, lens) && t < |lens|
    ensures MutationRounds(ind, rate, d, lens, t + 1) == Round(MutationRounds(ind, rate, d, lens, t), rate, d, lens, t)
  {
  }

  /** The asexual offspring of `asex_reproduce_mutate_for_dispersal_within_patch`
      (metacommunity_IBM.py:613-624): a copy of the parent through as many rounds as it has
      traits. */
  function WithinAsexOffspring(parent: Individual, rate: real, d: RoundsDraw, lens: seq<nat>): (r: Individual)
    requires Conforms(parent, lens) && RoundsDrawConforms(d, lens)
    ensures Conforms(r, lens) && r.species == parent.species && r.gender == parent.gender
  {
    MutationRounds(parent, rate, d, lens, |lens|)
  }

  /** Whether an odd number of the first n rounds draw below the rate at position k of
      trait t's first (or, with `first` false, second) allele vector. */
  function OddFlips(d: RoundsDraw, lens: seq<nat>, t: nat, k: nat, first: bool, rate: real, n: nat): bool
    requires RoundsDrawConforms(d, lens) && t < |lens| && k < lens[t] && n <= |lens|
  {
    if n == 0 then false
    else
      var u := if first then d.rounds[n - 1][t].first[k] else d.rounds[n - 1][t].second[k];
      OddFlips(d, lens, t, k, first, rate, n - 1) != (rate > u)
  }

  /** After n rounds the allele at position k of trait t is the original one flipped when an
      odd number of the rounds drew below the rate there, and the original otherwise. */
  lemma {:induction false} RoundsAllele(g: seq<Diploid>, rate: real, d: RoundsDraw, lens: seq<nat>, n: nat,
                                        t: nat, k: nat)
    requires RoundsDrawConforms(d, lens) && n <= |lens| && |g| == |lens|
    requires forall t :: 0 <= t < |lens| ==> |g[t].first| == lens[t] && |g[t].second| == lens[t]
    requires t < |lens| && k < lens[t]
    ensures var r := RoundsGenotype(g, rate, d, lens, n);
      r[t].first[k] == (if OddFlips(d, lens, t, k, true, rate, n) then 1 - g[t].first[k] else g[t].first[k]) &&
      r[t].second[k] == (if OddFlips(d, lens, t, k, false, rate, n) then 1 - g[t].second[k] else g[t].second[k])
  {
    if n > 0 {
      RoundsAllele(g, rate, d, lens, n - 1, t, k);
    }
  }

  /** Each allele of the within-patch asexual offspring is its parent's, flipped exactly
      when an odd number of the per-trait `mutation` calls drew below the rate there. */
  lemma WithinAsexAlleles(parent: Individual, rate: real, d: RoundsDraw, lens: seq<nat>)
    requires Conforms(parent, lens) && RoundsDrawConforms(d, lens)
    ensures var r := WithinAsexOffspring(parent, rate, d, lens);
      forall t, k :: 0 <= t < |lens| && 0 <= k < lens[t] ==>
        r.genotype[t].first[k] ==
          (if OddFlips(d, lens, t, k, true, rate, |lens|) then 1 - parent.genotype[t].first[k] else parent.genotype[t].first[k]) &&
        r.genotype[t].second[k] ==
          (if OddFlips(d, lens, t, k, false, rate, |lens|) then 1 - parent.genotype[t].second[k] else parent.genotype[t].second[k])
  {
    forall t, k | 0 <= t < |lens| && 0 <= k < lens[t]
      ensures var r := RoundsGenotype(parent.genotype, rate, d, lens, |lens|);
        r[t].first[k] ==
          (if OddFlips(d, lens, t, k, true, rate, |lens|) then 1 - parent.genotype[t].first[k] else parent.genotype[t].first[k]) &&
        r[t].second[k] ==
          (if OddFlips(d, lens, t, k, false, rate, |lens|) then 1 - parent.genotype[t].second[k] else parent.genotype[t].second[k])
    {
      RoundsAllele(parent.genotype, rate, d, lens, |lens|, t, k);
    }
  }

  /** With a single trait the loop calls `mutation` once, and the offspring is the one of
      `hab_asex_reproduce_mutate` under the same noise and mutation draws. */
  lemma WithinAsexSingleTrait(parent: Individual, rate: real, d: RoundsDraw, lens: seq<nat>, gender: Gender,
                              fromFemale: seq<bool>, fromMale: seq<bool>)
    requires Conforms(parent, lens) && RoundsDrawConforms(d, lens) && |lens| == 1
    requires |fromFemale| == 1 && |fromMale| == 1
    ensures WellFormed(parent) && BirthDrawFits(parent, BirthDraw(gender, fromFemale, fromMale, d.noise, d.rounds[0]))
    ensures WithinAsexOffspring(parent, rate, d, lens) ==
      AsexOffspring(parent, rate, BirthDraw(gender, fromFemale, fromMale, d.noise, d.rounds[0]))
  {
    var redrawn := parent.phenotype[0 := GenotypeMean(parent.genotype[0]) + d.noise[0]];
    assert redrawn == seq(1, t requires 0 <= t < 1 => GenotypeMean(parent.genotype[t]) + d.noise[t]);
  }

  /** One pass of the trait loop of `asex_reproduce_mutate_for_dispersal_within_patch`:
      the phenotype re-draw of trait t and a `mutation` call. */
  method MutationRound(ind: Individual, rate: real, d: RoundsDraw, lens: seq<nat>, t: nat) returns (r: Individual)
    requires Conforms(ind, lens) && RoundsDrawConforms(d, lens) && t < |lens|
    ensures r == Round(ind, rate, d, lens, t)
  {
    var redrawn := ind.(phenotype := ind.phenotype[t := GenotypeMean(ind.genotype[t]) + d.noise[t]]);
    assert redrawn == Redrawn(ind, d, lens, t);
    RoundFitsIndividual(redrawn, d.rounds[t], lens);
    r := Mutation(redrawn, rate, d.rounds[t]);
  }

  /** The trait loop as the source writes it: a deep copy, then one pass per trait. */
  method WithinAsexBirth(parent: Individual, rate: real, d: RoundsDraw, lens: seq<nat>) returns (r: Individual)
    requires Conforms(parent, lens) && RoundsDrawConforms(d, lens)
    ensures r == WithinAsexOffspring(parent, rate, d, lens)
  {
    r := parent;
    for t := 0 to |lens|
      invariant r == MutationRounds(parent, rate, d, lens, t)
    {
      MutationRoundsStep(parent, rate, d, lens, t);
      r := MutationRound(r, rate, d, lens, t);
    }
  }
}
