/** Species identifiers: `'sp%d' % ordinal` when a habitat is initialised
    (metacommunity_IBM.py:94), and `int(re.findall(r"\d+", species_id)[0])` when a patch is
    turned into a species-ordinal matrix for the heatmap (metacommunity_IBM.py:411-417). */
module SpeciesId {
  import opened Wrappers
  import opened Genetics

  predicate IsDigit(c: char) { '0' <= c <= '9' }

  function DigitChar(d: nat): (c: char)
    requires d < 10
    ensures IsDigit(c)
  {
    ['0', '1', '2', '3', '4', '5', '6', '7', '8', '9'][d]
  }

  function DigitValue(c: char): (d: nat)
    requires IsDigit(c)
    ensures d < 10
  {
    (c as int - '0' as int) as nat
  }

  /** `'%d' % n` for a non-negative n: decimal digits, no leading zero. */
  function Decimal(n: nat): (s: string)
    ensures |s| > 0 && forall i :: 0 <= i < |s| ==> IsDigit(s[i])
    ensures |s| > 1 ==> s[0] != '0'
  {
    if n < 10 then [DigitChar(n)] else Decimal(n / 10) + [DigitChar(n % 10)]
  }

  /** `int(digits)` for a non-empty string of decimal digits. */
  function DecimalValue(s: string): nat
    requires forall i :: 0 <= i < |s| ==> IsDigit(s[i])
  {
    if s == [] then 0 else DecimalValue(s[..|s| - 1]) * 10 + DigitValue(s[|s| - 1])
  }

  /** The maximal run of digits at the start of s. */
  function LeadingDigits(s: string): (r: string)
    ensures |r| <= |s| && r == s[..|r|]
    ensures forall i :: 0 <= i < |r| ==> IsDigit(r[i])
    ensures |r| < |s| ==> !IsDigit(s[|r|])
  {
    if s == [] || !IsDigit(s[0]) then [] else [s[0]] + LeadingDigits(s[1..])
  }

  /** `int(re.findall(r"\d+", s)[0])`: the value of the first digit run; None where the
      Python expression raises IndexError (no digit at all). */
  function FirstNumber(s: string): Option<nat> {
    if s == [] then None
    else if IsDigit(s[0]) then Some(DecimalValue(LeadingDigits(s)))
    else FirstNumber(s[1..])
  }

  /** The identifier given to the species with 1-based ordinal n. */
  function FormatSpeciesId(n: nat): string {
    "sp" + Decimal(n)
  }

  /** The heatmap value of one microsite: NaN (None) when it is empty, otherwise the ordinal
      parsed back from the occupant's species identifier. */
  function CellValue(cell: Option<Individual>): Option<nat> {
    match cell
    case None => None
    case Some(ind) => FirstNumber(ind.species)
  }

  lemma {:induction false} DecimalRoundTrip(n: nat)
    ensures DecimalValue(Decimal(n)) == n
  {
    if n >= 10 {
      DecimalRoundTrip(n / 10);
      var s := Decimal(n);
      assert s[..|s| - 1] == Decimal(n / 10);
    }
  }

  lemma {:induction false} AllDigitsLead(s: string)
    requires forall i :: 0 <= i < |s| ==> IsDigit(s[i])
    ensures LeadingDigits(s) == s
  {
    if s != [] {
      AllDigitsLead(s[1..]);
    }
  }

  /** Parsing an identifier made by the format gives back the ordinal. */
  lemma SpeciesIdRoundTrip(n: nat)
    ensures FirstNumber(FormatSpeciesId(n)) == Some(n)
  {
    var s := FormatSpeciesId(n);
    var d := Decimal(n);
    assert s[1..][1..] == d;
    AllDigitsLead(d);
    DecimalRoundTrip(n);
    assert FirstNumber(d) == Some(n);
    assert !IsDigit(s[1..][0]) && FirstNumber(s[1..]) == FirstNumber(d);
    assert !IsDigit(s[0]) && FirstNumber(s) == FirstNumber(s[1..]);
  }

  /** Distinct ordinals give distinct identifiers. */
  lemma SpeciesIdInjective(m: nat, n: nat)
    requires FormatSpeciesId(m) == FormatSpeciesId(n)
    ensures m == n
  {
    SpeciesIdRoundTrip(m);
    SpeciesIdRoundTrip(n);
  }

  /** `species_2_phenotype_ls.index(mean_pheno_val_ls)`: the first position of x; None where
      Python raises ValueError. */
  function IndexOf<T(==)>(table: seq<T>, x: T): (r: Option<nat>)
    ensures r.Some? <==> x in table
    ensures r.Some? ==> r.value < |table| && table[r.value] == x &&
                        forall i :: 0 <= i < r.value ==> table[i] != x
  {
    if table == [] then None
    else if table[0] == x then Some(0)
    else match IndexOf(table[1..], x)
      case None => None
      case Some(i) => Some(i + 1)
  }

  /** The species identifier of `hab_initialize`: ordinal = 1 + the position of the
      habitat's environment means in the species table. */
  function SpeciesIdFor(table: seq<seq<real>>, means: seq<real>): Option<string> {
    match IndexOf(table, means)
    case None => None
    case Some(i) => Some(FormatSpeciesId(i + 1))
  }

  /** The heatmap recovers exactly the ordinal the habitat's species was created with. */
  lemma HeatmapRecoversOrdinal(table: seq<seq<real>>, means: seq<real>, ind: Individual)
    requires SpeciesIdFor(table, means).Some? && ind.species == SpeciesIdFor(table, means).value
    ensures CellValue(Some(ind)).Some? && 1 <= CellValue(Some(ind)).value <= |table|
    ensures table[CellValue(Some(ind)).value - 1] == means
  {
    SpeciesIdRoundTrip(IndexOf(table, means).value + 1);
  }
}
