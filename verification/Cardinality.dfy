/** Cardinality strings: what the association service accepts ("1", "0..1", "2..n", the
    empty string) and what the catalog validator later reads them as. */
module Cardinality {

  datatype Range = Range(min: int, max: int, unbounded: bool)

  const MAX_INT := 0x7FFF_FFFF_FFFF_FFFF
  const ANY := Range(0, 0, true)

  ghost predicate InRange(count: nat, r: Range) {
    r.min <= count && (r.unbounded || count <= r.max)
  }

  predicate IsDigit(c: char) {
    '0' <= c <= '9'
  }

  predicate AllDigits(s: string) {
    forall k :: 0 <= k < |s| ==> IsDigit(s[k])
  }

  predicate IsNumeral(s: string) {
    |s| > 0 && AllDigits(s)
  }

  /** The number a digit string writes, most significant digit first. */
  function NumeralValue(s: string): nat
    requires AllDigits(s)
  {
    if s == [] then 0 else
      assert IsDigit(s[|s| - 1]);
      10 * NumeralValue(s[..|s| - 1]) + (s[|s| - 1] as int - '0' as int)
  }

  datatype Parsed = Number(value: int) | TooLarge(clamped: int) | NotANumber

  /** Go's strconv.Atoi on a 64-bit machine: an optional sign, then digits; a value that
      does not fit comes back clamped together with an error. */
  function Atoi(s: string): Parsed {
    var signed := |s| > 0 && (s[0] == '-' || s[0] == '+');
    var digits := if signed then s[1..] else s;
    if !IsNumeral(digits) then NotANumber
    else
      var n: int := NumeralValue(digits);
      if signed && s[0] == '-' then
        if n <= MAX_INT + 1 then Number(-n) else TooLarge(-MAX_INT - 1)
      else
        if n <= MAX_INT then Number(n) else TooLarge(MAX_INT)
  }

  predicate IsDots(s: string, k: nat) {
    k + 2 <= |s| && s[k] == '.' && s[k + 1] == '.'
  }

  /** Position of the first ".." at or after "from", or |s| when there is none. */
  function DotsAt(s: string, from: nat): (k: nat)
    requires from <= |s|
    ensures from <= k <= |s|
    ensures k < |s| ==> IsDots(s, k)
    ensures forall j :: from <= j < k ==> !IsDots(s, j)
    decreases |s| - from
  {
    if from == |s| || IsDots(s, from) then from else DotsAt(s, from + 1)
  }

  function ParseCardinality(s: string): Range {
    if s == "" then ANY
    else
      var k := DotsAt(s, 0);
      var head := Atoi(s[..k]);
      if !head.Number? then ANY
      else if k == |s| then Range(head.value, head.value, false)
      else if s[k + 2..] == "n" then Range(head.value, 0, true)
      else
        var tail := Atoi(s[k + 2..]);
        if !tail.Number? then Range(head.value, 0, true)
        else Range(head.value, tail.value, false)
  }

  // ---- the input side ----

  /** What an accepted cardinality may look like, and the bounds it writes down. */
  datatype Shape = Exactly(n: string) | AtLeast(lo: string) | Between(lo: string, hi: string)
  {
    ghost predicate WellFormed() {
      match this
      case Exactly(a) => IsNumeral(a)
      case AtLeast(a) => IsNumeral(a)
      case Between(a, b) => IsNumeral(a) && IsNumeral(b)
    }

    function Text(): string {
      match this
      case Exactly(a) => a
      case AtLeast(a) => a + "..n"
      case Between(a, b) => a + ".." + b
    }

    ghost function Meaning(): Range
      requires WellFormed()
    {
      match this
      case Exactly(a) => Range(NumeralValue(a), NumeralValue(a), false)
      case AtLeast(a) => Range(NumeralValue(a), 0, true)
      case Between(a, b) => Range(NumeralValue(a), NumeralValue(b), false)
    }

    /** Every number written fits the validator's machine integer. */
    ghost predicate Fits()
      requires WellFormed()
    {
      match this
      case Exactly(a) => NumeralValue(a) <= MAX_INT
      case AtLeast(a) => NumeralValue(a) <= MAX_INT
      case Between(a, b) => NumeralValue(a) <= MAX_INT && NumeralValue(b) <= MAX_INT
    }
  }

  function Clamped(s: string): int
    requires IsNumeral(s)
  {
    if NumeralValue(s) <= MAX_INT then NumeralValue(s) else MAX_INT
  }

  /** The association service's test of a cardinality string. */
  predicate ValidateCardinality(s: string) {
    if s == "" then true
    else
      var k := DotsAt(s, 0);
      if k == |s| then IsNumeral(s)
      else
        var tail := s[k + 2..];
        IsNumeral(s[..k]) && (tail == "n" || (IsNumeral(tail) && Clamped(s[..k]) <= Clamped(tail)))
  }

  function NormalizeCardinality(s: string): string {
    if s == "" then "0..n" else s
  }

  function NormalizeSourceCardinality(s: string, isContainment: bool): string {
    if s == "" then if isContainment then "0..1" else "0..n" else s
  }

  // ---- the two sides agree ----

  /** A numeral holds no dot, so the separator is the first one. */
  lemma DotsAfterNumeral(a: string, rest: string)
    requires IsNumeral(a)
    ensures DotsAt(a, 0) == |a|
    ensures var s := a + ".." + rest;
            DotsAt(s, 0) == |a| && |a| + 2 <= |s| && s[..|a|] == a && s[|a| + 2..] == rest
  {
    var s := a + ".." + rest;
    forall k | 0 <= k < |a|
      ensures !IsDots(a, k) && !IsDots(s, k)
    {
      assert IsDigit(a[k]) && s[k] == a[k];
    }
    assert IsDots(s, |a|);
  }

  /** Every accepted string is empty or one of the three shapes. */
  lemma AcceptedIsAShape(s: string) returns (h: Shape)
    requires s != "" && ValidateCardinality(s)
    ensures h.WellFormed() && h.Text() == s
  {
    var k := DotsAt(s, 0);
    if k == |s| {
      h := Exactly(s);
    } else {
      assert s == s[..k] + ".." + s[k + 2..];
      if s[k + 2..] == "n" {
        h := AtLeast(s[..k]);
        assert s[..k] + ".." + "n" == s[..k] + "..n";
      } else {
        h := Between(s[..k], s[k + 2..]);
      }
    }
  }

  /** A shape is accepted exactly when its bounds, clamped, are in order. */
  lemma ShapeAcceptance(h: Shape)
    requires h.WellFormed()
    ensures ValidateCardinality(h.Text()) <==> h.Between? ==> Clamped(h.lo) <= Clamped(h.hi)
    ensures h.Fits() ==> (ValidateCardinality(h.Text()) <==>
              h.Meaning().unbounded || h.Meaning().min <= h.Meaning().max)
  {
    match h
    case Exactly(a) => DotsAfterNumeral(a, "");
    case AtLeast(a) =>
      DotsAfterNumeral(a, "n");
      assert a + ".." + "n" == a + "..n";
    case Between(a, b) =>
      DotsAfterNumeral(a, b);
      assert IsDigit(b[0]);
  }

  /** The validator reads an accepted string as the bounds it writes exactly when every
      number in it fits a machine integer; a larger one silently becomes "no bound". */
  lemma ParsedAsWritten(h: Shape)
    requires h.WellFormed()
    ensures ParseCardinality(h.Text()) == h.Meaning() <==> h.Fits()
  {
    match h
    case Exactly(a) =>
      ParseExactly(a);
    case AtLeast(a) =>
      assert a + ".." + "n" == a + "..n";
      ParseSplit(a, "n");
    case Between(a, b) =>
      NumeralHasNoSign(b);
      ParseSplit(a, b);
  }

  /** A number with a sign is never accepted, but the validator would read it. */
  lemma SignIsRead(a: string, sign: char)
    requires IsNumeral(a) && NumeralValue(a) <= MAX_INT && sign in {'+', '-'}
    ensures !ValidateCardinality([sign] + a)
    ensures var n: int := NumeralValue(a) * (if sign == '-' then -1 else 1);
            ParseCardinality([sign] + a) == Range(n, n, false)
  {
    var s := [sign] + a;
    assert s[1..] == a && !IsDigit(s[0]);
    var k := DotsAt(s, 0);
    forall j | 0 <= j < |s|
      ensures s[j] != '.'
    {
      assert j > 0 ==> s[j] == a[j - 1];
    }
    assert s[..k] == s;
  }

  lemma ParseExactly(a: string)
    requires IsNumeral(a)
    ensures ParseCardinality(a) ==
            if NumeralValue(a) <= MAX_INT then Range(NumeralValue(a), NumeralValue(a), false) else ANY
  {
    DotsAfterNumeral(a, "");
    NumeralHasNoSign(a);
    assert a[..|a|] == a;
  }

  lemma ParseSplit(a: string, rest: string)
    requires IsNumeral(a)
    ensures ParseCardinality(a + ".." + rest) ==
            if NumeralValue(a) > MAX_INT then ANY
            else if rest == "n" || !Atoi(rest).Number? then Range(NumeralValue(a), 0, true)
            else Range(NumeralValue(a), Atoi(rest).value, false)
  {
    DotsAfterNumeral(a, rest);
    NumeralHasNoSign(a);
  }

  lemma NumeralHasNoSign(a: string)
    requires IsNumeral(a)
    ensures Atoi(a) == if NumeralValue(a) <= MAX_INT then Number(NumeralValue(a)) else TooLarge(MAX_INT)
    ensures a != "n"
  {
    assert IsDigit(a[0]);
  }

  /** An accepted string for which validation falls back to "any number of links". */
  lemma HugeBoundIsLost()
    ensures ValidateCardinality("9223372036854775808") && ParseCardinality("9223372036854775808") == ANY
  {
    var s := "9223372036854775808";
    HugeValue();
    DotsAfterNumeral(s, "");
    NumeralHasNoSign(s);
    assert s[..|s|] == s;
  }

  lemma HugeValue()
    ensures IsNumeral("9223372036854775808") && NumeralValue("9223372036854775808") == MAX_INT + 1
  {
    assert IsNumeral("9223372036854775808");
    var s := "9223372036854775808";
    Prefix(s, 1, 9);
    Prefix(s, 2, 92); Prefix(s, 3, 922); Prefix(s, 4, 9223); Prefix(s, 5, 92233);
    Prefix(s, 6, 922337); Prefix(s, 7, 9223372); Prefix(s, 8, 92233720); Prefix(s, 9, 922337203);
    Prefix(s, 10, 9223372036); Prefix(s, 11, 92233720368); Prefix(s, 12, 922337203685);
    Prefix(s, 13, 9223372036854); Prefix(s, 14, 92233720368547); Prefix(s, 15, 922337203685477);
    Prefix(s, 16, 9223372036854775); Prefix(s, 17, 92233720368547758);
    Prefix(s, 18, 922337203685477580); Prefix(s, 19, 9223372036854775808);
    assert s[..19] == s;
  }

  lemma Prefix(s: string, k: nat, v: nat)
    requires 0 < k <= |s| && IsNumeral(s)
    requires v == 10 * NumeralValue(s[..k - 1]) + (s[k - 1] as int - '0' as int)
    ensures NumeralValue(s[..k]) == v
  {
    assert s[..k][..k - 1] == s[..k - 1];
  }
}
