/** String helpers the client relies on: substring search (what `split_once`
    and the regex engine do underneath) and the decimal rendering of
    integers that `format!("{day}")` and `format!("{year}")` perform. */
module Text {
  import opened Wrappers

  /** The machine integers of the source: `day: u8` and `year: i32`. */
  type Byte = x: int | 0 <= x < 0x100
  type Int32 = x: int | -0x8000_0000 <= x < 0x8000_0000

  // ---------------------------------------------------------------------
  // Substring search
  // ---------------------------------------------------------------------

  /** `pat` occurs in `s` starting at index `i`. */
  predicate OccursAt(s: string, pat: string, i: int)
  {
    0 <= i && i + |pat| <= |s| && s[i..i + |pat|] == pat
  }

  predicate Contains(s: string, pat: string)
  {
    exists i :: 0 <= i <= |s| && OccursAt(s, pat, i)
  }

  /** The first occurrence of `pat` in `s` at or after index `from`. */
  function FirstFrom(s: string, pat: string, from: nat): (r: Option<nat>)
    decreases |s| - from
    ensures r.Some? ==> from <= r.value && OccursAt(s, pat, r.value)
    ensures forall j :: from <= j && (r.None? || j < r.value) ==> !OccursAt(s, pat, j)
  {
    if from + |pat| > |s| then None
    else if s[from..from + |pat|] == pat then Some(from)
    else FirstFrom(s, pat, from + 1)
  }

  /** The first occurrence of `pat` in `s`, as `str::find` gives it. */
  function First(s: string, pat: string): (r: Option<nat>)
    ensures r.None? <==> !Contains(s, pat)
    ensures r.Some? ==> OccursAt(s, pat, r.value)
    ensures r.Some? ==> forall j :: 0 <= j < r.value ==> !OccursAt(s, pat, j)
  {
    FirstFrom(s, pat, 0)
  }

  /** The last occurrence of `pat` in `s` that starts before index `end`. */
  function LastBefore(s: string, pat: string, end: nat): (r: Option<nat>)
    ensures r.Some? ==> r.value < end && OccursAt(s, pat, r.value)
    ensures forall j :: j < end && (r.None? || r.value < j) ==> !OccursAt(s, pat, j)
  {
    if end == 0 then None
    else if OccursAt(s, pat, end - 1) then Some(end - 1)
    else LastBefore(s, pat, end - 1)
  }

  /** The last occurrence of `pat` in `s`. */
  function Last(s: string, pat: string): (r: Option<nat>)
    ensures r.None? <==> !Contains(s, pat)
    ensures r.Some? ==> OccursAt(s, pat, r.value)
    ensures r.Some? ==> forall j :: r.value < j ==> !OccursAt(s, pat, j)
  {
    LastBefore(s, pat, |s| + 1)
  }

  /** If `c` occurs in neither `a1` nor `a2`, the first `c` of the string
      tells where `a1`/`a2` ends, so the two decompositions coincide. */
  lemma SplitAtFirstChar(a1: string, b1: string, a2: string, b2: string, c: char)
    requires c !in a1 && c !in a2
    requires a1 + [c] + b1 == a2 + [c] + b2
    ensures a1 == a2 && b1 == b2
  {
    var s := a1 + [c] + b1;
    assert s[|a1|] == c && s[|a2|] == c;
    assert forall i :: 0 <= i < |a1| ==> s[i] == a1[i] != c;
    assert forall i :: 0 <= i < |a2| ==> s[i] == a2[i] != c;
    assert |a1| == |a2|;
    assert a1 == s[..|a1|] == a2;
    assert b1 == s[|a1| + 1..] == b2;
  }

  lemma PrefixCancel(p: string, a: string, b: string)
    requires p + a == p + b
    ensures a == b
  {
    assert a == (p + a)[|p|..];
  }

  lemma SuffixCancel(a: string, b: string, t: string)
    requires a + t == b + t
    ensures a == b
  {
    assert a == (a + t)[..|a|];
  }

  // ---------------------------------------------------------------------
  // Decimal rendering (Rust's `Display` for integers)
  // ---------------------------------------------------------------------

  predicate IsDigit(c: char)
  {
    '0' <= c <= '9'
  }

  function DigitChar(d: int): (c: char)
    requires 0 <= d < 10
    ensures IsDigit(c)
  {
    ('0' as int + d) as char
  }

  function DigitValue(c: char): (d: nat)
    ensures d < 10
  {
    if IsDigit(c) then c as int - '0' as int else 0
  }

  /** Decimal digits of `n`, most significant first, with no leading zero. */
  function Decimal(n: nat): (r: string)
    ensures 0 < |r|
    ensures forall i :: 0 <= i < |r| ==> IsDigit(r[i])
    ensures n == 0 ==> r == "0"
    ensures n != 0 ==> r[0] != '0'
  {
    if n < 10 then [DigitChar(n)] else Decimal(n / 10) + [DigitChar(n % 10)]
  }

  /** Reads a string of decimal digits back as a number. */
  function ParseDecimal(s: string): nat
  {
    if s == [] then 0 else ParseDecimal(s[..|s| - 1]) * 10 + DigitValue(s[|s| - 1])
  }

  /** Rust's rendering of a signed integer: a minus sign, then the digits of
      its magnitude. */
  function SignedDecimal(x: int): (r: string)
    ensures 0 < |r|
    ensures r[0] == '-' <==> x < 0
    ensures forall i :: 0 <= i < |r| ==> IsDigit(r[i]) || (i == 0 && r[i] == '-')
  {
    if x < 0 then "-" + Decimal(-x) else Decimal(x)
  }

  function ParseSigned(s: string): int
  {
    if 0 < |s| && s[0] == '-' then 0 - ParseDecimal(s[1..]) else ParseDecimal(s)
  }

  lemma {:induction false} ParseDecimalInvertsDecimal(n: nat)
    ensures ParseDecimal(Decimal(n)) == n
  {
    var s := Decimal(n);
    if n < 10 {
      assert s[..|s| - 1] == [];
    } else {
      assert s[..|s| - 1] == Decimal(n / 10);
      ParseDecimalInvertsDecimal(n / 10);
    }
  }

  lemma ParseSignedInvertsSignedDecimal(x: int)
    ensures ParseSigned(SignedDecimal(x)) == x
  {
    if x < 0 {
      assert SignedDecimal(x)[1..] == Decimal(-x);
      ParseDecimalInvertsDecimal(-x);
    } else {
      ParseDecimalInvertsDecimal(x);
    }
  }

  lemma DecimalInjective(m: nat, n: nat)
    ensures Decimal(m) == Decimal(n) <==> m == n
  {
    ParseDecimalInvertsDecimal(m);
    ParseDecimalInvertsDecimal(n);
  }

  lemma SignedDecimalInjective(x: int, y: int)
    ensures SignedDecimal(x) == SignedDecimal(y) <==> x == y
  {
    ParseSignedInvertsSignedDecimal(x);
    ParseSignedInvertsSignedDecimal(y);
  }
}
