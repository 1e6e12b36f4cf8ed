/**
  String helpers used by the catalog: the case folding behind every title and
  author comparison, and the scanner that finds the first number in a title.
  Case folding is ASCII only; digits are the ASCII digits `0`..`9`.
 */
module Text {
  import opened Wrappers

  function LowerChar(c: char): (r: char)
    ensures 'A' <= c <= 'Z' ==> 'a' <= r <= 'z' && r as int - c as int == 32
    ensures !('A' <= c <= 'Z') ==> r == c
  {
    if 'A' <= c <= 'Z' then (c as int + 32) as char else c
  }

  /** Lower-cases every ASCII capital letter and leaves every other character alone. */
  function Lower(s: string): string
  {
    seq(|s|, i requires 0 <= i < |s| => LowerChar(s[i]))
  }

  /** The comparison written `a.lower() == b.lower()` throughout the catalog. */
  predicate SameIgnoringCase(a: string, b: string) {
    Lower(a) == Lower(b)
  }

  /** Lower-casing twice is lower-casing once. */
  lemma LowerIdempotent(s: string)
    ensures Lower(Lower(s)) == Lower(s)
  {
    forall i | 0 <= i < |s|
      ensures Lower(Lower(s))[i] == Lower(s)[i]
    {
      assert Lower(s)[i] == LowerChar(s[i]);
    }
  }

  /** Two strings that differ only in ASCII letter case compare equal. */
  lemma SameIgnoringCaseOfLower(s: string)
    ensures SameIgnoringCase(s, Lower(s))
  {
    LowerIdempotent(s);
  }

  predicate IsDigit(c: char) {
    '0' <= c <= '9'
  }

  predicate AllDigits(s: string) {
    forall k :: 0 <= k < |s| ==> IsDigit(s[k])
  }

  /** The first index at or after `from` that holds a digit, or `|s|` if there is none. */
  function FirstDigitFrom(s: string, from: nat): (r: nat)
    requires from <= |s|
    ensures from <= r <= |s|
    ensures forall k :: from <= k < r ==> !IsDigit(s[k])
    ensures r < |s| ==> IsDigit(s[r])
    decreases |s| - from
  {
    if from == |s| || IsDigit(s[from]) then from else FirstDigitFrom(s, from + 1)
  }

  /** The end of the run of digits that starts at `from`: the first non-digit at or after it, or `|s|`. */
  function DigitRunEnd(s: string, from: nat): (r: nat)
    requires from <= |s|
    ensures from <= r <= |s|
    ensures forall k :: from <= k < r ==> IsDigit(s[k])
    ensures r < |s| ==> !IsDigit(s[r])
    decreases |s| - from
  {
    if from == |s| || !IsDigit(s[from]) then from else DigitRunEnd(s, from + 1)
  }

  /**
    The first maximal run of digits in `s`, as `(start, end)`: no digit comes
    before `start`, every character in `start..end` is a digit, and the run
    cannot be extended. None exactly when `s` holds no digit.
   */
  function FirstDigitRun(s: string): (r: Option<(nat, nat)>)
    ensures r.None? <==> forall k :: 0 <= k < |s| ==> !IsDigit(s[k])
    ensures r.Some? ==>
      && r.value.0 < r.value.1 <= |s|
      && (forall k :: 0 <= k < r.value.0 ==> !IsDigit(s[k]))
      && (forall k :: r.value.0 <= k < r.value.1 ==> IsDigit(s[k]))
      && (r.value.1 == |s| || !IsDigit(s[r.value.1]))
  {
    var start := FirstDigitFrom(s, 0);
    if start == |s| then None else Some((start, DigitRunEnd(s, start + 1)))
  }

  function DigitValue(c: char): (v: nat)
    requires IsDigit(c)
    ensures v < 10
  {
    c as int - '0' as int
  }

  function DigitChar(v: nat): (c: char)
    requires v < 10
    ensures IsDigit(c) && DigitValue(c) == v
  {
    ('0' as int + v) as char
  }

  /** The value of a string of decimal digits, most significant first (leading zeros allowed). */
  function ParseDecimal(ds: string): nat
    requires AllDigits(ds)
  {
    if ds == [] then 0
    else ParseDecimal(ds[..|ds| - 1]) * 10 + DigitValue(ds[|ds| - 1])
  }

  /** The decimal numeral of `n`, without leading zeros. */
  function ShowDecimal(n: nat): (ds: string)
    ensures AllDigits(ds) && |ds| > 0
    ensures n > 0 ==> ds[0] != '0'
  {
    if n < 10 then [DigitChar(n)] else ShowDecimal(n / 10) + [DigitChar(n % 10)]
  }

  /** Parsing the numeral of `n` gives back `n`. */
  lemma {:induction false} ParseShowDecimal(n: nat)
    ensures ParseDecimal(ShowDecimal(n)) == n
  {
    var ds := ShowDecimal(n);
    if n >= 10 {
      assert ds[..|ds| - 1] == ShowDecimal(n / 10);
      ParseShowDecimal(n / 10);
    }
  }

  /**
    The integer written at the first run of digits in `s`: what
    `re.search(r"\d+", s)` followed by `int(match.group())` yields. None when
    `s` holds no digit.
   */
  function FirstNumber(s: string): (r: Option<nat>)
    ensures r.None? <==> forall k :: 0 <= k < |s| ==> !IsDigit(s[k])
  {
    match FirstDigitRun(s)
    case None => None
    case Some(run) => Some(ParseDecimal(s[run.0..run.1]))
  }

  /** A title ending in an unpadded numeral carries that number, whatever text precedes it. */
  lemma {:induction false} FirstNumberOfSuffix(prefix: string, n: nat)
    requires forall k :: 0 <= k < |prefix| ==> !IsDigit(prefix[k])
    ensures FirstNumber(prefix + ShowDecimal(n)) == Some(n)
  {
    var s := prefix + ShowDecimal(n);
    assert forall k :: 0 <= k < |prefix| ==> s[k] == prefix[k];
    assert forall k :: |prefix| <= k < |s| ==> s[k] == ShowDecimal(n)[k - |prefix|];
    assert IsDigit(s[|prefix|]);
    var run := FirstDigitRun(s).value;
    assert run.0 == |prefix|;
    assert run.1 == |s|;
    assert s[run.0..run.1] == ShowDecimal(n);
    ParseShowDecimal(n);
  }
}
