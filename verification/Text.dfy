/** Text primitives shared by the models: splitting and joining on a separator,
    and the decimal codec of `format!("{n}")` and `str::parse`.

    A `string` stands for the UTF-8 bytes of a text, one `char` for each byte, so
    that `|s|` is the source's `len()`. Every separator used is ASCII, hence
    splitting bytes and splitting characters is the same operation. */
module Text {

  datatype Option<+T> = None | Some(value: T)

  // ----- Splitting and joining -------------------------------------------------

  /** `str::split(sep)`: there is always at least one part. */
  function Split(s: string, sep: char): (parts: seq<string>)
    ensures |parts| >= 1
    ensures forall i | 0 <= i < |parts| :: sep !in parts[i]
    ensures Join(parts, sep) == s
  {
    if s == "" then [""]
    else
      var rest := Split(s[1..], sep);
      if s[0] == sep then [""] + rest
      else
        var parts := [[s[0]] + rest[0]] + rest[1..];
        assert parts[1..] == rest[1..];
        parts
  }

  function Join(parts: seq<string>, sep: char): string
    requires |parts| >= 1
  {
    if |parts| == 1 then parts[0] else parts[0] + [sep] + Join(parts[1..], sep)
  }

  /** A text without the separator is its own single part. */
  lemma {:induction false} SplitWhole(s: string, sep: char)
    requires sep !in s
    ensures Split(s, sep) == [s]
  {
    if s != "" {
      SplitWhole(s[1..], sep);
      assert s == [s[0]] + s[1..];
    }
  }

  /** Splitting distributes over a separator. */
  lemma {:induction false} SplitConcat(a: string, sep: char, b: string)
    ensures Split(a + [sep] + b, sep) == Split(a, sep) + Split(b, sep)
  {
    var s := a + [sep] + b;
    if a == "" {
      assert s[1..] == b;
    } else {
      SplitConcat(a[1..], sep, b);
      assert s[1..] == a[1..] + [sep] + b;
      PrependToFirst(a[0], Split(a[1..], sep), Split(b, sep));
    }
  }

  lemma PrependToFirst(c: char, xs: seq<string>, ys: seq<string>)
    requires |xs| >= 1
    ensures [[c] + (xs + ys)[0]] + (xs + ys)[1..] == [[c] + xs[0]] + xs[1..] + ys
    ensures [""] + (xs + ys) == ([""] + xs) + ys
  {
    assert (xs + ys)[1..] == xs[1..] + ys;
  }

  /** Splitting undoes joining when no part holds the separator. */
  lemma {:induction false} SplitJoin(parts: seq<string>, sep: char)
    requires |parts| >= 1
    requires forall i | 0 <= i < |parts| :: sep !in parts[i]
    ensures Split(Join(parts, sep), sep) == parts
  {
    SplitWhole(parts[0], sep);
    if |parts| > 1 {
      SplitJoin(parts[1..], sep);
      SplitConcat(parts[0], sep, Join(parts[1..], sep));
      assert parts == [parts[0]] + parts[1..];
    }
  }

  /** Joining distributes over concatenation. */
  lemma {:induction false} JoinConcat(a: seq<string>, b: seq<string>, sep: char)
    requires |a| >= 1 && |b| >= 1
    ensures Join(a + b, sep) == Join(a, sep) + [sep] + Join(b, sep)
  {
    if |a| == 1 {
      assert (a + b)[1..] == b;
    } else {
      assert (a + b)[1..] == a[1..] + b;
      JoinConcat(a[1..], b, sep);
    }
  }

  /** `str::split_once(sep)`: the text before and after the first separator. */
  function SplitOnce(s: string, sep: char): (r: Option<(string, string)>)
    ensures r.None? <==> sep !in s
    ensures r.Some? ==> s == r.value.0 + [sep] + r.value.1 && sep !in r.value.0
  {
    if s == "" then None
    else if s[0] == sep then Some(("", s[1..]))
    else
      match SplitOnce(s[1..], sep)
      case None => None
      case Some((a, b)) => Some(([s[0]] + a, b))
  }

  /** The split point is determined: nothing else satisfies its contract. */
  lemma {:induction false} SplitOnceUnique(a: string, sep: char, b: string)
    requires sep !in a
    ensures SplitOnce(a + [sep] + b, sep) == Some((a, b))
  {
    var s := a + [sep] + b;
    if a == "" {
      assert s[1..] == b;
    } else {
      assert s[1..] == a[1..] + [sep] + b;
      SplitOnceUnique(a[1..], sep, b);
      assert s[0] == a[0] && a == [a[0]] + a[1..];
    }
  }

  // ----- Decimal numbers ---------------------------------------------------------

  predicate IsDigit(c: char) { '0' <= c <= '9' }

  predicate AllDigits(s: string) { forall i | 0 <= i < |s| :: IsDigit(s[i]) }

  function DigitsValue(s: string): nat
    requires AllDigits(s)
  {
    if s == "" then 0
    else 10 * DigitsValue(s[..|s| - 1]) + (s[|s| - 1] as int - '0' as int)
  }

  function FormatNat(n: nat): (s: string)
    ensures s != "" && AllDigits(s)
    ensures n != 0 ==> s[0] != '0'
  {
    if n < 10 then [('0' as int + n) as char]
    else FormatNat(n / 10) + [('0' as int + n % 10) as char]
  }

  lemma {:induction false} DigitsOfFormat(n: nat)
    ensures DigitsValue(FormatNat(n)) == n
  {
    if n >= 10 {
      DigitsOfFormat(n / 10);
      var s := FormatNat(n);
      assert s[..|s| - 1] == FormatNat(n / 10);
    }
  }

  function FormatInt(n: int): string {
    if n < 0 then "-" + FormatNat(-n) else FormatNat(n)
  }

  /** `str::parse` for an integer type with range `lo..=hi`. Unsigned types refuse a
      minus sign; a leading plus sign and leading zeros are accepted. */
  function ParseInt(s: string, lo: int, hi: int): (r: Option<int>)
    ensures r.Some? ==> lo <= r.value <= hi
  {
    if s == "" then None
    else
      var negative := s[0] == '-' && lo < 0;
      var digits := if negative || s[0] == '+' then s[1..] else s;
      if digits == "" || !AllDigits(digits) then None
      else
        var magnitude: int := DigitsValue(digits);
        var v := if negative then -magnitude else magnitude;
        if lo <= v <= hi then Some(v) else None
  }

  const I64_MIN := -0x8000_0000_0000_0000
  const I64_MAX := 0x7FFF_FFFF_FFFF_FFFF
  const U32_MAX := 0xFFFF_FFFF

  function ParseI64(s: string): Option<int> { ParseInt(s, I64_MIN, I64_MAX) }

  /** Parsing undoes formatting on the whole range of the integer type. */
  lemma ParseFormat(n: int, lo: int, hi: int)
    requires lo <= n <= hi
    ensures ParseInt(FormatInt(n), lo, hi) == Some(n)
  {
    if n < 0 {
      DigitsOfFormat(-n);
      assert FormatInt(n)[1..] == FormatNat(-n);
    } else {
      DigitsOfFormat(n);
      assert IsDigit(FormatInt(n)[0]);
    }
  }

  /** What a digit string means with and without a sign: a plus changes nothing, a minus
      negates where the type is signed and is refused where it is not, and a leading zero
      adds nothing. */
  lemma ParseForms(digits: string, lo: int, hi: int)
    requires digits != "" && AllDigits(digits) && lo <= 0
    ensures var v: int := DigitsValue(digits);
            && ParseInt(digits, lo, hi) == ParseInt("+" + digits, lo, hi) == (if v <= hi then Some(v) else None)
            && ParseInt("-" + digits, lo, hi) == (if lo < 0 && lo <= -v <= hi then Some(-v) else None)
    ensures AllDigits("0" + digits) && DigitsValue("0" + digits) == DigitsValue(digits)
    ensures ParseInt("", lo, hi) == None && ParseInt("+", lo, hi) == None && ParseInt("-", lo, hi) == None
  {
    assert ("+" + digits)[1..] == digits && ("-" + digits)[1..] == digits;
    assert !IsDigit('-') && IsDigit(digits[0]);
    LeadingZero(digits);
  }

  lemma {:induction false} LeadingZero(digits: string)
    requires AllDigits(digits)
    ensures AllDigits("0" + digits) && DigitsValue("0" + digits) == DigitsValue(digits)
  {
    var zeroed := "0" + digits;
    if digits == "" {
      assert zeroed == "0" && "0"[..0] == "";
    } else {
      LeadingZero(digits[..|digits| - 1]);
      assert zeroed[..|zeroed| - 1] == "0" + digits[..|digits| - 1];
    }
  }

  /** A formatted integer holds only digits and at most a leading minus sign. */
  lemma FormatIntChars(n: int, c: char)
    requires !IsDigit(c) && c != '-'
    ensures c !in FormatInt(n)
  {
  }

  /** An i64 takes at most 20 bytes. */
  lemma FormatI64Length(n: int)
    requires I64_MIN <= n <= I64_MAX
    ensures 1 <= |FormatInt(n)| <= 20
  {
    assert Pow10(3) == 1000 && Pow10(6) == 1000_000 && Pow10(9) == 1000_000_000;
    assert Pow10(12) == 1000_000_000_000 && Pow10(15) == 1000_000_000_000_000;
    assert Pow10(18) == 1000_000_000_000_000_000;
    FormatNatLength(if n < 0 then -n else n, 19);
  }

  function Pow10(d: nat): nat { if d == 0 then 1 else 10 * Pow10(d - 1) }

  lemma {:induction false} FormatNatLength(n: nat, d: nat)
    requires d >= 1 && n < Pow10(d)
    ensures |FormatNat(n)| <= d
    decreases d
  {
    if n >= 10 {
      assert d >= 2;
      FormatNatLength(n / 10, d - 1);
    }
  }
}
