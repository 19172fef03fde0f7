/** OTA versions packed into one integer: `major*100000 + minor*1000 + patch`. */
module Semver {
  import opened Text

  const MAX_PACKED := 9_999_999

  datatype Version = Version(major: int, minor: int, patch: int)

  predicate InRange(v: Version) { 0 <= v.major <= 99 && 0 <= v.minor <= 99 && 0 <= v.patch <= 999 }

  function Pack(v: Version): int { v.major * 100_000 + v.minor * 1_000 + v.patch }

  /** Three dot-separated parts, each parsed in the given integer range. */
  function ParseParts(text: string, lo: int, hi: int): Option<Version> {
    var parts := Split(text, '.');
    if |parts| != 3 then None else
    AllThree(ParseInt(parts[0], lo, hi), ParseInt(parts[1], lo, hi), ParseInt(parts[2], lo, hi))
  }

  function AllThree(a: Option<int>, b: Option<int>, c: Option<int>): Option<Version> {
    if a.Some? && b.Some? && c.Some? then Some(Version(a.value, b.value, c.value)) else None
  }

  /** `parse_semver_to_int` as a value. */
  function ParseSemver(text: string): (r: Option<int>)
    ensures r.Some? ==> 0 <= r.value <= MAX_PACKED
  {
    PackChecked(ParseParts(text, 0, U32_MAX))
  }

  function PackChecked(v: Option<Version>): (r: Option<int>)
    ensures r.Some? ==> 0 <= r.value <= MAX_PACKED
  {
    if v.Some? && InRange(v.value) then Some(Pack(v.value)) else None
  }

  /** The first loop of `parse_semver_to_int` fills an array with the segments. */
  method ParseSegments(parts: seq<string>) returns (r: Option<Version>)
    requires |parts| == 3
    ensures r == AllThree(ParseInt(parts[0], 0, U32_MAX), ParseInt(parts[1], 0, U32_MAX),
                          ParseInt(parts[2], 0, U32_MAX))
  {
    var parsed := new int[3];
    for i := 0 to 3
      invariant forall j | 0 <= j < i :: ParseInt(parts[j], 0, U32_MAX) == Some(parsed[j])
    {
      var v := ParseInt(parts[i], 0, U32_MAX);
      if v == None { return None; }
      parsed[i] := v.value;
    }
    return Some(Version(parsed[0], parsed[1], parsed[2]));
  }

  /** `parse_semver_to_int`: the second loop checks the bounds. */
  method ParseSemverToInt(text: string) returns (r: Option<int>)
    ensures r == ParseSemver(text)
  {
    var parts := Split(text, '.');
    if |parts| != 3 { return None; }
    var v := ParseSegments(parts);
    assert v == ParseParts(text, 0, U32_MAX);
    if v == None { return None; }
    var parsed, max := [v.value.major, v.value.minor, v.value.patch], [99, 99, 999];
    for i := 0 to 3
      invariant forall j | 0 <= j < i :: parsed[j] <= max[j]
    {
      if parsed[i] > max[i] { return None; }
    }
    assert parsed[0] <= max[0] && parsed[1] <= max[1] && parsed[2] <= max[2];
    return Some(Pack(v.value));
  }

  /** Accepted are exactly the texts of three segments that are u32 numbers, the first two of
      at most 99 and the third of at most 999. */
  lemma AcceptedExactlyWhen(text: string)
    ensures var parts := Split(text, '.');
            ParseSemver(text).Some? <==>
              && |parts| == 3
              && (forall i | 0 <= i < 3 :: ParseInt(parts[i], 0, U32_MAX).Some?)
              && ParseInt(parts[0], 0, U32_MAX).value <= 99 && ParseInt(parts[1], 0, U32_MAX).value <= 99
              && ParseInt(parts[2], 0, U32_MAX).value <= 999
    ensures ParseSemver(text).Some? ==>
              var parts := Split(text, '.');
              ParseSemver(text).value == ParseInt(parts[0], 0, U32_MAX).value * 100_000
                                         + ParseInt(parts[1], 0, U32_MAX).value * 1_000
                                         + ParseInt(parts[2], 0, U32_MAX).value
  {
  }

  function FormatVersion(v: Version): string {
    FormatInt(v.major) + "." + FormatInt(v.minor) + "." + FormatInt(v.patch)
  }

  /** `/` and `%` of i32 truncate toward zero. */
  function TruncDiv(a: int, b: nat): int
    requires b > 0
  {
    if a >= 0 then a / b else -((-a) / b)
  }

  function TruncMod(a: int, b: nat): int
    requires b > 0
  {
    a - TruncDiv(a, b) * b
  }

  function Unpack(n: int): Version {
    Version(TruncDiv(n, 100_000), TruncDiv(TruncMod(n, 100_000), 1_000), TruncMod(n, 1_000))
  }

  /** `format_semver_from_int`. */
  function FormatSemver(n: int): string { FormatVersion(Unpack(n)) }

  /** Packing is a bijection between the versions in range and 0..=9,999,999. */
  lemma PackBijective(v: Version, n: int)
    ensures InRange(v) ==> 0 <= Pack(v) <= MAX_PACKED && Unpack(Pack(v)) == v
    ensures 0 <= n <= MAX_PACKED ==> InRange(Unpack(n)) && Pack(Unpack(n)) == n
  {
    if InRange(v) { PackThenUnpack(v); }
    if 0 <= n <= MAX_PACKED { UnpackThenPack(n); }
  }

  lemma PackThenUnpack(v: Version)
    requires InRange(v)
    ensures 0 <= Pack(v) <= MAX_PACKED && Unpack(Pack(v)) == v
  {
    var low := v.minor * 1_000 + v.patch;
    assert 0 <= low < 100_000 && Pack(v) == v.major * 100_000 + low;
    assert Pack(v) / 100_000 == v.major && Pack(v) % 100_000 == low;
    assert low / 1_000 == v.minor && Pack(v) % 1_000 == v.patch;
  }

  lemma UnpackThenPack(n: int)
    requires 0 <= n <= MAX_PACKED
    ensures InRange(Unpack(n)) && Pack(Unpack(n)) == n
  {
    var low := n % 100_000;
    assert n == n / 100_000 * 100_000 + low;
    assert low == low / 1_000 * 1_000 + low % 1_000;
    assert n % 1_000 == low % 1_000;
  }

  lemma FormatParses(v: Version, lo: int, hi: int)
    requires lo <= v.major <= hi && lo <= v.minor <= hi && lo <= v.patch <= hi
    ensures ParseParts(FormatVersion(v), lo, hi) == Some(v)
  {
    var a, b, c := FormatInt(v.major), FormatInt(v.minor), FormatInt(v.patch);
    FormatIntChars(v.major, '.');
    FormatIntChars(v.minor, '.');
    FormatIntChars(v.patch, '.');
    SplitWhole(a, '.');
    SplitWhole(b, '.');
    SplitWhole(c, '.');
    SplitConcat(b, '.', c);
    SplitConcat(a, '.', b + ['.'] + c);
    assert FormatVersion(v) == a + ['.'] + (b + ['.'] + c);
    ParseFormat(v.major, lo, hi);
    ParseFormat(v.minor, lo, hi);
    ParseFormat(v.patch, lo, hi);
  }

  /** Parsing the formatted form of any packed version returns it. */
  lemma FormatRoundTrip(n: int)
    requires 0 <= n <= MAX_PACKED
    ensures ParseSemver(FormatSemver(n)) == Some(n)
  {
    PackBijective(Unpack(n), n);
    FormatParses(Unpack(n), 0, U32_MAX);
  }

  /** Formatting what was parsed gives the canonical form of the text, without plus
      signs and leading zeros; it is the only formatted text with that meaning. */
  lemma ParseThenFormat(text: string)
    requires ParseSemver(text).Some?
    ensures ParseParts(text, 0, U32_MAX).Some?
    ensures FormatSemver(ParseSemver(text).value) == FormatVersion(ParseParts(text, 0, U32_MAX).value)
    ensures ParseSemver(FormatSemver(ParseSemver(text).value)) == ParseSemver(text)
  {
    var v := ParseParts(text, 0, U32_MAX).value;
    PackBijective(v, Pack(v));
    FormatRoundTrip(Pack(v));
  }

  predicate Older(a: Version, b: Version) {
    a.major < b.major || (a.major == b.major && (a.minor < b.minor || (a.minor == b.minor && a.patch < b.patch)))
  }

  /** Integer order is version order. */
  lemma OrderIsLexicographic(a: Version, b: Version)
    requires InRange(a) && InRange(b)
    ensures Pack(a) < Pack(b) <==> Older(a, b)
  {
  }

  // ----- The admin side ----------------------------------------------------------------------

  /** `OtaRepo::parse_version_to_int`, which parses i32 and checks only upper bounds. */
  function ParseVersionToInt(text: string): Option<int> {
    PackBelow(ParseParts(text, -0x8000_0000, 0x7FFF_FFFF))
  }

  function PackBelow(v: Option<Version>): Option<int> {
    if v.None? || v.value.major > 99 || v.value.minor > 99 || v.value.patch > 999 then None else Some(Pack(v.value))
  }

  predicate StartsWithMinus(s: string) { s != "" && s[0] == '-' }

  /** Some segment is written with a minus sign. */
  predicate HasMinus(text: string) {
    exists i | 0 <= i < |Split(text, '.')| :: StartsWithMinus(Split(text, '.')[i])
  }

  /** Both sides agree on every text without a minus sign, and the device side refuses
      the others: device reports and admin versions share one order. */
  lemma SidesAgree(text: string)
    ensures HasMinus(text) ==> ParseSemver(text) == None
    ensures !HasMinus(text) ==> ParseVersionToInt(text) == ParseSemver(text)
  {
    var parts := Split(text, '.');
    if |parts| == 3 {
      SegmentSides(parts[0]);
      SegmentSides(parts[1]);
      SegmentSides(parts[2]);
      var (x0, x1, x2) := (ParseI32(parts[0]), ParseI32(parts[1]), ParseI32(parts[2]));
      var (y0, y1, y2) := (ParseInt(parts[0], 0, U32_MAX), ParseInt(parts[1], 0, U32_MAX),
                           ParseInt(parts[2], 0, U32_MAX));
      if HasMinus(text) {
        assert y0 == None || y1 == None || y2 == None;
      } else {
        CombineSides(x0, x1, x2, y0, y1, y2);
      }
    }
  }

  function ParseI32(s: string): Option<int> { ParseInt(s, -0x8000_0000, 0x7FFF_FFFF) }

  /** Both parsers read the same number, or both lead to a refusal. */
  predicate SameReading(x: Option<int>, y: Option<int>) {
    (x.Some? ==> x.value >= 0 && y == x) && (x.None? && y.Some? ==> y.value > 999)
  }

  lemma SegmentSides(s: string)
    ensures StartsWithMinus(s) ==> ParseInt(s, 0, U32_MAX) == None
    ensures !StartsWithMinus(s) ==> SameReading(ParseI32(s), ParseInt(s, 0, U32_MAX))
  {
  }

  lemma CombineSides(x0: Option<int>, x1: Option<int>, x2: Option<int>,
                     y0: Option<int>, y1: Option<int>, y2: Option<int>)
    requires SameReading(x0, y0) && SameReading(x1, y1) && SameReading(x2, y2)
    ensures PackBelow(AllThree(x0, x1, x2)) == PackChecked(AllThree(y0, y1, y2))
  {
  }
}
