/** The MQTT password `nonce.timestamp.hash` and the admission of devices.

    HMAC-SHA1 under the configured suffix is a parameter `mac`, of which only the shape
    of its hexadecimal output is used. Integers are i64 with the wrap-around of a build
    without overflow checks. */
module DeviceAuth {
  import opened Text

  type Mac = string -> string

  ghost predicate IsHexMac(mac: Mac) { forall m :: |mac(m)| == 40 && '.' !in mac(m) }

  // ----- Wrap-around ------------------------------------------------------------------------

  const TWO63 := 0x8000_0000_0000_0000
  const TWO64 := 0x1_0000_0000_0000_0000

  function Wrap64(x: int): (r: int)
    ensures I64_MIN <= r <= I64_MAX
  {
    (x + TWO63) % TWO64 - TWO63
  }

  /** `i64::abs`, whose result wraps for the least value. */
  function Abs64(x: int): int { if x >= 0 then x else Wrap64(-x) }

  function TimeDiff(now: int, timestamp: int): int { Abs64(Wrap64(now - timestamp)) }

  predicate InTolerance(now: int, timestamp: int, tolerance: int) { !(TimeDiff(now, timestamp) > tolerance) }

  /** The window test accepts the timestamps within the tolerance, and besides them the
      one timestamp whose difference wraps to the least i64. */
  lemma ToleranceExact(now: int, timestamp: int, tolerance: int)
    requires 0 <= now < TWO63 / 2 && 0 <= tolerance < TWO63 / 2
    requires I64_MIN <= timestamp <= I64_MAX
    ensures InTolerance(now, timestamp, tolerance)
            <==> -tolerance <= now - timestamp <= tolerance || timestamp == now - TWO63
  {
    var d := now - timestamp;
    if d < TWO63 {
      assert Wrap64(d) == d;
    } else {
      assert Wrap64(d) == d - TWO64;
    }
  }

  // ----- The password ------------------------------------------------------------------------

  /** The text that is signed: `{client}.{nonce}.{timestamp}.{suffix}`. */
  function ToSign(client: string, nonce: string, timestamp: string, suffix: string): string {
    client + "." + nonce + "." + timestamp + "." + suffix
  }

  /** `auth` up to the admission check. */
  predicate Accepts(client: string, password: string, suffix: string, now: int, tolerance: int, mac: Mac) {
    && |client| <= 64 && |password| <= 256 && password != ""
    && var parts := Split(password, '.');
    && |parts| == 3 && |parts[0]| == 6
    && var timestamp := ParseI64(parts[1]);
    && timestamp.Some? && InTolerance(now, timestamp.value, tolerance)
    && mac(ToSign(client, parts[0], parts[1], suffix)) == parts[2]
  }

  function Generate(client: string, nonce: string, timestamp: int, suffix: string, mac: Mac): string {
    nonce + "." + FormatInt(timestamp) + "." + mac(ToSign(client, nonce, FormatInt(timestamp), suffix))
  }

  lemma TwoParts(b: string, c: string)
    requires '.' !in b && '.' !in c
    ensures Split(b + ['.'] + c, '.') == [b, c]
  {
    SplitConcat(b, '.', c);
    SplitWhole(b, '.');
    SplitWhole(c, '.');
  }

  lemma ThreeParts(a: string, b: string, c: string)
    requires '.' !in a && '.' !in b && '.' !in c
    ensures Split(a + "." + b + "." + c, '.') == [a, b, c]
  {
    var bc := b + ['.'] + c;
    TwoParts(b, c);
    SplitConcat(a, '.', bc);
    SplitWhole(a, '.');
    assert a + "." + b + "." + c == a + ['.'] + bc;
  }

  /** A correctly generated password is accepted for every client id of at most 64
      bytes, every dot-free nonce of 6 bytes, and every timestamp in the window. */
  lemma GeneratedIsAccepted(client: string, nonce: string, timestamp: int, suffix: string,
                            now: int, tolerance: int, mac: Mac)
    requires IsHexMac(mac)
    requires |client| <= 64 && |nonce| == 6 && '.' !in nonce
    requires I64_MIN <= timestamp <= I64_MAX && 0 <= tolerance <= I64_MAX
    requires -tolerance <= now - timestamp <= tolerance
    ensures Accepts(client, Generate(client, nonce, timestamp, suffix, mac), suffix, now, tolerance, mac)
  {
    var text := FormatInt(timestamp);
    var hash := mac(ToSign(client, nonce, text, suffix));
    FormatIntChars(timestamp, '.');
    FormatI64Length(timestamp);
    ThreeParts(nonce, text, hash);
    ParseFormat(timestamp, I64_MIN, I64_MAX);
  }

  /** Whatever is accepted has that three-part form, with the signature of this client,
      nonce and timestamp text, and a timestamp that the window admits. */
  lemma AcceptedHasForm(client: string, password: string, suffix: string, now: int, tolerance: int, mac: Mac)
    returns (nonce: string, text: string, timestamp: int)
    requires Accepts(client, password, suffix, now, tolerance, mac)
    requires 0 <= now < TWO63 / 2 && 0 <= tolerance < TWO63 / 2
    ensures password == nonce + "." + text + "." + mac(ToSign(client, nonce, text, suffix))
    ensures |nonce| == 6 && '.' !in nonce && '.' !in text && |client| <= 64 && |password| <= 256
    ensures ParseI64(text) == Some(timestamp)
    ensures -tolerance <= now - timestamp <= tolerance || timestamp == now - TWO63
  {
    var parts := Split(password, '.');
    nonce, text, timestamp := parts[0], parts[1], ParseI64(parts[1]).value;
    assert parts[1..][1..] == [parts[2]];
    assert Join(parts[1..], '.') == text + ['.'] + parts[2];
    ToleranceExact(now, timestamp, tolerance);
  }

  // ----- What a signature covers -----------------------------------------------------------------

  lemma LastDot(a: string, b: string, a': string, b': string)
    requires '.' !in b && '.' !in b' && a + "." + b == a' + "." + b'
    ensures a == a' && b == b'
  {
    var s := a + "." + b;
    assert s[|a|] == '.' && s[|a'|] == '.';
    assert forall i | |a| < i < |s| :: s[i] == b[i - |a| - 1];
    assert forall i | |a'| < i < |s| :: s[i] == b'[i - |a'| - 1];
    assert |a| == |a'|;
    assert a == s[..|a|] && a' == s[..|a'|];
    assert b == s[|a| + 1..] && b' == s[|a'| + 1..];
  }

  /** The signed text determines the client, the nonce and the timestamp text, even for
      client ids with dots in them. */
  lemma SignedTextInjective(c1: string, n1: string, t1: string, c2: string, n2: string, t2: string, suffix: string)
    requires '.' !in n1 && '.' !in t1 && '.' !in n2 && '.' !in t2
    requires ToSign(c1, n1, t1, suffix) == ToSign(c2, n2, t2, suffix)
    ensures c1 == c2 && n1 == n2 && t1 == t2
  {
    var x1, x2 := c1 + "." + n1 + "." + t1, c2 + "." + n2 + "." + t2;
    var s := ToSign(c1, n1, t1, suffix);
    assert s == x1 + "." + suffix && s == x2 + "." + suffix;
    assert |x1| == |x2|;
    assert x1 == s[..|x1|] && x2 == s[..|x2|];
    LastDot(c1 + "." + n1, t1, c2 + "." + n2, t2);
    LastDot(c1, n1, c2, n2);
  }

  // ----- Admission ---------------------------------------------------------------------------------

  /** The device table and the products with their auto-provisioning switch. */
  class DeviceRegistry {
    var devices: set<(string, string)>
    const products: map<string, bool>

    constructor (products: map<string, bool>)
      ensures devices == {} && this.products == products
    {
      devices := {};
      this.products := products;
    }

    /** `check_device_admission`. */
    method CheckAdmission(product: string, device: string) returns (allow: bool)
      modifies this
      ensures allow <==> (product, device) in old(devices) || (product in products && products[product])
      ensures devices == if allow then old(devices) + {(product, device)} else old(devices)
    {
      if (product, device) in devices { return true; }
      if product in products && products[product] {
        devices := devices + {(product, device)};
        return true;
      }
      return false;
    }

    /** `auth`: true is "allow". Only a device with a valid password is ever admitted,
        and an admitted device is registered. */
    method Auth(username: Option<string>, client: string, password: string, suffix: string,
                now: int, tolerance: int, mac: Mac)
      returns (allow: bool)
      modifies this
      ensures allow <==> Accepts(client, password, suffix, now, tolerance, mac) && username.Some?
                         && ((username.value, client) in old(devices)
                             || (username.value in products && products[username.value]))
      ensures allow ==> devices == old(devices) + {(username.value, client)}
      ensures !allow ==> devices == old(devices)
    {
      if !Accepts(client, password, suffix, now, tolerance, mac) || username == None { return false; }
      allow := CheckAdmission(username.value, client);
    }
  }
}
