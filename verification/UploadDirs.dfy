/** Which directories a device may upload to. */
module UploadDirs {
  import opened Text
  import opened Identifiers

  // ----- Text replacement ----------------------------------------------------------------------

  predicate StartsWith(s: string, p: string) { |p| <= |s| && forall i | 0 <= i < |p| :: s[i] == p[i] }

  lemma Differs(s: string, p: string, i: nat)
    requires i < |s| && i < |p| && s[i] != p[i]
    ensures !StartsWith(s, p)
  {
  }

  /** `str::replace`: leftmost occurrences, without rescanning what was put in. */
  function Replace(s: string, pat: string, rep: string): string
    requires pat != ""
    decreases |s|
  {
    if |s| < |pat| then s
    else if StartsWith(s, pat) then rep + Replace(s[|pat|..], pat, rep)
    else [s[0]] + Replace(s[1..], pat, rep)
  }

  /** Text in which the pattern cannot begin is copied. */
  lemma {:induction false} ReplaceCopies(s: string, n: nat, pat: string, rep: string)
    requires pat != "" && n <= |s|
    requires forall i | 0 <= i < n :: !StartsWith(s[i..], pat)
    ensures Replace(s, pat, rep) == s[..n] + Replace(s[n..], pat, rep)
  {
    if n > 0 {
      assert s[0..] == s;
      if |s| < |pat| {
        ReplaceShort(s[n..], pat, rep);
        assert s == s[..n] + s[n..];
      } else {
        forall i | 0 <= i < n - 1 ensures !StartsWith(s[1..][i..], pat) { assert s[1..][i..] == s[i + 1..]; }
        ReplaceCopies(s[1..], n - 1, pat, rep);
        assert s[1..][n - 1..] == s[n..] && [s[0]] + s[1..][..n - 1] == s[..n];
      }
    }
  }

  lemma ReplaceShort(s: string, pat: string, rep: string)
    requires pat != "" && |s| < |pat|
    ensures Replace(s, pat, rep) == s
  {
  }

  lemma ReplaceHit(pat: string, rest: string, rep: string)
    requires pat != ""
    ensures Replace(pat + rest, pat, rep) == rep + Replace(rest, pat, rep)
  {
    assert StartsWith(pat + rest, pat) && (pat + rest)[|pat|..] == rest;
  }

  lemma ReplaceStep(s: string, pat: string, rep: string)
    requires pat != "" && s != "" && !StartsWith(s, pat)
    ensures Replace(s, pat, rep) == [s[0]] + Replace(s[1..], pat, rep)
  {
    assert s[0..] == s && s[..1] == [s[0]];
    ReplaceCopies(s, 1, pat, rep);
  }

  // ----- The rule ------------------------------------------------------------------------------

  const PRODUCT := "${productId}"
  const DEVICE := "${deviceId}"

  function Substitute(rule: string, product: string, device: string): string {
    Replace(Replace(rule, PRODUCT, product), DEVICE, device)
  }

  predicate EndsWith(s: string, suffix: string) { |suffix| <= |s| && s[|s| - |suffix|..] == suffix }

  /** One rule after substitution. */
  predicate RuleAllows(rule: string, directory: string) {
    if EndsWith(rule, "/*") then
      var base := rule[..|rule| - 2];
      directory == base || StartsWith(directory, base + "/")
    else if EndsWith(rule, "*") then StartsWith(directory, rule[..|rule| - 1])
    else directory == rule
  }

  /** `is_file_upload_directory_allowed`. */
  predicate DirectoryAllowed(rules: seq<string>, product: string, device: string, directory: string) {
    exists i | 0 <= i < |rules| :: RuleAllows(Substitute(rules[i], product, device), directory)
  }

  // ----- Whole segments ------------------------------------------------------------------------

  /** A rule that ends in slash and star allows exactly the directories whose segments
      begin with the segments of its base: the base `ota` allows `ota` and `ota/v1`,
      never `ota-other`. */
  lemma SegmentsDecide(base: string, directory: string)
    ensures RuleAllows(base + "/*", directory) <==> Split(base, '/') <= Split(directory, '/')
  {
    var rule := base + "/*";
    assert rule[|rule| - 2..] == "/*" && rule[..|rule| - 2] == base;
    if directory == base || StartsWith(directory, base + "/") { BelowHasSegments(base, directory); }
    if Split(base, '/') <= Split(directory, '/') { SegmentsAreBelow(base, directory); }
  }

  lemma BelowHasSegments(base: string, directory: string)
    requires directory == base || StartsWith(directory, base + "/")
    ensures Split(base, '/') <= Split(directory, '/')
  {
    if directory != base {
      var rest := directory[|base| + 1..];
      assert (base + "/")[|base|] == '/';
      assert forall i | 0 <= i < |base| :: (base + "/")[i] == base[i];
      assert directory == base + ['/'] + rest;
      SplitConcat(base, '/', rest);
    }
  }

  lemma PrefixRest<T>(a: seq<T>, b: seq<T>)
    requires a <= b
    ensures b == a + b[|a|..]
  {
  }

  lemma ConcatStarts(a: string, b: string)
    ensures StartsWith(a + b, a)
  {
  }

  lemma SegmentsAreBelow(base: string, directory: string)
    requires Split(base, '/') <= Split(directory, '/')
    ensures directory == base || StartsWith(directory, base + "/")
  {
    var bs, ds := Split(base, '/'), Split(directory, '/');
    PrefixRest(bs, ds);
    if ds != bs {
      var rest := ds[|bs|..];
      assert rest != [];
      JoinConcat(bs, rest, '/');
      ConcatStarts(base + "/", Join(rest, '/'));
    }
  }

  // ----- ... of the rule before substitution -----------------------------------------------------

  /** A pattern does not reach into text that holds none of its characters. */
  lemma MatchIgnoresTail(s: string, tail: string, pat: string)
    requires 0 < |tail| < |pat| && forall c | c in tail :: c !in pat
    ensures StartsWith(s + tail, pat) == StartsWith(s, pat)
  {
    var all := s + tail;
    if |s| < |pat| {
      assert all[|s|] == tail[0] && tail[0] in tail && pat[|s|] in pat;
      Differs(all, pat, |s|);
    } else {
      assert forall i | 0 <= i < |pat| :: all[i] == s[i];
    }
  }

  lemma Assoc(a: string, b: string, c: string)
    ensures (a + b) + c == a + (b + c)
  {
  }

  lemma TailAfterHit(rest: string, tail: string, pat: string, rep: string)
    requires pat != "" && Replace(rest + tail, pat, rep) == Replace(rest, pat, rep) + tail
    ensures Replace((pat + rest) + tail, pat, rep) == Replace(pat + rest, pat, rep) + tail
  {
    calc {
      Replace((pat + rest) + tail, pat, rep);
      { Assoc(pat, rest, tail); }
      Replace(pat + (rest + tail), pat, rep);
      { ReplaceHit(pat, rest + tail, rep); }
      rep + (Replace(rest, pat, rep) + tail);
      { Assoc(rep, Replace(rest, pat, rep), tail); }
      (rep + Replace(rest, pat, rep)) + tail;
      { ReplaceHit(pat, rest, rep); }
      Replace(pat + rest, pat, rep) + tail;
    }
  }

  lemma TailAfterStep(c: char, rest: string, tail: string, pat: string, rep: string)
    requires pat != "" && !StartsWith([c] + rest, pat) && !StartsWith([c] + rest + tail, pat)
    requires Replace(rest + tail, pat, rep) == Replace(rest, pat, rep) + tail
    ensures Replace([c] + rest + tail, pat, rep) == Replace([c] + rest, pat, rep) + tail
  {
    ReplaceStep([c] + rest, pat, rep);
    ReplaceStep([c] + rest + tail, pat, rep);
    assert ([c] + rest + tail)[1..] == rest + tail;
  }

  /** Such text is copied at the end. */
  lemma {:induction false} ReplaceTail(s: string, tail: string, pat: string, rep: string)
    requires 0 < |tail| < |pat| && forall c | c in tail :: c !in pat
    ensures Replace(s + tail, pat, rep) == Replace(s, pat, rep) + tail
    decreases |s|
  {
    if s == "" {
      ReplaceShort(tail, pat, rep);
      assert s + tail == tail;
    } else if StartsWith(s, pat) {
      var rest := s[|pat|..];
      assert s == pat + rest;
      ReplaceTail(rest, tail, pat, rep);
      TailAfterHit(rest, tail, pat, rep);
    } else {
      MatchIgnoresTail(s, tail, pat);
      assert s == [s[0]] + s[1..];
      ReplaceTail(s[1..], tail, pat, rep);
      TailAfterStep(s[0], s[1..], tail, pat, rep);
    }
  }

  lemma SubstituteTail(base: string, product: string, device: string)
    ensures Substitute(base + "/*", product, device) == Substitute(base, product, device) + "/*"
  {
    ReplaceTail(base, "/*", PRODUCT, product);
    ReplaceTail(Replace(base, PRODUCT, product), "/*", DEVICE, device);
  }

  /** For every rule that ends in slash and star, and whatever the identifiers hold, the
      directories allowed are those whose segments begin with the substituted base's. */
  lemma RuleDecides(base: string, product: string, device: string, directory: string)
    ensures DirectoryAllowed([base + "/*"], product, device, directory)
            <==> Split(Substitute(base, product, device), '/') <= Split(directory, '/')
  {
    SubstituteTail(base, product, device);
    SegmentsDecide(Substitute(base, product, device), directory);
    assert [base + "/*"][0] == base + "/*";
  }

  // ----- Lists of rules, and rules without a slash and star -----------------------------------------

  /** Every rule of a list counts: none allows nothing, and two lists together allow what
      either of them allows. */
  lemma ListsUnite(a: seq<string>, b: seq<string>, product: string, device: string, directory: string)
    ensures !DirectoryAllowed([], product, device, directory)
    ensures DirectoryAllowed(a + b, product, device, directory)
            <==> DirectoryAllowed(a, product, device, directory) || DirectoryAllowed(b, product, device, directory)
  {
    var ab := a + b;
    if i :| 0 <= i < |a| && RuleAllows(Substitute(a[i], product, device), directory) { assert ab[i] == a[i]; }
    if j :| 0 <= j < |b| && RuleAllows(Substitute(b[j], product, device), directory) { assert ab[|a| + j] == b[j]; }
  }

  /** A list whose rules all end in slash and star is decided by the segments of its bases. */
  lemma {:induction false} ListDecides(bases: seq<string>, product: string, device: string, directory: string)
    ensures DirectoryAllowed(seq(|bases|, i requires 0 <= i < |bases| => bases[i] + "/*"), product, device, directory)
            <==> exists i :: 0 <= i < |bases|
                             && Split(Substitute(bases[i], product, device), '/') <= Split(directory, '/')
  {
    var rules := seq(|bases|, i requires 0 <= i < |bases| => bases[i] + "/*");
    forall i | 0 <= i < |bases|
      ensures RuleAllows(Substitute(rules[i], product, device), directory)
              <==> Split(Substitute(bases[i], product, device), '/') <= Split(directory, '/')
    {
      SubstituteTail(bases[i], product, device);
      SegmentsDecide(Substitute(bases[i], product, device), directory);
    }
  }

  lemma EndsWithMeans(s: string, suffix: string)
    ensures EndsWith(s, suffix) <==>
            |suffix| <= |s| && forall i | 0 <= i < |suffix| :: s[|s| - |suffix| + i] == suffix[i]
  {
  }

  lemma PrefixMeans(s: string, p: string)
    ensures StartsWith(s, p) <==> p <= s
  {
  }

  /** After substitution: a bare star stands for any continuation of the text before it. */
  lemma BareStarDecides(rule: string, directory: string)
    requires rule == "" || rule[|rule| - 1] != '/'
    ensures RuleAllows(rule + "*", directory) <==> rule <= directory
  {
    var starred := rule + "*";
    EndsWithMeans(starred, "*");
    EndsWithMeans(starred, "/*");
    if rule != "" { assert starred[|starred| - 2] == rule[|rule| - 1] && "/*"[0] == '/'; }
    assert starred[..|starred| - 1] == rule;
    PrefixMeans(directory, rule);
  }

  /** Without a star a rule allows one directory. */
  lemma PlainRuleDecides(rule: string, directory: string)
    requires rule == "" || rule[|rule| - 1] != '*'
    ensures RuleAllows(rule, directory) <==> directory == rule
  {
    EndsWithMeans(rule, "*");
    EndsWithMeans(rule, "/*");
    assert "/*"[1] == '*';
  }

  /** The repository's own list: a device uploads below its own two segments and to `public`. */
  lemma PublicRule(product: string, device: string, directory: string)
    requires ValidIdentifier(product) && ValidIdentifier(device)
    ensures DirectoryAllowed([PRODUCT + "/" + DEVICE + "/*", "public/*"], product, device, directory)
            <==> [product, device] <= Split(directory, '/') || ["public"] <= Split(directory, '/')
  {
    var own, public := PRODUCT + "/" + DEVICE + "/*", "public";
    assert "public/*" == public + "/*";
    assert [own, "public/*"] == [own] + [public + "/*"];
    ListsUnite([own], [public + "/*"], product, device, directory);
    OwnDirectoryOnly(product, device, directory);
    RuleDecides(public, product, device, directory);
    ReplacePlain(public, "", PRODUCT, product);
    ReplacePlain(public, "", DEVICE, device);
    ReplaceShort("", PRODUCT, product);
    ReplaceShort("", DEVICE, device);
    assert public + "" == public;
    SplitWhole(public, '/');
  }

  // ----- The order of the substitutions ------------------------------------------------------------

  function OtherOrder(rule: string, product: string, device: string): string {
    Replace(Replace(rule, DEVICE, device), PRODUCT, product)
  }

  datatype Token = Lit(text: string) | ProductVar | DeviceVar

  function Show(t: Token): string {
    match t case Lit(s) => s case ProductVar => PRODUCT case DeviceVar => DEVICE
  }

  function Render(ts: seq<Token>): string { if ts == [] then "" else Show(ts[0]) + Render(ts[1..]) }

  function Fill(t: Token, product: Option<string>, device: Option<string>): Token {
    match t
    case ProductVar => if product.Some? then Lit(product.value) else t
    case DeviceVar => if device.Some? then Lit(device.value) else t
    case Lit(_) => t
  }

  function FillAll(ts: seq<Token>, product: Option<string>, device: Option<string>): (r: seq<Token>)
    ensures |r| == |ts| && forall i | 0 <= i < |ts| :: r[i] == Fill(ts[i], product, device)
  {
    seq(|ts|, i requires 0 <= i < |ts| => Fill(ts[i], product, device))
  }

  /** Every `$` of the rule begins one of the two placeholders. */
  ghost predicate PlainLiterals(ts: seq<Token>) { forall i | 0 <= i < |ts| && ts[i].Lit? :: '$' !in ts[i].text }

  lemma DollarStarts(s: string, i: nat, pat: string)
    requires i < |s| && s[i] != '$' && pat != "" && pat[0] == '$'
    ensures !StartsWith(s[i..], pat)
  {
    Differs(s[i..], pat, 0);
  }

  lemma ReplacePlain(text: string, rest: string, pat: string, rep: string)
    requires '$' !in text && pat != "" && pat[0] == '$'
    ensures Replace(text + rest, pat, rep) == text + Replace(rest, pat, rep)
  {
    var s := text + rest;
    forall i | 0 <= i < |text| ensures !StartsWith(s[i..], pat) {
      assert s[i] == text[i];
      DollarStarts(s, i, pat);
    }
    ReplaceCopies(s, |text|, pat, rep);
    assert s[..|text|] == text && s[|text|..] == rest;
  }

  /** The other placeholder is copied: it differs from the pattern at its third byte. */
  lemma ReplaceOther(q: string, rest: string, pat: string, rep: string)
    requires (q == PRODUCT && pat == DEVICE) || (q == DEVICE && pat == PRODUCT)
    ensures Replace(q + rest, pat, rep) == q + Replace(rest, pat, rep)
  {
    var s := q + rest;
    forall i | 0 <= i < |q| ensures !StartsWith(s[i..], pat) {
      if i == 0 {
        assert s[0..] == s && s[2] == q[2] != pat[2];
        Differs(s, pat, 2);
      } else {
        assert s[i] == q[i] != '$';
        DollarStarts(s, i, pat);
      }
    }
    ReplaceCopies(s, |q|, pat, rep);
    assert s[..|q|] == q && s[|q|..] == rest;
  }

  lemma {:induction false} ReplaceRender(ts: seq<Token>, id: string, forProduct: bool)
    requires PlainLiterals(ts)
    ensures var pat := if forProduct then PRODUCT else DEVICE;
            var product, device := if forProduct then Some(id) else None, if forProduct then None else Some(id);
            Replace(Render(ts), pat, id) == Render(FillAll(ts, product, device))
  {
    var pat := if forProduct then PRODUCT else DEVICE;
    var product, device := if forProduct then Some(id) else None, if forProduct then None else Some(id);
    if ts != [] {
      ReplaceRender(ts[1..], id, forProduct);
      var rest := Render(ts[1..]);
      assert FillAll(ts, product, device)[1..] == FillAll(ts[1..], product, device);
      match ts[0]
      case Lit(text) => ReplacePlain(text, rest, pat, id);
      case ProductVar => if forProduct { ReplaceHit(pat, rest, id); } else { ReplaceOther(PRODUCT, rest, pat, id); }
      case DeviceVar => if forProduct { ReplaceOther(DEVICE, rest, pat, id); } else { ReplaceHit(pat, rest, id); }
    }
  }

  /** When every `$` of a rule begins a placeholder, both orders of substitution fill
      in both placeholders at once. */
  lemma OrderDoesNotMatter(ts: seq<Token>, product: string, device: string)
    requires PlainLiterals(ts) && '$' !in product && '$' !in device
    ensures Substitute(Render(ts), product, device) == Render(FillAll(ts, Some(product), Some(device)))
    ensures OtherOrder(Render(ts), product, device) == Render(FillAll(ts, Some(product), Some(device)))
  {
    FillTwice(ts, product, device);
    ReplaceRender(ts, product, true);
    ReplaceRender(FillAll(ts, Some(product), None), device, false);
    ReplaceRender(ts, device, false);
    ReplaceRender(FillAll(ts, None, Some(device)), product, true);
  }

  lemma FillTwice(ts: seq<Token>, product: string, device: string)
    requires PlainLiterals(ts) && '$' !in product && '$' !in device
    ensures var ps, ds := FillAll(ts, Some(product), None), FillAll(ts, None, Some(device));
            && PlainLiterals(ps) && PlainLiterals(ds)
            && FillAll(ps, None, Some(device)) == FillAll(ts, Some(product), Some(device))
            && FillAll(ds, Some(product), None) == FillAll(ts, Some(product), Some(device))
  {
  }

  /** Without that the order matters even for valid identifiers: here the product id
      `Id` completes a device placeholder, which only a later substitution sees. */
  lemma OrderCanMatter(device: string)
    requires '$' !in device
    ensures var rule := "${device" + PRODUCT + "}";
            && ValidIdentifier("Id")
            && Substitute(rule, "Id", device) == device
            && OtherOrder(rule, "Id", device) == DEVICE
  {
    var head := "${device";
    var rule := head + PRODUCT + "}";
    assert rule == head + (PRODUCT + "}");
    CopyHead(PRODUCT + "}", PRODUCT, "Id");
    ReplaceHit(PRODUCT, "}", "Id");
    ReplaceShort("}", PRODUCT, "Id");
    var filled := head + ("Id" + "}");
    assert filled == DEVICE;
    ReplaceHit(DEVICE, "", device);
    ReplaceShort("", DEVICE, device);
    assert DEVICE + "" == DEVICE && device + "" == device;
    CopyHead(PRODUCT + "}", DEVICE, device);
    ReplaceOther(PRODUCT, "}", DEVICE, device);
    ReplaceShort("}", DEVICE, device);
    assert Replace(rule, DEVICE, device) == rule;
  }

  lemma CopyHead(rest: string, pat: string, rep: string)
    requires (pat == PRODUCT || pat == DEVICE) && rest != "" && rest[0] == '$'
    ensures Replace("${device" + rest, pat, rep) == "${device" + Replace(rest, pat, rep)
  {
    var head := "${device";
    var s := head + rest;
    forall i | 0 <= i < |head| ensures !StartsWith(s[i..], pat) {
      if i == 0 {
        assert s[0..] == s && s[2] == 'd' && s[8] == '$';
        Differs(s, pat, if pat == PRODUCT then 2 else 8);
      } else {
        assert s[i] == head[i] != '$';
        DollarStarts(s, i, pat);
      }
    }
    ReplaceCopies(s, |head|, pat, rep);
    assert s[..|head|] == head && s[|head|..] == rest;
  }

  // ----- ... and exactly when it does not ----------------------------------------------------------------

  predicate AtPlaceholder(s: string) { StartsWith(s, PRODUCT) || StartsWith(s, DEVICE) }

  /** The text begins no placeholder, but does so once the other one has been filled in. */
  predicate HeadCompletes(s: string, product: string, device: string) {
    && s != "" && s[0] == '$' && !AtPlaceholder(s)
    && (StartsWith(Replace(s, PRODUCT, product), DEVICE) || StartsWith(Replace(s, DEVICE, device), PRODUCT))
  }

  /** At some `$` of the rule an identifier completes the name of a placeholder. */
  predicate Completes(s: string, product: string, device: string) {
    s != "" && (HeadCompletes(s, product, device) || Completes(s[1..], product, device))
  }

  lemma {:induction false} CompletesLater(text: string, rest: string, product: string, device: string)
    requires '$' !in text
    ensures Completes(text + rest, product, device) == Completes(rest, product, device)
  {
    if text == "" {
      assert text + rest == rest;
    } else {
      CompletesLater(text[1..], rest, product, device);
      assert (text + rest)[1..] == text[1..] + rest && (text + rest)[0] == text[0];
    }
  }

  /** A placeholder is skipped: it holds no other `$`. */
  lemma CompletesSkips(q: string, rest: string, product: string, device: string)
    requires q == PRODUCT || q == DEVICE
    ensures Completes(q + rest, product, device) == Completes(rest, product, device)
  {
    assert StartsWith(q + rest, q);
    assert (q + rest)[1..] == q[1..] + rest;
    CompletesLater(q[1..], rest, product, device);
  }

  /** Outside a placeholder both substitutions keep the first byte; at one, the one that
      does not fill it in leaves its `$`. */
  lemma FirstBytes(x: string, product: string, device: string)
    requires var a, b := Replace(x, PRODUCT, product), Replace(x, DEVICE, device);
             a != "" && b != "" && a[0] != '$' && b[0] != '$'
    ensures x != "" && !AtPlaceholder(x)
    ensures Replace(x, PRODUCT, product) == [x[0]] + Replace(x[1..], PRODUCT, product)
    ensures Replace(x, DEVICE, device) == [x[0]] + Replace(x[1..], DEVICE, device)
  {
    LeavesDollar(x, product, device);
    ReplaceStep(x, PRODUCT, product);
    ReplaceStep(x, DEVICE, device);
  }

  lemma LeavesDollar(x: string, product: string, device: string)
    ensures StartsWith(x, PRODUCT) ==> Replace(x, DEVICE, device) != "" && Replace(x, DEVICE, device)[0] == '$'
    ensures StartsWith(x, DEVICE) ==> Replace(x, PRODUCT, product) != "" && Replace(x, PRODUCT, product)[0] == '$'
  {
    if StartsWith(x, PRODUCT) {
      var rest := x[|PRODUCT|..];
      assert x == PRODUCT + rest;
      ReplaceOther(PRODUCT, rest, DEVICE, device);
    }
    if StartsWith(x, DEVICE) {
      var rest := x[|DEVICE|..];
      assert x == DEVICE + rest;
      ReplaceOther(DEVICE, rest, PRODUCT, product);
    }
  }

  /** Both identifiers cannot complete a placeholder at the same `$`. */
  lemma NotBoth(s: string, product: string, device: string)
    requires s != "" && s[0] == '$' && !AtPlaceholder(s)
    ensures !(StartsWith(Replace(s, PRODUCT, product), DEVICE) && StartsWith(Replace(s, DEVICE, device), PRODUCT))
  {
    var a, b := Replace(s, PRODUCT, product), Replace(s, DEVICE, device);
    ReplaceStep(s, PRODUCT, product);
    ReplaceStep(s, DEVICE, device);
    if StartsWith(a, DEVICE) && StartsWith(b, PRODUCT) {
      assert a[1] == '{' && b[1] == '{' && a[2] == 'd' && b[2] == 'p';
      FirstBytes(s[1..], product, device);
      var rest := s[2..];
      assert s[1..][1..] == rest;
      assert a[2] == Replace(rest, PRODUCT, product)[0] && b[2] == Replace(rest, DEVICE, device)[0];
      FirstBytes(rest, product, device);
      assert false;
    }
  }

  lemma BothKeep(rule: string, product: string, device: string)
    requires rule != "" && !AtPlaceholder(rule) && !HeadCompletes(rule, product, device)
    ensures Substitute(rule, product, device) == [rule[0]] + Substitute(rule[1..], product, device)
    ensures OtherOrder(rule, product, device) == [rule[0]] + OtherOrder(rule[1..], product, device)
  {
    ReplaceStep(rule, PRODUCT, product);
    ReplaceStep(rule, DEVICE, device);
    var a, b := Replace(rule, PRODUCT, product), Replace(rule, DEVICE, device);
    if rule[0] != '$' {
      Differs(a, DEVICE, 0);
      Differs(b, PRODUCT, 0);
    }
    ReplaceStep(a, DEVICE, device);
    ReplaceStep(b, PRODUCT, product);
    assert a[1..] == Replace(rule[1..], PRODUCT, product) && b[1..] == Replace(rule[1..], DEVICE, device);
  }

  lemma CompletedDiffers(rule: string, product: string, device: string)
    requires HeadCompletes(rule, product, device)
    requires product != "" && device != "" && '$' !in product && '$' !in device
    ensures Substitute(rule, product, device) != OtherOrder(rule, product, device)
  {
    NotBoth(rule, product, device);
    ReplaceStep(rule, PRODUCT, product);
    ReplaceStep(rule, DEVICE, device);
    var a, b := Replace(rule, PRODUCT, product), Replace(rule, DEVICE, device);
    if StartsWith(a, DEVICE) {
      ReplaceStep(b, PRODUCT, product);
      assert OtherOrder(rule, product, device)[0] == '$';
      assert Substitute(rule, product, device)[0] == device[0];
    } else {
      ReplaceStep(a, DEVICE, device);
      assert Substitute(rule, product, device)[0] == '$';
      assert OtherOrder(rule, product, device)[0] == product[0];
    }
  }

  lemma PlaceholderAgrees(rule: string, rest: string, product: string, device: string)
    requires '$' !in product && '$' !in device
    requires rule == PRODUCT + rest || rule == DEVICE + rest
    ensures var id := if rule == PRODUCT + rest then product else device;
            && Substitute(rule, product, device) == id + Substitute(rest, product, device)
            && OtherOrder(rule, product, device) == id + OtherOrder(rest, product, device)
  {
    var a, b := Replace(rest, PRODUCT, product), Replace(rest, DEVICE, device);
    if rule == PRODUCT + rest {
      ReplaceHit(PRODUCT, rest, product);
      ReplacePlain(product, a, DEVICE, device);
      ReplaceOther(PRODUCT, rest, DEVICE, device);
      ReplaceHit(PRODUCT, b, product);
    } else {
      ReplaceHit(DEVICE, rest, device);
      ReplacePlain(device, b, PRODUCT, product);
      ReplaceOther(DEVICE, rest, PRODUCT, product);
      ReplaceHit(DEVICE, a, device);
    }
  }

  lemma SamePrefix(id: string, a: string, b: string)
    ensures id + a == id + b <==> a == b
  {
    assert (id + a)[|id|..] == a && (id + b)[|id|..] == b;
  }

  /** For every rule and all valid identifiers, the order of the two substitutions does not
      matter exactly when no identifier completes a placeholder. */
  lemma {:induction false} OrderAgreesExactlyWhen(rule: string, product: string, device: string)
    requires ValidIdentifier(product) && ValidIdentifier(device)
    ensures Substitute(rule, product, device) == OtherOrder(rule, product, device)
            <==> !Completes(rule, product, device)
    decreases |rule|
  {
    ValidHasNoSlash(product, '$');
    ValidHasNoSlash(device, '$');
    if rule == "" {
    } else if AtPlaceholder(rule) {
      var q := if StartsWith(rule, PRODUCT) then PRODUCT else DEVICE;
      var rest := rule[|q|..];
      assert rule == q + rest;
      OrderAgreesExactlyWhen(rest, product, device);
      PlaceholderAgrees(rule, rest, product, device);
      CompletesSkips(q, rest, product, device);
      SamePrefix(if rule == PRODUCT + rest then product else device,
                 Substitute(rest, product, device), OtherOrder(rest, product, device));
    } else if HeadCompletes(rule, product, device) {
      CompletedDiffers(rule, product, device);
    } else {
      OrderAgreesExactlyWhen(rule[1..], product, device);
      BothKeep(rule, product, device);
      SamePrefix([rule[0]], Substitute(rule[1..], product, device), OtherOrder(rule[1..], product, device));
    }
  }

  // ----- Devices are kept apart ----------------------------------------------------------------------

  /** The rule of product and device, then slash and star, allows a device exactly the
      directories below its own two segments. */
  lemma OwnDirectoryOnly(product: string, device: string, directory: string)
    requires ValidIdentifier(product) && ValidIdentifier(device)
    ensures DirectoryAllowed([PRODUCT + "/" + DEVICE + "/*"], product, device, directory)
            <==> [product, device] <= Split(directory, '/')
  {
    ValidHasNoSlash(product, '$');
    ValidHasNoSlash(device, '$');
    ValidHasNoSlash(product, '/');
    ValidHasNoSlash(device, '/');
    var ts := [ProductVar, Lit("/"), DeviceVar];
    var base := PRODUCT + "/" + DEVICE;
    RenderThree(ts, PRODUCT, DEVICE);
    OrderDoesNotMatter(ts, product, device);
    RenderThree(FillAll(ts, Some(product), Some(device)), product, device);
    assert Substitute(base, product, device) == product + ['/'] + device;
    RuleDecides(base, product, device, directory);
    SplitConcat(product, '/', device);
    SplitWhole(product, '/');
    SplitWhole(device, '/');
  }

  lemma RenderThree(ts: seq<Token>, a: string, b: string)
    requires |ts| == 3 && Show(ts[0]) == a && ts[1] == Lit("/") && Show(ts[2]) == b
    ensures Render(ts) == a + "/" + b
  {
    assert Render(ts[1..][1..][1..]) == "";
    assert Render(ts[1..][1..]) == b + "";
    assert Render(ts[1..]) == "/" + b;
    assert Render(ts) == a + ("/" + b);
  }

  /** Distinct devices share no directory under that rule. */
  lemma DevicesAreSeparate(p1: string, d1: string, p2: string, d2: string, directory: string)
    requires ValidIdentifier(p1) && ValidIdentifier(d1) && ValidIdentifier(p2) && ValidIdentifier(d2)
    requires DirectoryAllowed([PRODUCT + "/" + DEVICE + "/*"], p1, d1, directory)
    requires DirectoryAllowed([PRODUCT + "/" + DEVICE + "/*"], p2, d2, directory)
    ensures p1 == p2 && d1 == d2
  {
    OwnDirectoryOnly(p1, d1, directory);
    OwnDirectoryOnly(p2, d2, directory);
    assert [p1, d1][0] == [p2, d2][0] && [p1, d1][1] == [p2, d2][1];
  }
}
