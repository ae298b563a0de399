/** Which links pass, told by the links themselves. */
module LinkVerdicts {
  import opened Text
  import opened Wrappers
  import opened Lists
  import opened UrlCheck
  import opened LinkStability
  import opened StableOutput

  lemma PrefixAt(lead: string, s: string, i: nat)
    requires i < |lead| && i < |s|
    ensures lead <= s ==> s[i] == lead[i]
  {
  }

  // ----- links without references ------------------------------------------------------

  lemma PassLeaves(p: Pattern, s: string)
    requires Local(p) && '&' !in s
    ensures ReplaceAll(p, s) == s && !Raises(p, s)
  {
    forall i | 0 <= i < |s| ensures !Hits(p, s[i..]) {
      assert s[i] in s && s[i..][0] == s[i];
    }
    ReplaceNothing(p, s);
  }

  lemma DecodesPlain(v: string)
    requires '&' !in v
    ensures DecodeForSchemeCheck(v) == Some(Normalize(v))
  {
    HexLocal();
    DecLocal();
    NamedLocal();
    PassLeaves(HexRef, v);
    PassLeaves(DecRef, v);
    PassLeaves(NamedRef, v);
    hide *;
    DecodesBy(v, v, v, v);
  }

  /** A character that may stand in a scheme, in either case. */
  predicate InScheme(c: char) { IsAlnum(c) || c == '+' || c == '-' || c == '.' }

  predicate AllInScheme(s: string) { forall i :: 0 <= i < |s| ==> InScheme(s[i]) }

  lemma {:induction false} SchemeNormalizes(s: string)
    requires AllInScheme(s)
    ensures Normalize(s) == LowerAll(s) && forall i :: 0 <= i < |s| ==> IsSchemeChar(LowerAll(s)[i])
  {
    if s != "" {
      SchemeNormalizes(s[1..]);
      assert InScheme(s[0]);
      assert LowerAll(s) == [Lower(s[0])] + LowerAll(s[1..]);
    }
  }

  lemma ColonNormalizes(rest: string)
    ensures Normalize(":" + rest) == ":" + Normalize(rest)
  {
    assert (":" + rest)[1..] == rest;
  }

  lemma SchemeThenColon(low: string, rest: string)
    requires forall i :: 0 <= i < |low| ==> IsSchemeChar(low[i])
    ensures Scheme(low + (":" + rest)) == if low != "" && 'a' <= low[0] <= 'z' then Some(low) else None
  {
    var s := low + (":" + rest);
    SpanUnique(IsSchemeChar, low, ":" + rest);
    assert s[|low|] == ':' && s[..|low|] == low && (low != "" ==> s[0] == low[0]);
  }

  /** A link that begins with a name and a colon passes if and only if the name, in lower case, is one of
      four; what begins otherwise before its first colon names no scheme, and passes. */
  lemma SchemeVerdict(name: string, rest: string)
    requires AllInScheme(name) && '&' !in rest
    ensures IsSafeUrl(name + (":" + rest)) ==
            Some(name == "" || !IsLetter(name[0]) || LowerAll(name) in ["http", "https", "mailto", "tel"])
  {
    var v, low := name + (":" + rest), LowerAll(name);
    assert '&' !in v by {
      assert forall i :: 0 <= i < |name| ==> InScheme(name[i]);
    }
    SchemeNormalizes(name);
    assert name != "" ==> InScheme(name[0]) && low[0] == Lower(name[0]);
    DecodesPlain(v);
    NormalizeAppend(name, ":" + rest);
    ColonNormalizes(rest);
    SchemeThenColon(low, Normalize(rest));
    hide DecodeForSchemeCheck, Normalize, Scheme, LowerAll, InScheme;
  }

  predicate Noise(c: char) { c as int <= 32 || 127 <= c as int <= 159 }

  lemma NoiseNormalizes(c: char)
    ensures Noise(c) ==> Normalize([c]) == ""
    ensures !Noise(c) ==> Normalize([c]) != "" && (c != ':' ==> ':' !in Normalize([c]))
  {
    assert [c][1..] == "";
  }

  lemma SameVerdict(v: string, w: string)
    requires DecodeForSchemeCheck(v) == DecodeForSchemeCheck(w)
    ensures IsSafeUrl(v) == IsSafeUrl(w)
  {
    SafeMeans(v);
    SafeMeans(w);
    hide *;
  }

  lemma Without(a: string, b: string, c: char)
    requires c !in a + b
    ensures c !in a && c !in b
  {
    assert forall x :: x in a || x in b ==> x in a + b;
  }

  /** Control characters and white space make no difference wherever they stand. */
  lemma NoiseIgnored(a: string, c: char, b: string)
    requires Noise(c) && '&' !in a + b
    ensures IsSafeUrl(a + ([c] + b)) == IsSafeUrl(a + b)
  {
    assert c != '&';
    Without(a, b, '&');
    hide *;
    DecodesPlain(a + b);
    DecodesPlain(a + ([c] + b));
    NoiseNormalizes(c);
    NormalizeAppend(a, [c] + b);
    NormalizeAppend([c], b);
    NormalizeAppend(a, b);
    assert "" + Normalize(b) == Normalize(b);
    SameVerdict(a + ([c] + b), a + b);
  }

  lemma {:induction false} NormalizedColon(v: string)
    ensures ':' !in v ==> ':' !in Normalize(v)
    ensures Normalize(v) == "" <==> forall c :: c in v ==> Noise(c)
  {
    if v != "" {
      NormalizedColon(v[1..]);
      NoiseNormalizes(v[0]);
      NormalizeAppend([v[0]], v[1..]);
      assert v == [v[0]] + v[1..];
      hide Normalize;
    }
  }

  /** A link without a colon passes unless there is nothing to it but noise. */
  lemma NoColonVerdict(v: string)
    requires ':' !in v && '&' !in v
    ensures IsSafeUrl(v) == Some(exists c :: c in v && !Noise(c))
  {
    DecodesPlain(v);
    NormalizedColon(v);
    var n := Normalize(v);
    hide Normalize, DecodeForSchemeCheck;
    assert Scheme(n).None? by {
      var k := Span(IsSchemeChar, n);
      assert k < |n| ==> n[k] in n;
    }
  }

  lemma EndNormalizes(c: char, rest: string)
    requires c in "/?#"
    ensures Normalize([c] + rest) == [c] + Normalize(rest) && !IsSchemeChar(c)
  {
    assert ([c] + rest)[1..] == rest;
  }

  lemma SchemeCutBy(low: string, c: char, rest: string)
    requires forall i :: 0 <= i < |low| ==> IsSchemeChar(low[i])
    requires c in "/?#"
    ensures Scheme(low + ([c] + rest)) == None && low + ([c] + rest) != ""
  {
    var s := low + ([c] + rest);
    assert !IsSchemeChar(c);
    SpanUnique(IsSchemeChar, low, [c] + rest);
    assert s[|low|] == c;
  }

  /** A colon after a slash, a question mark or a hash makes no scheme. */
  lemma PathVerdict(head: string, c: char, rest: string)
    requires AllInScheme(head) && c in "/?#" && '&' !in rest
    ensures IsSafeUrl(head + ([c] + rest)) == Some(true)
  {
    var v := head + ([c] + rest);
    assert '&' !in v by {
      assert forall i :: 0 <= i < |head| ==> InScheme(head[i]);
    }
    SchemeNormalizes(head);
    DecodesPlain(v);
    NormalizeAppend(head, [c] + rest);
    EndNormalizes(c, rest);
    SchemeCutBy(LowerAll(head), c, Normalize(rest));
    hide DecodeForSchemeCheck, Normalize, Scheme, LowerAll;
  }

  /** The Kelvin sign is a `k` in lower case, so it can begin a scheme. */
  lemma KelvinVerdict(rest: string)
    requires '&' !in rest
    ensures IsSafeUrl("\U{212A}" + (":" + rest)) == Some(false)
  {
    var v := "\U{212A}" + (":" + rest);
    DecodesPlain(v);
    NormalizeAppend("\U{212A}", ":" + rest);
    ColonNormalizes(rest);
    assert Normalize("\U{212A}") == "k" by {
      assert "\U{212A}"[1..] == "";
    }
    SchemeThenColon("k", Normalize(rest));
    hide DecodeForSchemeCheck, Normalize, Scheme;
  }

  // ----- references ------------------------------------------------------------------------

  function Digit(n: nat): char
    requires n < 10
  {
    (n + '0' as int) as char
  }

  /** A number in decimal notation. */
  function Decimal(n: nat): string {
    (if n < 10 then "" else Decimal(n / 10)) + [Digit(n % 10)]
  }

  function HexDigit(n: nat, upper: bool): char
    requires n < 16
  {
    if n < 10 then Digit(n) else (n - 10 + (if upper then 'A' else 'a') as int) as char
  }

  /** A number in hexadecimal notation, in either case. */
  function Hexadecimal(n: nat, upper: bool): string {
    (if n < 16 then "" else Hexadecimal(n / 16, upper)) + [HexDigit(n % 16, upper)]
  }

  predicate AllDigits(s: string) { forall i :: 0 <= i < |s| ==> IsDigit(s[i]) }

  predicate AllHex(s: string) { forall i :: 0 <= i < |s| ==> IsHex(s[i]) }

  lemma ParseDecSnoc(d: string, c: char)
    requires AllDigits(d) && IsDigit(c)
    ensures AllDigits(d + [c]) && ParseDec(d + [c]) == 10 * ParseDec(d) + (c as int - '0' as int)
  {
    assert (d + [c])[..|d + [c]| - 1] == d;
  }

  lemma ParseHexSnoc(d: string, c: char)
    requires AllHex(d) && IsHex(c)
    ensures AllHex(d + [c]) && ParseHex(d + [c]) == 16 * ParseHex(d) + HexValue(c)
  {
    assert (d + [c])[..|d + [c]| - 1] == d;
  }

  lemma DigitValue(n: nat, upper: bool)
    requires n < 16
    ensures n < 10 ==> IsDigit(Digit(n)) && Digit(n) as int - '0' as int == n
    ensures IsHex(HexDigit(n, upper)) && HexValue(HexDigit(n, upper)) == n
  {
  }

  lemma NothingParses()
    ensures AllDigits("") && AllHex("") && ParseDec("") == 0 && ParseHex("") == 0
  {
  }

  lemma {:induction false} DecimalParses(n: nat)
    ensures Decimal(n) != "" && AllDigits(Decimal(n)) && ParseDec(Decimal(n)) == n
  {
    NothingParses();
    hide AllDigits, ParseDec, Digit;
    if n >= 10 {
      DecimalParses(n / 10);
    }
    DigitValue(n % 10, false);
    ParseDecSnoc(if n < 10 then "" else Decimal(n / 10), Digit(n % 10));
  }

  lemma {:induction false} HexadecimalParses(n: nat, upper: bool)
    ensures Hexadecimal(n, upper) != "" && AllHex(Hexadecimal(n, upper)) && ParseHex(Hexadecimal(n, upper)) == n
  {
    NothingParses();
    hide AllHex, ParseHex, HexDigit, HexValue;
    if n >= 16 {
      HexadecimalParses(n / 16, upper);
    }
    DigitValue(n % 16, upper);
    ParseHexSnoc(if n < 16 then "" else Hexadecimal(n / 16, upper), HexDigit(n % 16, upper));
  }

  lemma DecRefReads(c: char, b: string)
    ensures DecRef("&#" + (Decimal(c as int) + (";" + b))) == Match(|Decimal(c as int)| + 3, [c], false)
  {
    DecimalParses(c as int);
    NumericAt("&#", Decimal(c as int), ";" + b, IsDigit);
    hide ParseDec, Decimal, Span, NumericRef;
  }

  lemma HexRefReads(c: char, upper: bool, b: string)
    ensures HexRef("&#x" + (Hexadecimal(c as int, upper) + (";" + b)))
            == Match(|Hexadecimal(c as int, upper)| + 4, [c], false)
  {
    HexadecimalParses(c as int, upper);
    NumericAt("&#x", Hexadecimal(c as int, upper), ";" + b, IsHex);
    hide ParseHex, Hexadecimal, Span, NumericRef;
  }

  /** A pass over a text with one reference in it. */
  lemma PassReplaces(p: Pattern, a: string, ref: string, text: string, b: string)
    requires Local(p) && '&' !in a && '&' !in b && ref != "" && ref[0] == '&' && p(ref + b) == Match(|ref|, text, false)
    ensures ReplaceAll(p, a + (ref + b)) == a + (text + b) && !Raises(p, a + (ref + b))
  {
    var s := ref + b;
    assert s[0] == '&';
    hide *;
    PassLeaves(p, a);
    PassLeaves(p, b);
    SpecialAmpersand(s);
    ReplaceSplits(p, a, s);
    HitHere(p, s);
    assert s[|ref|..] == b;
  }

  lemma SpecialAmpersand(s: string)
    requires s != "" && s[0] == '&'
    ensures Special(s[0])
  {
  }

  lemma HitHere(p: Pattern, s: string)
    requires s != "" && p(s).Match? && 0 < p(s).len <= |s| && !p(s).raises
    ensures ReplaceAll(p, s) == p(s).text + ReplaceAll(p, s[p(s).len..]) && Raises(p, s) == Raises(p, s[p(s).len..])
  {
  }

  /** A pass that does not read the one reference of a text. */
  lemma PassMisses(p: Pattern, a: string, ref: string, b: string)
    requires Local(p) && '&' !in a && '&' !in b && ref != "" && ref[0] == '&' && '&' !in ref[1..] && !Hits(p, ref + b)
    ensures ReplaceAll(p, a + (ref + b)) == a + (ref + b) && !Raises(p, a + (ref + b))
  {
    hide *;
    var s := ref + b;
    OneAmpersand(ref, b);
    PassLeaves(p, a);
    PassLeaves(p, s[1..]);
    SpecialAmpersand(s);
    ReplaceSplits(p, a, s);
    ReplaceStep(p, s);
  }

  lemma OneAmpersand(ref: string, b: string)
    requires ref != "" && ref[0] == '&' && '&' !in ref[1..] && '&' !in b
    ensures var s := ref + b; s[0] == '&' && '&' !in s[1..] && s == [s[0]] + s[1..]
  {
    assert (ref + b)[1..] == ref[1..] + b;
  }

  lemma DecodesOne(v: string, hex: string, dec: string, named: string)
    requires ReplaceAll(HexRef, v) == hex && !Raises(HexRef, v)
    requires ReplaceAll(DecRef, hex) == dec && !Raises(DecRef, hex)
    requires ReplaceAll(NamedRef, dec) == named && '&' !in named
    ensures IsSafeUrl(v) == IsSafeUrl(named)
  {
    hide *;
    DecodesBy(v, hex, dec, named);
    DecodesPlain(named);
    SameVerdict(v, named);
  }

  lemma Joined(a: string, text: string, b: string)
    requires '&' !in a && '&' !in text && '&' !in b
    ensures '&' !in a + (text + b)
  {
  }

  /** Writing a character as a decimal reference makes no difference. */
  lemma DecimalIgnored(a: string, c: char, b: string)
    requires '&' !in a && c != '&' && '&' !in b
    ensures IsSafeUrl(a + (("&#" + (Decimal(c as int) + ";")) + b)) == IsSafeUrl(a + ([c] + b))
  {
    hide *;
    var digits := Decimal(c as int);
    var ref, plain := "&#" + (digits + ";"), a + ([c] + b);
    DecimalParses(c as int);
    DigitsAreHex(digits);
    RefReads("&#", digits, b);
    DecRefReads(c, b);
    HexLocal();
    DecLocal();
    NamedLocal();
    NotHexHere(digits, b);
    PassMisses(HexRef, a, ref, b);
    PassReplaces(DecRef, a, ref, [c], b);
    Joined(a, [c], b);
    PassLeaves(NamedRef, plain);
    DecodesOne(a + (ref + b), a + (ref + b), plain, plain);
  }

  /** So it does as a hexadecimal one. */
  lemma HexadecimalIgnored(a: string, c: char, upper: bool, b: string)
    requires '&' !in a && c != '&' && '&' !in b
    ensures IsSafeUrl(a + (("&#x" + (Hexadecimal(c as int, upper) + ";")) + b)) == IsSafeUrl(a + ([c] + b))
  {
    hide *;
    var digits := Hexadecimal(c as int, upper);
    var ref, plain := "&#x" + (digits + ";"), a + ([c] + b);
    HexadecimalParses(c as int, upper);
    RefReads("&#x", digits, b);
    HexRefReads(c, upper, b);
    HexLocal();
    DecLocal();
    NamedLocal();
    PassReplaces(HexRef, a, ref, [c], b);
    Joined(a, [c], b);
    PassLeaves(DecRef, plain);
    PassLeaves(NamedRef, plain);
    DecodesOne(a + (ref + b), plain, plain, plain);
  }

  lemma RefReads(lead: string, digits: string, b: string)
    requires lead in ["&#", "&#x"] && digits != "" && AllHex(digits)
    ensures var ref := lead + (digits + ";");
            && ref != "" && ref[0] == '&' && '&' !in ref[1..] && |ref| == |lead| + |digits| + 1
            && ref + b == lead + (digits + (";" + b))
  {
    var ref := lead + (digits + ";");
    forall i | 1 <= i < |ref| ensures ref[i] != '&' {
      if i >= |lead| + |digits| {
      } else if i >= |lead| {
        assert ref[i] == digits[i - |lead|];
      }
    }
  }

  lemma DigitsAreHex(s: string)
    requires AllDigits(s)
    ensures AllHex(s)
  {
  }

  lemma NotHexHere(digits: string, b: string)
    requires digits != "" && AllDigits(digits)
    ensures !Hits(HexRef, ("&#" + (digits + ";")) + b)
  {
    var s := ("&#" + (digits + ";")) + b;
    assert s[2] == digits[0] && IsDigit(digits[0]);
    assert s[..3][2] == s[2] && "&#x"[2] == 'x';
    assert !("&#x" <= s);
    hide ParseHex;
  }

  /** The named references that are read, in any case: a colon, and two that are dropped. */
  predicate IsNamed(ref: string, name: string) { LowerAll(ref) == "&" + (name + ";") }

  lemma NamedHead(ref: string, name: string, b: string)
    requires name in ["colon", "tab", "newline"] && IsNamed(ref, name)
    ensures |ref| == |name| + 2 && ref[0] == '&' && '&' !in ref[1..] && ref[1] != '#'
    ensures forall i :: 1 <= i <= |name| ==> Lower(ref[i]) == name[i - 1]
    ensures Lower(ref[|name| + 1]) == ';'
  {
    var lit := "&" + (name + ";");
    assert forall i :: 0 <= i < |ref| ==> Lower(ref[i]) == lit[i];
    assert forall i :: 1 <= i <= |name| ==> lit[i] == name[i - 1];
    assert forall i :: 0 <= i < |name| ==> 'a' <= name[i] <= 'z';
    assert lit[|name| + 1] == ';' && Lower('&') == '&' && Lower('#') == '#';
  }

  lemma NoNumber(s: string)
    requires |s| > 1 && s[1] != '#'
    ensures !("&#" <= s) && !("&#x" <= s)
  {
    PrefixAt("&#", s, 1);
    PrefixAt("&#x", s, 1);
  }

  lemma NumbersMiss(s: string)
    requires |s| > 1 && s[1] != '#'
    ensures !Hits(HexRef, s) && !Hits(DecRef, s)
  {
    NoNumber(s);
    hide NumericRef;
  }

  lemma NamedReads(ref: string, name: string, b: string)
    requires name in ["colon", "tab", "newline"] && IsNamed(ref, name)
    ensures ref != "" && ref[0] == '&' && '&' !in ref[1..]
    ensures !Hits(HexRef, ref + b) && !Hits(DecRef, ref + b)
    ensures NamedRef(ref + b) == Match(|ref|, if name == "colon" then ":" else "", false)
  {
    var s := ref + b;
    NamedHead(ref, name, b);
    assert s[1] == ref[1];
    NumbersMiss(s);
    assert s[..|ref|] == ref && Lower(s[1]) == name[0];
    if name != "tab" {
      NotFold(s, "&tab;");
    }
    if name != "newline" {
      NotFold(s, "&newline;");
    }
    hide Hits, HexRef, DecRef, Lower, LowerAll;
  }

  lemma NamedIgnored(a: string, ref: string, name: string, b: string)
    requires '&' !in a && '&' !in b && name in ["colon", "tab", "newline"] && IsNamed(ref, name)
    ensures IsSafeUrl(a + (ref + b)) == IsSafeUrl(a + ((if name == "colon" then ":" else "") + b))
  {
    hide *;
    var text := if name == "colon" then ":" else "";
    NamedReads(ref, name, b);
    HexLocal();
    DecLocal();
    NamedLocal();
    PassMisses(HexRef, a, ref, b);
    PassMisses(DecRef, a, ref, b);
    PassReplaces(NamedRef, a, ref, text, b);
    Joined(a, text, b);
    DecodesOne(a + (ref + b), a + (ref + b), a + (ref + b), a + (text + b));
  }

  // ----- escaping ------------------------------------------------------------------------------

  predicate All(p: char -> bool, s: string) { forall i :: 0 <= i < |s| ==> p(s[i]) }

  /** What may stand between an ampersand and a semicolon so that both stay: a name, a decimal or a
      hexadecimal number, of limited length. */
  predicate NamesCharacter(name: string) {
    || (2 <= |name| <= 32 && IsLetter(name[0]) && All(IsAlnum, name))
    || (2 <= |name| <= 8 && name[0] == '#' && All(IsDigit, name[1..]))
    || (3 <= |name| <= 8 && name[0] == '#' && (name[1] == 'x' || name[1] == 'X') && All(IsHex, name[2..]))
  }

  lemma RunIff(p: char -> bool, lead: string, body: string, b: string, lo: nat, hi: nat)
    requires !p(';') && ';' !in body
    ensures RunThenSemicolon(p, lead + (body + (";" + b)), |lead|, lo, hi) <==> lo <= |body| <= hi && All(p, body)
  {
    var t := body + (";" + b);
    var s := lead + t;
    assert s[|lead|..] == t;
    var n := Span(p, t);
    assert forall i :: 0 <= i < |body| ==> t[i] == body[i] && body[i] in body;
    assert t[|body|] == ';';
    assert n < |t| ==> s[|lead| + n] == t[n];
    if All(p, body) {
      SpanUnique(p, body, ";" + b);
    }
    hide Span;
  }

  /** A prefix of one character more than the text in front of `t`. */
  lemma PrefixIff(lead: string, c: char, t: string)
    ensures lead + [c] <= lead + t <==> t != "" && t[0] == c
  {
    var s := lead + t;
    if t != "" {
      assert s[..|lead| + 1] == lead + [t[0]];
      assert (lead + [c])[|lead|] == c && (lead + [t[0]])[|lead|] == t[0];
    }
  }

  lemma NameIff(name: string, b: string)
    requires ';' !in name
    ensures var s := "&" + (name + (";" + b));
            ("&" <= s && |s| > 1 && IsLetter(s[1]) && RunThenSemicolon(IsAlnum, s, 1, 2, 32))
            <==> 2 <= |name| <= 32 && IsLetter(name[0]) && All(IsAlnum, name)
  {
    RunIff(IsAlnum, "&", name, b, 2, 32);
    hide *;
    var s := "&" + (name + (";" + b));
    assert s[..1] == "&";
    assert name != "" ==> s[1] == name[0];
  }

  lemma DecimalIff(name: string, b: string)
    requires ';' !in name
    ensures var s := "&" + (name + (";" + b));
            ("&#" <= s && RunThenSemicolon(IsDigit, s, 2, 1, 7))
            <==> 2 <= |name| <= 8 && name[0] == '#' && All(IsDigit, name[1..])
  {
    var s, t := "&" + (name + (";" + b)), name + (";" + b);
    assert "&" + ['#'] == "&#";
    PrefixIff("&", '#', t);
    assert t[0] == if name == "" then ';' else name[0];
    if "&#" <= s {
      NoSemicolonAfter(name, 1);
      assert s == "&#" + (name[1..] + (";" + b));
      RunIff(IsDigit, "&#", name[1..], b, 1, 7);
    }
    hide *;
  }

  lemma NoSemicolonAfter(name: string, k: nat)
    requires ';' !in name && k <= |name|
    ensures ';' !in name[k..]
  {
  }

  lemma HexIff(name: string, b: string)
    requires ';' !in name
    ensures var s := "&" + (name + (";" + b));
            (("&#x" <= s || "&#X" <= s) && RunThenSemicolon(IsHex, s, 3, 1, 6))
            <==> 3 <= |name| <= 8 && name[0] == '#' && (name[1] == 'x' || name[1] == 'X') && All(IsHex, name[2..])
  {
    var s, t := "&" + (name + (";" + b)), name + (";" + b);
    assert t[0] == if name == "" then ';' else name[0];
    assert s[1] == t[0];
    if name != "" && name[0] == '#' {
      assert s == "&#" + t[1..];
      assert t[1] == if |name| == 1 then ';' else name[1];
      assert "&#" + ['x'] == "&#x" && "&#" + ['X'] == "&#X";
      PrefixIff("&#", 'x', t[1..]);
      PrefixIff("&#", 'X', t[1..]);
      if |name| > 1 {
        NoSemicolonAfter(name, 2);
        assert s == ("&" + name[..2]) + (name[2..] + (";" + b));
        RunIff(IsHex, "&" + name[..2], name[2..], b, 1, 6);
      }
    } else {
      PrefixAt("&#x", s, 1);
      PrefixAt("&#X", s, 1);
    }
    hide *;
  }

  lemma EntityIff(name: string, b: string)
    requires ';' !in name
    ensures EntityHead("&" + (name + (";" + b))) <==> NamesCharacter(name)
  {
    NameIff(name, b);
    DecimalIff(name, b);
    HexIff(name, b);
    hide RunThenSemicolon, All, IsAlnum, IsDigit, IsHex, IsLetter;
  }

  lemma PlainEscapes(a: string, rest: string)
    requires forall i :: 0 <= i < |a| ==> !Special(a[i])
    ensures EscapeAttrValue(a + rest) == a + EscapeAttrValue(rest)
  {
    EscapeIsOnePass(a + rest);
    EscapeIsOnePass(rest);
    CopiesPlain(a, rest);
  }

  lemma OneEscapes(c: char, rest: string)
    ensures EscapeAttrValue([c] + rest) == EscapeHead([c] + rest) + EscapeAttrValue(rest)
  {
    EscapeIsOnePass([c] + rest);
    EscapeIsOnePass(rest);
    EscapeStep([c] + rest);
    assert ([c] + rest)[1..] == rest;
    hide *;
  }

  /** An ampersand stays if a character's name and a semicolon follow it, and is escaped otherwise. */
  lemma AmpersandEffect(a: string, name: string, b: string)
    requires (forall c :: c in a + name ==> !Special(c)) && ';' !in name
    ensures EscapeAttrValue(a + ("&" + (name + (";" + b))))
         == a + ((if NamesCharacter(name) then "&" else "&amp;") + (name + (";" + EscapeAttrValue(b))))
  {
    assert forall i :: 0 <= i < |a| ==> a[i] in a + name;
    assert forall i :: 0 <= i < |name| ==> name[i] == (a + name)[|a| + i] && name[i] in a + name;
    assert Special('&') && !Special(';');
    EntityIff(name, b);
    AmpersandHead(name + (";" + b));
    OneEscapes('&', name + (";" + b));
    PlainEscapes(a, "&" + (name + (";" + b)));
    PlainEscapes(name, ";" + b);
    PlainEscapes(";", b);
    hide EscapeAttrValue, EscapeHead, NamesCharacter, EntityHead;
  }

  lemma AmpersandHead(rest: string)
    ensures EscapeHead("&" + rest) == if EntityHead("&" + rest) then "&" else "&amp;"
  {
    hide EntityHead;
  }

  lemma NoEntity(rest: string)
    requires ';' !in rest
    ensures !EntityHead("&" + rest)
  {
    var s := "&" + rest;
    forall i | 0 <= i < |s| ensures s[i] != ';' {
      assert i > 0 ==> s[i] in rest;
    }
  }

  /** Without a semicolon after it it is always escaped; quotes and angle brackets always are. */
  lemma OthersEscape(a: string, c: char, b: string)
    requires (forall x :: x in a ==> !Special(x)) && (c == '&' ==> ';' !in b)
    ensures EscapeAttrValue(a + ([c] + b)) ==
            a + ((if c == '&' then "&amp;"
                  else if c == '"' then "&quot;"
                  else if c == '<' then "&lt;"
                  else if c == '>' then "&gt;"
                  else [c]) + EscapeAttrValue(b))
  {
    assert forall i :: 0 <= i < |a| ==> a[i] in a;
    PlainEscapes(a, [c] + b);
    OneEscapes(c, b);
    if c == '&' {
      NoEntity(b);
      AmpersandHead(b);
    }
    hide EscapeAttrValue, EntityHead;
  }
}
