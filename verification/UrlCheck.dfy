/** The link rules of the notice sanitiser: how a link is decoded before its scheme is
    read, which schemes pass, and how an attribute value is escaped. */
module UrlCheck {
  import opened Text
  import opened Wrappers

  // ----- decodeForSchemeCheck ------------------------------------------------

  const MAX_CODE_POINT := 0x10FFFF

  function HexValue(c: char): nat
    requires IsHex(c)
  {
    if IsDigit(c) then c as int - '0' as int
    else if c <= 'F' then c as int - 'A' as int + 10
    else c as int - 'a' as int + 10
  }

  function ParseHex(s: string): nat
    requires forall i :: 0 <= i < |s| ==> IsHex(s[i])
  {
    if s == "" then 0 else 16 * ParseHex(s[..|s| - 1]) + HexValue(s[|s| - 1])
  }

  function ParseDec(s: string): nat
    requires forall i :: 0 <= i < |s| ==> IsDigit(s[i])
  {
    if s == "" then 0
    else
      assert IsDigit(s[|s| - 1]);
      10 * ParseDec(s[..|s| - 1]) + (s[|s| - 1] as int - '0' as int)
  }

  /** `String.fromCodePoint`.  Half of a surrogate pair is no code point of its own here;
      U+FFFD stands for it, and the scheme test cannot tell the two apart. */
  function FromCodePoint(n: nat): string {
    if n > MAX_CODE_POINT then "" else if 0xD800 <= n <= 0xDFFF then "\U{FFFD}" else [n as char]
  }

  /** A numeric reference `lead digits ;?` at the head of `s`. */
  function NumericRef(s: string, lead: string, isDigit: char -> bool): (n: nat)
    ensures n > 0 ==> |lead| < n <= |s| && lead <= s && isDigit(s[|lead|])
  {
    if !(lead <= s) then 0
    else
      var digits := Span(isDigit, s[|lead|..]);
      if digits == 0 then 0
      else
        assert isDigit(s[|lead|..][0]);
        var end := |lead| + digits;
        if end < |s| && s[end] == ';' then end + 1 else end
  }

  function HexRef(s: string): Match {
    var n := NumericRef(s, "&#x", IsHex);
    if n == 0 then NoMatch
    else
      var code := ParseHex(s[3..][..Span(IsHex, s[3..])]);
      Match(n, FromCodePoint(code), code > MAX_CODE_POINT)
  }

  function DecRef(s: string): Match {
    var n := NumericRef(s, "&#", IsDigit);
    if n == 0 then NoMatch
    else
      var code := ParseDec(s[2..][..Span(IsDigit, s[2..])]);
      Match(n, FromCodePoint(code), code > MAX_CODE_POINT)
  }

  function NamedRef(s: string): Match {
    if StartsWithFold(s, "&tab;") then Match(5, "", false)
    else if StartsWithFold(s, "&newline;") then Match(9, "", false)
    else if StartsWithFold(s, "&colon;") then Match(7, ":", false)
    else NoMatch
  }

  predicate IsUrlNoise(c: char) { c as int <= 0x20 || 0x7F <= c as int <= 0x9F }

  /** Drop URL noise and lower-case, one character at a time.  Besides A-Z only U+212A and
      U+0130 have a lower case that begins with an ASCII letter; the case of other
      characters is left alone, since no test below looks at it. */
  function Normalize(s: string): string {
    if s == "" then ""
    else (if IsUrlNoise(s[0]) then "" else LowerFull(s[0])) + Normalize(s[1..])
  }

  function LowerFull(c: char): string {
    if c == '\U{212A}' then "k" else if c == '\U{0130}' then "i\U{0307}" else [Lower(c)]
  }

  /** None when `String.fromCodePoint` throws. */
  function DecodeForSchemeCheck(value: string): Option<string> {
    if Raises(HexRef, value) then None
    else
      var s := ReplaceAll(HexRef, value);
      if Raises(DecRef, s) then None
      else Some(Normalize(ReplaceAll(NamedRef, ReplaceAll(DecRef, s))))
  }

  // ----- isSafeUrl -----------------------------------------------------------

  predicate IsSchemeChar(c: char) {
    'a' <= c <= 'z' || IsDigit(c) || c == '+' || c == '.' || c == '-'
  }

  /** The scheme of a decoded link: a letter, then scheme characters, then a colon. */
  function Scheme(s: string): Option<string> {
    var n := Span(IsSchemeChar, s);
    if n < |s| && s[n] == ':' && n > 0 && 'a' <= s[0] <= 'z' then Some(s[..n]) else None
  }

  predicate AllowedScheme(scheme: Option<string>) {
    scheme.Some? ==> scheme.value in ["http", "https", "mailto", "tel"]
  }

  function IsSafeUrl(value: string): Option<bool> {
    var normalized := DecodeForSchemeCheck(value);
    if normalized.None? then None
    else Some(normalized.value != "" && AllowedScheme(Scheme(normalized.value)))
  }

  // ----- escapeAttrValue -----------------------------------------------------

  /** A run of `lo` to `hi` characters of one class from index `lead`, then a semicolon. */
  predicate RunThenSemicolon(p: char -> bool, s: string, lead: nat, lo: nat, hi: nat)
    requires lead <= |s|
  {
    var n := Span(p, s[lead..]);
    lo <= n <= hi && lead + n < |s| && s[lead + n] == ';'
  }

  /** `s` begins with a complete entity: named, decimal or hexadecimal, with its semicolon. */
  predicate EntityHead(s: string) {
    || ("&" <= s && |s| > 1 && IsLetter(s[1]) && RunThenSemicolon(IsAlnum, s, 1, 2, 32))
    || ("&#" <= s && RunThenSemicolon(IsDigit, s, 2, 1, 7))
    || (("&#x" <= s || "&#X" <= s) && RunThenSemicolon(IsHex, s, 3, 1, 6))
  }

  function BareAmpersand(s: string): Match {
    if s != "" && s[0] == '&' && !EntityHead(s) then Match(1, "&amp;", false) else NoMatch
  }

  function EscapeAttrValue(value: string): string {
    ReplaceAll(Literal(">", "&gt;"),
               ReplaceAll(Literal("<", "&lt;"),
                          ReplaceAll(Literal("\"", "&quot;"),
                                     ReplaceAll(BareAmpersand, value))))
  }

  // ----- escaping in one pass ------------------------------------------------

  /** What escaping makes of the first character of `s`. */
  function EscapeHead(s: string): string
    requires s != ""
  {
    if BareAmpersand(s).Match? then "&amp;"
    else if s[0] == '"' then "&quot;"
    else if s[0] == '<' then "&lt;"
    else if s[0] == '>' then "&gt;"
    else [s[0]]
  }

  function EscapeOnce(s: string): string {
    if s == "" then "" else EscapeHead(s) + EscapeOnce(s[1..])
  }

  lemma {:induction false} ReplaceCharDistributes(c: char, rep: string, a: string, b: string)
    ensures ReplaceAll(Literal([c], rep), a + b)
         == ReplaceAll(Literal([c], rep), a) + ReplaceAll(Literal([c], rep), b)
  {
    if a == "" {
      assert a + b == b;
    } else {
      assert (a + b)[1..] == a[1..] + b;
      ReplaceCharDistributes(c, rep, a[1..], b);
    }
  }

  /** The four successive replacements equal one pass over the value. */
  lemma {:induction false} EscapeIsOnePass(s: string)
    ensures EscapeAttrValue(s) == EscapeOnce(s)
  {
    if s != "" {
      EscapeIsOnePass(s[1..]);
      var head := if BareAmpersand(s).Match? then "&amp;" else [s[0]];
      var tail := ReplaceAll(BareAmpersand, s[1..]);
      assert ReplaceAll(BareAmpersand, s) == head + tail;
      EscapeHeadAfterAmpersand(s, head);
      ReplaceCharDistributes('"', "&quot;", head, tail);
      var head1, tail1 := ReplaceAll(Literal("\"", "&quot;"), head), ReplaceAll(Literal("\"", "&quot;"), tail);
      ReplaceCharDistributes('<', "&lt;", head1, tail1);
      var head2, tail2 := ReplaceAll(Literal("<", "&lt;"), head1), ReplaceAll(Literal("<", "&lt;"), tail1);
      ReplaceCharDistributes('>', "&gt;", head2, tail2);
    }
  }

  lemma KeepsOthers(c: char, rep: string, s: string)
    requires c !in s
    ensures ReplaceAll(Literal([c], rep), s) == s
  {
    forall i | 0 <= i < |s| ensures !Hits(Literal([c], rep), s[i..]) {
      assert s[i] in s && s[i..][0] == s[i];
    }
    ReplaceNothing(Literal([c], rep), s);
  }

  lemma ReplacesOne(c: char, rep: string)
    ensures ReplaceAll(Literal([c], rep), [c]) == rep
  {
    assert [c][1..] == "";
  }

  lemma EscapeHeadAfterAmpersand(s: string, head: string)
    requires s != ""
    requires head == if BareAmpersand(s).Match? then "&amp;" else [s[0]]
    ensures ReplaceAll(Literal(">", "&gt;"),
            ReplaceAll(Literal("<", "&lt;"), ReplaceAll(Literal("\"", "&quot;"), head)))
         == EscapeHead(s)
  {
    hide BareAmpersand, ReplaceAll;
    if head == "\"" {
      ReplacesOne('"', "&quot;");
      KeepsOthers('<', "&lt;", "&quot;");
      KeepsOthers('>', "&gt;", "&quot;");
    } else {
      KeepsOthers('"', "&quot;", head);
      if head == "<" {
        ReplacesOne('<', "&lt;");
        KeepsOthers('>', "&gt;", "&lt;");
      } else {
        KeepsOthers('<', "&lt;", head);
        if head == ">" {
          ReplacesOne('>', "&gt;");
        } else {
          KeepsOthers('>', "&gt;", head);
        }
      }
    }
  }

  // ----- escaping is idempotent ----------------------------------------------

  /** The characters that escaping ever replaces. */
  predicate Special(c: char) { c == '&' || c == '"' || c == '<' || c == '>' }

  /** A value the escaper leaves alone: no quote, no angle bracket, no bare ampersand. */
  predicate Escaped(s: string) {
    forall i :: 0 <= i < |s| ==> (Special(s[i]) ==> s[i] == '&' && EntityHead(s[i..]))
  }

  lemma {:induction false} EscapedFixed(s: string)
    requires Escaped(s)
    ensures EscapeOnce(s) == s
  {
    if s != "" {
      hide *;
      EscapedRest(s);
      EscapedFixed(s[1..]);
      EscapeStep(s);
    }
  }

  lemma EscapedRest(s: string)
    requires Escaped(s) && s != ""
    ensures Escaped(s[1..]) && EscapeHead(s) == [s[0]]
  {
    hide EntityHead;
    assert s[0..] == s;
    forall i | 0 <= i < |s[1..]| ensures s[1..][i..] == s[i + 1..] { }
  }

  lemma EscapeStep(s: string)
    ensures s != "" ==> EscapeOnce(s) == EscapeHead(s) + EscapeOnce(s[1..])
  {
    hide EscapeHead;
  }

  lemma PlainEscape(s: string)
    requires s != "" && !Special(s[0])
    ensures EscapeHead(s) == [s[0]]
  {
    hide EntityHead;
  }

  /** Escaping copies every run of characters that are not special. */
  lemma {:induction false} CopiesPlain(a: string, b: string)
    requires forall i :: 0 <= i < |a| ==> !Special(a[i])
    ensures EscapeOnce(a + b) == a + EscapeOnce(b)
  {
    hide *;
    if a == "" {
      assert a + b == b;
    } else {
      assert (a + b)[1..] == a[1..] + b && (a + b)[0] == a[0];
      CopiesPlain(a[1..], b);
      PlainEscape(a + b);
      EscapeStep(a + b);
      assert [a[0]] + a[1..] == a;
    }
  }

  /** A run ended by a semicolon is read the same in every string that begins like `s`. */
  lemma RunTransfers(p: char -> bool, s: string, t: string, lead: nat, lo: nat, hi: nat)
    requires 1 <= lead <= |s| && RunThenSemicolon(p, s, lead, lo, hi) && !p(';')
    requires var k := lead + Span(p, s[lead..]) + 1; k <= |t| && t[..k] == s[..k]
    ensures RunThenSemicolon(p, t, lead, lo, hi)
  {
    var n := Span(p, s[lead..]);
    var run, tail := s[lead..][..n], t[lead + n..];
    assert t[lead..] == run + tail by {
      assert t[..lead + n + 1][lead..lead + n] == s[..lead + n + 1][lead..lead + n];
    }
    assert tail[0] == t[..lead + n + 1][lead + n] == s[..lead + n + 1][lead + n];
    SpanUnique(p, run, tail);
  }

  lemma HexHead(s: string)
    requires EntityHead(s) && !IsLetter(s[1]) && (s[2] == 'x' || s[2] == 'X')
    ensures |s| >= 3 && s[1] == '#' && RunThenSemicolon(IsHex, s, 3, 1, 6)
  {
    assert !IsDigit(s[2]);
    assert s[2..] != "" && s[2..][0] == s[2];
  }

  lemma DigitHead(s: string)
    requires EntityHead(s) && !IsLetter(s[1]) && s[2] != 'x' && s[2] != 'X'
    ensures s[1] == '#' && RunThenSemicolon(IsDigit, s, 2, 1, 7)
  {
    assert |s| > 2;
    hide RunThenSemicolon;
    assert "&#x"[2] == 'x' && "&#X"[2] == 'X';
    NotAhead(s, "&#x", 2);
    NotAhead(s, "&#X", 2);
  }

  lemma NotAhead(s: string, lead: string, i: nat)
    requires i < |s| && i < |lead| && s[i] != lead[i]
    ensures !(lead <= s)
  {
  }

  /** The end of the entity at the head of `s`. */
  function EntityEnd(s: string): (k: nat)
    requires EntityHead(s)
    ensures 2 < k <= |s|
    ensures forall i :: 1 <= i < k ==> !Special(s[i])
  {
    hide *;
    EntitySize(s);
    if IsLetter(s[1]) then 2 + Span(IsAlnum, s[1..])
    else if s[2] == 'x' || s[2] == 'X' then 4 + Span(IsHex, s[3..])
    else 3 + Span(IsDigit, s[2..])
  }

  lemma EntitySize(s: string)
    requires EntityHead(s)
    ensures |s| > 2
    ensures IsLetter(s[1]) ==> PlainUpTo(s, 2 + Span(IsAlnum, s[1..]))
    ensures !IsLetter(s[1]) && (s[2] == 'x' || s[2] == 'X') ==> |s| > 3 && PlainUpTo(s, 4 + Span(IsHex, s[3..]))
    ensures !IsLetter(s[1]) && s[2] != 'x' && s[2] != 'X' ==> PlainUpTo(s, 3 + Span(IsDigit, s[2..]))
  {
    if IsLetter(s[1]) {
      LetterHead(s);
      RunIsPlain(IsAlnum, s, 1, 2, 32);
    } else if s[2] == 'x' || s[2] == 'X' {
      HexHead(s);
      RunIsPlain(IsHex, s, 3, 1, 6);
    } else {
      DigitHead(s);
      RunIsPlain(IsDigit, s, 2, 1, 7);
    }
    hide EntityHead;
  }

  lemma LetterHead(s: string)
    requires EntityHead(s) && IsLetter(s[1])
    ensures RunThenSemicolon(IsAlnum, s, 1, 2, 32)
  {
    hide RunThenSemicolon;
  }

  predicate PlainUpTo(s: string, k: nat) {
    2 < k <= |s| && forall i :: 1 <= i < k ==> !Special(s[i])
  }

  lemma RunIsPlain(p: char -> bool, s: string, lead: nat, lo: nat, hi: nat)
    requires 1 <= lead <= |s| && RunThenSemicolon(p, s, lead, lo, hi) && lo > 0 && lead + lo > 1
    requires (forall c :: p(c) ==> !Special(c)) && forall i :: 1 <= i < lead ==> !Special(s[i])
    ensures PlainUpTo(s, lead + Span(p, s[lead..]) + 1)
  {
    SpanIsPlain(p, s, lead);
    assert !Special(';');
    hide Special, Span;
  }

  lemma SpanIsPlain(p: char -> bool, s: string, lead: nat)
    requires 1 <= lead <= |s|
    requires forall c :: p(c) ==> !Special(c)
    requires forall i :: 1 <= i < lead ==> !Special(s[i])
    ensures forall i :: 1 <= i < lead + Span(p, s[lead..]) ==> !Special(s[i])
  {
    forall i | lead <= i < lead + Span(p, s[lead..]) ensures !Special(s[i]) {
      assert p(s[lead..][i - lead]);
    }
  }

  lemma EntityTransfers(s: string, t: string)
    requires EntityHead(s) && EntityEnd(s) <= |t| && t[..EntityEnd(s)] == s[..EntityEnd(s)]
    ensures EntityHead(t)
  {
    hide *;
    HeadKind(s);
    var k := EntityEnd(s);
    assert forall i :: 0 <= i < k ==> t[i] == t[..k][i] == s[..k][i] == s[i];
    if IsLetter(s[1]) {
      RunTransfers(IsAlnum, s, t, 1, 2, 32);
    } else if s[2] == 'x' || s[2] == 'X' {
      RunTransfers(IsHex, s, t, 3, 1, 6);
    } else {
      RunTransfers(IsDigit, s, t, 2, 1, 7);
    }
    HeadFrom(t);
  }

  /** Which entity heads `s`, and where it ends. */
  lemma HeadKind(s: string)
    requires EntityHead(s)
    ensures s[0] == '&' && !IsAlnum(';') && !IsHex(';') && !IsDigit(';') && !IsLetter('#')
    ensures IsLetter(s[1]) || s[1] == '#'
    ensures IsLetter(s[1]) ==> RunThenSemicolon(IsAlnum, s, 1, 2, 32) && EntityEnd(s) == 1 + Span(IsAlnum, s[1..]) + 1
    ensures !IsLetter(s[1]) && (s[2] == 'x' || s[2] == 'X') ==>
              |s| >= 3 && RunThenSemicolon(IsHex, s, 3, 1, 6) && EntityEnd(s) == 3 + Span(IsHex, s[3..]) + 1
    ensures !IsLetter(s[1]) && s[2] != 'x' && s[2] != 'X' ==>
              RunThenSemicolon(IsDigit, s, 2, 1, 7) && EntityEnd(s) == 2 + Span(IsDigit, s[2..]) + 1
  {
    hide Span, Special;
    if !IsLetter(s[1]) && s[2] != 'x' && s[2] != 'X' {
      DigitHead(s);
    } else if !IsLetter(s[1]) {
      HexHead(s);
    }
  }

  lemma HeadFrom(t: string)
    requires |t| > 2 && t[0] == '&'
    requires (IsLetter(t[1]) && RunThenSemicolon(IsAlnum, t, 1, 2, 32))
             || (t[1] == '#' && (t[2] == 'x' || t[2] == 'X') && RunThenSemicolon(IsHex, t, 3, 1, 6))
             || (t[1] == '#' && RunThenSemicolon(IsDigit, t, 2, 1, 7))
    ensures EntityHead(t)
  {
    hide RunThenSemicolon, IsLetter;
  }

  lemma EntityKept(s: string)
    requires EntityHead(s)
    ensures EntityHead([s[0]] + EscapeOnce(s[1..]))
  {
    var k := EntityEnd(s);
    var body, rest := s[1..k], s[k..];
    assert s[1..] == body + rest;
    CopiesPlain(body, rest);
    var tail := EscapeOnce(rest);
    var t := [s[0]] + (body + tail);
    assert t[..k] == s[..k];
    EntityTransfers(s, t);
  }

  /** The entities that escaping writes are complete. */
  lemma WrittenEntity(name: string, rest: string)
    requires name in ["amp", "quot", "lt", "gt"]
    ensures var head := "&" + name + ";";
            EntityHead(head + rest) && forall i :: 1 <= i < |head| ==> !Special(head[i])
  {
    var s := "&" + name + ";" + rest;
    assert s[1..] == name + (";" + rest);
    SpanUnique(IsAlnum, name, ";" + rest);
    assert s[1 + |name|] == ';';
  }

  /** Every ampersand left by escaping heads a complete entity, and nothing else special is left. */
  lemma {:induction false} EscapeYieldsEscaped(s: string)
    ensures Escaped(EscapeOnce(s))
  {
    if s != "" {
      var head, tail := EscapeHead(s), EscapeOnce(s[1..]);
      EscapeYieldsEscaped(s[1..]);
      EscapeHeadFits(s);
      EscapeStep(s);
      hide EscapeHead, EscapeOnce, EntityHead, Special;
      forall i | 0 <= i < |head + tail| && Special((head + tail)[i])
        ensures (head + tail)[i] == '&' && EntityHead((head + tail)[i..])
      {
        if i >= |head| {
          assert (head + tail)[i..] == tail[i - |head|..];
        } else {
          assert (head + tail)[0..] == head + tail;
        }
      }
    }
  }

  predicate HeadFits(head: string, tail: string) {
    && head != ""
    && (Special(head[0]) ==> head[0] == '&' && EntityHead(head + tail))
    && forall i :: 1 <= i < |head| ==> !Special(head[i])
  }

  lemma EscapeHeadFits(s: string)
    requires s != ""
    ensures HeadFits(EscapeHead(s), EscapeOnce(s[1..]))
  {
    hide EntityHead, EscapeOnce;
    var tail := EscapeOnce(s[1..]);
    if EscapeHead(s) == "&" {
      EntityKept(s);
    } else if EscapeHead(s) != [s[0]] {
      WrittenEntity(WrittenFor(s), tail);
    }
  }

  /** The entity that stands in for a character. */
  function WrittenFor(s: string): (name: string)
    requires s != "" && EscapeHead(s) != [s[0]]
    ensures name in ["amp", "quot", "lt", "gt"] && EscapeHead(s) == "&" + name + ";"
  {
    hide EntityHead;
    if s[0] == '&' then "amp" else if s[0] == '"' then "quot" else if s[0] == '<' then "lt" else "gt"
  }

  /** Escaping an escaped value changes nothing. */
  lemma EscapeIdempotent(value: string)
    ensures EscapeAttrValue(EscapeAttrValue(value)) == EscapeAttrValue(value)
    ensures Escaped(EscapeAttrValue(value))
  {
    EscapeIsOnePass(value);
    EscapeYieldsEscaped(value);
    EscapedFixed(EscapeOnce(value));
    EscapeIsOnePass(EscapeOnce(value));
  }
}
