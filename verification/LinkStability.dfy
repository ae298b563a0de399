/** When a safe link stays safe after escaping: exactly if the part before the first character that
    escaping replaces names no forbidden scheme. */
module LinkStability {
  import opened Text
  import opened Wrappers
  import opened Lists
  import opened UrlCheck

  // ----- references are cut off by special characters --------------------------

  /** A pattern that reads no special character beyond the first, so that what follows one is nothing to it. */
  ghost predicate Local(p: Pattern) {
    && (forall s {:trigger Hits(p, s)} :: Hits(p, s) ==>
          s[0] == '&' && forall i :: 1 <= i < p(s).len ==> !Special(s[i]))
    && (forall a: string, b: string {:trigger p(a + b)} ::
          a != "" && (b == "" || Special(b[0])) ==> p(a + b) == p(a))
  }

  /** A run of digits ends where a special character begins. */
  lemma SpanCut(p: char -> bool, a: string, b: string)
    requires b == "" || !p(b[0])
    ensures Span(p, a + b) == Span(p, a)
  {
    var n := Span(p, a);
    var run, tail := a[..n], a[n..] + b;
    assert a + b == run + tail;
    SpanUnique(p, run, tail);
  }

  lemma PrefixCut(a: string, b: string, lead: string)
    requires a != "" && (b == "" || Special(b[0])) && forall i :: 1 <= i < |lead| ==> !Special(lead[i])
    ensures lead <= a + b ==> lead <= a
  {
    assert b == "" || (a + b)[|a|] == b[0];
    if lead <= a + b && |lead| <= |a| {
      assert lead == (a + b)[..|lead|] == a[..|lead|];
    }
  }

  lemma NumericCut(a: string, b: string, lead: string, isDigit: char -> bool)
    requires a != "" && (b == "" || Special(b[0]))
    requires lead in ["&#", "&#x"] && (forall c :: isDigit(c) ==> IsAlnum(c))
    ensures NumericRef(a + b, lead, isDigit) == NumericRef(a, lead, isDigit)
    ensures lead <= a ==> Span(isDigit, (a + b)[|lead|..]) == Span(isDigit, a[|lead|..])
  {
    assert b == "" || (b[0] != ';' && !IsAlnum(b[0]));
    PrefixCut(a, b, lead);
    hide Special, IsAlnum, Span;
    if lead <= a {
      assert (a + b)[|lead|..] == a[|lead|..] + b && lead <= a + b;
      SpanCut(isDigit, a[|lead|..], b);
      var end := |lead| + Span(isDigit, a[|lead|..]);
      assert end < |a| ==> (a + b)[end] == a[end];
      assert end == |a| && b != "" ==> (a + b)[end] == b[0];
    }
  }

  lemma NumericPlain(s: string, lead: string, isDigit: char -> bool)
    requires lead in ["&#", "&#x"] && (forall c :: isDigit(c) ==> IsAlnum(c))
    ensures NumericRef(s, lead, isDigit) > 0 ==>
              s[0] == '&' && forall i :: 1 <= i < NumericRef(s, lead, isDigit) ==> !Special(s[i])
  {
    if NumericRef(s, lead, isDigit) > 0 {
      var n := Span(isDigit, s[|lead|..]);
      assert forall i :: 0 <= i < |lead| ==> s[i] == lead[i];
      forall i | |lead| <= i < |lead| + n ensures !Special(s[i]) {
        assert isDigit(s[|lead|..][i - |lead|]);
      }
    }
  }

  lemma HexPlain(s: string)
    requires Hits(HexRef, s)
    ensures s[0] == '&' && forall i :: 1 <= i < HexRef(s).len ==> !Special(s[i])
  {
    hide Special, ParseHex, FromCodePoint, NumericRef;
    NumericPlain(s, "&#x", IsHex);
  }

  lemma HexCut(a: string, b: string)
    requires a != "" && (b == "" || Special(b[0]))
    ensures HexRef(a + b) == HexRef(a)
  {
    NumericCut(a, b, "&#x", IsHex);
    hide ParseHex, FromCodePoint, Special, IsHex;
    if NumericRef(a, "&#x", IsHex) > 0 {
      var n := Span(IsHex, a[3..]);
      assert (a + b)[3..][..n] == a[3..][..n];
    }
  }

  lemma HexLocal()
    ensures Local(HexRef)
  {
    hide HexRef, Special;
    forall s | Hits(HexRef, s)
      ensures s[0] == '&' && forall i :: 1 <= i < HexRef(s).len ==> !Special(s[i])
    {
      HexPlain(s);
    }
    forall a: string, b: string | a != "" && (b == "" || Special(b[0])) ensures HexRef(a + b) == HexRef(a) {
      HexCut(a, b);
    }
  }

  lemma DecPlain(s: string)
    requires Hits(DecRef, s)
    ensures s[0] == '&' && forall i :: 1 <= i < DecRef(s).len ==> !Special(s[i])
  {
    hide Special, ParseDec, FromCodePoint, NumericRef;
    NumericPlain(s, "&#", IsDigit);
  }

  lemma DecCut(a: string, b: string)
    requires a != "" && (b == "" || Special(b[0]))
    ensures DecRef(a + b) == DecRef(a)
  {
    NumericCut(a, b, "&#", IsDigit);
    hide ParseDec, FromCodePoint, Special, IsDigit;
    if NumericRef(a, "&#", IsDigit) > 0 {
      var n := Span(IsDigit, a[2..]);
      assert (a + b)[2..][..n] == a[2..][..n];
    }
  }

  lemma DecLocal()
    ensures Local(DecRef)
  {
    hide DecRef, Special;
    forall s | Hits(DecRef, s)
      ensures s[0] == '&' && forall i :: 1 <= i < DecRef(s).len ==> !Special(s[i])
    {
      DecPlain(s);
    }
    forall a: string, b: string | a != "" && (b == "" || Special(b[0])) ensures DecRef(a + b) == DecRef(a) {
      DecCut(a, b);
    }
  }

  lemma FoldCut(a: string, b: string, lit: string)
    requires a != "" && (b == "" || Special(b[0]))
    requires lit != "" && forall i :: 1 <= i < |lit| ==> !Special(lit[i]) && Lower(lit[i]) == lit[i]
    ensures StartsWithFold(a + b, lit) <==> StartsWithFold(a, lit)
  {
    if |lit| <= |a| {
      assert (a + b)[..|lit|] == a[..|lit|];
    } else if |lit| <= |a + b| {
      var low := LowerAll((a + b)[..|lit|]);
      assert low[|a|] == Lower(b[0]) == b[0];
    }
  }

  lemma FoldPlain(s: string, lit: string)
    requires StartsWithFold(s, lit) && lit != "" && lit[0] == '&'
    requires forall i :: 1 <= i < |lit| ==> !Special(lit[i])
    ensures s[0] == '&' && forall i :: 1 <= i < |lit| ==> !Special(s[i])
  {
    var low := LowerAll(s[..|lit|]);
    assert forall i :: 0 <= i < |lit| ==> low[i] == Lower(s[i]) == lit[i];
  }

  lemma NamedLocal()
    ensures Local(NamedRef)
  {
    forall s | Hits(NamedRef, s)
      ensures s[0] == '&' && forall i :: 1 <= i < NamedRef(s).len ==> !Special(s[i])
    {
      NamedPlain(s);
    }
    forall a: string, b: string | a != "" && (b == "" || Special(b[0])) ensures NamedRef(a + b) == NamedRef(a) {
      FoldCut(a, b, "&tab;");
      FoldCut(a, b, "&newline;");
      FoldCut(a, b, "&colon;");
      hide StartsWithFold;
    }
  }

  lemma NamedPlain(s: string)
    requires Hits(NamedRef, s)
    ensures s[0] == '&' && forall i :: 1 <= i < NamedRef(s).len ==> !Special(s[i])
  {
    hide StartsWithFold;
    if StartsWithFold(s, "&tab;") {
      FoldPlain(s, "&tab;");
    } else if StartsWithFold(s, "&newline;") {
      FoldPlain(s, "&newline;");
    } else {
      FoldPlain(s, "&colon;");
    }
  }

  lemma LocalCut(p: Pattern, a: string, b: string)
    requires Local(p) && a != "" && (b == "" || Special(b[0]))
    ensures p(a + b) == p(a)
    ensures Hits(p, a + b) <==> Hits(p, a)
  {
    assert p(a + b) == p(a);
    assert b == "" || (a + b)[|a|] == b[0];
    hide Special;
  }

  /** Replacement splits before a special character. */
  lemma {:induction false} ReplaceSplits(p: Pattern, a: string, b: string)
    requires Local(p) && (b == "" || Special(b[0]))
    ensures ReplaceAll(p, a + b) == ReplaceAll(p, a) + ReplaceAll(p, b)
    ensures Raises(p, a + b) == (Raises(p, a) || Raises(p, b))
    decreases |a|
  {
    hide Local, Special;
    if a == "" {
      assert a + b == b;
    } else {
      hide *;
      LocalCut(p, a, b);
      ReplaceStep(p, a);
      ReplaceStep(p, a + b);
      var n := if Hits(p, a) then p(a).len else 1;
      ReplaceSplits(p, a[n..], b);
      DropOfConcat(a, b, n);
      Associative(if Hits(p, a) then p(a).text else [a[0]], ReplaceAll(p, a[n..]), ReplaceAll(p, b));
    }
  }

  lemma DropOfConcat(a: string, b: string, n: nat)
    requires a != "" && n <= |a|
    ensures (a + b)[n..] == a[n..] + b && (a + b)[0] == a[0]
  {
  }

  lemma ReplaceStep(p: Pattern, s: string)
    requires s != ""
    ensures var n := if Hits(p, s) then p(s).len else 1;
            var text := if Hits(p, s) then p(s).text else [s[0]];
            && 0 < n <= |s|
            && ReplaceAll(p, s) == text + ReplaceAll(p, s[n..])
            && Raises(p, s) == ((Hits(p, s) && p(s).raises) || Raises(p, s[n..]))
  {
  }

  /** Characters that are not special are copied. */
  lemma {:induction false} ReplaceCopies(p: Pattern, a: string, b: string)
    requires Local(p) && forall i :: 0 <= i < |a| ==> !Special(a[i])
    ensures ReplaceAll(p, a + b) == a + ReplaceAll(p, b)
    ensures Raises(p, a + b) == Raises(p, b)
  {
    if a == "" {
      assert a + b == b;
    } else {
      assert !Hits(p, a + b);
      assert (a + b)[1..] == a[1..] + b;
      ReplaceCopies(p, a[1..], b);
    }
  }

  // ----- escaped text ----------------------------------------------------------

  predicate NoHexReference(s: string) { forall i :: 0 <= i < |s| ==> !("&#x" <= s[i..]) }

  lemma NoHexPass(s: string)
    requires NoHexReference(s)
    ensures ReplaceAll(HexRef, s) == s && !Raises(HexRef, s)
  {
    ReplaceNothing(HexRef, s);
  }

  lemma NoHexSuffix(a: string, b: string)
    requires NoHexReference(a + b)
    ensures NoHexReference(a) && NoHexReference(b)
  {
    forall i | 0 <= i < |a| ensures !("&#x" <= a[i..]) {
      assert (a + b)[i..] == a[i..] + b;
    }
    forall i | 0 <= i < |b| ensures !("&#x" <= b[i..]) {
      assert (a + b)[|a| + i..] == b[i..];
    }
  }

  /** A complete entity is read the same whatever follows it. */
  lemma EntityDec(entity: string, rest: string)
    requires EntityHead(entity)
    ensures DecRef(entity + rest) == DecRef(entity)
  {
    var t := entity + rest;
    assert t[1] == entity[1] && t[2] == entity[2];
    assert "&#" <= entity ==> entity[1] == "&#"[1];
    assert "&#" <= t ==> t[1] == "&#"[1];
    if "&#" <= entity && RunThenSemicolon(IsDigit, entity, 2, 1, 7) {
      var n := Span(IsDigit, entity[2..]);
      var run, tail := entity[2..][..n], entity[2 + n..] + rest;
      assert t[2..] == run + tail;
      SpanUnique(IsDigit, run, tail);
      hide ParseDec, FromCodePoint;
    } else if "&#" <= entity {
      assert "&#x" <= entity ==> entity[2] == "&#x"[2];
      assert "&#X" <= entity ==> entity[2] == "&#X"[2];
      assert Span(IsDigit, entity[2..]) == 0 && Span(IsDigit, t[2..]) == 0;
    }
  }

  lemma EscapedSuffix(s: string, n: nat)
    requires Escaped(s) && n <= |s|
    ensures Escaped(s[n..])
  {
    forall i | 0 <= i < |s| - n ensures s[n..][i..] == s[n + i..] {
    }
  }

  lemma DecAtHead(a: string, b: string)
    requires a != "" && Escaped(a)
    ensures DecRef(a + b) == DecRef(a)
    ensures DecRef(a).Match? ==> 0 < DecRef(a).len <= |a|
  {
    assert a[0..] == a;
    assert (a + b)[0] == a[0];
    if Special(a[0]) {
      EntityDec(a, b);
    }
    hide ParseDec, FromCodePoint, EntityHead;
  }

  /** Decimal references never straddle the end of an escaped text. */
  lemma {:induction false} DecSplits(a: string, b: string)
    requires Escaped(a)
    ensures ReplaceAll(DecRef, a + b) == ReplaceAll(DecRef, a) + ReplaceAll(DecRef, b)
    ensures Raises(DecRef, a + b) == (Raises(DecRef, a) || Raises(DecRef, b))
    decreases |a|
  {
    hide DecRef, Escaped;
    if a == "" {
      assert a + b == b;
    } else {
      hide *;
      DecAtHead(a, b);
      ReplaceStep(DecRef, a);
      ReplaceStep(DecRef, a + b);
      var n := if Hits(DecRef, a) then DecRef(a).len else 1;
      DropOfConcat(a, b, n);
      EscapedSuffix(a, n);
      DecSplits(a[n..], b);
      var text := if Hits(DecRef, a) then DecRef(a).text else [a[0]];
      Associative(text, ReplaceAll(DecRef, a[n..]), ReplaceAll(DecRef, b));
    }
  }

  // ----- no new exception ------------------------------------------------------

  /** A reference that starts before `b` and ends in it swallows nothing that raises. */
  lemma RestRaises(a: string, b: string, n: nat)
    requires Raises(DecRef, b) && |a| < n <= |a + b|
    requires forall i :: |a| <= i < n ==> !Special((a + b)[i])
    ensures Raises(DecRef, (a + b)[n..])
  {
    DecLocal();
    hide DecRef;
    var k := n - |a|;
    forall i | 0 <= i < k ensures !Special(b[i]) {
      assert b[i] == (a + b)[|a| + i];
    }
    assert b == b[..k] + b[k..];
    ReplaceCopies(DecRef, b[..k], b[k..]);
    assert (a + b)[n..] == b[k..];
  }

  /** An exception raised by a suffix is raised by the whole: no reference swallows an ampersand. */
  lemma {:induction false} RaisesSuffix(a: string, b: string)
    requires Raises(DecRef, b)
    ensures Raises(DecRef, a + b)
    decreases |a|
  {
    hide DecRef;
    if a == "" {
      assert a + b == b;
    } else {
      DecLocal();
      var n := if Hits(DecRef, a + b) then DecRef(a + b).len else 1;
      if n <= |a| {
        assert (a + b)[n..] == a[n..] + b;
        RaisesSuffix(a[n..], b);
      } else {
        RestRaises(a, b, n);
      }
    }
  }

  lemma {:induction false} ParseDecGrows(d: string, e: string)
    requires forall i :: 0 <= i < |d + e| ==> IsDigit((d + e)[i])
    ensures forall i :: 0 <= i < |d| ==> IsDigit(d[i])
    ensures ParseDec(d + e) >= ParseDec(d)
  {
    assert forall i :: 0 <= i < |d| ==> d[i] == (d + e)[i];
    if e == "" {
      assert d + e == d;
    } else {
      assert (d + e)[..|d + e| - 1] == d + e[..|e| - 1];
      ParseDecGrows(d, e[..|e| - 1]);
    }
  }

  lemma SpanGrows(p: char -> bool, a: string, b: string)
    ensures Span(p, a) <= Span(p, a + b)
    ensures (a + b)[..Span(p, a + b)] == a[..Span(p, a)] + (a + b)[Span(p, a)..Span(p, a + b)]
  {
    var m := Span(p, a + b);
    assert m < |a| ==> (a + b)[m] == a[m];
  }

  /** A reference out of range stays out of range whatever follows: more digits only make it greater. */
  lemma HeadRaises(a: string, b: string)
    requires Hits(DecRef, a) && DecRef(a).raises
    ensures Hits(DecRef, a + b) && DecRef(a + b).raises
  {
    assert (a + b)[2..] == a[2..] + b && (a + b)[..2] == a[..2];
    SpanGrows(IsDigit, a[2..], b);
    var n, m := Span(IsDigit, a[2..]), Span(IsDigit, (a + b)[2..]);
    var d, e := a[2..][..n], (a + b)[2..][n..m];
    assert (a + b)[2..][..m] == d + e;
    ParseDecGrows(d, e);
    hide ParseDec, FromCodePoint, Span;
  }

  lemma {:induction false} RaisesSomewhere(t: string) returns (i: nat)
    requires Raises(DecRef, t)
    ensures i < |t| && Hits(DecRef, t[i..]) && DecRef(t[i..]).raises
    decreases |t|
  {
    hide DecRef;
    assert t[0..] == t;
    if Hits(DecRef, t) && DecRef(t).raises {
      i := 0;
    } else {
      var n := if Hits(DecRef, t) then DecRef(t).len else 1;
      var k := RaisesSomewhere(t[n..]);
      i := n + k;
      assert t[n..][k..] == t[i..];
    }
  }

  /** An exception raised by a prefix is raised by the whole. */
  lemma PrefixRaises(a: string, b: string)
    requires Raises(DecRef, a)
    ensures Raises(DecRef, a + b)
  {
    hide *;
    var i := RaisesSomewhere(a);
    HeadRaises(a[i..], b);
    HitRaises(a[i..] + b);
    RaisesSuffix(a[..i], a[i..] + b);
    assert a + b == a[..i] + (a[i..] + b);
  }

  lemma HitRaises(s: string)
    requires Hits(DecRef, s) && DecRef(s).raises
    ensures Raises(DecRef, s)
  {
    hide DecRef;
  }

  lemma WrittenNotDec(name: string, rest: string)
    requires name in ["amp;", "quot;", "lt;", "gt;"]
    ensures ReplaceAll(DecRef, "&" + (name + rest)) == "&" + (name + ReplaceAll(DecRef, rest))
    ensures Raises(DecRef, "&" + (name + rest)) == Raises(DecRef, rest)
  {
    DecLocal();
    var s := "&" + (name + rest);
    assert s[1] == name[0] && s[1..] == name + rest;
    assert DecRef(s) == NoMatch;
    hide DecRef;
    ReplaceCopies(DecRef, name, rest);
  }

  lemma WrittenNotHex(name: string, rest: string)
    requires name in ["amp;", "quot;", "lt;", "gt;"]
    ensures ReplaceAll(HexRef, "&" + (name + rest)) == "&" + (name + ReplaceAll(HexRef, rest))
    ensures Raises(HexRef, "&" + (name + rest)) == Raises(HexRef, rest)
  {
    HexLocal();
    var s := "&" + (name + rest);
    assert s[1] == name[0] && s[1..] == name + rest;
    assert HexRef(s) == NoMatch;
    hide HexRef;
    ReplaceCopies(HexRef, name, rest);
  }

  /** What escaping puts in place of a special character, split after its ampersand. */
  function WrittenName(s: string): string
    requires s != "" && EscapeHead(s) != [s[0]]
  {
    if s[0] == '&' then "amp;" else if s[0] == '"' then "quot;" else if s[0] == '<' then "lt;" else "gt;"
  }

  lemma EscapeHeadWritten(s: string)
    requires s != "" && EscapeHead(s) != [s[0]]
    ensures EscapeHead(s) == "&" + WrittenName(s) && Special(s[0])
    ensures WrittenName(s) in ["amp;", "quot;", "lt;", "gt;"]
  {
    hide EntityHead;
  }

  lemma HeadStep(s: string)
    requires s != ""
    ensures EscapeOnce(s) == EscapeHead(s) + EscapeOnce(s[1..])
    ensures Hits(HexRef, s) ==> HexRef(s).Match? && 0 < HexRef(s).len <= |s|
    ensures !Hits(HexRef, s) ==> ReplaceAll(HexRef, s) == [s[0]] + ReplaceAll(HexRef, s[1..])
    ensures Hits(HexRef, s) ==> ReplaceAll(HexRef, s) == HexRef(s).text + ReplaceAll(HexRef, s[HexRef(s).len..])
  {
    hide EscapeHead, HexRef;
  }

  /** The part of a value before the first character that escaping replaces. */
  function Untouched(s: string): string {
    if s == "" || EscapeHead(s) != [s[0]] then "" else [s[0]] + Untouched(s[1..])
  }

  /** A kept head and an escaped rest, up to a special character, are escaped together. */
  lemma EscapedCons(s: string, i: nat)
    requires 0 < i <= |s| && EscapeHead(s) == [s[0]] && Escaped(s[1..i])
    requires i < |s| ==> Special(s[i])
    ensures Escaped(s[..i])
  {
    var u := s[..i];
    hide EntityHead, EscapeHead, EntityEnd;
    forall k | 0 <= k < i && Special(u[k]) ensures u[k] == '&' && EntityHead(u[k..]) {
      if k > 0 {
        assert u[k..] == s[1..i][k - 1..];
      } else {
        HeadKept(s);
        var end := EntityEnd(s);
        assert end <= i;
        assert u[..end] == s[..end] && u[0..] == u;
        EntityTransfers(s, u);
      }
    }
  }

  lemma EmptyEscapes()
    ensures EscapeOnce("") == "" && Escaped("")
  {
  }

  lemma UntouchedStep(s: string)
    ensures Untouched(s) == if s == "" || EscapeHead(s) != [s[0]] then "" else [s[0]] + Untouched(s[1..])
  {
    hide EscapeHead;
  }

  lemma {:induction false} FirstChange(s: string)
    ensures var u := Untouched(s);
            && |u| <= |s| && u == s[..|u|] && Escaped(u)
            && EscapeOnce(s) == u + EscapeOnce(s[|u|..])
            && (|u| < |s| ==> EscapeHead(s[|u|..]) != [s[|u|]] && Special(s[|u|]))
  {
    hide *;
    EmptyEscapes();
    UntouchedStep(s);
    if s == "" || EscapeHead(s) != [s[0]] {
      assert s[0..] == s && s[..0] == "" && "" + EscapeOnce(s) == EscapeOnce(s);
      if s != "" {
        EscapeHeadWritten(s);
      }
    } else {
      FirstChange(s[1..]);
      var j := |Untouched(s[1..])|;
      var i := j + 1;
      HeadStep(s);
      assert s[1..][j..] == s[i..] && s[1..][..j] == s[1..i];
      assert s[..i] + EscapeOnce(s[i..]) == [s[0]] + (s[1..i] + EscapeOnce(s[i..]));
      EscapedCons(s, i);
    }
  }

  lemma HeadKept(s: string)
    requires s != "" && EscapeHead(s) == [s[0]] && Special(s[0])
    ensures s[0] == '&' && EntityHead(s)
  {
    hide EntityHead;
  }

  /** Where the text goes on after a replaced character, or after the reference it began. */
  function Resumes(v: string): (n: nat)
    requires v != ""
    ensures 0 < n <= |v|
  {
    if Hits(HexRef, v) then HexRef(v).len else 1
  }

  /** What escaping makes of a text that begins with a replaced character. */
  lemma WrittenThen(v: string)
    requires v != "" && EscapeHead(v) != [v[0]]
    ensures var n, name := Resumes(v), WrittenName(v);
            && name in ["amp;", "quot;", "lt;", "gt;"]
            && EscapeOnce(v) == "&" + (name + (v[1..n] + EscapeOnce(v[n..])))
            && (forall i :: 1 <= i < n ==> !Special(v[i]))
  {
    hide *;
    HeadStep(v);
    EscapeHeadWritten(v);
    ResumesPlain(v);
    var n := Resumes(v);
    assert v[1..] == v[1..n] + v[n..];
    CopiesPlain(v[1..n], v[n..]);
  }

  lemma ResumesPlain(v: string)
    requires v != ""
    ensures forall i :: 1 <= i < Resumes(v) ==> !Special(v[i])
    ensures Raises(HexRef, v[Resumes(v)..]) ==> Raises(HexRef, v)
    ensures exists text :: ReplaceAll(HexRef, v) == text + ReplaceAll(HexRef, v[Resumes(v)..])
  {
    HexLocal();
    ReplaceStep(HexRef, v);
    hide HexRef;
  }

  /** The passes go through the written text as they go through what comes after it. */
  lemma WrittenPasses(v: string)
    requires v != "" && EscapeHead(v) != [v[0]]
    ensures var x, rest := EscapeOnce(v), EscapeOnce(v[Resumes(v)..]);
            && x != "" && Special(x[0])
            && ReplaceAll(HexRef, x) != "" && Special(ReplaceAll(HexRef, x)[0])
            && Raises(HexRef, x) == Raises(HexRef, rest)
            && Raises(DecRef, ReplaceAll(HexRef, x)) == Raises(DecRef, ReplaceAll(HexRef, rest))
  {
    hide *;
    WrittenThen(v);
    HexLocal();
    DecLocal();
    var n, name := Resumes(v), WrittenName(v);
    var rest := EscapeOnce(v[n..]);
    WrittenNotHex(name, v[1..n] + rest);
    ReplaceCopies(HexRef, v[1..n], rest);
    WrittenNotDec(name, v[1..n] + ReplaceAll(HexRef, rest));
    ReplaceCopies(DecRef, v[1..n], ReplaceAll(HexRef, rest));
    AmpersandFirst(name + (v[1..n] + rest));
    AmpersandFirst(name + (v[1..n] + ReplaceAll(HexRef, rest)));
  }

  lemma AmpersandFirst(s: string)
    ensures "&" + s != "" && Special(("&" + s)[0])
  {
  }

  /** Escaping brings no reference out of range that was not there before. */
  lemma {:induction false} EscapeRaisesNothing(s: string)
    ensures Raises(HexRef, EscapeOnce(s)) ==> Raises(HexRef, s)
    ensures Raises(DecRef, ReplaceAll(HexRef, EscapeOnce(s))) ==> Raises(DecRef, ReplaceAll(HexRef, s))
    decreases |s|
  {
    hide *;
    FirstChange(s);
    EmptyEscapes();
    var u := Untouched(s);
    var v := s[|u|..];
    assert s == u + v;
    if v != "" {
      var w := v[Resumes(v)..];
      EscapeRaisesNothing(w);
      WrittenPasses(v);
      ResumesPlain(v);
      HexLocal();
      DecLocal();
      ReplaceSplits(HexRef, u, EscapeOnce(v));
      ReplaceSplits(HexRef, u, v);
      ReplaceSplits(DecRef, ReplaceAll(HexRef, u), ReplaceAll(HexRef, EscapeOnce(v)));
      if Raises(DecRef, ReplaceAll(HexRef, u)) {
        PrefixRaises(ReplaceAll(HexRef, u), ReplaceAll(HexRef, v));
      }
      if Raises(DecRef, ReplaceAll(HexRef, w)) {
        var text :| ReplaceAll(HexRef, v) == text + ReplaceAll(HexRef, w);
        RaisesSuffix(text, ReplaceAll(HexRef, w));
        RaisesSuffix(ReplaceAll(HexRef, u), ReplaceAll(HexRef, v));
      }
    }
  }

  // ----- the decoded prefix that escaping cannot change -------------------------

  lemma {:induction false} NormalizeAppend(a: string, b: string)
    ensures Normalize(a + b) == Normalize(a) + Normalize(b)
  {
    if a == "" {
      assert a + b == b;
    } else {
      assert (a + b)[1..] == a[1..] + b;
      NormalizeAppend(a[1..], b);
    }
  }

  function NamedPass(s: string): string { Normalize(ReplaceAll(NamedRef, s)) }

  lemma NamedStep(s: string)
    requires s != ""
    ensures var n := if Hits(NamedRef, s) then NamedRef(s).len else 1;
            var text := if Hits(NamedRef, s) then NamedRef(s).text else [s[0]];
            0 < n <= |s| && NamedPass(s) == Normalize(text) + NamedPass(s[n..])
    ensures s[0] == '&' && !Hits(NamedRef, s) ==> NamedPass(s) == "&" + NamedPass(s[1..])
    ensures Hits(NamedRef, s) ==> NamedRef(s).Match?
  {
    hide NamedRef;
    var n := if Hits(NamedRef, s) then NamedRef(s).len else 1;
    var text := if Hits(NamedRef, s) then NamedRef(s).text else [s[0]];
    NormalizeAppend(text, ReplaceAll(NamedRef, s[n..]));
    assert ['&'][1..] == "" && Normalize("") == "";
  }

  /** A named reference that is complete is read the same whatever follows. */
  lemma NamedPrefix(a: string, b: string)
    requires a != ""
    ensures Hits(NamedRef, a) ==> NamedRef(a + b) == NamedRef(a) && Hits(NamedRef, a + b)
    ensures a[0] != '&' ==> !Hits(NamedRef, a + b)
  {
    assert (a + b)[0] == a[0];
    FoldExtends(a, b, "&tab;");
    FoldExtends(a, b, "&newline;");
    FoldExtends(a, b, "&colon;");
    NamedLocal();
    hide StartsWithFold;
  }

  lemma FoldExtends(a: string, b: string, lit: string)
    ensures StartsWithFold(a, lit) ==> StartsWithFold(a + b, lit)
    ensures |a| >= |lit| ==> (StartsWithFold(a + b, lit) <==> StartsWithFold(a, lit))
  {
    if |lit| <= |a| {
      assert (a + b)[..|lit|] == a[..|lit|];
    }
  }

  /** The decoded forms of `a` and of `a + b` agree up to the first ampersand left in the former. */
  lemma {:induction false} SharedPrefix(a: string, b: string) returns (q: nat)
    ensures var x, y := NamedPass(a), NamedPass(a + b);
            && q <= |x| && q <= |y| && x[..q] == y[..q]
            && (q < |x| ==> x[q] == '&')
    decreases |a|
  {
    hide *;
    if a == "" {
      q := 0;
      NamedEmpty();
    } else {
      NamedStep(a);
      NamedStep(a + b);
      NamedPrefix(a, b);
      if a[0] == '&' && !Hits(NamedRef, a) {
        q := 0;
      } else {
        var n := if Hits(NamedRef, a) then NamedRef(a).len else 1;
        var text := if Hits(NamedRef, a) then NamedRef(a).text else [a[0]];
        assert (a + b)[0] == a[0];
        assert (a + b)[n..] == a[n..] + b;
        var k := SharedPrefix(a[n..], b);
        q := |Normalize(text)| + k;
        SharedStep(Normalize(text), NamedPass(a[n..]), NamedPass(a[n..] + b), k);
      }
    }
  }

  lemma NamedEmpty()
    ensures NamedPass("") == ""
  {
  }

  lemma SharedStep(t: string, x: string, y: string, k: nat)
    requires k <= |x| && k <= |y| && x[..k] == y[..k] && (k < |x| ==> x[k] == '&')
    ensures var q := |t| + k;
            && q <= |t + x| && q <= |t + y| && (t + x)[..q] == (t + y)[..q]
            && (q < |t + x| ==> (t + x)[q] == '&')
  {
    assert (t + x)[..|t| + k] == t + x[..k];
    assert (t + y)[..|t| + k] == t + y[..k];
  }

  /** Texts that agree up to an ampersand of the first have the first's scheme, if it has one. */
  lemma SchemeShared(x: string, y: string, q: nat)
    requires q <= |x| && q <= |y| && x[..q] == y[..q] && q < |x| && x[q] == '&'
    ensures Scheme(x).Some? ==> Scheme(y) == Scheme(x)
  {
    if Scheme(x).Some? {
      var n := Span(IsSchemeChar, x);
      assert n < q;
      assert forall i :: 0 <= i < q ==> x[i] == x[..q][i] == y[..q][i] == y[i];
      var run, tail := x[..n], y[n..];
      assert y == run + tail;
      SpanUnique(IsSchemeChar, run, tail);
      assert y[..n] == x[..n];
    }
  }

  // ----- the verdict on an escaped link ------------------------------------------

  lemma NotNamed(name: string, rest: string)
    requires name in ["amp;", "quot;", "lt;", "gt;"]
    ensures !Hits(NamedRef, "&" + (name + rest))
  {
    var s := "&" + (name + rest);
    assert s[1] == name[0];
    NotFold(s, "&tab;");
    NotFold(s, "&newline;");
    NotFold(s, "&colon;");
    hide StartsWithFold;
  }

  lemma NotFold(s: string, lit: string)
    requires |s| > 1 && |lit| > 1 && Lower(s[1]) != lit[1]
    ensures !StartsWithFold(s, lit)
  {
    if |lit| <= |s| {
      assert LowerAll(s[..|lit|])[1] == Lower(s[1]);
    }
  }

  lemma DecodeReads(s: string)
    ensures DecodeForSchemeCheck(s)
         == if Raises(HexRef, s) || Raises(DecRef, ReplaceAll(HexRef, s)) then None
            else Some(NamedPass(ReplaceAll(DecRef, ReplaceAll(HexRef, s))))
  {
    hide HexRef, DecRef, NamedRef, Normalize, ReplaceAll, Raises;
  }

  lemma NamedSplits(a: string, name: string, rest: string)
    requires name in ["amp;", "quot;", "lt;", "gt;"]
    ensures NamedPass(a + ("&" + (name + rest))) == NamedPass(a) + ("&" + NamedPass(name + rest))
  {
    var y := "&" + (name + rest);
    NamedLocal();
    ReplaceSplits(NamedRef, a, y);
    NormalizeAppend(ReplaceAll(NamedRef, a), ReplaceAll(NamedRef, y));
    NotNamed(name, rest);
    NamedStep(y);
    assert y[1..] == name + rest;
    hide NamedRef, Normalize;
  }

  /** The decoded form of the escaped value: the untouched part's, an ampersand, and a rest. */
  lemma EscapedDecodes(u: string, name: string, rest: string)
    requires name in ["amp;", "quot;", "lt;", "gt;"] && DecodeForSchemeCheck(u + ("&" + (name + rest))).Some?
    ensures DecodeForSchemeCheck(u).Some?
    ensures exists z ::
              DecodeForSchemeCheck(u + ("&" + (name + rest))) == Some(DecodeForSchemeCheck(u).value + ("&" + z))
  {
    hide *;
    var x, h := "&" + (name + rest), ReplaceAll(HexRef, rest);
    DecodeReads(u);
    DecodeReads(u + x);
    HexLocal();
    DecLocal();
    AmpersandFirst(name + rest);
    AmpersandFirst(name + h);
    WrittenNotHex(name, rest);
    ReplaceSplits(HexRef, u, x);
    WrittenNotDec(name, h);
    ReplaceSplits(DecRef, ReplaceAll(HexRef, u), "&" + (name + h));
    NamedSplits(ReplaceAll(DecRef, ReplaceAll(HexRef, u)), name, ReplaceAll(DecRef, h));
  }

  /** A scheme ends before the first ampersand. */
  lemma SchemeCut(w: string, z: string)
    ensures Scheme(w + ("&" + z)) == Scheme(w) && w + ("&" + z) != ""
  {
    var m, n := w + ("&" + z), Span(IsSchemeChar, w);
    SpanCut(IsSchemeChar, w, "&" + z);
    assert m[..n] == w[..n];
    assert n < |w| ==> m[n] == w[n];
    assert m[|w|] == '&' && (w != "" ==> m[0] == w[0]);
  }

  lemma SafeMeans(value: string)
    ensures IsSafeUrl(value) == match DecodeForSchemeCheck(value)
                                case None => None
                                case Some(d) => Some(d != "" && AllowedScheme(Scheme(d)))
  {
  }

  /** What escaping cannot change about a link: nothing is replaced, or the part before the first replaced
      character names no forbidden scheme. */
  predicate StaysSafe(value: string) {
    var decoded := DecodeForSchemeCheck(Untouched(value));
    Untouched(value) == value || (decoded.Some? && AllowedScheme(Scheme(decoded.value)))
  }

  /** The verdict on the escaped form of a link that does not throw is that on the part before the first
      replaced character. */
  lemma EscapedVerdict(value: string)
    requires IsSafeUrl(value).Some?
    ensures var u := Untouched(value);
            if u == value then EscapeAttrValue(value) == value
            else && DecodeForSchemeCheck(u).Some?
                 && IsSafeUrl(EscapeAttrValue(value)) == Some(AllowedScheme(Scheme(DecodeForSchemeCheck(u).value)))
  {
    hide *;
    EscapeIsOnePass(value);
    FirstChange(value);
    EmptyEscapes();
    var u := Untouched(value);
    var v := value[|u|..];
    assert value == u + v;
    if v != "" {
      WrittenThen(v);
      SafeMeans(value);
      SafeMeans(EscapeOnce(value));
      EscapeRaisesNothing(value);
      DecodeReads(value);
      DecodeReads(EscapeOnce(value));
      var n := Resumes(v);
      EscapedDecodes(u, WrittenName(v), v[1..n] + EscapeOnce(v[n..]));
      var z :| DecodeForSchemeCheck(EscapeOnce(value)) == Some(DecodeForSchemeCheck(u).value + ("&" + z));
      SchemeCut(DecodeForSchemeCheck(u).value, z);
    }
  }

  /** A safe link is safe after escaping if and only if the part before the first character that escaping
      replaces names no forbidden scheme. */
  lemma SafeAfterEscapingIff(value: string)
    requires IsSafeUrl(value) == Some(true)
    ensures IsSafeUrl(EscapeAttrValue(value)) == Some(true) <==> StaysSafe(value)
  {
    EscapedVerdict(value);
    hide IsSafeUrl, EscapeAttrValue, DecodeForSchemeCheck, Scheme, AllowedScheme;
  }

  /** The decoded form of the value itself: the untouched part's and more. */
  lemma ValueDecodes(u: string, v: string)
    requires Escaped(u) && NoHexReference(u) && v != "" && Special(v[0])
    requires DecodeForSchemeCheck(u + v).Some?
    ensures exists b :: DecodeForSchemeCheck(u + v) == Some(NamedPass(ReplaceAll(DecRef, u) + b))
    ensures DecodeForSchemeCheck(u) == Some(NamedPass(ReplaceAll(DecRef, u)))
  {
    hide *;
    HexLocal();
    NoHexPass(u);
    DecodeReads(u);
    DecodeReads(u + v);
    ReplaceSplits(HexRef, u, v);
    DecSplits(u, ReplaceAll(HexRef, v));
  }

  /** A safe link without hexadecimal reference in its untouched part is safe after escaping. */
  lemma SafeAfterEscaping(value: string)
    requires IsSafeUrl(value) == Some(true) && NoHexReference(Untouched(value))
    ensures IsSafeUrl(EscapeAttrValue(value)) == Some(true)
  {
    hide *;
    SafeAfterEscapingIff(value);
    FirstChange(value);
    var u := Untouched(value);
    var v := value[|u|..];
    assert value == u + v;
    StaysReads(value);
    if v != "" {
      SafeMeans(value);
      ValueDecodes(u, v);
      var a := ReplaceAll(DecRef, u);
      var b :| DecodeForSchemeCheck(value) == Some(NamedPass(a + b));
      var q := SharedPrefix(a, b);
      SchemeCut(NamedPass(a), "");
      var m := NamedPass(a) + ("&" + "");
      assert m[..q] == NamedPass(a)[..q];
      assert m[q] == '&' by {
        assert m[|NamedPass(a)|] == ("&" + "")[0];
      }
      SchemeShared(m, NamedPass(a + b), q);
      NoSchemeAllowed(Scheme(m));
    }
  }

  lemma StaysReads(value: string)
    ensures StaysSafe(value) <==> var decoded := DecodeForSchemeCheck(Untouched(value));
              Untouched(value) == value || (decoded.Some? && AllowedScheme(Scheme(decoded.value)))
  {
  }

  lemma NoSchemeAllowed(scheme: Option<string>)
    ensures scheme.None? ==> AllowedScheme(scheme)
  {
  }
}
