/** Sanitising an output again: the tags are found again exactly as they were written, so the
    second run changes the text if and only if some emitted link is no longer safe. */
module SanitizerIdempotence {
  import opened Text
  import opened Wrappers
  import opened UrlCheck
  import opened HtmlScan
  import opened NoticeSanitizer
  import opened SanitizedLanguage

  // ----- the passes before the tag loop find nothing --------------------------

  /** How a `<` may go on in an output: a closing tag, or an allowed name and its end. */
  ghost predicate StartsTag(s: string) {
    || "</" <= s
    || exists name :: StartsOpen(s, name)
  }

  predicate StartsOpen(s: string, name: string) {
    IsAllowedTag(name) && |s| > 1 + |name| && s[..1 + |name|] == "<" + name && s[1 + |name|] in " >"
  }

  ghost predicate OnlyTags(s: string) {
    forall i :: 0 <= i < |s| && s[i] == '<' ==> StartsTag(s[i..])
  }

  lemma StartsTagAppend(a: string, b: string)
    requires StartsTag(a)
    ensures StartsTag(a + b)
  {
    if "</" <= a {
    } else {
      var name :| StartsOpen(a, name);
      assert StartsOpen(a + b, name);
    }
  }

  lemma OnlyTagsAppend(a: string, b: string)
    requires OnlyTags(a) && OnlyTags(b)
    ensures OnlyTags(a + b)
  {
    hide StartsTag;
    forall i | 0 <= i < |a + b| && (a + b)[i] == '<' ensures StartsTag((a + b)[i..]) {
      if i < |a| {
        assert (a + b)[i..] == a[i..] + b;
        StartsTagAppend(a[i..], b);
      } else {
        assert (a + b)[i..] == b[i - |a|..];
      }
    }
  }

  predicate NoAngles(s: string) { '<' !in s && '>' !in s }

  lemma NoAnglesAppend(a: string, b: string)
    requires NoAngles(a) && NoAngles(b)
    ensures NoAngles(a + b)
  {
  }

  lemma AllowedAttrShape(tag: string, name: string)
    requires IsAllowedAttr(tag, name)
    ensures IsLowerAlnum(name)
  {
  }

  lemma LowerAlnumPlain(s: string)
    requires IsLowerAlnum(s)
    ensures NoAngles(s) && '"' !in s && '\'' !in s
  {
  }

  lemma EscapedNoAngles(s: string)
    requires Escaped(s)
    ensures NoAngles(s) && '"' !in s
  {
    hide EntityHead;
    forall c | c in s ensures c != '<' && c != '>' && c != '"' {
      var i :| 0 <= i < |s| && s[i] == c;
    }
  }

  /** The attributes of an emitted tag, all of them. */
  function Written(tag: string, attrs: seq<Attr>): seq<Attr> { attrs + SuffixAttrs(tag, HasHref(attrs)) }

  lemma AttrTextIsWritten(tag: string, attrs: seq<Attr>)
    ensures AttrText(tag, attrs) == RenderAttrs(Written(tag, attrs))
  {
    hide SuffixAttrs, RenderAttr, HasHref;
    RenderAttrsAppend(attrs, SuffixAttrs(tag, HasHref(attrs)));
  }

  /** What tag and attribute scanning need of a written attribute. */
  predicate Scannable(attr: Attr) {
    IsLowerAlnum(attr.name) && NoAngles(attr.value) && '"' !in attr.value
  }

  lemma WrittenScannable(tag: string, attrs: seq<Attr>)
    requires forall a :: a in attrs ==> FitsAttr(tag, a)
    ensures forall a :: a in Written(tag, attrs) ==> Scannable(a)
  {
    forall a | a in attrs ensures Scannable(a) {
      AllowedAttrShape(tag, a.name);
      EscapedNoAngles(a.value);
    }
    SuffixScannable(tag, HasHref(attrs));
    hide Scannable, SuffixAttrs, HasHref, FitsAttr;
  }

  lemma SuffixScannable(tag: string, hasHref: bool)
    ensures forall a :: a in SuffixAttrs(tag, hasHref) ==> Scannable(a)
  {
    TargetScannable();
    RelScannable();
    hide Scannable;
  }

  lemma TargetScannable()
    ensures Scannable(TARGET)
  {
  }

  lemma RelScannable()
    ensures Scannable(REL)
  {
    var v := REL.value;
    forall i | 0 <= i < |v| ensures v[i] == ' ' || 'a' <= v[i] <= 'z' {
    }
  }

  lemma AttrNoAngles(attr: Attr)
    requires Scannable(attr)
    ensures NoAngles(RenderAttr(attr))
  {
    LowerAlnumPlain(attr.name);
    hide IsLowerAlnum;
  }

  lemma {:induction false} AttrsNoAngles(attrs: seq<Attr>)
    requires forall a :: a in attrs ==> Scannable(a)
    ensures NoAngles(RenderAttrs(attrs))
  {
    if attrs != [] {
      hide Scannable, RenderAttr;
      AttrsNoAngles(attrs[1..]);
      AttrNoAngles(attrs[0]);
      NoAnglesAppend(RenderAttr(attrs[0]), RenderAttrs(attrs[1..]));
    }
  }

  lemma NodeOnlyTags(node: Node)
    requires Fits(node)
    ensures OnlyTags(RenderNode(node))
  {
    var s := RenderNode(node);
    match node
    case Char(c) =>
    case Close(name) =>
      AllowedTagShape(name);
      LowerAlnumPlain(name);
      assert s[0..] == s && "</" <= s;
    case Open(name, attrs) =>
      OpenOnlyTags(name, attrs);
  }

  /** What the scanners need to know about a tag of the language. */
  lemma OpenReads(name: string, attrs: seq<Attr>)
    requires Fits(Open(name, attrs))
    ensures name != "" && IsLetter(name[0]) && forall i :: 0 <= i < |name| ==> IsAlnum(name[i])
    ensures NoAngles(name) && IsAllowedTag(name)
    ensures AttrText(name, attrs) == RenderAttrs(Written(name, attrs))
    ensures forall a :: a in Written(name, attrs) ==> Scannable(a)
    ensures AttrText(name, attrs) == "" || AttrText(name, attrs)[0] == ' '
    ensures NoAngles(AttrText(name, attrs))
  {
    AllowedTagShape(name);
    LowerAlnumPlain(name);
    WrittenScannable(name, attrs);
    AttrTextIsWritten(name, attrs);
    AttrTextHead(Written(name, attrs));
    AttrsNoAngles(Written(name, attrs));
    hide IsAllowedTag, FitsAttr, AttrText, Written, Scannable, NoAngles;
  }

  lemma StartsOpenBy(s: string, name: string, tail: string)
    requires s == "<" + (name + tail) && IsAllowedTag(name) && tail != "" && tail[0] in " >"
    ensures StartsOpen(s, name)
  {
    hide IsAllowedTag;
    assert s[..1 + |name|] == "<" + name;
    assert s[1 + |name|] == tail[0];
  }

  lemma RenderOpen(name: string, attrs: seq<Attr>, rest: string)
    ensures RenderNode(Open(name, attrs)) + rest == "<" + (name + (AttrText(name, attrs) + (">" + rest)))
  {
    hide AttrText;
  }

  lemma OpenOnlyTags(name: string, attrs: seq<Attr>)
    requires Fits(Open(name, attrs))
    ensures OnlyTags(RenderNode(Open(name, attrs)))
    ensures NoAngles(name + AttrText(name, attrs))
  {
    hide *;
    var text, s := AttrText(name, attrs), RenderNode(Open(name, attrs));
    OpenReads(name, attrs);
    NoAnglesAppend(name, text);
    RenderOpen(name, attrs, "");
    assert s + "" == s && ">" + "" == ">";
    StartsOpenBy(s, name, text + ">");
    OneAngle(s, name, name + text);
    assert s == "<" + (name + text) + ">";
  }

  lemma OneAngle(s: string, name: string, body: string)
    requires s == "<" + body + ">" && NoAngles(body) && StartsOpen(s, name)
    ensures OnlyTags(s)
  {
    hide StartsOpen;
    assert s[0..] == s;
    forall i | 0 < i < |s| ensures s[i] != '<' {
      assert s[i] == (body + ">")[i - 1];
    }
  }

  lemma AttrTextHead(attrs: seq<Attr>)
    ensures RenderAttrs(attrs) == "" || RenderAttrs(attrs)[0] == ' '
  {
  }

  lemma {:induction false} RenderOnlyTags(nodes: seq<Node>)
    requires AllFit(nodes)
    ensures OnlyTags(Render(nodes))
  {
    if nodes != [] {
      hide Fits, RenderNode, OnlyTags;
      NodeOnlyTags(nodes[0]);
      RenderOnlyTags(nodes[1..]);
      OnlyTagsAppend(RenderNode(nodes[0]), Render(nodes[1..]));
    } else {
      assert OnlyTags("");
    }
  }

  lemma NoSpaceAfter(s: string)
    requires StartsTag(s)
    ensures |s| > 1 && Span(IsSpace, s[1..]) == 0
    ensures "</" <= s ==> s[1] == '/'
  {
    if "</" <= s {
      assert s[1] == "</"[1];
    } else {
      var name :| StartsOpen(s, name);
      AllowedTagShape(name);
      hide IsAllowedTag;
      assert s[1] == s[..1 + |name|][1] == ("<" + name)[1] == name[0];
    }
  }

  lemma NoSubtreeHere(s: string, tag: string)
    requires StartsTag(s) && tag in STRIPPED_SUBTREES
    ensures SubtreeOpen(tag, s) == 0
  {
    StrippedShape(tag);
    NoSpaceAfter(s);
    if StartsWithFold(s[1..], tag) {
      assert LowerAll(s[1..][..|tag|])[0] == Lower(s[1]);
      var name :| StartsOpen(s, name);
      AllowedTagShape(name);
      assert s[..1 + |name|] == "<" + name && s[1 + |name|] in " >" && name != tag;
      hide *;
      NameBoundary(s, name, tag);
    }
    hide IsAllowedTag, IsWord;
  }

  predicate IsLowerWord(s: string) { s != "" && forall i :: 0 <= i < |s| ==> 'a' <= s[i] <= 'z' }

  lemma StrippedShape(tag: string)
    requires tag in STRIPPED_SUBTREES
    ensures IsLowerWord(tag)
  {
  }

  /** A stripped name that matches where an allowed name stands is cut short by the boundary test. */
  lemma NameBoundary(s: string, name: string, tag: string)
    requires |s| > 1 + |name| && s[..1 + |name|] == "<" + name && s[1 + |name|] in " >"
    requires IsLowerAlnum(name) && IsLowerWord(tag) && name != tag
    requires StartsWithFold(s[1..], tag)
    ensures 1 + |tag| < |s| && IsWord(s[1 + |tag|])
  {
    var u := s[1..];
    FoldReads(u, tag);
    forall i | 0 <= i < |name| ensures u[i] == name[i] && Lower(name[i]) == name[i] && IsWord(name[i]) {
      assert u[i] == s[..1 + |name|][1 + i] == ("<" + name)[1 + i];
    }
    var end := u[|name|];
    assert end < 'A' && Lower(end) == end;
    hide *;
    assert |tag| <= |name|;
    assert forall i :: 0 <= i < |tag| ==> tag[i] == name[i];
    assert |tag| == |name| ==> tag == name;
    assert s[1 + |tag|] == u[|tag|];
  }

  lemma FoldReads(u: string, tag: string)
    requires StartsWithFold(u, tag) && IsLowerWord(tag)
    ensures |tag| <= |u| && forall i :: 0 <= i < |tag| ==> Lower(u[i]) == tag[i] && 'a' <= tag[i]
  {
    var low := LowerAll(u[..|tag|]);
    assert forall i :: 0 <= i < |tag| ==> Lower(u[i]) == low[i];
  }

  lemma SubtreeLeaves(tag: string, s: string)
    requires OnlyTags(s) && tag in STRIPPED_SUBTREES
    ensures ReplaceAll(Subtree(tag), s) == s
  {
    forall i | 0 <= i < |s| ensures !Hits(Subtree(tag), s[i..]) {
      if s[i] == '<' {
        NoSubtreeHere(s[i..], tag);
      }
    }
    ReplaceNothing(Subtree(tag), s);
  }

  lemma {:induction false} SubtreesLeave(tags: seq<string>, s: string)
    requires OnlyTags(s) && forall t :: t in tags ==> t in STRIPPED_SUBTREES
    ensures StripSubtrees(tags, s) == s
  {
    hide OnlyTags, Subtree;
    if tags != [] {
      SubtreeLeaves(tags[0], s);
      SubtreesLeave(tags[1..], s);
    }
  }

  lemma NoBangHere(s: string)
    requires StartsTag(s)
    ensures !("<!" <= s)
  {
    assert "</" <= s ==> s[1] == "</"[1];
    assert "<!" <= s ==> s[1] == "<!"[1];
    if !("</" <= s) {
      var name :| StartsOpen(s, name);
      AllowedTagShape(name);
      hide IsAllowedTag;
      assert s[1] == s[..1 + |name|][1] == ("<" + name)[1] == name[0];
    }
  }

  /** Nothing is stripped from a text in which every `<` starts a tag. */
  lemma StrippedLeaves(s: string)
    requires OnlyTags(s)
    ensures Stripped(s) == s
  {
    forall i | 0 <= i < |s| ensures !Hits(Comment, s[i..]) && !Hits(Declaration, s[i..]) {
      if s[i] == '<' {
        NoBangHere(s[i..]);
      }
    }
    ReplaceNothing(Comment, s);
    ReplaceNothing(Declaration, s);
    SubtreesLeave(STRIPPED_SUBTREES, s);
  }

  // ----- tags are found again as they were written ----------------------------

  lemma NotQuoted(s: string)
    requires s != "" && s[0] != '"' && s[0] != '\''
    ensures Quoted(s) == 0
  {
  }

  lemma {:induction false} BodyOfPlain(a: string, rest: string)
    requires TagBody(rest).Some?
    requires forall i :: 0 <= i < |a| ==> a[i] != '"' && a[i] != '\'' && a[i] != '>'
    ensures TagBody(a + rest) == Some(|a| + TagBody(rest).value)
  {
    hide *;
    if a == "" {
      assert a + rest == rest;
    } else {
      BodyOfPlain(a[1..], rest);
      assert (a + rest)[1..] == a[1..] + rest && (a + rest)[0] == a[0];
      NotQuoted(a + rest);
      BodyPastPlain(a + rest);
    }
  }

  lemma BodyPastPlain(s: string)
    requires s != "" && s[0] != '>' && Quoted(s) == 0 && TagBody(s[1..]).Some?
    ensures TagBody(s) == Some(1 + TagBody(s[1..]).value)
  {
    hide Quoted;
  }

  /** A double-quoted value and what follows it. */
  function InQuotes(v: string, rest: string): (s: string)
    ensures |s| == |v| + 2 + |rest| && s[0] == '"'
  {
    "\"" + (v + ("\"" + rest))
  }

  lemma QuotesHead(v: string, rest: string)
    ensures var s := InQuotes(v, rest); s[1..] == v + ("\"" + rest) && s[1..|v| + 1] == v
  {
  }

  lemma QuotesTail(v: string, rest: string)
    ensures InQuotes(v, rest)[|v| + 2..] == rest
  {
  }

  lemma QuotedExactly(v: string, rest: string)
    requires '"' !in v
    ensures Quoted(InQuotes(v, rest)) == |v| + 2
  {
    hide InQuotes;
    QuotesHead(v, rest);
    SpanUnique(Not('"'), v, "\"" + rest);
  }

  lemma BodyTakesQuoted(s: string, q: nat)
    requires 0 < q == Quoted(s) && TagBody(s[q..]).Some?
    ensures TagBody(s) == Some(q + TagBody(s[q..]).value)
  {
    hide Quoted;
  }

  lemma BodyOfQuoted(v: string, rest: string)
    requires '"' !in v && TagBody(rest).Some?
    ensures TagBody(InQuotes(v, rest)) == Some(|v| + 2 + TagBody(rest).value)
  {
    hide *;
    var s := InQuotes(v, rest);
    QuotedExactly(v, rest);
    QuotesTail(v, rest);
    BodyTakesQuoted(s, |v| + 2);
  }

  lemma RenderAttrReads(attr: Attr, rest: string)
    ensures RenderAttr(attr) + rest == (" " + attr.name + "=") + InQuotes(attr.value, rest)
    ensures |RenderAttr(attr)| == |attr.name| + |attr.value| + 4 && RenderAttr(attr)[0] == ' '
    ensures (RenderAttr(attr) + rest)[1..] == attr.name + ("=" + InQuotes(attr.value, rest))
  {
    var quoted := InQuotes(attr.value, rest);
    assert RenderAttr(attr) + rest == (" " + attr.name + "=") + quoted;
    assert (" " + attr.name + "=") + quoted == " " + (attr.name + ("=" + quoted));
  }

  lemma BodyOfAttr(attr: Attr, rest: string)
    requires Scannable(attr) && TagBody(rest).Some?
    ensures TagBody(RenderAttr(attr) + rest) == Some(|RenderAttr(attr)| + TagBody(rest).value)
  {
    hide *;
    AttrPlain(attr);
    RenderAttrReads(attr, rest);
    BodyOfQuoted(attr.value, rest);
    BodyOfPlain(" " + attr.name + "=", InQuotes(attr.value, rest));
  }

  lemma AttrPlain(attr: Attr)
    requires Scannable(attr)
    ensures '"' !in attr.value
    ensures var s := " " + attr.name + "=";
            |s| == |attr.name| + 2 && forall i :: 0 <= i < |s| ==> s[i] != '"' && s[i] != '\'' && s[i] != '>'
  {
    LowerAlnumPlain(attr.name);
    assert '>' !in attr.name;
    hide IsLowerAlnum, NoAngles;
    var s := " " + attr.name + "=";
    forall i | 0 <= i < |s| ensures s[i] != '"' && s[i] != '\'' && s[i] != '>' {
      assert s[i] == ' ' || s[i] == '=' || s[i] in attr.name;
    }
  }

  lemma BodyEnds(rest: string)
    ensures TagBody(">" + rest) == Some(1)
  {
  }

  lemma RenderAttrsStep(attrs: seq<Attr>)
    ensures attrs == [] ==> RenderAttrs(attrs) == ""
    ensures attrs != [] ==> RenderAttrs(attrs) == RenderAttr(attrs[0]) + RenderAttrs(attrs[1..])
  {
  }

  lemma {:induction false} BodyOfAttrs(attrs: seq<Attr>, rest: string)
    requires forall a :: a in attrs ==> Scannable(a)
    ensures TagBody(RenderAttrs(attrs) + (">" + rest)) == Some(|RenderAttrs(attrs)| + 1)
  {
    hide *;
    RenderAttrsStep(attrs);
    if attrs == [] {
      BodyEnds(rest);
      assert "" + (">" + rest) == ">" + rest;
    } else {
      BodyOfAttrs(attrs[1..], rest);
      var tail := RenderAttrs(attrs[1..]) + (">" + rest);
      BodyOfAttr(attrs[0], tail);
      assert RenderAttrs(attrs) + (">" + rest) == RenderAttr(attrs[0]) + tail;
    }
  }

  /** `MatchTag` of an opening tag without white space after `<`. */
  lemma MatchOpenReads(s: string)
    requires |s| > 1 && s[0] == '<' && IsLetter(s[1])
    ensures MatchTag(s) == TagFrom(s, 1, false)
  {
    assert '!' <= s[1] <= '~' && s[1] != '/';
    hide *;
    NoSpaceHere(s[1..]);
    TagAfterAngle(s);
  }

  lemma TagAfterAngle(s: string)
    requires |s| > 1 && s[0] == '<' && s[1] != '/' && Span(IsSpace, s[1..]) == 0
    ensures MatchTag(s) == TagFrom(s, 1, false)
  {
    hide TagFrom, Span, IsSpace;
  }

  lemma TagAfterSlash(s: string)
    requires |s| > 2 && s[0] == '<' && s[1] == '/' && Span(IsSpace, s[1..]) == 0 && Span(IsSpace, s[2..]) == 0
    ensures MatchTag(s) == TagFrom(s, 2, true)
  {
    hide TagFrom, Span, IsSpace;
  }

  lemma TagFromReads(s: string, b: nat, closing: bool, n: nat, k: nat)
    requires b < |s| && IsLetter(s[b]) && n == Span(IsAlnum, s[b..]) && TagBody(s[b + n..]) == Some(k)
    ensures TagFrom(s, b, closing) == TagHit(b + n + k, closing, s[b..b + n], s[b + n..b + n + k - 1])
  {
    hide TagBody, Span, IsLetter, IsAlnum;
  }

  lemma NoSpaceHere(s: string)
    requires s != "" && '!' <= s[0] <= '~'
    ensures Span(IsSpace, s) == 0
  {
  }

  /** The same for a closing tag without white space around `/`. */
  lemma MatchCloseReads(s: string)
    requires |s| > 2 && s[0] == '<' && s[1] == '/' && IsLetter(s[2])
    ensures MatchTag(s) == TagFrom(s, 2, true)
  {
    assert '!' <= s[2] <= '~';
    hide *;
    NoSpaceHere(s[1..]);
    NoSpaceHere(s[2..]);
    TagAfterSlash(s);
  }

  lemma OpenFound(name: string, attrs: seq<Attr>, rest: string)
    requires Fits(Open(name, attrs))
    ensures var text := AttrText(name, attrs);
            MatchTag(RenderNode(Open(name, attrs)) + rest) == TagHit(|name| + |text| + 2, false, name, text)
  {
    hide *;
    OpenReads(name, attrs);
    RenderOpen(name, attrs, rest);
    var text := AttrText(name, attrs);
    var tail := text + (">" + rest);
    BodyOfAttrs(Written(name, attrs), rest);
    TailNotAlnum(text, rest);
    OpenTagFound(name, tail, |text| + 1);
    assert tail[..|text|] == text;
  }

  lemma TailNotAlnum(text: string, rest: string)
    requires text == "" || text[0] == ' '
    ensures var tail := text + (">" + rest); tail != "" && !IsAlnum(tail[0])
  {
  }

  lemma OpenTagFound(name: string, tail: string, k: nat)
    requires name != "" && IsLetter(name[0]) && forall i :: 0 <= i < |name| ==> IsAlnum(name[i])
    requires tail != "" && !IsAlnum(tail[0]) && TagBody(tail) == Some(k)
    ensures MatchTag("<" + (name + tail)) == TagHit(1 + |name| + k, false, name, tail[..k - 1])
  {
    hide *;
    var s := "<" + (name + tail);
    assert s[1..] == name + tail && s[1 + |name|..] == tail;
    SpanUnique(IsAlnum, name, tail);
    MatchOpenReads(s);
    TagFromReads(s, 1, false, |name|, k);
    assert s[1..1 + |name|] == name && s[1 + |name|..|name| + k] == tail[..k - 1];
  }

  lemma CloseReads(name: string, rest: string)
    requires Fits(Close(name))
    ensures name != "" && IsLetter(name[0]) && forall i :: 0 <= i < |name| ==> IsAlnum(name[i])
    ensures RenderNode(Close(name)) + rest == "</" + (name + (">" + rest))
    ensures NoAngles(name)
  {
    AllowedTagShape(name);
    LowerAlnumPlain(name);
    hide IsAllowedTag;
  }

  lemma CloseFound(name: string, rest: string)
    requires Fits(Close(name))
    ensures MatchTag(RenderNode(Close(name)) + rest) == TagHit(|name| + 3, true, name, "")
  {
    hide *;
    CloseReads(name, rest);
    BodyEnds(rest);
    EndNotAlnum(rest);
    var tail := ">" + rest;
    CloseText(name, tail);
    SpanUnique(IsAlnum, name, tail);
    MatchCloseReads("</" + (name + tail));
    TagFromReads("</" + (name + tail), 2, true, |name|, 1);
  }

  lemma EndNotAlnum(rest: string)
    ensures ">" + rest != "" && !IsAlnum((">" + rest)[0])
  {
  }

  lemma CloseText(name: string, tail: string)
    requires name != "" && tail != ""
    ensures var s := "</" + (name + tail);
            && |s| > 2 + |name| && s[0] == '<' && s[1] == '/' && s[2] == name[0]
            && s[2..] == name + tail && s[2 + |name|..] == tail
            && s[2..2 + |name|] == name && s[2 + |name|..2 + |name|] == ""
  {
  }

  // ----- so are their attributes ----------------------------------------------

  /** `MatchAttr` step by step, for a quoted attribute without white space around `=`. */
  lemma MatchAttrReads(s: string, n: nat, q: nat)
    requires n < |s| && IsNameStart(s[0]) && n == Span(IsNameChar, s) && s[n] == '='
    requires n + 1 < |s| && s[n + 1] == '"' && 0 < q == Quoted(s[n + 1..])
    ensures MatchAttr(s) == AttrHit(n + 1 + q, Attr(s[..n], s[n + 2..n + q]))
  {
    hide Quoted, Span, IsNameStart, IsSpace, IsNameChar;
    NoSpaceHere(s[n..]);
    NoSpaceHere(s[n + 1..]);
    ValueFromReads(s, n, n + 1, q);
    hide ValueFrom;
  }

  lemma ValueFromReads(s: string, n: nat, v: nat, q: nat)
    requires n <= |s| && v <= |s| && 0 < q == Quoted(s[v..])
    ensures ValueFrom(s, n, v) == AttrHit(v + q, Attr(s[..n], s[v + 1..v + q - 1]))
  {
    hide Quoted;
  }

  lemma NameReads(attr: Attr, rest: string)
    requires Scannable(attr)
    ensures var name := attr.name;
            name != "" && IsNameStart(name[0]) && forall i :: 0 <= i < |name| ==> IsNameChar(name[i])
    ensures !IsNameChar('=') && !IsNameStart(' ') && '"' !in attr.value
  {
  }

  lemma NoAttrHere(s: string)
    requires s != "" && !IsNameStart(s[0])
    ensures MatchAttr(s).NoAttr?
  {
  }

  lemma AttrFound(attr: Attr, rest: string)
    requires Scannable(attr)
    ensures MatchAttr(RenderAttr(attr) + rest).NoAttr?
    ensures MatchAttr((RenderAttr(attr) + rest)[1..]) == AttrHit(|RenderAttr(attr)| - 1, attr)
  {
    hide *;
    NameReads(attr, rest);
    RenderAttrReads(attr, rest);
    NoAttrHere(RenderAttr(attr) + rest);
    var name, quoted := attr.name, InQuotes(attr.value, rest);
    var s, n := name + ("=" + quoted), |name|;
    SpanUnique(IsNameChar, name, "=" + quoted);
    QuotedExactly(attr.value, rest);
    QuotesHead(attr.value, rest);
    assert s[n + 1..] == quoted && s[..n] == name;
    assert s[n + 2..n + 2 + |attr.value|] == quoted[1..|attr.value| + 1];
    assert s[n] == '=' && s[n + 1] == '"' && s[0] == name[0];
    MatchAttrReads(s, n, |attr.value| + 2);
  }

  lemma {:induction false} AttrsFound(attrs: seq<Attr>)
    requires forall a :: a in attrs ==> Scannable(a)
    ensures ScanAttrs(RenderAttrs(attrs)) == attrs
  {
    if attrs != [] {
      hide MatchAttr, Scannable;
      var s, rest := RenderAttrs(attrs), RenderAttrs(attrs[1..]);
      AttrFound(attrs[0], rest);
      AttrsFound(attrs[1..]);
      assert s[1..][|RenderAttr(attrs[0])| - 1..] == rest;
      assert ScanAttrs(s) == ScanAttrs(s[1..]);
    }
  }

  // ----- sanitising an output -------------------------------------------------

  lemma {:induction false} KeptAppend(tag: string, a: seq<Attr>, b: seq<Attr>)
    ensures KeptAttrs(tag, a + b) == match KeptAttrs(tag, a)
                                     case None => None
                                     case Some(kept) => After(kept, KeptAttrs(tag, b))
  {
    if a == [] {
      assert a + b == b;
      AfterNone(KeptAttrs(tag, b));
    } else {
      assert (a + b)[1..] == a[1..] + b;
      KeptAppend(tag, a[1..], b);
      hide Keeps, Clean;
      var rest := KeptAttrs(tag, b);
      if KeptAttrs(tag, a[1..]).Some? && rest.Some? {
        var kept := KeptAttrs(tag, a[1..]).value;
        assert [Clean(a[0])] + (kept + rest.value) == [Clean(a[0])] + kept + rest.value;
      }
    }
  }

  lemma SuffixDropped(tag: string, hasHref: bool)
    ensures KeptAttrs(tag, SuffixAttrs(tag, hasHref)) == Some([])
  {
    var suffix := SuffixAttrs(tag, hasHref);
    if suffix != [] {
      LowerFixed(TARGET.name);
      LowerFixed(REL.name);
      assert suffix[1..] == [REL] && [REL][1..] == [];
      assert Keeps(tag, TARGET) == Some(false) && Keeps(tag, REL) == Some(false);
      hide Keeps;
      assert KeptAttrs(tag, [REL]) == KeptAttrs(tag, []);
      assert KeptAttrs(tag, suffix) == KeptAttrs(tag, [REL]);
    }
  }

  lemma OpenReread(name: string, attrs: seq<Attr>)
    requires Fits(Open(name, attrs))
    ensures LowerAll(name) == name && IsAllowedTag(name)
    ensures KeptAttrs(name, ScanAttrs(AttrText(name, attrs))) == KeptAttrs(name, attrs)
  {
    AllowedTagShape(name);
    LowerFixed(name);
    WrittenScannable(name, attrs);
    hide Fits, FitsAttr, IsAllowedTag, TagShape, IsLowerAlnum, Scannable, KeptAttrs, ScanAttrs, AttrText, HasHref,
      SuffixAttrs;
    AttrTextIsWritten(name, attrs);
    AttrsFound(Written(name, attrs));
    SuffixDropped(name, HasHref(attrs));
    KeptAppend(name, attrs, SuffixAttrs(name, HasHref(attrs)));
    if KeptAttrs(name, attrs).Some? {
      assert KeptAttrs(name, attrs).value + [] == KeptAttrs(name, attrs).value;
    }
  }

  /** What a second run makes of one written node. */
  function RereadNode(node: Node): Option<Node> {
    if !node.Open? then Some(node)
    else
      var attrs := KeptAttrs(node.name, node.attrs);
      if attrs.None? then None else Some(Open(node.name, attrs.value))
  }

  function Reread(nodes: seq<Node>): Option<seq<Node>> {
    if nodes == [] then Some([])
    else
      var node, rest := RereadNode(nodes[0]), Reread(nodes[1..]);
      if node.None? || rest.None? then None else Some([node.value] + rest.value)
  }

  lemma CharReread(c: char, tail: string)
    requires c != '<'
    ensures Nodes(RenderNode(Char(c)) + tail) == Append(Some([Char(c)]), Nodes(tail))
  {
    var s := RenderNode(Char(c)) + tail;
    assert s[0] == c && MatchTag(s).NoTag?;
    assert s[1..] == tail && CharNodes([c]) == [Char(c)];
  }

  lemma TagReread(s: string, tail: string)
    requires MatchTag(s).TagHit? && s[MatchTag(s).len..] == tail
    ensures Nodes(s) == Append(TagNodes(MatchTag(s)), Nodes(tail))
  {
    hide MatchTag, TagNodes;
  }

  /** The first node of a rendered sequence is read back, then the rest. */
  lemma NodeReread(node: Node, tail: string)
    requires Fits(node)
    ensures Nodes(RenderNode(node) + tail)
         == match RereadNode(node) case None => None case Some(n) => Append(Some([n]), Nodes(tail))
  {
    hide Nodes, MatchTag, AttrText, KeptAttrs, ScanAttrs, FitsAttr, IsAllowedTag, LowerAll;
    var s := RenderNode(node) + tail;
    match node
    case Char(c) => CharReread(c, tail);
    case Open(name, attrs) =>
      OpenFound(name, attrs, tail);
      OpenReread(name, attrs);
      assert s[|name| + |AttrText(name, attrs)| + 2..] == tail;
      TagReread(s, tail);
    case Close(name) =>
      CloseFound(name, tail);
      AllowedTagShape(name);
      LowerFixed(name);
      assert s[|name| + 3..] == tail;
      TagReread(s, tail);
  }

  lemma {:induction false} RereadNodes(nodes: seq<Node>)
    requires AllFit(nodes)
    ensures Nodes(Render(nodes)) == Reread(nodes)
  {
    if nodes != [] {
      hide Nodes, RenderNode, Fits, RereadNode;
      assert Fits(nodes[0]);
      RereadNodes(nodes[1..]);
      NodeReread(nodes[0], Render(nodes[1..]));
    } else {
      assert Nodes("") == Some([]);
    }
  }

  // ----- when the second run changes nothing -----------------------------------

  /** The links among some attributes are safe as they stand. */
  predicate LinksSafe(attrs: seq<Attr>) {
    forall a :: a in attrs && a.name == "href" ==> IsSafeUrl(a.value) == Some(true)
  }

  /** Every emitted link is still safe as it was emitted. */
  predicate LinksReadBack(nodes: seq<Node>) {
    forall n :: n in nodes && n.Open? ==> LinksSafe(n.attrs)
  }

  lemma KeepsFit(tag: string, attr: Attr)
    requires FitsAttr(tag, attr)
    ensures Clean(attr) == attr
    ensures Keeps(tag, attr) == if attr.name == "href" then IsSafeUrl(attr.value) else Some(true)
  {
    AllowedAttrShape(tag, attr.name);
    LowerFixed(attr.name);
    EscapeIsOnePass(attr.value);
    EscapedFixed(attr.value);
  }

  /** Attributes are lost, never changed: all stay, or the tag gets shorter. */
  lemma {:induction false} KeptShorter(tag: string, attrs: seq<Attr>)
    requires forall a :: a in attrs ==> FitsAttr(tag, a)
    ensures var kept := KeptAttrs(tag, attrs);
            && (LinksSafe(attrs) ==> kept == Some(attrs))
            && (kept.Some? && !LinksSafe(attrs) ==> |RenderAttrs(kept.value)| < |RenderAttrs(attrs)|)
            && (kept.Some? ==> forall a :: a in kept.value ==> a in attrs)
  {
    if attrs != [] {
      hide FitsAttr, Keeps, Clean, IsSafeUrl;
      assert FitsAttr(tag, attrs[0]) && forall a :: a in attrs <==> a == attrs[0] || a in attrs[1..];
      KeepsFit(tag, attrs[0]);
      KeptShorter(tag, attrs[1..]);
      assert [attrs[0]] + attrs[1..] == attrs;
      var rest := KeptAttrs(tag, attrs[1..]);
      if rest.Some? {
        assert ([attrs[0]] + rest.value)[1..] == rest.value;
        assert |RenderAttrs([attrs[0]] + rest.value)| == |RenderAttr(attrs[0])| + |RenderAttrs(rest.value)|;
      }
    }
  }

  lemma NodeShorter(node: Node)
    requires Fits(node)
    ensures var again := RereadNode(node);
            if node.Open? && !LinksSafe(node.attrs) then
              again.Some? ==> |RenderNode(again.value)| < |RenderNode(node)|
            else again == Some(node)
  {
    if node.Open? {
      hide FitsAttr, IsAllowedTag, KeptAttrs, LinksSafe;
      var name, attrs := node.name, node.attrs;
      KeptShorter(name, attrs);
      var kept := KeptAttrs(name, attrs);
      if kept.Some? {
        assert |Suffix(name, HasHref(kept.value))| <= |Suffix(name, HasHref(attrs))|;
        hide Suffix, HasHref;
      }
    }
  }

  /** All nodes are read back as they are, or the text gets shorter. */
  lemma {:induction false} RereadShorter(nodes: seq<Node>)
    requires AllFit(nodes)
    ensures var again := Reread(nodes);
            && (LinksReadBack(nodes) ==> again == Some(nodes))
            && (again.Some? && !LinksReadBack(nodes) ==> |Render(again.value)| < |Render(nodes)|)
  {
    if nodes != [] {
      hide Fits, RereadNode, RenderNode, LinksSafe;
      assert Fits(nodes[0]) && forall n :: n in nodes <==> n == nodes[0] || n in nodes[1..];
      RereadShorter(nodes[1..]);
      NodeShorter(nodes[0]);
      assert [nodes[0]] + nodes[1..] == nodes;
      var node, rest := RereadNode(nodes[0]), Reread(nodes[1..]);
      if node.Some? && rest.Some? {
        assert ([node.value] + rest.value)[1..] == rest.value;
      }
    }
  }

  /** Sanitising an output runs the tag loop on it unchanged. */
  lemma SanitizeOutput(nodes: seq<Node>)
    requires AllFit(nodes)
    ensures Sanitize(Render(nodes)) == match Reread(nodes) case None => None case Some(n) => Some(Trim(Render(n)))
  {
    hide Nodes, Stripped, Render, Reread, AllFit;
    RenderOnlyTags(nodes);
    StrippedLeaves(Render(nodes));
    RereadNodes(nodes);
  }

  /** Sanitising twice is sanitising once if and only if every link the first run emitted is still safe
      after the escaping it went through. */
  lemma SanitizeTwice(input: string)
    ensures match Sanitize(input)
            case None => OutputNodes(input) == None
            case Some(output) =>
              OutputNodes(input).Some? &&
                (Sanitize(output) == Some(output) <==> LinksReadBack(OutputNodes(input).value))
  {
    hide Sanitize, OutputNodes, Render, Reread, AllFit, LinksReadBack, Trim;
    OutputInLanguage(input);
    if Sanitize(input).Some? {
      var nodes := OutputNodes(input).value;
      SanitizeOutput(nodes);
      RereadShorter(nodes);
      OutputTrimmed(input);
      if Reread(nodes).Some? {
        TrimShortens(Render(Reread(nodes).value));
      }
    }
  }

  lemma TrimShortens(s: string)
    ensures |Trim(s)| <= |s|
  {
  }

  lemma OutputTrimmed(input: string)
    ensures Sanitize(input).Some? ==> Trim(Sanitize(input).value) == Sanitize(input).value
  {
    hide Nodes, Stripped, Render, Trim;
    if Sanitize(input).Some? {
      TrimIdempotent(Render(Nodes(Stripped(input)).value));
    }
  }
}
