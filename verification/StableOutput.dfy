/** When sanitising twice is sanitising once, read off the links of the input, and a link for which it is not. */
module StableOutput {
  import opened Text
  import opened Wrappers
  import opened Lists
  import opened UrlCheck
  import opened HtmlScan
  import opened NoticeSanitizer
  import opened SanitizedLanguage
  import opened SanitizerIdempotence
  import opened LinkStability

  // ----- the links of an input ---------------------------------------------------

  predicate KeepsLink(tag: string, attr: Attr) { LowerAll(attr.name) == "href" && Keeps(tag, attr) == Some(true) }

  /** The links that stay on a tag, as they are written there. */
  function AttrLinks(tag: string, attrs: seq<Attr>): seq<string> {
    if attrs == [] then []
    else (if KeepsLink(tag, attrs[0]) then [attrs[0].value] else []) + AttrLinks(tag, attrs[1..])
  }

  function TagLinks(t: TagHit): seq<string>
    requires t.TagHit?
  {
    var name := LowerAll(t.name);
    if !IsAllowedTag(name) || t.closing then [] else AttrLinks(name, ScanAttrs(t.raw))
  }

  function Links(html: string): seq<string> {
    if html == "" then []
    else
      var t := MatchTag(html);
      if t.NoTag? then Links(html[1..]) else TagLinks(t) + Links(html[t.len..])
  }

  /** The links of an input that the first run keeps. */
  function KeptLinks(input: string): seq<string> { Links(Stripped(input)) }

  predicate AllStaySafe(links: seq<string>) { forall v :: v in links ==> StaysSafe(v) }

  lemma StaySafeAppend(a: seq<string>, b: seq<string>)
    ensures AllStaySafe(a + b) <==> AllStaySafe(a) && AllStaySafe(b)
  {
    hide StaysSafe;
  }

  lemma LinksSafeCons(attr: Attr, rest: seq<Attr>)
    ensures LinksSafe([attr] + rest)
            <==> (attr.name == "href" ==> IsSafeUrl(attr.value) == Some(true)) && LinksSafe(rest)
  {
    hide IsSafeUrl;
  }

  lemma CleanLink(tag: string, attr: Attr)
    requires Keeps(tag, attr) == Some(true)
    ensures var clean := Clean(attr);
            (clean.name == "href" ==> IsSafeUrl(clean.value) == Some(true))
              <==> (KeepsLink(tag, attr) ==> StaysSafe(attr.value))
  {
    hide IsSafeUrl, EscapeAttrValue, LowerAll, StaysSafe;
    if LowerAll(attr.name) == "href" {
      SafeAfterEscapingIff(attr.value);
    }
  }

  lemma {:induction false} AttrLinksSafe(tag: string, attrs: seq<Attr>)
    requires KeptAttrs(tag, attrs).Some?
    ensures LinksSafe(KeptAttrs(tag, attrs).value) <==> AllStaySafe(AttrLinks(tag, attrs))
  {
    hide Keeps, LinksSafe, AllStaySafe, KeepsLink, Clean, StaysSafe;
    if attrs == [] {
      NoLinks();
    } else {
      var attr, rest := attrs[0], attrs[1..];
      AttrLinksSafe(tag, rest);
      OneLink(tag, attr);
      StaySafeAppend(if KeepsLink(tag, attr) then [attr.value] else [], AttrLinks(tag, rest));
      if Keeps(tag, attr) == Some(true) {
        CleanLink(tag, attr);
        LinksSafeCons(Clean(attr), KeptAttrs(tag, rest).value);
      }
    }
  }

  lemma NoLinks()
    ensures LinksSafe([]) && AllStaySafe([]) && LinksReadBack([])
  {
  }

  lemma OneLink(tag: string, attr: Attr)
    ensures AllStaySafe(if KeepsLink(tag, attr) then [attr.value] else [])
            <==> (KeepsLink(tag, attr) ==> StaysSafe(attr.value))
    ensures KeepsLink(tag, attr) ==> Keeps(tag, attr) == Some(true)
  {
    hide StaysSafe, Keeps, LowerAll;
    assert attr.value in [attr.value];
  }

  lemma ReadBackAppend(a: seq<Node>, b: seq<Node>)
    ensures LinksReadBack(a + b) <==> LinksReadBack(a) && LinksReadBack(b)
  {
    hide LinksSafe;
  }

  lemma OneNode(node: Node)
    ensures LinksReadBack([node]) <==> (node.Open? ==> LinksSafe(node.attrs))
  {
    hide LinksSafe;
    assert node in [node];
  }

  lemma CharsReadBack(s: string)
    ensures LinksReadBack(CharNodes(s))
  {
    hide LinksSafe;
  }

  lemma TagLinksSafe(t: TagHit)
    requires t.TagHit? && TagNodes(t).Some?
    ensures LinksReadBack(TagNodes(t).value) <==> AllStaySafe(TagLinks(t))
  {
    hide LinksSafe, LinksReadBack, AllStaySafe, IsAllowedTag, LowerAll, KeptAttrs, AttrLinks, ScanAttrs;
    var name := LowerAll(t.name);
    NoLinks();
    if IsAllowedTag(name) {
      if t.closing {
        OneNode(Close(name));
      } else {
        AttrLinksSafe(name, ScanAttrs(t.raw));
        OneNode(Open(name, KeptAttrs(name, ScanAttrs(t.raw)).value));
      }
    }
  }

  /** The links of the output are safe as they are emitted exactly if each kept link of the input stays safe. */
  lemma {:induction false} LinksOfNodes(html: string)
    requires Nodes(html).Some?
    ensures LinksReadBack(Nodes(html).value) <==> AllStaySafe(Links(html))
    decreases |html|
  {
    hide LinksReadBack, AllStaySafe, MatchTag, TagNodes, TagLinks, CharNodes, EscapeChar;
    if html == "" {
      NoLinks();
    } else {
      var t := MatchTag(html);
      if t.NoTag? {
        var head := CharNodes(EscapeChar(html[0]));
        LinksOfNodes(html[1..]);
        CharsReadBack(EscapeChar(html[0]));
        ReadBackAppend(head, Nodes(html[1..]).value);
      } else {
        LinksOfNodes(html[t.len..]);
        TagLinksSafe(t);
        ReadBackAppend(TagNodes(t).value, Nodes(html[t.len..]).value);
        StaySafeAppend(TagLinks(t), Links(html[t.len..]));
      }
    }
  }

  lemma {:induction false} DropBlankKeeps(nodes: seq<Node>, n: Node)
    requires n in nodes && !n.Char?
    ensures n in DropBlank(nodes)
  {
    if nodes != [] && Blank(nodes[0]) {
      DropBlankKeeps(nodes[1..], n);
    }
  }

  lemma {:induction false} DropBlankEndKeeps(nodes: seq<Node>, n: Node)
    requires n in nodes && !n.Char?
    ensures n in DropBlankEnd(nodes)
  {
    if n != nodes[0] {
      DropBlankEndKeeps(nodes[1..], n);
    }
  }

  lemma TrimReadsBack(nodes: seq<Node>)
    ensures LinksReadBack(TrimNodes(nodes)) <==> LinksReadBack(nodes)
  {
    forall n | n in nodes && n.Open? ensures n in TrimNodes(nodes) {
      DropBlankKeeps(nodes, n);
      DropBlankEndKeeps(DropBlank(nodes), n);
    }
    hide LinksSafe, DropBlank, DropBlankEnd, TrimNodes;
  }

  lemma OutputNodesRead(input: string)
    ensures OutputNodes(input)
         == match Nodes(Stripped(input)) case None => None case Some(nodes) => Some(TrimNodes(nodes))
    ensures KeptLinks(input) == Links(Stripped(input))
  {
    hide Nodes, Stripped, Links, TrimNodes;
  }

  /** The main result: sanitising twice is sanitising once if and only if, for each link that the first run
      keeps, the part before the first character that escaping replaces names no forbidden scheme. */
  lemma SanitizeTwiceIff(input: string)
    ensures match Sanitize(input)
            case None => true
            case Some(output) => Sanitize(output) == Some(output) <==> AllStaySafe(KeptLinks(input))
  {
    hide *;
    SanitizeTwice(input);
    OutputNodesRead(input);
    if Nodes(Stripped(input)).Some? {
      LinksOfNodes(Stripped(input));
      TrimReadsBack(Nodes(Stripped(input)).value);
    }
  }

  // ----- outputs without hexadecimal reference are stable -----------------------

  lemma {:induction false} AttrsNoHex(attrs: seq<Attr>)
    requires NoHexReference(RenderAttrs(attrs))
    ensures forall a :: a in attrs ==> NoHexReference(a.value)
  {
    hide NoHexReference;
    if attrs != [] {
      NoHexSuffix(RenderAttr(attrs[0]), RenderAttrs(attrs[1..]));
      AttrsNoHex(attrs[1..]);
      var a := attrs[0];
      assert RenderAttr(a) == (" " + a.name + "=\"") + (a.value + "\"");
      NoHexSuffix(" " + a.name + "=\"", a.value + "\"");
      NoHexSuffix(a.value, "\"");
    }
  }

  lemma {:induction false} NodesNoHex(nodes: seq<Node>)
    requires NoHexReference(Render(nodes))
    ensures forall n :: n in nodes && n.Open? ==> forall a :: a in n.attrs ==> NoHexReference(a.value)
  {
    hide NoHexReference, RenderAttrs, Suffix;
    if nodes != [] {
      NoHexSuffix(RenderNode(nodes[0]), Render(nodes[1..]));
      NodesNoHex(nodes[1..]);
      match nodes[0]
      case Char(_) =>
      case Close(_) =>
      case Open(name, attrs) =>
        var suffix := Suffix(name, HasHref(attrs)) + ">";
        assert RenderNode(nodes[0]) == ("<" + name) + (RenderAttrs(attrs) + suffix);
        NoHexSuffix("<" + name, RenderAttrs(attrs) + suffix);
        NoHexSuffix(RenderAttrs(attrs), suffix);
        AttrsNoHex(attrs);
    }
  }

  /** An output that holds no hexadecimal reference is left alone by a second run. */
  lemma SanitizeStable(input: string)
    ensures match Sanitize(input)
            case None => true
            case Some(output) => NoHexReference(output) ==> Sanitize(output) == Some(output)
  {
    hide Sanitize, OutputNodes, NoHexReference, IsSafeUrl, EscapeAttrValue, Escaped, IsAllowedTag;
    OutputInLanguage(input);
    SanitizeTwice(input);
    if Sanitize(input).Some? && NoHexReference(Sanitize(input).value) {
      LinksStaySafe(OutputNodes(input).value);
    }
  }

  lemma EscapedNoHex(v: string)
    requires NoHexReference(EscapeAttrValue(v))
    ensures NoHexReference(Untouched(v))
  {
    hide *;
    EscapeIsOnePass(v);
    FirstChange(v);
    NoHexSuffix(Untouched(v), EscapeOnce(v[|Untouched(v)|..]));
  }

  lemma LinksStaySafe(nodes: seq<Node>)
    requires AllFit(nodes) && NoHexReference(Render(nodes))
    ensures LinksReadBack(nodes)
  {
    hide NoHexReference, IsSafeUrl, EscapeAttrValue, Escaped, IsAllowedTag;
    NodesNoHex(nodes);
    forall n, a | n in nodes && n.Open? && a in n.attrs && a.name == "href" ensures IsSafeUrl(a.value) == Some(true) {
      assert Fits(n) && FitsAttr(n.name, a);
      var v :| IsSafeUrl(v) == Some(true) && a.value == EscapeAttrValue(v);
      EscapedNoHex(v);
      SafeAfterEscaping(v);
    }
  }

  // ----- a single link ----------------------------------------------------------

  /** An `a` tag whose only attribute is the link. */
  function LinkInput(link: string): string { "<" + ("a" + (RenderAttr(Attr("href", link)) + ">")) }

  lemma LinkTag(link: string)
    requires NoAngles(link) && '"' !in link
    ensures MatchTag(LinkInput(link)) == TagHit(|LinkInput(link)|, false, "a", RenderAttr(Attr("href", link)))
  {
    hide *;
    var attr := Attr("href", link);
    OneAttr(attr);
    LinkReads(link);
    BodyOfAttrs([attr], "");
    var tail := RenderAttr(attr) + (">" + "");
    OpenTagFound("a", tail, |RenderAttr(attr)| + 1);
    assert tail[..|RenderAttr(attr)|] == RenderAttr(attr);
  }

  lemma OneAttr(attr: Attr)
    ensures RenderAttrs([attr]) == RenderAttr(attr)
  {
    assert [attr][1..] == [];
    hide RenderAttr;
  }

  lemma LinkReads(link: string)
    requires NoAngles(link) && '"' !in link
    ensures var attr := Attr("href", link);
            var tail := RenderAttr(attr) + (">" + "");
            && Scannable(attr) && LinkInput(link) == "<" + ("a" + tail) && |LinkInput(link)| == |RenderAttr(attr)| + 3
            && tail != "" && !IsAlnum(tail[0])
    ensures |"a"| == 1 && IsLetter("a"[0]) && forall i :: 0 <= i < |"a"| ==> IsAlnum("a"[i])
  {
    assert ">" + "" == ">";
  }

  lemma LinkStripped(link: string)
    requires NoAngles(link) && '"' !in link
    ensures Stripped(LinkInput(link)) == LinkInput(link)
  {
    var s, attr := LinkInput(link), Attr("href", link);
    assert Scannable(attr);
    AttrNoAngles(attr);
    assert IsAllowedTag("a");
    assert StartsOpen(s, "a") by {
      assert s[..2] == "<" + "a";
      assert s[2] == ' ';
    }
    hide IsAllowedTag, RenderAttr, Scannable;
    assert s[0..] == s;
    forall i | 0 < i < |s| ensures s[i] != '<' {
      assert s[i] == ("a" + (RenderAttr(attr) + ">"))[i - 1];
    }
    StrippedLeaves(s);
  }

  lemma HrefKept(link: string)
    requires IsSafeUrl(link) == Some(true)
    ensures var attr := Attr("href", link);
            Keeps("a", attr) == Some(true) && Clean(attr) == Attr("href", EscapeAttrValue(link))
  {
    LowerFixed("href");
    hide IsSafeUrl, EscapeAttrValue, LowerAll;
  }

  lemma KeptOne(attr: Attr)
    requires Keeps("a", attr) == Some(true)
    ensures KeptAttrs("a", [attr]) == Some([Clean(attr)])
  {
    hide Keeps, Clean;
    assert [attr][1..] == [];
    assert KeptAttrs("a", []) == Some([]);
    assert [Clean(attr)] + [] == [Clean(attr)];
  }

  lemma LinkAttrs(link: string)
    requires NoAngles(link) && '"' !in link && IsSafeUrl(link) == Some(true)
    ensures KeptAttrs("a", ScanAttrs(RenderAttr(Attr("href", link)))) == Some([Attr("href", EscapeAttrValue(link))])
  {
    var attr := Attr("href", link);
    assert Scannable(attr);
    assert [attr][1..] == [] && RenderAttrs([attr]) == RenderAttr(attr);
    hide *;
    AttrsFound([attr]);
    HrefKept(link);
    KeptOne(attr);
  }

  lemma OneTag(s: string, node: Node)
    requires MatchTag(s).TagHit? && MatchTag(s).len == |s| && TagNodes(MatchTag(s)) == Some([node])
    ensures Nodes(s) == Some([node])
  {
    hide MatchTag, TagNodes;
    assert s[|s|..] == "" && Nodes("") == Some([]);
    assert [node] + [] == [node];
  }

  lemma OneNodeTrimmed(node: Node)
    requires !node.Char?
    ensures TrimNodes([node]) == [node]
  {
    assert node in [node] && [node][1..] == [] && !AllBlank([node]);
    assert DropBlankEnd([]) == [] && [node] + [] == [node];
  }

  lemma OpenNode(t: TagHit, attrs: seq<Attr>)
    requires t.TagHit? && !t.closing && t.name == "a" && KeptAttrs("a", ScanAttrs(t.raw)) == Some(attrs)
    ensures TagNodes(t) == Some([Open("a", attrs)])
  {
    LowerFixed("a");
    hide KeptAttrs, ScanAttrs, LowerAll;
  }

  lemma OutputOf(s: string, nodes: seq<Node>)
    requires Stripped(s) == s && Nodes(s) == Some(nodes)
    ensures OutputNodes(s) == Some(TrimNodes(nodes))
  {
    hide Stripped, Nodes, TrimNodes;
  }

  lemma LinkOutput(link: string)
    requires NoAngles(link) && '"' !in link && IsSafeUrl(link) == Some(true)
    ensures OutputNodes(LinkInput(link)) == Some([Open("a", [Attr("href", EscapeAttrValue(link))])])
  {
    hide *;
    var s := LinkInput(link);
    var node := Open("a", [Attr("href", EscapeAttrValue(link))]);
    LinkTag(link);
    LinkStripped(link);
    LinkAttrs(link);
    OpenNode(MatchTag(s), node.attrs);
    OneTag(s, node);
    OneNodeTrimmed(node);
    OutputOf(s, [node]);
  }

  /** For one safe link, sanitising twice is sanitising once if and only if the part of the link before the
      first character that escaping replaces names no forbidden scheme. */
  lemma LinkTwice(link: string)
    requires NoAngles(link) && '"' !in link && IsSafeUrl(link) == Some(true)
    ensures var once := Sanitize(LinkInput(link));
            && once.Some?
            && (Sanitize(once.value) == once <==> StaysSafe(link))
  {
    var node := Open("a", [Attr("href", EscapeAttrValue(link))]);
    hide Sanitize, OutputNodes, LinkInput, EscapeAttrValue, IsSafeUrl, StaysSafe;
    LinkOutput(link);
    OutputInLanguage(LinkInput(link));
    SanitizeTwice(LinkInput(link));
    SafeAfterEscapingIff(link);
    assert LinksReadBack([node]) <==> LinksSafe(node.attrs);
    assert LinksSafe(node.attrs) <==> IsSafeUrl(EscapeAttrValue(link)) == Some(true) by {
      assert node.attrs[0] in node.attrs;
    }
  }

  // ----- a link that is not stable ------------------------------------------------

  /** Decoding joins the parts of this link into one reference; escaping parts them, and
      what remains of the first is the colon of a scheme. */
  const UNSTABLE_LINK := "x" + ("&#x26;" + ("#58" + "&#x39"))
  const UNSTABLE_ESCAPED := "x" + ("&#x26;" + ("#58" + CUT))

  lemma NumericAt(lead: string, digits: string, tail: string, isDigit: char -> bool)
    requires digits != "" && forall i :: 0 <= i < |digits| ==> isDigit(digits[i])
    requires tail == "" || !isDigit(tail[0])
    ensures var s := lead + (digits + tail);
            && NumericRef(s, lead, isDigit) == |lead| + |digits| + (if tail != "" && tail[0] == ';' then 1 else 0)
            && s[|lead|..][..Span(isDigit, s[|lead|..])] == digits
  {
    var s := lead + (digits + tail);
    assert s[|lead|..] == digits + tail;
    SpanUnique(isDigit, digits, tail);
  }

  lemma HexAmpersand(tail: string)
    requires tail == "" || !IsHex(tail[0])
    ensures HexRef("&#x26;" + tail) == Match(6, "&", false)
  {
    var s := "&#x" + ("26" + (";" + tail));
    assert "&#x26;" + tail == s;
    NumericAt("&#x", "26", ";" + tail, IsHex);
    assert "26"[..1] == "2" && "2"[..0] == "";
    assert ParseHex("2") == 2 && ParseHex("26") == 38;
  }

  lemma HexNine()
    ensures HexRef("&#x39") == Match(5, "9", false)
  {
    assert "&#x39" == "&#x" + ("39" + "");
    NumericAt("&#x", "39", "", IsHex);
    assert "39"[..1] == "3" && "3"[..0] == "";
    assert ParseHex("3") == 3 && ParseHex("39") == 57;
  }

  lemma DecColon(tail: string)
    requires tail != "" && !IsDigit(tail[0]) && tail[0] != ';'
    ensures DecRef("&#58" + tail) == Match(4, ":", false)
  {
    hide *;
    Associative("&#", "58", tail);
    assert "&#" + "58" == "&#58";
    FiftyEight();
    DecAt("58", tail);
  }

  lemma DecAt(digits: string, tail: string)
    requires digits != "" && forall i :: 0 <= i < |digits| ==> IsDigit(digits[i])
    requires tail != "" && !IsDigit(tail[0]) && tail[0] != ';' && ParseDec(digits) <= MAX_CODE_POINT
    ensures DecRef("&#" + (digits + tail)) == Match(2 + |digits|, FromCodePoint(ParseDec(digits)), false)
  {
    NumericAt("&#", digits, tail, IsDigit);
    hide ParseDec, Span, NumericRef, FromCodePoint, IsDigit;
  }

  lemma FiftyEight()
    ensures |"58"| == 2 && forall i :: 0 <= i < 2 ==> IsDigit("58"[i])
    ensures ParseDec("58") == 58 <= MAX_CODE_POINT && FromCodePoint(58) == ":"
  {
    assert "58"[..1] == "5" && "5"[..0] == "";
    assert ParseDec("5") == 5;
  }

  lemma DecJoined()
    ensures DecRef("&#589") == Match(5, "\U{024D}", false)
  {
    assert "&#589" == "&#" + ("589" + "");
    NumericAt("&#", "589", "", IsDigit);
    assert "589"[..2] == "58" && "58"[..1] == "5" && "5"[..0] == "";
    assert ParseDec("5") == 5 && ParseDec("58") == 58 && ParseDec("589") == 589;
  }

  predicate PlainText(s: string) { forall i :: 0 <= i < |s| ==> !Special(s[i]) }

  /** One pass over a plain text that a reference follows. */
  lemma PassOver(p: Pattern, plain: string, s: string, len: nat, text: string)
    requires Local(p) && PlainText(plain) && 0 < len <= |s| && p(s) == Match(len, text, false)
    ensures ReplaceAll(p, plain + s) == plain + (text + ReplaceAll(p, s[len..]))
    ensures Raises(p, plain + s) == Raises(p, s[len..])
  {
    ReplaceCopies(p, plain, s);
  }

  lemma PlainTexts(p: Pattern)
    requires Local(p)
    ensures PlainText("x") && PlainText("#58")
    ensures ReplaceAll(p, "") == "" && !Raises(p, "")
  {
  }

  lemma UnstableHexPass()
    ensures ReplaceAll(HexRef, UNSTABLE_LINK) == "x" + "&#589" && !Raises(HexRef, UNSTABLE_LINK)
  {
    var u, ref, v, tail := "x", "&#x26;", "#58", "&#x39";
    assert UNSTABLE_LINK == u + (ref + (v + tail));
    hide *;
    HexLocal();
    PlainTexts(HexRef);
    HexNine();
    ReplaceWhole(HexRef, "&#x39", "9");
    HashNotHex("&#x39");
    HexAmpersand("#58" + "&#x39");
    PassBoth(HexRef, u, ref, "&", v, tail, "9");
    assert "&" + ("#58" + "9") == "&#589";
  }

  lemma HashNotHex(s: string)
    ensures "#58" + s != "" && !IsHex(("#58" + s)[0])
  {
  }

  lemma ReplaceWhole(p: Pattern, s: string, text: string)
    requires s != "" && p(s) == Match(|s|, text, false)
    ensures ReplaceAll(p, s) == text && !Raises(p, s)
  {
    assert s[|s|..] == "" && ReplaceAll(p, "") == "" && text + "" == text;
  }

  /** One pass over two plain texts, a reference between them and a tail. */
  lemma PassBoth(p: Pattern, u: string, ref: string, text: string, v: string, tail: string, out: string)
    requires Local(p) && PlainText(u) && PlainText(v) && ref != ""
    requires p(ref + (v + tail)) == Match(|ref|, text, false)
    requires ReplaceAll(p, tail) == out && !Raises(p, tail)
    ensures ReplaceAll(p, u + (ref + (v + tail))) == u + (text + (v + out)) && !Raises(p, u + (ref + (v + tail)))
  {
    hide *;
    ReplacePlain(p, v, tail);
    assert (ref + (v + tail))[|ref|..] == v + tail;
    PassOver(p, u, ref + (v + tail), |ref|, text);
  }

  lemma UnstableDecPass()
    ensures ReplaceAll(DecRef, "x" + "&#589") == "x\U{024D}" && !Raises(DecRef, "x" + "&#589")
  {
    hide *;
    DecLocal();
    PlainTexts(DecRef);
    DecJoined();
    assert "&#589"[5..] == "";
    PassOver(DecRef, "x", "&#589", 5, "\U{024D}");
    assert "x" + ("\U{024D}" + "") == "x\U{024D}";
  }

  lemma DecodesBy(value: string, hex: string, dec: string, named: string)
    requires ReplaceAll(HexRef, value) == hex && !Raises(HexRef, value)
    requires ReplaceAll(DecRef, hex) == dec && !Raises(DecRef, hex)
    requires ReplaceAll(NamedRef, dec) == named
    ensures DecodeForSchemeCheck(value) == Some(Normalize(named))
  {
    hide HexRef, DecRef, NamedRef, ReplaceAll, Raises, Normalize;
  }

  lemma JoinedNormalizes()
    ensures Normalize("x\U{024D}") == "x\U{024D}"
  {
    assert "x\U{024D}"[1..] == "\U{024D}" && "\U{024D}"[1..] == "";
    assert Normalize("\U{024D}") == "\U{024D}" + Normalize("");
    assert Normalize("x\U{024D}") == "x" + Normalize("\U{024D}");
  }

  /** Decoding this link as it is yields no scheme. */
  lemma UnstableDecodes()
    ensures DecodeForSchemeCheck(UNSTABLE_LINK) == Some("x\U{024D}")
  {
    assert PlainText("x\U{024D}");
    hide *;
    UnstableHexPass();
    UnstableDecPass();
    NamedLocal();
    PlainTexts(NamedRef);
    ReplacePlain(NamedRef, "x\U{024D}", "");
    assert "x\U{024D}" + "" == "x\U{024D}";
    DecodesBy(UNSTABLE_LINK, "x" + "&#589", "x\U{024D}", "x\U{024D}");
    JoinedNormalizes();
  }

  /** What the escaping leaves alone of the link's end. */
  const CUT := "&" + ("amp;" + "#x39")

  lemma CutPasses()
    ensures ReplaceAll(HexRef, CUT) == CUT && !Raises(HexRef, CUT)
    ensures ReplaceAll(DecRef, CUT) == CUT && !Raises(DecRef, CUT)
    ensures ReplaceAll(NamedRef, CUT) == CUT
  {
    hide *;
    HexLocal();
    DecLocal();
    NamedLocal();
    CutMissed();
    PassesBy(HexRef, CUT);
    PassesBy(DecRef, CUT);
    PassesBy(NamedRef, CUT);
  }

  /** No reference begins the text, and none can begin after its first character. */
  lemma CutMissed()
    ensures CUT != "" && PlainText(CUT[1..])
    ensures !Hits(HexRef, CUT) && !Hits(DecRef, CUT) && !Hits(NamedRef, CUT)
  {
    NotNamed("amp;", "#x39");
    var c := CUT;
    assert c[1] == 'a' && |c| == 9;
    assert c[1..] == "amp;" + "#x39" && PlainText("amp;") && PlainText("#x39");
    hide NamedRef, Special;
  }

  /** A pass leaves a text alone that it does not hit at its head and that is plain from there on. */
  lemma PassesBy(p: Pattern, s: string)
    requires Local(p) && s != "" && PlainText(s[1..]) && !Hits(p, s)
    ensures ReplaceAll(p, s) == s && !Raises(p, s)
  {
    hide *;
    ReplaceStep(p, s);
    NothingReplaced(p);
    ReplacePlain(p, s[1..], "");
    assert s[1..] + "" == s[1..] && [s[0]] + s[1..] == s;
  }

  lemma NothingReplaced(p: Pattern)
    ensures ReplaceAll(p, "") == "" && !Raises(p, "")
  {
  }

  lemma EscapedText(u: string, ref: string, v: string)
    requires u == "x" && ref == "&#x26;" && v == "#58"
    ensures UNSTABLE_ESCAPED == u + (ref + (v + CUT))
  {
  }

  lemma EscapedHexPass()
    ensures ReplaceAll(HexRef, UNSTABLE_ESCAPED) == "x" + ("&#58" + CUT) && !Raises(HexRef, UNSTABLE_ESCAPED)
  {
    hide *;
    var u, ref, v := "x", "&#x26;", "#58";
    EscapedText(u, ref, v);
    HexLocal();
    PlainTexts(HexRef);
    CutPasses();
    HashNotHex(CUT);
    HexAmpersand("#58" + CUT);
    PassBoth(HexRef, u, ref, "&", v, CUT, CUT);
    Associative("&", "#58", CUT);
    assert "&" + "#58" == "&#58";
  }

  lemma ReplacePlain(p: Pattern, plain: string, rest: string)
    requires Local(p) && PlainText(plain)
    ensures ReplaceAll(p, plain + rest) == plain + ReplaceAll(p, rest) && Raises(p, plain + rest) == Raises(p, rest)
  {
    ReplaceCopies(p, plain, rest);
  }

  lemma EscapedDecPass()
    ensures ReplaceAll(DecRef, "x" + ("&#58" + CUT)) == "x:" + CUT && !Raises(DecRef, "x" + ("&#58" + CUT))
  {
    hide *;
    CutHead();
    DecLocal();
    PlainTexts(DecRef);
    CutPasses();
    DecColon(CUT);
    PassOne(DecRef, "x", "&#58", ":", CUT, CUT);
    Associative("x", ":", CUT);
    assert "x" + ":" == "x:";
  }

  lemma CutHead()
    ensures CUT != "" && !IsDigit(CUT[0]) && CUT[0] != ';'
  {
  }

  /** One pass over a plain text, a reference and a tail. */
  lemma PassOne(p: Pattern, u: string, ref: string, text: string, tail: string, out: string)
    requires Local(p) && PlainText(u) && ref != "" && p(ref + tail) == Match(|ref|, text, false)
    requires ReplaceAll(p, tail) == out && !Raises(p, tail)
    ensures ReplaceAll(p, u + (ref + tail)) == u + (text + out) && !Raises(p, u + (ref + tail))
  {
    hide *;
    assert (ref + tail)[|ref|..] == tail;
    PassOver(p, u, ref + tail, |ref|, text);
  }

  lemma {:induction false} NormalizePlain(s: string)
    requires forall i :: 0 <= i < |s| ==> '!' <= s[i] <= '~' && Lower(s[i]) == s[i]
    ensures Normalize(s) == s
  {
    if s != "" {
      NormalizePlain(s[1..]);
    }
  }

  lemma CutNormalizes()
    ensures Normalize("x:" + CUT) == "x:" + CUT && PlainText("x:")
  {
    NormalizePlain("x:" + CUT);
  }

  /** Decoding it after escaping yields the scheme `x`. */
  lemma EscapedDecodesTo()
    ensures DecodeForSchemeCheck(UNSTABLE_ESCAPED) == Some("x:" + CUT)
  {
    hide *;
    EscapedHexPass();
    EscapedDecPass();
    NamedLocal();
    CutPasses();
    CutNormalizes();
    ReplacePlain(NamedRef, "x:", CUT);
    DecodesBy(UNSTABLE_ESCAPED, "x" + ("&#58" + CUT), "x:" + CUT, "x:" + CUT);
  }

  lemma EntityStays(rest: string)
    ensures EscapeOnce("&#x26;" + rest) == "&#x26;" + EscapeOnce(rest)
  {
    EntityHere(rest);
    var body := "#x26;";
    assert PlainText(body) && "&#x26;" == "&" + body;
    hide *;
    Associative("&", body, rest);
    KeptEntity(body, rest);
    Associative("&", body, EscapeOnce(rest));
  }

  lemma KeptEntity(body: string, rest: string)
    requires PlainText(body) && EscapeHead("&" + (body + rest)) == "&"
    ensures EscapeOnce("&" + (body + rest)) == "&" + (body + EscapeOnce(rest))
  {
    hide EscapeHead, EscapeOnce;
    var s := "&" + (body + rest);
    HeadStep(s);
    assert s[1..] == body + rest;
    CopiesPlain(body, rest);
  }

  lemma EntityHere(rest: string)
    ensures EscapeHead("&#x26;" + rest) == "&"
  {
    var s := "&#x26;" + rest;
    assert s[3..] == "26" + (";" + rest) && s[5] == ';';
    SpanUnique(IsHex, "26", ";" + rest);
    assert EntityHead(s);
    hide EntityHead;
  }

  lemma ReferenceCut()
    ensures EscapeOnce("&#x39") == CUT
  {
    hide *;
    BareReference();
    EscapeStep("&#x39");
    EmptyEscapes();
    CopiesPlain("#x39", "");
    assert "#x39" + "" == "#x39";
  }

  /** A reference without its semicolon is a bare ampersand to the escaper. */
  lemma BareReference()
    ensures EscapeHead("&#x39") == "&amp;" && "&#x39"[1..] == "#x39" && PlainText("#x39") && "&#x39" != ""
    ensures "&amp;" + "#x39" == CUT
    ensures forall i :: 0 <= i < |"#x39"| ==> !Special("#x39"[i])
  {
    var s := "&#x39";
    assert s[3..] == "39" + "" && s[2..] == "x39" && s[1..] == "#x39";
    SpanUnique(IsHex, "39", "");
    assert Span(IsDigit, "x39") == 0;
  }

  /** Escaping cuts the last reference off, since it lacks its semicolon. */
  lemma UnstableEscapes()
    ensures EscapeOnce(UNSTABLE_LINK) == UNSTABLE_ESCAPED
  {
    ReferenceCut();
    CopiesPlain("#58", "&#x39");
    EntityStays("#58" + "&#x39");
    CopiesPlain("x", "&#x26;" + ("#58" + "&#x39"));
  }

  /** Sanitising twice is not sanitising once: a link that the first run keeps, the second drops. */
  lemma NotIdempotent()
    ensures IsSafeUrl(UNSTABLE_LINK) == Some(true)
    ensures IsSafeUrl(EscapeAttrValue(UNSTABLE_LINK)) == Some(false)
    ensures var once := Sanitize(LinkInput(UNSTABLE_LINK));
            once.Some? && Sanitize(once.value) != once
  {
    hide *;
    UnstableVerdicts();
    UnstablePlain();
    SafeAfterEscapingIff(UNSTABLE_LINK);
    LinkTwice(UNSTABLE_LINK);
  }

  lemma UnstablePlain()
    ensures NoAngles(UNSTABLE_LINK) && '"' !in UNSTABLE_LINK
  {
    assert NoAngles("x") && NoAngles("&#x26;") && NoAngles("#58") && NoAngles("&#x39");
  }

  lemma UnstableVerdicts()
    ensures IsSafeUrl(UNSTABLE_LINK) == Some(true)
    ensures IsSafeUrl(EscapeAttrValue(UNSTABLE_LINK)) == Some(false)
  {
    UnstableDecodes();
    EscapedDecodesTo();
    EscapeIsOnePass(UNSTABLE_LINK);
    UnstableEscapes();
    hide DecodeForSchemeCheck, EscapeOnce, EscapeAttrValue;
    assert "x\U{024D}" == "x" + "\U{024D}" && "x:" + CUT == "x" + (":" + CUT);
    SpanUnique(IsSchemeChar, "x", "\U{024D}");
    SpanUnique(IsSchemeChar, "x", ":" + CUT);
  }
}
