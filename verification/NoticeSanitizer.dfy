/** The scanners behind the notice sanitiser's regular expressions. */
module HtmlScan {
  import opened Text
  import opened Wrappers

  // ----- comments, declarations and dangerous subtrees ------------------------

  /** Length of the lazy run up to and including `-->`, or up to the end of the text. */
  function CommentTail(s: string): (n: nat)
    ensures n <= |s|
  {
    if s == "" then 0 else if "-->" <= s then 3 else 1 + CommentTail(s[1..])
  }

  function Comment(s: string): Match {
    if "<!--" <= s then Match(4 + CommentTail(s[4..]), "", false) else NoMatch
  }

  function Declaration(s: string): Match {
    if !("<!" <= s) then NoMatch
    else
      var n := Span(Not('>'), s[2..]);
      if 2 + n < |s| then Match(3 + n, "", false) else NoMatch
  }

  const STRIPPED_SUBTREES: seq<string> := [
    "script", "style", "iframe", "object", "embed", "applet", "svg", "math",
    "template", "noscript", "noembed", "frame", "frameset", "form", "head"]

  /** Length of an opening `<`, the tag and a word boundary at the head of `s`; 0 if it is not there. */
  function SubtreeOpen(tag: string, s: string): (n: nat)
    ensures n <= |s|
  {
    if !("<" <= s) then 0
    else
      var a := 1 + Span(IsSpace, s[1..]);
      var b := a + |tag|;
      if StartsWithFold(s[a..], tag) && (b == |s| || !IsWord(s[b])) then b else 0
  }

  function SubtreeClose(tag: string, s: string): (n: nat)
    ensures n <= |s|
  {
    if !("<" <= s) then 0
    else
      var a := 1 + Span(IsSpace, s[1..]);
      if a == |s| || s[a] != '/' then 0
      else
        var b := a + 1 + Span(IsSpace, s[a + 1..]);
        if !StartsWithFold(s[b..], tag) then 0
        else
          var c := b + |tag| + Span(IsSpace, s[b + |tag|..]);
          if c < |s| && s[c] == '>' then c + 1 else 0
  }

  function SubtreeTail(tag: string, s: string): (n: nat)
    ensures n <= |s|
  {
    if s == "" then 0
    else if SubtreeClose(tag, s) > 0 then SubtreeClose(tag, s)
    else 1 + SubtreeTail(tag, s[1..])
  }

  function Subtree(tag: string): Pattern {
    (s: string) =>
      var n := SubtreeOpen(tag, s);
      if n == 0 then NoMatch else Match(n + SubtreeTail(tag, s[n..]), "", false)
  }

  function StripSubtrees(tags: seq<string>, s: string): string {
    if tags == [] then s else StripSubtrees(tags[1..], ReplaceAll(Subtree(tags[0]), s))
  }

  // ----- tags ----------------------------------------------------------------

  /** Length of a complete quoted string at the head of `s`; 0 if there is none. */
  function Quoted(s: string): (n: nat)
    ensures n <= |s|
  {
    if s != "" && (s[0] == '"' || s[0] == '\'') then
      var n := Span(Not(s[0]), s[1..]);
      if 1 + n < |s| then n + 2 else 0
    else 0
  }

  /** Length of the rest of a tag, its `>` included.  The choices are tried in the order of
      the expression: a quoted string, any character but `>`, the end of the tag. */
  function TagBody(s: string): (n: Option<nat>)
    ensures n.Some? ==> 0 < n.value <= |s| && s[n.value - 1] == '>'
    decreases |s|
  {
    if s == "" then None
    else
      var q := Quoted(s);
      var quoted := if q > 0 then TagBody(s[q..]) else None;
      if quoted.Some? then Some(q + quoted.value)
      else if s[0] != '>' then
        var next := TagBody(s[1..]);
        if next.Some? then Some(1 + next.value) else None
      else Some(1)
  }

  datatype TagHit = NoTag | TagHit(len: nat, closing: bool, name: string, raw: string)

  /** The name, the body and the `>` of a tag whose name begins at `b`. */
  function TagFrom(s: string, b: nat, closing: bool): (t: TagHit)
    requires b <= |s|
    ensures t.TagHit? ==> 0 < t.len <= |s|
  {
    if b == |s| || !IsLetter(s[b]) then NoTag
    else
      var e := b + Span(IsAlnum, s[b..]);
      var body := TagBody(s[e..]);
      if body.None? then NoTag
      else TagHit(e + body.value, closing, s[b..e], s[e..e + body.value - 1])
  }

  function MatchTag(s: string): (t: TagHit)
    ensures t.TagHit? ==> 0 < t.len <= |s| && s[0] == '<'
  {
    if s == "" || s[0] != '<' then NoTag
    else
      var a := 1 + Span(IsSpace, s[1..]);
      var closing := a < |s| && s[a] == '/';
      TagFrom(s, if closing then a + 1 + Span(IsSpace, s[a + 1..]) else a, closing)
  }

  /** `TAG.exec` with `lastIndex == from`: where the next tag starts, or the end of the text. */
  function NextTag(s: string, from: nat): (i: nat)
    requires from <= |s|
    ensures from <= i <= |s|
    ensures i < |s| ==> MatchTag(s[i..]).TagHit?
    ensures forall k :: from <= k < i ==> MatchTag(s[k..]).NoTag?
    decreases |s| - from
  {
    hide MatchTag;
    if from == |s| || MatchTag(s[from..]).TagHit? then from else NextTag(s, from + 1)
  }

  // ----- attributes ----------------------------------------------------------

  datatype Attr = Attr(name: string, value: string)

  datatype AttrHit = NoAttr | AttrHit(len: nat, attr: Attr)

  predicate IsNameStart(c: char) { IsLetter(c) || c == '_' || c == ':' }

  predicate IsNameChar(c: char) { IsAlnum(c) || c == ':' || c == '.' || c == '_' || c == '-' }

  predicate IsUnquoted(c: char) { !IsSpace(c) && c != '"' && c != '\'' && c != '>' }

  /** The value that begins at `v`, of an attribute whose name ends at `n`. */
  function ValueFrom(s: string, n: nat, v: nat): (a: AttrHit)
    requires n <= |s| && v <= |s|
    ensures a.AttrHit? ==> 0 < a.len <= |s|
  {
    var q := Quoted(s[v..]);
    if q > 0 then AttrHit(v + q, Attr(s[..n], s[v + 1..v + q - 1]))
    else
      var u := Span(IsUnquoted, s[v..]);
      if u > 0 then AttrHit(v + u, Attr(s[..n], s[v..v + u])) else NoAttr
  }

  function MatchAttr(s: string): (a: AttrHit)
    ensures a.AttrHit? ==> 0 < a.len <= |s|
  {
    if s == "" || !IsNameStart(s[0]) then NoAttr
    else
      var n := Span(IsNameChar, s);
      var e := n + Span(IsSpace, s[n..]);
      if e == |s| || s[e] != '=' then NoAttr
      else ValueFrom(s, n, e + 1 + Span(IsSpace, s[e + 1..]))
  }

  function NextAttr(s: string, from: nat): (i: nat)
    requires from <= |s|
    ensures from <= i <= |s|
    ensures i < |s| ==> MatchAttr(s[i..]).AttrHit?
    ensures forall k :: from <= k < i ==> MatchAttr(s[k..]).NoAttr?
    decreases |s| - from
  {
    hide MatchAttr;
    if from == |s| || MatchAttr(s[from..]).AttrHit? then from else NextAttr(s, from + 1)
  }

  /** All the attributes that repeated `ATTR.exec` finds, in order. */
  function ScanAttrs(s: string): seq<Attr> {
    if s == "" then []
    else
      match MatchAttr(s)
      case NoAttr => ScanAttrs(s[1..])
      case AttrHit(len, attr) => [attr] + ScanAttrs(s[len..])
  }
}

/** The sanitiser: what it keeps of a notice body, and the loops that write it out. */
module NoticeSanitizer {
  import opened Text
  import opened Wrappers
  import opened UrlCheck
  import opened HtmlScan

  const FLOW_TAGS: seq<string> := ["p", "br", "hr", "div", "span"]
  const INLINE_TAGS: seq<string> := ["strong", "b", "em", "i", "u", "s", "sub", "sup", "mark"]
  const LIST_TAGS: seq<string> := ["ul", "ol", "li", "h1", "h2", "h3", "h4", "h5", "h6"]
  const QUOTE_TAGS: seq<string> := ["blockquote", "pre", "code", "a"]
  const TABLE_TAGS: seq<string> := ["table", "thead", "tbody", "tfoot", "tr", "th", "td", "caption"]

  predicate IsAllowedTag(name: string) {
    name in FLOW_TAGS || name in INLINE_TAGS || name in LIST_TAGS || name in QUOTE_TAGS || name in TABLE_TAGS
  }

  predicate IsAllowedAttr(tag: string, name: string) {
    if tag == "a" then name == "href" || name == "title"
    else (tag == "th" || tag == "td") && (name == "colspan" || name == "rowspan")
  }

  // ----- what is kept --------------------------------------------------------

  /** Whether the attribute stays; None when reading its scheme throws. */
  function Keeps(tag: string, attr: Attr): Option<bool> {
    var name := LowerAll(attr.name);
    if !IsAllowedAttr(tag, name) then Some(false)
    else if name == "href" then IsSafeUrl(attr.value)
    else Some(true)
  }

  function Clean(attr: Attr): Attr { Attr(LowerAll(attr.name), EscapeAttrValue(attr.value)) }

  /** The attributes that stay on a tag, names lower-cased and values escaped. */
  function KeptAttrs(tag: string, attrs: seq<Attr>): Option<seq<Attr>> {
    if attrs == [] then Some([])
    else
      var keep, rest := Keeps(tag, attrs[0]), KeptAttrs(tag, attrs[1..]);
      if keep.None? || rest.None? then None
      else if keep.value then Some([Clean(attrs[0])] + rest.value)
      else rest
  }

  predicate HasHref(attrs: seq<Attr>) { exists a :: a in attrs && a.name == "href" }

  function RenderAttr(attr: Attr): string { " " + attr.name + "=\"" + attr.value + "\"" }

  function RenderAttrs(attrs: seq<Attr>): string {
    if attrs == [] then "" else RenderAttr(attrs[0]) + RenderAttrs(attrs[1..])
  }

  const TARGET := Attr("target", "_blank")
  const REL := Attr("rel", "noopener noreferrer nofollow")

  /** The fixed attributes of a link that kept its target. */
  function SuffixAttrs(tag: string, hasHref: bool): seq<Attr> {
    if tag == "a" && hasHref then [TARGET, REL] else []
  }

  function Suffix(tag: string, hasHref: bool): string { RenderAttrs(SuffixAttrs(tag, hasHref)) }

  /** Everything between the tag name and `>`. */
  function AttrText(tag: string, attrs: seq<Attr>): string {
    RenderAttrs(attrs) + Suffix(tag, HasHref(attrs))
  }

  /** The output as a sequence of characters and tags. */
  datatype Node = Char(c: char) | Open(name: string, attrs: seq<Attr>) | Close(name: string)

  function CharNodes(s: string): (nodes: seq<Node>)
    ensures |nodes| == |s| && forall i :: 0 <= i < |s| ==> nodes[i] == Char(s[i])
  {
    seq(|s|, i requires 0 <= i < |s| => Char(s[i]))
  }

  function EscapeChar(c: char): string { if c == '<' then "&lt;" else [c] }

  function TagNodes(t: TagHit): Option<seq<Node>>
    requires t.TagHit?
  {
    var name := LowerAll(t.name);
    if !IsAllowedTag(name) then Some([])
    else if t.closing then Some([Close(name)])
    else
      var attrs := KeptAttrs(name, ScanAttrs(t.raw));
      if attrs.None? then None else Some([Open(name, attrs.value)])
  }

  function Append(a: Option<seq<Node>>, b: Option<seq<Node>>): Option<seq<Node>> {
    if a.None? || b.None? then None else Some(a.value + b.value)
  }

  /** The nodes kept of a cleaned text; None when sanitising it throws. */
  function Nodes(html: string): Option<seq<Node>> {
    if html == "" then Some([])
    else
      var t := MatchTag(html);
      if t.NoTag? then Append(Some(CharNodes(EscapeChar(html[0]))), Nodes(html[1..]))
      else Append(TagNodes(t), Nodes(html[t.len..]))
  }

  function RenderNode(node: Node): string {
    match node
    case Char(c) => [c]
    case Open(name, attrs) => "<" + name + AttrText(name, attrs) + ">"
    case Close(name) => "</" + name + ">"
  }

  function Render(nodes: seq<Node>): string {
    if nodes == [] then "" else RenderNode(nodes[0]) + Render(nodes[1..])
  }

  /** Comments, declarations and dangerous subtrees removed. */
  function Stripped(input: string): string {
    StripSubtrees(STRIPPED_SUBTREES, ReplaceAll(Declaration, ReplaceAll(Comment, input)))
  }

  /** The sanitised body; None when `String.fromCodePoint` throws on the way. */
  function Sanitize(input: string): Option<string> {
    var nodes := Nodes(Stripped(input));
    if nodes.None? then None else Some(Trim(Render(nodes.value)))
  }

  // ----- small facts about rendering -----------------------------------------

  lemma {:induction false} RenderAppend(a: seq<Node>, b: seq<Node>)
    ensures Render(a + b) == Render(a) + Render(b)
  {
    if a == [] {
      assert a + b == b;
    } else {
      assert (a + b)[1..] == a[1..] + b;
      RenderAppend(a[1..], b);
    }
  }

  lemma {:induction false} RenderAttrsAppend(a: seq<Attr>, b: seq<Attr>)
    ensures RenderAttrs(a + b) == RenderAttrs(a) + RenderAttrs(b)
  {
    if a == [] {
      assert a + b == b;
    } else {
      assert (a + b)[1..] == a[1..] + b;
      RenderAttrsAppend(a[1..], b);
    }
  }

  lemma {:induction false} RenderChars(s: string)
    ensures Render(CharNodes(s)) == s
  {
    if s != "" {
      assert CharNodes(s)[1..] == CharNodes(s[1..]);
      RenderChars(s[1..]);
    }
  }

  // ----- the loops -----------------------------------------------------------

  function EscapeText(text: string): string { ReplaceAll(Literal("<", "&lt;"), text) }

  /** No attribute starts between two indices, so scanning may jump. */
  lemma {:induction false} ScanSkips(raw: string, from: nat, end: nat)
    requires from <= end <= |raw|
    requires forall k :: from <= k < end ==> MatchAttr(raw[k..]).NoAttr?
    ensures ScanAttrs(raw[from..]) == ScanAttrs(raw[end..])
    decreases end - from
  {
    if from < end {
      assert raw[from..][1..] == raw[from + 1..];
      ScanSkips(raw, from + 1, end);
    }
  }

  /** What one hit of the expression adds to the attributes still to come. */
  lemma ScanHit(raw: string, from: nat, index: nat)
    requires from <= |raw| && index == NextAttr(raw, from) < |raw|
    ensures var hit := MatchAttr(raw[index..]);
            ScanAttrs(raw[from..]) == [hit.attr] + ScanAttrs(raw[index + hit.len..])
  {
    hide MatchAttr, NextAttr;
    ScanSkips(raw, from, index);
    assert raw[index..][MatchAttr(raw[index..]).len..] == raw[index + MatchAttr(raw[index..]).len..];
  }

  /** The attributes kept so far followed by those still to come. */
  function After(kept: seq<Attr>, rest: Option<seq<Attr>>): Option<seq<Attr>> {
    if rest.None? then None else Some(kept + rest.value)
  }

  lemma AfterNone(attrs: Option<seq<Attr>>)
    ensures After([], attrs) == attrs
  {
    assert attrs.Some? ==> [] + attrs.value == attrs.value;
  }

  lemma KeepStep(tag: string, kept: seq<Attr>, attr: Attr, attrs: seq<Attr>)
    ensures var rest := KeptAttrs(tag, attrs);
            After(kept, KeptAttrs(tag, [attr] + attrs))
              == match Keeps(tag, attr)
                 case None => None
                 case Some(keep) => After(if keep then kept + [Clean(attr)] else kept, rest)
  {
    assert ([attr] + attrs)[1..] == attrs;
    var rest := KeptAttrs(tag, attrs);
    hide Keeps, KeptAttrs, Clean;
    assert rest.Some? ==> kept + ([Clean(attr)] + rest.value) == kept + [Clean(attr)] + rest.value;
  }

  lemma LoopStart(tag: string, raw: string)
    ensures After([], KeptAttrs(tag, ScanAttrs(raw[0..]))) == KeptAttrs(tag, ScanAttrs(raw))
    ensures RenderAttrs([]) == "" && !HasHref([])
  {
    assert raw[0..] == raw;
    AfterNone(KeptAttrs(tag, ScanAttrs(raw)));
  }

  lemma NothingLeft(tag: string, raw: string, from: nat, kept: seq<Attr>)
    requires from <= |raw| == NextAttr(raw, from)
    ensures After(kept, KeptAttrs(tag, ScanAttrs(raw[from..]))) == Some(kept)
    ensures AttrText(tag, kept) == RenderAttrs(kept) + Suffix(tag, HasHref(kept))
  {
    assert kept + [] == kept;
    ScanSkips(raw, from, |raw|);
    assert raw[|raw|..] == "";
  }

  /** The attribute loop writes the kept attributes, then the link suffix. */
  method BuildAttributes(tag: string, raw: string) returns (out: Option<string>)
    ensures var kept := KeptAttrs(tag, ScanAttrs(raw));
            out == if kept.None? then None else Some(AttrText(tag, kept.value))
  {
    hide MatchAttr, NextAttr, ScanAttrs, KeptAttrs, RenderAttrs, RenderAttr, HasHref, Keeps, Clean, Suffix, AttrText;
    if tag != "a" && tag != "th" && tag != "td" {
      NothingAllowed(tag, ScanAttrs(raw));
      return Some("");
    }
    LoopStart(tag, raw);
    var text, hasHref, lastIndex := "", false, 0;
    ghost var kept: seq<Attr> := [];
    ghost var all := KeptAttrs(tag, ScanAttrs(raw));
    var index := NextAttr(raw, lastIndex);
    while index < |raw|
      invariant lastIndex <= |raw| && index == NextAttr(raw, lastIndex)
      invariant all == After(kept, KeptAttrs(tag, ScanAttrs(raw[lastIndex..])))
      invariant text == RenderAttrs(kept) && hasHref == HasHref(kept)
      decreases |raw| - lastIndex
    {
      var hit := MatchAttr(raw[index..]);
      ScanHit(raw, lastIndex, index);
      KeepStep(tag, kept, hit.attr, ScanAttrs(raw[index + hit.len..]));
      lastIndex := index + hit.len;
      index := NextAttr(raw, lastIndex);
      var keep := Keeps(tag, hit.attr);
      if keep.None? {
        return None;
      }
      if keep.value {
        var attr := Clean(hit.attr);
        KeptGrows(kept, attr);
        kept := kept + [attr];
        hasHref := hasHref || attr.name == "href";
        text := text + RenderAttr(attr);
      }
    }
    NothingLeft(tag, raw, lastIndex, kept);
    return Some(text + Suffix(tag, hasHref));
  }

  lemma KeptGrows(kept: seq<Attr>, attr: Attr)
    ensures HasHref(kept + [attr]) <==> HasHref(kept) || attr.name == "href"
    ensures RenderAttrs(kept + [attr]) == RenderAttrs(kept) + RenderAttr(attr)
  {
    assert attr in kept + [attr];
    assert [attr][1..] == [];
    RenderAttrsAppend(kept, [attr]);
  }

  lemma {:induction false} NothingAllowed(tag: string, attrs: seq<Attr>)
    requires tag != "a" && tag != "th" && tag != "td"
    ensures KeptAttrs(tag, attrs) == Some([])
    ensures AttrText(tag, []) == ""
  {
    if attrs != [] {
      NothingAllowed(tag, attrs[1..]);
    }
  }

  lemma CharNodesAppend(a: string, b: string)
    ensures CharNodes(a + b) == CharNodes(a) + CharNodes(b)
  {
  }

  lemma EscapeTextStep(text: string)
    requires text != ""
    ensures EscapeText(text) == EscapeChar(text[0]) + EscapeText(text[1..])
  {
  }

  lemma AppendAssociates(a: seq<Node>, b: Option<seq<Node>>, c: Option<seq<Node>>)
    ensures Append(Some(a), Append(b, c)) == Append(Append(Some(a), b), c)
  {
    if b.Some? && c.Some? {
      assert a + (b.value + c.value) == a + b.value + c.value;
    }
  }

  lemma AppendNone(a: Option<seq<Node>>)
    ensures Append(Some([]), a) == a
  {
    assert a.Some? ==> [] + a.value == a.value;
  }

  /** The text before the next tag becomes its escaped characters. */
  lemma {:induction false} NodesOfText(html: string, from: nat, end: nat)
    requires from <= end <= |html|
    requires forall k :: from <= k < end ==> MatchTag(html[k..]).NoTag?
    ensures Nodes(html[from..]) == Append(Some(CharNodes(EscapeText(html[from..end]))), Nodes(html[end..]))
    decreases end - from
  {
    if from == end {
      assert html[from..end] == "" && CharNodes("") == [];
      AppendNone(Nodes(html[end..]));
    } else {
      var text := html[from..end];
      NodesOfText(html, from + 1, end);
      assert html[from..][1..] == html[from + 1..] && text[1..] == html[from + 1..end];
      var head, tail := EscapeChar(html[from]), EscapeText(text[1..]);
      EscapeTextStep(text);
      CharNodesAppend(head, tail);
      assert Nodes(html[from..]) == Append(Some(CharNodes(head)), Nodes(html[from + 1..])) by {
        assert html[from..][0] == html[from];
      }
      AppendAssociates(CharNodes(head), Some(CharNodes(tail)), Nodes(html[end..]));
    }
  }

  lemma NodesOfTag(html: string, index: nat)
    requires index < |html| && MatchTag(html[index..]).TagHit?
    ensures var t := MatchTag(html[index..]);
            Nodes(html[index..]) == Append(TagNodes(t), Nodes(html[index + t.len..]))
  {
    hide MatchTag, TagNodes;
    assert html[index..][MatchTag(html[index..]).len..] == html[index + MatchTag(html[index..]).len..];
  }

  /** One turn of the tag loop: the text up to the tag, then what the tag leaves. */
  lemma TagStep(html: string, done: seq<Node>, cursor: nat, index: nat)
    requires cursor <= |html| && index == NextTag(html, cursor) < |html|
    ensures var t := MatchTag(html[index..]);
            var text := EscapeText(html[cursor..index]);
            && Append(Some(done), Nodes(html[cursor..]))
               == Append(Append(Some(done + CharNodes(text)), TagNodes(t)), Nodes(html[index + t.len..]))
            && Render(done + CharNodes(text)) == Render(done) + text
  {
    hide MatchTag, NextTag, TagNodes, Nodes, Render, EscapeText, CharNodes;
    var t := MatchTag(html[index..]);
    var text := EscapeText(html[cursor..index]);
    assert Nodes(html[index..]) == Append(TagNodes(t), Nodes(html[index + t.len..])) by {
      NodesOfTag(html, index);
    }
    NodesOfText(html, cursor, index);
    AppendAssociates(done, Some(CharNodes(text)), Nodes(html[index..]));
    AppendAssociates(done + CharNodes(text), TagNodes(t), Nodes(html[index + t.len..]));
    RenderChars(text);
    RenderAppend(done, CharNodes(text));
  }

  lemma RenderOne(done: seq<Node>, node: Node)
    ensures Render(done + [node]) == Render(done) + RenderNode(node)
  {
    assert [node][1..] == [];
    RenderAppend(done, [node]);
  }

  lemma LastText(html: string, done: seq<Node>, cursor: nat)
    requires cursor <= |html| == NextTag(html, cursor)
    ensures var nodes := Append(Some(done), Nodes(html[cursor..]));
            nodes.Some? && Render(nodes.value) == Render(done) + EscapeText(html[cursor..])
  {
    hide MatchTag, NextTag, EscapeText;
    var text := EscapeText(html[cursor..]);
    NodesOfText(html, cursor, |html|);
    assert html[cursor..|html|] == html[cursor..];
    assert Nodes(html[|html|..]) == Some([]);
    assert CharNodes(text) + [] == CharNodes(text);
    RenderChars(text);
    RenderAppend(done, CharNodes(text));
  }

  /** The passes before the tag loop. */
  method StripMarkup(input: string) returns (html: string)
    ensures html == Stripped(input)
  {
    html := ReplaceAll(Declaration, ReplaceAll(Comment, input));
    var k := 0;
    while k < |STRIPPED_SUBTREES|
      invariant 0 <= k <= |STRIPPED_SUBTREES|
      invariant StripSubtrees(STRIPPED_SUBTREES[k..], html) == Stripped(input)
    {
      html := ReplaceAll(Subtree(STRIPPED_SUBTREES[k]), html);
      k := k + 1;
    }
  }

  lemma NodesStart(html: string)
    ensures Append(Some([]), Nodes(html[0..])) == Nodes(html) && Render([]) == ""
  {
    assert html[0..] == html;
    AppendNone(Nodes(html));
  }

  /** What one tag adds to the output. */
  lemma TagOutput(done: seq<Node>, t: TagHit)
    requires t.TagHit?
    ensures var name := LowerAll(t.name);
            var nodes := Append(Some(done), TagNodes(t));
            if !IsAllowedTag(name) then nodes == Some(done)
            else if t.closing then
              nodes == Some(done + [Close(name)]) && Render(nodes.value) == Render(done) + ("</" + name + ">")
            else
              match KeptAttrs(name, ScanAttrs(t.raw))
              case None => nodes == None
              case Some(attrs) =>
                && nodes == Some(done + [Open(name, attrs)])
                && Render(nodes.value) == Render(done) + ("<" + name + AttrText(name, attrs) + ">")
  {
    var name := LowerAll(t.name);
    assert done + [] == done;
    RenderOne(done, Close(name));
    var attrs := KeptAttrs(name, ScanAttrs(t.raw));
    if attrs.Some? {
      RenderOne(done, Open(name, attrs.value));
    }
  }

  /** The tag loop: text between tags is escaped, kept tags are rewritten, the rest is unwrapped. */
  method SanitizeNoticeHtml(input: string) returns (result: Option<string>)
    ensures result == Sanitize(input)
  {
    var html := StripMarkup(input);
    hide MatchTag, NextTag, TagNodes, Nodes, Render, EscapeText, IsAllowedTag, KeptAttrs, AttrText, LowerAll,
         ScanAttrs, CharNodes, Stripped;
    NodesStart(html);
    var out, cursor := "", 0;
    ghost var done: seq<Node> := [];
    var index := NextTag(html, 0);
    while index < |html|
      invariant cursor <= |html| && index == NextTag(html, cursor)
      invariant Append(Some(done), Nodes(html[cursor..])) == Nodes(html)
      invariant out == Render(done)
      decreases |html| - cursor
    {
      TagStep(html, done, cursor, index);
      out := out + EscapeText(html[cursor..index]);
      done := done + CharNodes(EscapeText(html[cursor..index]));
      var t := MatchTag(html[index..]);
      TagOutput(done, t);
      cursor := index + t.len;
      index := NextTag(html, cursor);
      var name := LowerAll(t.name);
      if !IsAllowedTag(name) {
        continue;
      }
      if t.closing {
        done := done + [Close(name)];
        out := out + ("</" + name + ">");
      } else {
        var attributes := BuildAttributes(name, t.raw);
        if attributes.None? {
          return None;
        }
        done := done + [Open(name, KeptAttrs(name, ScanAttrs(t.raw)).value)];
        out := out + ("<" + name + attributes.value + ">");
      }
    }
    LastText(html, done, cursor);
    out := out + EscapeText(html[cursor..]);
    return Some(Trim(out));
  }
}
