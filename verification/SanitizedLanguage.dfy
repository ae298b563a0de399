/** The language of the sanitiser's output, and what sanitising does to a text of that language. */
module SanitizedLanguage {
  import opened Text
  import opened Wrappers
  import opened UrlCheck
  import opened HtmlScan
  import opened NoticeSanitizer

  // ----- the language --------------------------------------------------------

  /** An attribute the sanitiser may write: allowed on its tag, its value free of quotes, angle
      brackets and bare ampersands, and a link only if the link it came from was safe. */
  ghost predicate FitsAttr(tag: string, attr: Attr) {
    && IsAllowedAttr(tag, attr.name)
    && Escaped(attr.value)
    && (attr.name == "href" ==> exists v :: IsSafeUrl(v) == Some(true) && attr.value == EscapeAttrValue(v))
  }

  ghost predicate Fits(node: Node) {
    match node
    case Char(c) => c != '<'
    case Open(name, attrs) => IsAllowedTag(name) && forall a :: a in attrs ==> FitsAttr(name, a)
    case Close(name) => IsAllowedTag(name)
  }

  ghost predicate AllFit(nodes: seq<Node>) { forall n :: n in nodes ==> Fits(n) }

  predicate IsLowerAlnum(s: string) {
    s != "" && IsLetter(s[0]) && forall i :: 0 <= i < |s| ==> IsAlnum(s[i]) && Lower(s[i]) == s[i]
  }

  predicate TagShape(name: string) { IsLowerAlnum(name) && name !in STRIPPED_SUBTREES }

  lemma FlowTagShape(name: string)
    requires name in FLOW_TAGS
    ensures TagShape(name)
  {
  }

  lemma InlineTagShape(name: string)
    requires name in INLINE_TAGS
    ensures TagShape(name)
  {
  }

  lemma BlockTagShape(name: string)
    requires name in LIST_TAGS || name in QUOTE_TAGS
    ensures TagShape(name)
  {
  }

  lemma TableTagShape(name: string)
    requires name in TABLE_TAGS
    ensures TagShape(name)
  {
  }

  lemma AllowedTagShape(name: string)
    requires IsAllowedTag(name)
    ensures TagShape(name)
  {
    hide TagShape;
    if name in FLOW_TAGS {
      FlowTagShape(name);
    } else if name in INLINE_TAGS {
      InlineTagShape(name);
    } else if name in LIST_TAGS || name in QUOTE_TAGS {
      BlockTagShape(name);
    } else {
      TableTagShape(name);
    }
  }

  lemma LowerFixed(s: string)
    requires IsLowerAlnum(s)
    ensures LowerAll(s) == s
  {
  }

  // ----- every output is in the language -------------------------------------

  lemma {:induction false} KeptFit(tag: string, attrs: seq<Attr>)
    ensures var kept := KeptAttrs(tag, attrs);
            kept.Some? ==> forall a :: a in kept.value ==> FitsAttr(tag, a)
  {
    if attrs != [] {
      KeptFit(tag, attrs[1..]);
      EscapeIdempotent(attrs[0].value);
      hide IsSafeUrl, EscapeAttrValue, Escaped;
    }
  }

  lemma {:induction false} NodesFit(html: string)
    ensures Nodes(html).Some? ==> AllFit(Nodes(html).value)
    decreases |html|
  {
    hide MatchTag, IsAllowedTag, FitsAttr, KeptAttrs;
    if html != "" {
      var t := MatchTag(html);
      if t.NoTag? {
        NodesFit(html[1..]);
      } else {
        NodesFit(html[t.len..]);
        KeptFit(LowerAll(t.name), ScanAttrs(t.raw));
      }
    }
  }

  // ----- trimming acts on nodes ----------------------------------------------

  predicate Blank(node: Node) { node.Char? && IsSpace(node.c) }

  predicate AllBlank(nodes: seq<Node>) { forall n :: n in nodes ==> Blank(n) }

  function DropBlank(nodes: seq<Node>): (r: seq<Node>)
    ensures forall n :: n in r ==> n in nodes
    ensures r == [] || !Blank(r[0])
  {
    if nodes != [] && Blank(nodes[0]) then DropBlank(nodes[1..]) else nodes
  }

  function DropBlankEnd(nodes: seq<Node>): (r: seq<Node>)
    ensures forall n :: n in r ==> n in nodes
  {
    if AllBlank(nodes) then [] else [nodes[0]] + DropBlankEnd(nodes[1..])
  }

  function TrimNodes(nodes: seq<Node>): (r: seq<Node>)
    ensures forall n :: n in r ==> n in nodes
  {
    DropBlankEnd(DropBlank(nodes))
  }

  lemma NodeEnds(node: Node)
    ensures var s := RenderNode(node);
            s != "" && (Blank(node) <==> IsSpace(s[0])) && (Blank(node) <==> IsSpace(s[|s| - 1]))
  {
    hide AttrText;
  }

  lemma {:induction false} DropBlankRenders(nodes: seq<Node>)
    ensures TrimLeft(Render(nodes)) == Render(DropBlank(nodes))
  {
    if nodes != [] {
      hide RenderNode;
      NodeEnds(nodes[0]);
      if Blank(nodes[0]) {
        assert RenderNode(nodes[0]) == [nodes[0].c] by { BlankRenders(nodes[0]); }
        assert Render(nodes)[1..] == Render(nodes[1..]);
        DropBlankRenders(nodes[1..]);
      }
    }
  }

  lemma BlankRenders(node: Node)
    requires node.Char?
    ensures RenderNode(node) == [node.c]
  {
  }

  lemma AllSpaceAppend(a: string, b: string)
    ensures AllSpace(a + b) <==> AllSpace(a) && AllSpace(b)
  {
    forall i | 0 <= i < |b| && AllSpace(a + b) ensures IsSpace(b[i]) {
      assert (a + b)[|a| + i] == b[i];
    }
    forall i | 0 <= i < |a| && AllSpace(a + b) ensures IsSpace(a[i]) {
      assert (a + b)[i] == a[i];
    }
  }

  lemma {:induction false} AllBlankRenders(nodes: seq<Node>)
    ensures AllSpace(Render(nodes)) <==> AllBlank(nodes)
  {
    if nodes != [] {
      hide RenderNode;
      AllBlankRenders(nodes[1..]);
      NodeEnds(nodes[0]);
      AllSpaceAppend(RenderNode(nodes[0]), Render(nodes[1..]));
      if Blank(nodes[0]) {
        BlankRenders(nodes[0]);
      }
      assert AllBlank(nodes) <==> Blank(nodes[0]) && AllBlank(nodes[1..]);
    }
  }

  lemma {:induction false} DropBlankEndRenders(nodes: seq<Node>)
    ensures TrimRight(Render(nodes)) == Render(DropBlankEnd(nodes))
  {
    AllBlankRenders(nodes);
    if !AllBlank(nodes) {
      hide RenderNode;
      var head, rest := RenderNode(nodes[0]), nodes[1..];
      assert Render(nodes) == head + Render(rest);
      DropBlankEndRenders(rest);
      AllBlankRenders(rest);
      if AllBlank(rest) {
        NodeEnds(nodes[0]);
        TrimRightDrop(head, Render(rest));
        TrimRightSolid(head);
        assert Render([nodes[0]]) == head + Render([]);
      } else {
        TrimRightAppend(head, Render(rest));
        assert Render([nodes[0]] + DropBlankEnd(rest)) == head + Render(DropBlankEnd(rest));
      }
    }
  }

  lemma TrimRenders(nodes: seq<Node>)
    ensures Trim(Render(nodes)) == Render(TrimNodes(nodes))
  {
    DropBlankRenders(nodes);
    DropBlankEndRenders(DropBlank(nodes));
  }

  /** The nodes of the output. */
  function OutputNodes(input: string): Option<seq<Node>> {
    var nodes := Nodes(Stripped(input));
    if nodes.None? then None else Some(TrimNodes(nodes.value))
  }

  /** Every output renders nodes of the language. */
  lemma OutputInLanguage(input: string)
    ensures var nodes := OutputNodes(input);
            && Sanitize(input) == (if nodes.None? then None else Some(Render(nodes.value)))
            && (nodes.Some? ==> AllFit(nodes.value))
  {
    hide Nodes, Stripped, Render, TrimNodes;
    var html := Stripped(input);
    if Nodes(html).Some? {
      NodesFit(html);
      TrimRenders(Nodes(html).value);
    }
  }
}
