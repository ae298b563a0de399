/** What the sanitiser makes of comments, stray brackets and links, and what the plain-text projection makes
    of elements and entities. */
module TextEffects {
  import opened Text
  import opened Wrappers
  import opened Lists
  import opened UrlCheck
  import opened HtmlScan
  import opened NoticeSanitizer
  import opened SanitizedLanguage
  import opened SanitizerIdempotence
  import opened SanitizerEffects
  import opened NoticeText
  import LinkVerdicts

  // ----- links ---------------------------------------------------------------------------

  /** A link whose name before the colon is none of the four is taken off its tag; the tag and its text stay. */
  lemma ForbiddenAnchor(name: string, rest: string, text: string)
    requires name != "" && IsLetter(name[0]) && LinkVerdicts.AllInScheme(name)
    requires LowerAll(name) !in ["http", "https", "mailto", "tel"]
    requires '&' !in rest && Writable(name + (":" + rest), Double) && '<' !in text
    ensures Sanitize("<a href=\"" + (name + (":" + rest)) + "\">" + text + "</a>") == Some("<a>" + text + "</a>")
  {
    hide *;
    LinkVerdicts.SchemeVerdict(name, rest);
    AnchorEffect(name + (":" + rest), text);
    assert "<a" + "" + ">" == "<a>";
  }

  /** A link to one of the four stays, and its tag is given a fixed target. */
  lemma AllowedAnchor(name: string, rest: string, text: string)
    requires LowerAll(name) in ["http", "https", "mailto", "tel"] && LinkVerdicts.AllInScheme(name)
    requires '&' !in rest && Writable(name + (":" + rest), Double) && '<' !in text
    ensures Sanitize("<a href=\"" + (name + (":" + rest)) + "\">" + text + "</a>")
         == Some("<a" + AttrOutput("a", "href", name + (":" + rest)) + ">" + text + "</a>")
  {
    hide *;
    LinkVerdicts.SchemeVerdict(name, rest);
    AnchorEffect(name + (":" + rest), text);
  }

  lemma AnchorName()
    ensures IsName("a") && LowerAll("a") == "a" && Formats("a") && IsAttrName("href") && Bears("a", "href") &&
            Spaces("")
    ensures LowerAll("href") == "href"
  {
    LowerFixed("a");
    LowerFixed("href");
  }

  lemma AnchorEffect(link: string, text: string)
    requires Writable(link, Double) && '<' !in text && IsSafeUrl(link).Some?
    ensures Sanitize("<a href=\"" + link + "\">" + text + "</a>")
         == Some("<a" + (if IsSafeUrl(link).value then AttrOutput("a", "href", link) else "") + ">" + text + "</a>")
  {
    AnchorName();
    AnchorText(link, text);
    hide *;
    AttrEffect("a", "href", "", "", link, Double, text);
    AnchorParts(if IsSafeUrl(link).value then AttrOutput("a", "href", link) else "", text);
  }

  lemma AnchorParts(attr: string, text: string)
    ensures "<" + "a" + attr + ">" + (text + ("</" + "a" + ">")) == "<a" + attr + ">" + text + "</a>"
  {
    assert "<" + "a" == "<a" && "</" + "a" + ">" == "</a>";
  }

  lemma AnchorText(link: string, text: string)
    ensures "<" + ("a" + (AttrSource("href", "", "", link, Double) + (">" + (text + ("</" + ("a" + ">"))))))
         == "<a href=\"" + link + "\">" + text + "</a>"
  {
    assert AttrSource("href", "", "", link, Double) == " " + ("href" + ("=" + ("\"" + (link + "\"")))) by {
      EmptyHead("=" + ("" + InQuoting(link, Double)));
      EmptyHead(InQuoting(link, Double));
    }
    Regrouped("<", "a", " ", "href", "=", "\"", link, "\"", ">", text, "</" + ("a" + ">"));
    assert "<" + "a" + " " + "href" + "=" + "\"" == "<a href=\"" && "\"" + ">" == "\">";
    assert "</" + ("a" + ">") == "</a>";
  }

  lemma Regrouped(a: string, b: string, c: string, d: string, e: string, f: string, x: string, g: string, h: string,
                  y: string, z: string)
    ensures a + (b + ((c + (d + (e + (f + (x + g))))) + (h + (y + z)))) == a + b + c + d + e + f + x + (g + h) + y + z
  {
    var inner := c + (d + (e + (f + (x + g))));
    assert inner == c + d + e + f + x + g;
    assert inner + (h + (y + z)) == c + d + e + f + x + (g + h) + y + z;
    assert b + (c + d + e + f + x + (g + h) + y + z) == b + c + d + e + f + x + (g + h) + y + z;
  }

  // ----- comments, declarations, stray brackets -----------------------------------------------

  lemma {:induction false} CommentEnds(c: string, b: string)
    requires forall i :: 0 <= i < |c| ==> !("-->" <= (c + "-->")[i..])
    ensures CommentTail(c + ("-->" + b)) == |c| + 3
  {
    var s := c + ("-->" + b);
    if c == "" {
      assert s == "-->" + b;
    } else {
      assert (c + "-->")[0..] == c + "-->" && s[..|c| + 3] == c + "-->";
      assert s[1..] == c[1..] + ("-->" + b);
      forall i | 0 <= i < |c[1..]| ensures !("-->" <= (c[1..] + "-->")[i..]) {
        assert (c[1..] + "-->")[i..] == (c + "-->")[i + 1..];
      }
      CommentEnds(c[1..], b);
      assert s[..3] == (c + "-->")[..3];
    }
  }

  lemma PlainStripped(s: string)
    requires '<' !in s
    ensures ReplaceAll(Declaration, s) == s && StripSubtrees(STRIPPED_SUBTREES, s) == s
    ensures Rendered(Nodes(s)) == Some(s)
  {
    PatternsAtAngles("");
    PassNone(Declaration, s);
    StripsPlain(STRIPPED_SUBTREES, s);
    assert s + "" == s;
    RenderedPlain(s, "");
    NothingRendered();
    hide *;
    JoinedEnds(s, s, Some(""));
  }

  lemma AfterComments(input: string, s: string)
    requires ReplaceAll(Comment, input) == s && '<' !in s
    ensures Sanitize(input) == Some(Trim(s))
  {
    hide *;
    PlainStripped(s);
    StrippedReads(input);
    SanitizeReads(input);
  }

  lemma CommentHit(s: string, n: nat)
    requires "<!--" <= s && 4 + CommentTail(s[4..]) == n
    ensures Hits(Comment, s) && Comment(s) == Match(n, "", false)
  {
    hide CommentTail;
  }

  /** A comment goes, whatever it holds. */
  lemma CommentEffect(a: string, c: string, b: string)
    requires '<' !in a && '<' !in b && forall i :: 0 <= i < |c| ==> !("-->" <= (c + "-->")[i..])
    ensures Sanitize(a + ("<!--" + (c + ("-->" + b)))) == Some(Trim(a + b))
  {
    var s := "<!--" + (c + ("-->" + b));
    assert s[4..] == c + ("-->" + b) && s[..4] == "<!--";
    CommentEnds(c, b);
    hide *;
    CommentHit(s, |c| + 7);
    PatternsAtAngles("");
    ReplaceHit(Comment, s);
    assert s[|c| + 7..] == b;
    PassNone(Comment, b);
    PassPlain(Comment, a, s);
    assert '<' !in a + b;
    AfterComments(a + s, a + b);
  }

  lemma {:induction false} CommentUnended(c: string)
    requires forall i :: 0 <= i < |c| ==> !("-->" <= c[i..])
    ensures CommentTail(c) == |c|
  {
    if c != "" {
      assert c[0..] == c;
      forall i | 0 <= i < |c[1..]| ensures !("-->" <= c[1..][i..]) {
        assert c[1..][i..] == c[i + 1..];
      }
      CommentUnended(c[1..]);
    }
  }

  /** A comment that is not closed takes the rest with it. */
  lemma OpenCommentEffect(a: string, c: string)
    requires '<' !in a && forall i :: 0 <= i < |c| ==> !("-->" <= c[i..])
    ensures Sanitize(a + ("<!--" + c)) == Some(Trim(a))
  {
    var s := "<!--" + c;
    assert s[4..] == c && s[..4] == "<!--";
    CommentUnended(c);
    hide *;
    CommentHit(s, |c| + 4);
    PatternsAtAngles("");
    ReplaceHit(Comment, s);
    assert s[|c| + 4..] == "";
    PassNone(Comment, "");
    PassPlain(Comment, a, s);
    assert a + "" == a;
    AfterComments(a + s, a);
  }

  lemma DeclarationHit(c: string, b: string)
    requires '>' !in c && !("--" <= c)
    ensures var s := "<!" + (c + (">" + b));
            Hits(Declaration, s) && Declaration(s) == Match(|c| + 3, "", false) && !Hits(Comment, s) &&
              s[|c| + 3..] == b
  {
    var s := "<!" + (c + (">" + b));
    assert s[2..] == c + (">" + b);
    SpanUnique(Not('>'), c, ">" + b);
    NotComment(c, b);
  }

  lemma NotComment(c: string, b: string)
    requires !("--" <= c)
    ensures !("<!--" <= "<!" + (c + (">" + b)))
  {
    var s := "<!" + (c + (">" + b));
    var lead := "<!--";
    assert lead[2] == '-' && lead[3] == '-' && s[2 + |c|] == '>';
    if |c| >= 2 {
      assert c[..2] == [c[0], c[1]] && s[2] == c[0] && s[3] == c[1];
      PrefixAt(lead, s, 2);
      PrefixAt(lead, s, 3);
    } else {
      PrefixAt(lead, s, 2 + |c|);
    }
  }

  lemma DeclarationAlone(c: string, b: string)
    requires '<' !in c && '<' !in b
    ensures var s := "<!" + (c + (">" + b)); s != "" && '<' !in s[1..]
  {
    var s := "<!" + (c + (">" + b));
    assert s[1..] == "!" + (c + (">" + b));
  }

  lemma DeclarationDropped(a: string, c: string, b: string)
    requires '<' !in a && '<' !in c && '<' !in b && '>' !in c && !("--" <= c)
    ensures var s := "<!" + (c + (">" + b));
            ReplaceAll(Comment, a + s) == a + s && ReplaceAll(Declaration, a + s) == a + b
  {
    hide *;
    var s := "<!" + (c + (">" + b));
    DeclarationHit(c, b);
    DeclarationAlone(c, b);
    PatternsAtAngles("");
    assert s + "" == s;
    PassOver(Comment, s, "");
    PassNone(Comment, "");
    PassPlain(Comment, a, s);
    ReplaceHit(Declaration, s);
    PassNone(Declaration, b);
    PassPlain(Declaration, a, s);
  }

  /** A declaration goes up to its bracket. */
  lemma DeclarationEffect(a: string, c: string, b: string)
    requires '<' !in a && '<' !in c && '<' !in b && '>' !in c && !("--" <= c)
    ensures Sanitize(a + ("<!" + (c + (">" + b)))) == Some(Trim(a + b))
  {
    hide *;
    var s := "<!" + (c + (">" + b));
    DeclarationDropped(a, c, b);
    PlainStripped(a + b);
    StrippedReads(a + s);
    SanitizeReads(a + s);
  }

  /** A bracket that begins nothing is escaped. */
  lemma StrayEffect(a: string, b: string)
    requires '<' !in a && '<' !in b
    requires b == "" || !(IsSpace(b[0]) || IsLetter(b[0]) || b[0] == '/' || b[0] == '!')
    ensures Sanitize(a + ("<" + b)) == Some(Trim(a + ("&lt;" + b)))
  {
    var s := "<" + b;
    assert s[1..] == b && s[0] == '<';
    StrayReads(b);
    hide *;
    PatternsAtAngles("");
    assert s + "" == s;
    PassOver(Comment, s, "");
    PassNone(Comment, "");
    PassPlain(Comment, a, s);
    PassOver(Declaration, s, "");
    PassNone(Declaration, "");
    PassPlain(Declaration, a, s);
    AllStrippedShape();
    StrayStripped(STRIPPED_SUBTREES, a, b);
    StrippedReads(a + s);
    SanitizeReads(a + s);
    RenderedPlain(a, s);
    StrayRendered(b);
    JoinedEnds(a, b, Some("&lt;" + b));
  }

  lemma StrayReads(b: string)
    requires b == "" || !(IsSpace(b[0]) || IsLetter(b[0]) || b[0] == '/' || b[0] == '!')
    ensures var s := "<" + b;
            !Hits(Comment, s + "") && !Hits(Declaration, s + "") && MatchTag(s).NoTag? && Span(IsSpace, s[1..]) == 0
  {
    var s := "<" + b;
    assert s + "" == s && s[1..] == b;
    if b != "" {
      NoBang(s);
    }
  }

  lemma {:induction false} StrayStripped(tags: seq<string>, a: string, b: string)
    requires '<' !in a && '<' !in b && forall t :: t in tags ==> IsLowerWord(t)
    requires b == "" || !(IsSpace(b[0]) || IsLetter(b[0]) || b[0] == '/' || b[0] == '!')
    ensures StripSubtrees(tags, a + ("<" + b)) == a + ("<" + b)
  {
    if tags != [] {
      var tag, s := tags[0], "<" + b;
      StrayReads(b);
      assert IsLowerWord(tag) && forall t :: t in tags[1..] ==> t in tags;
      assert s[1..] == b && s + "" == s;
      SubtreeOpenReads(tag, s, 1);
      if b != "" {
        FoldStops(b, tag, 0);
      }
      hide *;
      SubtreeMisses(tag, s + "");
      PatternsAtAngles(tag);
      PassOver(Subtree(tag), s, "");
      PassNone(Subtree(tag), "");
      PassPlain(Subtree(tag), a, s);
      StripStep(tags, a + s);
      StrayStripped(tags[1..], a, b);
    }
  }

  lemma StrayRendered(b: string)
    requires '<' !in b && MatchTag("<" + b).NoTag?
    ensures Rendered(Nodes("<" + b)) == Some("&lt;" + b)
  {
    var s := "<" + b;
    assert s[1..] == b && EscapeChar(s[0]) == "&lt;";
    assert Nodes(s) == Append(Some(CharNodes("&lt;")), Nodes(b)) by {
      hide MatchTag, CharNodes;
    }
    PlainStripped(b);
    RenderChars("&lt;");
    RenderedAppend(Some(CharNodes("&lt;")), Nodes(b));
    hide Nodes, CharNodes, Render, MatchTag;
  }

  // ----- elements with other tags in them ------------------------------------------------------

  /** No closing tag, comment or declaration begins in the text. */
  predicate Unclosed(body: string) {
    forall i, j :: 0 <= i < j < |body| && body[i] == '<' ==> body[j] != '/' && (j == i + 1 ==> body[j] != '!')
  }

  lemma NoCloseHere(tag: string, x: string, rest: string)
    requires x != "" && (forall j :: 0 < j < |x| && x[0] == '<' ==> x[j] != '/') && (rest == "" || rest[0] == '<')
    ensures SubtreeClose(tag, x + rest) == 0
  {
    PrefixAt("<", x + rest, 0);
    AfterSpaces(x, rest);
    assert !IsSpace('<');
    hide Span, IsSpace;
  }

  /** The first character that is not white space after the first one. */
  lemma AfterSpaces(x: string, rest: string)
    requires x != ""
    ensures var s := x + rest;
            var a := 1 + Span(IsSpace, s[1..]);
            && s[0] == x[0] && a <= |s|
            && (a < |x| ==> s[a] == x[a])
            && (a >= |x| && rest != "" ==> (a == |x| && s[a] == rest[0]) || IsSpace(rest[0]))
  {
    var s := x + rest;
    assert rest != "" ==> s[1..][|x| - 1] == rest[0];
    hide IsSpace;
  }

  /** What an open element takes with it goes on over other tags. */
  lemma {:induction false} TailOver(tag: string, x: string, rest: string)
    requires (forall i, j :: 0 <= i < j < |x| && x[i] == '<' ==> x[j] != '/') && (rest == "" || rest[0] == '<')
    ensures SubtreeTail(tag, x + rest) == |x| + SubtreeTail(tag, rest)
  {
    if x == "" {
      assert x + rest == rest;
    } else {
      assert (x + rest)[1..] == x[1..] + rest;
      NoCloseHere(tag, x, rest);
      TailOver(tag, x[1..], rest);
      hide SubtreeClose;
    }
  }

  lemma InnerUnclosed(raw: string, body: string)
    requires Ends(raw) && Unclosed(body)
    ensures var inner := raw + (">" + body);
            forall i, j :: 0 <= i < j < |inner| && inner[i] == '<' ==> inner[j] != '/'
  {
    var inner := raw + (">" + body);
    RawPlain(raw);
    assert forall i :: 0 <= i < |raw| ==> raw[i] in raw;
    assert forall i :: 0 <= i < |inner| ==>
        inner[i] == if i < |raw| then raw[i] else if i == |raw| then '>' else body[i - |raw| - 1];
    hide Ends;
  }

  lemma RawPlain(raw: string)
    requires Ends(raw)
    ensures '<' !in raw
  {
    hide TagBody;
  }

  lemma BangAt(s: string, i: nat)
    requires i < |s| && (s[i] == '<' && i + 1 < |s| ==> s[i + 1] != '!')
    ensures !Hits(Comment, s[i..]) && !Hits(Declaration, s[i..])
  {
    var t := s[i..];
    assert forall k :: 0 <= k < |t| ==> t[k] == s[i + k];
    PrefixTwo(t, "<!");
    BangHead(t);
  }

  lemma PrefixTwo(s: string, lead: string)
    requires |lead| == 2
    ensures lead <= s <==> |s| > 1 && s[0] == lead[0] && s[1] == lead[1]
  {
    assert |s| > 1 ==> s[..2] == [s[0], s[1]];
  }

  lemma BangHead(t: string)
    ensures !("<!" <= t) ==> !("<!--" <= t) && !Hits(Comment, t) && !Hits(Declaration, t)
  {
    assert "<!--"[..2] == "<!";
    assert "<!--" <= t ==> t[..2] == "<!--"[..2];
  }

  /** Without an exclamation mark after a bracket, there is no comment and no declaration. */
  lemma NothingBangs(s: string)
    requires forall i :: 0 <= i < |s| - 1 && s[i] == '<' ==> s[i + 1] != '!'
    ensures ReplaceAll(Comment, s) == s && ReplaceAll(Declaration, s) == s
  {
    hide *;
    forall i | 0 <= i < |s| ensures !Hits(Comment, s[i..]) && !Hits(Declaration, s[i..]) {
      BangAt(s, i);
    }
    ReplaceNothing(Comment, s);
    ReplaceNothing(Declaration, s);
  }

  lemma OpenNoBang(gap: string, w: string, raw: string)
    requires Spaces(gap) && IsName(w) && Ends(raw)
    ensures var open := OpenText(gap, w, raw);
            |open| > 1 && open[0] == '<' && open[1] != '!' && open[|open| - 1] == '>' && '<' !in open[1..]
  {
    OneBracket(gap, w, raw, "", "");
    var open := OpenText(gap, w, raw);
    assert gap != "" ==> open[1] == gap[0];
    assert gap == "" ==> open[1] == w[0];
    assert IsLetter(w[0]);
    hide Ends;
  }

  /** `a`, then an opening tag, then `body`: no comment in any of it. */
  lemma OpenedBangs(a: string, open: string, body: string, rest: string)
    requires '<' !in a && Unclosed(body) && (forall i :: 0 <= i < |rest| - 1 && rest[i] == '<' ==> rest[i + 1] != '!')
    requires |open| > 1 && open[1] != '!' && '<' !in open[1..] && (rest == "" || rest[0] == '<')
    ensures var s := a + (open + (body + rest)); forall i :: 0 <= i < |s| - 1 && s[i] == '<' ==> s[i + 1] != '!'
  {
    var s, n := a + (open + (body + rest)), |a| + |open|;
    assert forall i :: 0 <= i < |a| ==> a[i] in a;
    assert forall j :: 0 < j < |open| ==> open[j] == open[1..][j - 1] && open[j] in open[1..];
    assert forall i :: 0 <= i < |s| ==>
        s[i] == if i < |a| then a[i] else if i < n then open[i - |a|]
                else if i < n + |body| then body[i - n] else rest[i - n - |body|];
  }

  /** A dropped element takes everything up to its closing tag with it, or up to the end without one. */
  lemma SubtreeTakes(a: string, gap: string, w: string, raw: string, body: string, rest: string)
    requires '<' !in a && Unclosed(body) && (rest == "" || rest[0] == '<') && IsLowerWord(LowerAll(w))
    requires Spaces(gap) && IsName(w) && Ends(raw) && SubtreeTail(LowerAll(w), rest) <= |rest|
    ensures ReplaceAll(Subtree(LowerAll(w)), a + (OpenText(gap, w, raw) + (body + rest)))
         == a + ReplaceAll(Subtree(LowerAll(w)), rest[SubtreeTail(LowerAll(w), rest)..])
  {
    hide *;
    var low, open, t := LowerAll(w), OpenText(gap, w, raw), SubtreeTail(LowerAll(w), rest);
    var p, s, n := Subtree(low), open + (body + rest), 1 + |gap| + |w|;
    SubtreeOpened(low, gap, w, raw, body + rest);
    SubtreeHits(low, s, n);
    OpenParts(gap, w, raw, body + rest);
    InnerTail(low, raw, body, rest);
    assert s[n..] == raw + (">" + (body + rest));
    assert s[|open| + |body| + t..] == rest[t..];
    ReplaceHit(p, s);
    PatternsAtAngles(low);
    PassPlain(p, a, s);
  }

  lemma InnerTail(tag: string, raw: string, body: string, rest: string)
    requires Unclosed(body) && (rest == "" || rest[0] == '<') && Ends(raw)
    ensures SubtreeTail(tag, raw + (">" + (body + rest))) == |raw| + 1 + |body| + SubtreeTail(tag, rest)
  {
    hide *;
    var inner := raw + (">" + body);
    InnerUnclosed(raw, body);
    TailOver(tag, inner, rest);
    assert raw + (">" + (body + rest)) == inner + rest;
  }

  lemma ScriptFirst(s: string)
    ensures Stripped(s)
         == StripSubtrees(STRIPPED_SUBTREES[1..],
                          ReplaceAll(Subtree("script"), ReplaceAll(Declaration, ReplaceAll(Comment, s))))
    ensures IsLowerWord("script") && |STRIPPED_SUBTREES| > 0
  {
    StrippedReads(s);
    AllStrippedShape();
    assert STRIPPED_SUBTREES[0] == "script" && STRIPPED_SUBTREES[0] in STRIPPED_SUBTREES;
    StripStep(STRIPPED_SUBTREES, ReplaceAll(Declaration, ReplaceAll(Comment, s)));
    hide *;
  }

  /** If a script is taken out and leaves plain text, that text is what is written. */
  lemma ScriptGone(s: string, left: string)
    requires '<' !in left && ReplaceAll(Subtree("script"), s) == left
    requires forall i :: 0 <= i < |s| - 1 && s[i] == '<' ==> s[i + 1] != '!'
    ensures Sanitize(s) == Some(Trim(left))
  {
    hide *;
    NothingBangs(s);
    ScriptFirst(s);
    StripsPlain(STRIPPED_SUBTREES[1..], left);
    PlainStripped(left);
    SanitizeReads(s);
  }

  lemma EndNoBang(gap: string, slashGap: string, w: string, end: string, b: string)
    requires Spaces(gap) && Spaces(slashGap) && IsName(w) && Spaces(end) && '<' !in b
    ensures var s := EndText(gap, slashGap, w, end) + b;
            s != "" && s[0] == '<' && forall i :: 0 <= i < |s| - 1 && s[i] == '<' ==> s[i + 1] != '!'
  {
    var close := EndText(gap, slashGap, w, end);
    var s := close + b;
    EndPlain(gap, slashGap, w, end);
    assert s[1] == if gap != "" then gap[0] else '/';
    assert forall i :: 0 < i < |close| ==> close[i] == close[1..][i - 1] && close[i] in close[1..];
    assert forall i :: 0 <= i < |b| ==> b[i] in b;
    assert forall i :: 0 <= i < |s| ==> s[i] == if i < |close| then close[i] else b[i - |close|];
    hide IsName;
  }

  lemma EndPlain(gap: string, slashGap: string, w: string, end: string)
    requires Spaces(gap) && Spaces(slashGap) && IsName(w) && Spaces(end)
    ensures '<' !in EndText(gap, slashGap, w, end)[1..]
  {
    RestEnds("");
    OneBracket(gap, w, "", slashGap, end);
  }

  /** A script goes with everything in it, tags and all, up to its closing tag. */
  lemma ScriptEffect(a: string, gap: string, w: string, raw: string, body: string, slashGap: string, end: string,
                     b: string)
    requires '<' !in a && '<' !in b && Unclosed(body) && LowerAll(w) == "script"
    requires Spaces(gap) && IsName(w) && Ends(raw) && Spaces(slashGap) && Spaces(end)
    ensures Sanitize(a + (OpenText(gap, w, raw) + (body + (EndText(gap, slashGap, w, end) + b)))) == Some(Trim(a + b))
  {
    hide *;
    var close := EndText(gap, slashGap, w, end);
    ScriptFirst("");
    EndNoBang(gap, slashGap, w, end, b);
    OpenNoBang(gap, w, raw);
    OpenedBangs(a, OpenText(gap, w, raw), body, close + b);
    SubtreeClosed(gap, slashGap, w, end, b);
    CloseLong(gap, slashGap, w, end, b);
    TailHere("script", close + b);
    SubtreeTakes(a, gap, w, raw, body, close + b);
    assert (close + b)[|close|..] == b;
    PatternsAtAngles("script");
    PassNone(Subtree("script"), b);
    assert '<' !in a + b;
    ScriptGone(a + (OpenText(gap, w, raw) + (body + (close + b))), a + b);
  }

  /** A script that is never closed takes the rest of the notice with it. */
  lemma UnclosedEffect(a: string, gap: string, w: string, raw: string, body: string)
    requires '<' !in a && Unclosed(body) && LowerAll(w) == "script" && Spaces(gap) && IsName(w) && Ends(raw)
    ensures Sanitize(a + (OpenText(gap, w, raw) + body)) == Some(Trim(a))
  {
    hide *;
    ScriptFirst("");
    OpenNoBang(gap, w, raw);
    OpenedBangs(a, OpenText(gap, w, raw), body, "");
    NoTail("script");
    SubtreeTakes(a, gap, w, raw, body, "");
    PatternsAtAngles("script");
    PassNone(Subtree("script"), "");
    assert body + "" == body && a + "" == a && ""[0..] == "";
    ScriptGone(a + (OpenText(gap, w, raw) + body), a);
  }

  lemma NoTail(tag: string)
    ensures SubtreeTail(tag, "") == 0
  {
  }

  // ----- the projection of an element -----------------------------------------------------------------

  /** The elements whose end is read as a space; so is a line break. */
  predicate EndsLine(tag: string) { tag in ["p", "li", "tr", "h1", "h2", "h3", "h4", "h5", "h6"] }

  lemma BreakAngles()
    ensures AtAngles(BreakTag) && AtAngles(AnyTag)
  {
    forall s | Hits(BreakTag, s) ensures s[0] == '<' {
      PrefixAt("<", s, 0);
    }
    forall s | Hits(AnyTag, s) ensures s[0] == '<' {
      PrefixAt("<", s, 0);
    }
    hide BreakWord, Span;
  }

  predicate IsLowName(low: string) { IsName(low) && LowerAll(low) == low }

  lemma FoldTwo(s: string, lit: string)
    requires |lit| == 2 && |s| >= 2
    ensures StartsWithFold(s, lit) <==> Lower(s[0]) == lit[0] && Lower(s[1]) == lit[1]
  {
    var low := LowerAll(s[..2]);
    assert low == [Lower(s[0]), Lower(s[1])];
  }

  lemma FoldThree(s: string, lit: string)
    requires |lit| == 3 && |s| >= 3
    ensures StartsWithFold(s, lit) <==> Lower(s[0]) == lit[0] && Lower(s[1]) == lit[1] && Lower(s[2]) == lit[2]
  {
    var low := LowerAll(s[..3]);
    assert low == [Lower(s[0]), Lower(s[1]), Lower(s[2])];
  }

  lemma LowName(low: string)
    requires IsLowName(low)
    ensures low != "" && 'a' <= low[0] <= 'z'
    ensures forall i :: 0 <= i < |low| ==>
              Lower(low[i]) == low[i] && IsAlnum(low[i]) && !IsSpace(low[i]) && low[i] != '/'
  {
    forall i | 0 <= i < |low| ensures Lower(low[i]) == low[i] && !IsSpace(low[i]) {
      assert LowerAll(low)[i] == low[i] && '0' <= low[i] <= 'z';
    }
  }

  lemma BreakTagReads(s: string, w: nat)
    requires |s| > 1 && s[0] == '<' && !IsSpace(s[1]) && BreakWord(s[1..]) == w && 1 + w < |s|
    requires w == 0 || (!IsSpace(s[1 + w]) && s[1 + w] != '/')
    ensures BreakTag(s) == if w > 0 && s[1 + w] == '>' then Match(w + 2, " ", false) else NoMatch
  {
    assert "<" <= s && s[1..][0] == s[1] && s[1 + w..][0] == s[1 + w];
    assert Span(IsSpace, s[1..]) == 0 && (w > 0 ==> Span(IsSpace, s[1 + w..]) == 0);
    hide BreakWord, Span, IsSpace;
  }

  /** Of the opening tags only that of a line break is read as a space. */
  lemma BreakOpen(low: string, rest: string)
    requires IsLowName(low)
    ensures var s := "<" + (low + (">" + rest));
            BreakTag(s) == if low == "br" then Match(4, " ", false) else NoMatch
  {
    var s, t := "<" + (low + (">" + rest)), low + (">" + rest);
    LowName(low);
    assert s[1..] == t && t[0] == low[0] && t[|low|] == '>';
    assert |low| > 1 ==> t[1] == low[1];
    FoldTwo(t, "br");
    FoldTwo(t, "/p");
    SlashFold(t, "/li");
    SlashFold(t, "/tr");
    SlashFold(t, "/h");
    var w := BreakWord(t);
    assert w == if |low| > 1 && low[0] == 'b' && low[1] == 'r' then 2 else 0;
    assert |low| == 2 && low[0] == 'b' && low[1] == 'r' ==> low == "br";
    assert s[1 + w] == t[w] && (w < |low| ==> t[w] == low[w]);
    BreakTagReads(s, w);
    hide BreakTag, BreakWord, StartsWithFold, IsSpace, IsAlnum, Lower;
  }

  lemma SlashFold(s: string, lit: string)
    requires s != "" && Lower(s[0]) != '/' && lit != "" && lit[0] == '/'
    ensures !StartsWithFold(s, lit)
  {
    if |lit| <= |s| {
      assert LowerAll(s[..|lit|])[0] == Lower(s[0]);
    }
  }

  /** Of the closing tags those that end a line are. */
  lemma BreakClose(low: string, rest: string)
    requires IsLowName(low)
    ensures var s := "</" + (low + (">" + rest));
            BreakTag(s) == if EndsLine(low) then Match(|low| + 3, " ", false) else NoMatch
  {
    var s, t := "</" + (low + (">" + rest)), "/" + (low + (">" + rest));
    LowName(low);
    assert s[1..] == t && t[0] == '/' && t[1] == low[0] && t[1 + |low|] == '>' && s[0] == '<';
    assert forall i :: 0 <= i < |low| ==> t[1 + i] == low[i];
    CloseWord(low, t);
    var w := BreakWord(t);
    assert s[1 + w] == t[w];
    BreakTagReads(s, w);
    hide BreakTag, BreakWord, EndsLine, IsSpace;
  }

  lemma CloseWord(low: string, t: string)
    requires IsLowName(low) && |t| > 1 + |low| && t[0] == '/' && t[1 + |low|] == '>'
    requires forall i :: 0 <= i < |low| ==> t[1 + i] == low[i]
    ensures var w := BreakWord(t);
            && w <= 1 + |low| && (w <= |low| && w > 0 ==> t[w] == low[w - 1])
            && (EndsLine(low) <==> w == 1 + |low|)
  {
    LowName(low);
    FoldTwo(t, "br");
    FoldTwo(t, "/p");
    FoldTwo(t, "/h");
    if |t| >= 3 {
      FoldThree(t, "/li");
      FoldThree(t, "/tr");
    }
    assert Lower(t[0]) == '/' && Lower(t[1]) == low[0];
    assert Lower(t[2]) == if |low| > 1 then low[1] else '>';
    ShortNames(low);
    hide StartsWithFold, EndsLine, IsAlnum, IsSpace, IsLowName;
  }

  lemma ShortNames(low: string)
    requires low != ""
    ensures EndsLine(low) <==>
              || (|low| == 1 && low[0] == 'p')
              || (|low| == 2 && ((low[0] == 'l' && low[1] == 'i') || (low[0] == 't' && low[1] == 'r')
                                 || (low[0] == 'h' && '1' <= low[1] <= '6')))
  {
    if |low| == 1 {
      assert low == [low[0]];
    } else if |low| == 2 {
      assert low == [low[0], low[1]];
    }
  }

  // ----- the projection of the text -----------------------------------------------------------------------

  lemma EntityAtAmpersand(s: string)
    requires Hits(Decoder(AllRules()), s)
    ensures s[0] == '&'
  {
    AllRulesFit();
    FirstRuleIn(AllRules(), s);
  }

  lemma PlainDecodes(s: string)
    requires '&' !in s
    ensures DecodeInTurn(s) == s
  {
    DecodesOnce(s);
    forall i | 0 <= i < |s| ensures !Hits(Decoder(AllRules()), s[i..]) {
      assert s[i] in s && s[i..][0] == s[i];
      if Hits(Decoder(AllRules()), s[i..]) {
        EntityAtAmpersand(s[i..]);
      }
    }
    ReplaceNothing(Decoder(AllRules()), s);
    hide DecodeInTurn, AllRules, ReplaceAll;
  }

  lemma ProjectionReads(input: string, clean: string, broken: string, text: string)
    requires Sanitize(input) == Some(clean) && ReplaceAll(BreakTag, clean) == broken &&
             ReplaceAll(AnyTag, broken) == text
    requires '&' !in text
    ensures NoticeHtmlToText(input) == Some(Trim(Collapse(text)))
  {
    PlainDecodes(text);
    hide Sanitize, ReplaceAll, Collapse, Trim, DecodeInTurn;
  }

  lemma CollapseTrims(s: string)
    ensures Trim(Collapse(Trim(s))) == Trim(Collapse(s))
  {
    TrimLeftCollapse(s);
    TrimRightCollapse(TrimLeft(s));
    TrimIdempotent(Collapse(s));
    hide Collapse, TrimLeft, TrimRight;
    assert Trim(Collapse(s)) == Collapse(Trim(s)) by {
      TrimReads(s);
      TrimReads(Collapse(s));
    }
  }

  lemma TrimReads(s: string)
    ensures Trim(s) == TrimRight(TrimLeft(s))
  {
  }

  /** Nothing to break or delete: the text is collapsed and trimmed. */
  lemma PlainProjected(input: string, s: string)
    requires Sanitize(input) == Some(Trim(s)) && '<' !in s && '&' !in s
    ensures NoticeHtmlToText(input) == Some(Trim(Collapse(s)))
  {
    TrimKeeps(s);
    hide *;
    NoTagsToDelete(Trim(s));
    BreakAngles();
    PassNone(BreakTag, Trim(s));
    ProjectionReads(input, Trim(s), Trim(s), Trim(s));
    CollapseTrims(s);
  }

  lemma {:induction false} TrimLeftKeeps(s: string)
    ensures forall c :: c in TrimLeft(s) ==> c in s
  {
    if s != "" && IsSpace(s[0]) {
      TrimLeftKeeps(s[1..]);
    }
  }

  lemma TrimKeeps(s: string)
    ensures forall c :: c in Trim(s) ==> c in s
  {
    TrimLeftKeeps(s);
    var t := TrimLeft(s);
    assert TrimRight(t) <= t;
    hide IsSpace, TrimLeft, TrimRight;
    forall c | c in TrimRight(t) ensures c in t {
      var i :| 0 <= i < |TrimRight(t)| && TrimRight(t)[i] == c;
      assert t[i] == c;
    }
  }

  /** The tag is read as a space, or deleted. */
  lemma OneBreak(tag: string, breaks: bool, rest: string)
    requires tag != "" && tag[0] == '<' && '<' !in tag[1..]
    requires BreakTag(tag + rest) == if breaks then Match(|tag|, " ", false) else NoMatch
    ensures ReplaceAll(BreakTag, tag + rest) == (if breaks then " " else tag) + ReplaceAll(BreakTag, rest)
  {
    var s := tag + rest;
    assert s != "" && s[|tag|..] == rest;
    BreakAngles();
    if !breaks {
      PassOver(BreakTag, tag, rest);
    }
    hide BreakTag;
  }

  lemma OneDeleted(tag: string, rest: string)
    requires |tag| >= 2 && tag[0] == '<' && tag[|tag| - 1] == '>' && '>' !in tag[1..|tag| - 1]
    ensures ReplaceAll(AnyTag, tag + rest) == ReplaceAll(AnyTag, rest)
  {
    var body, s := tag[1..|tag| - 1], tag + rest;
    assert s[1..] == body + (">" + rest);
    SpanUnique(Not('>'), body, ">" + rest);
    assert AnyTag(s) == Match(|body| + 2, "", false) by {
      PrefixAt("<", s, 0);
      assert "<" <= s;
    }
    assert s[|body| + 2..] == rest && "" + ReplaceAll(AnyTag, rest) == ReplaceAll(AnyTag, rest);
    hide AnyTag;
  }

  /** The text has no white space at its outer ends, no brackets and no entities. */
  predicate Outer(a: string, b: string) {
    && (a != "" ==> !IsSpace(a[0])) && (b != "" ==> !IsSpace(b[|b| - 1]))
    && '<' !in a && '<' !in b && '&' !in a && '&' !in b
  }

  lemma TagThen(low: string, rest: string)
    ensures "<" + low + ">" + rest == "<" + (low + (">" + rest))
    ensures "</" + low + ">" + rest == "</" + (low + (">" + rest))
  {
  }

  lemma NameWithout(low: string)
    requires IsLowName(low)
    ensures '<' !in low && '>' !in low
  {
    assert forall c :: c in low ==> IsAlnum(c);
  }

  lemma Bracketed(inner: string)
    requires '<' !in inner && '>' !in inner
    ensures var tag := "<" + inner + ">";
            && |tag| >= 2 && tag[0] == '<' && '<' !in tag[1..] && tag[|tag| - 1] == '>' && '>' !in tag[1..|tag| - 1]
  {
    var tag := "<" + inner + ">";
    assert tag[1..|tag| - 1] == inner && tag[1..] == inner + ">";
  }

  lemma TagTexts(low: string)
    requires IsLowName(low)
    ensures var open, close := "<" + low + ">", "</" + low + ">";
            && |open| >= 2 && open[0] == '<' && '<' !in open[1..] && open[|open| - 1] == '>' &&
               '>' !in open[1..|open| - 1]
            && |close| >= 2 && close[0] == '<' && '<' !in close[1..] && close[|close| - 1] == '>' &&
               '>' !in close[1..|close| - 1]
  {
    NameWithout(low);
    hide *;
    Bracketed(low);
    Bracketed("/" + low);
    assert "</" + low + ">" == "<" + ("/" + low) + ">";
  }

  /** The passes of the projection over a kept element. */
  lemma ElementBroken(a: string, low: string, body: string, b: string)
    requires IsLowName(low) && '<' !in a && '<' !in body && '<' !in b
    ensures var clean := a + ("<" + low + ">" + (body + ("</" + low + ">" + b)));
            var start, end := if low == "br" then " " else "", if EndsLine(low) then " " else "";
            ReplaceAll(AnyTag, ReplaceAll(BreakTag, clean)) == a + (start + (body + (end + b)))
  {
    hide *;
    var open, close := "<" + low + ">", "</" + low + ">";
    TagTexts(low);
    BreakAngles();
    var inner := body + (close + b);
    TagThen(low, inner);
    TagThen(low, b);
    BreakOpen(low, inner);
    BreakClose(low, b);
    assert |open| == |low| + 2 && |close| == |low| + 3;
    var first := if low == "br" then " " else open;
    var last := if EndsLine(low) then " " else close;
    PassPlain(BreakTag, a, open + inner);
    OneBreak(open, low == "br", inner);
    PassPlain(BreakTag, body, close + b);
    OneBreak(close, EndsLine(low), b);
    PassNone(BreakTag, b);
    assert ReplaceAll(BreakTag, a + (open + inner)) == a + (first + (body + (last + b)));
    PassPlain(AnyTag, a, first + (body + (last + b)));
    FirstDeleted(first, open, body + (last + b));
    PassPlain(AnyTag, body, last + b);
    FirstDeleted(last, close, b);
    PassNone(AnyTag, b);
    EmptyHead(body + (last + b));
    EmptyHead(b);
  }

  lemma EmptyHead(s: string)
    ensures "" + s == s
  {
  }

  lemma FirstDeleted(text: string, tag: string, rest: string)
    requires |tag| >= 2 && tag[0] == '<' && tag[|tag| - 1] == '>' && '>' !in tag[1..|tag| - 1]
    requires text == tag || text == " "
    ensures ReplaceAll(AnyTag, text + rest) == (if text == " " then " " else "") + ReplaceAll(AnyTag, rest)
  {
    BreakAngles();
    if text == tag {
      OneDeleted(tag, rest);
      EmptyHead(ReplaceAll(AnyTag, rest));
    } else {
      PassPlain(AnyTag, " ", rest);
    }
    hide *;
  }

  lemma WholeSolid(a: string, low: string, body: string, b: string)
    requires Outer(a, b)
    ensures var s := a + ("<" + low + ">" + (body + ("</" + low + ">" + b))); Trim(s) == s
  {
    var s := a + ("<" + low + ">" + (body + ("</" + low + ">" + b)));
    assert s[0] == if a != "" then a[0] else '<';
    assert s[|s| - 1] == if b != "" then b[|b| - 1] else '>';
    TrimSolid(s);
  }

  lemma LoweredName(w: string)
    requires IsName(w)
    ensures IsLowName(LowerAll(w))
  {
    var low := LowerAll(w);
    assert low[0] == Lower(w[0]);
    assert forall i :: 0 <= i < |w| ==> IsAlnum(w[i]) && low[i] == Lower(w[i]);
    assert LowerAll(low) == low;
  }

  /** The projection of an element between plain texts: a line break, and the end of a paragraph, a heading, a
      list item or a table row are read as a space, every other tag as nothing; dangerous elements go. */
  lemma ElementProjected(a: string, gap: string, w: string, body: string, slashGap: string, end: string, b: string)
    requires Outer(a, b) && '<' !in body && '&' !in body
    requires Spaces(gap) && IsName(w) && Spaces(slashGap) && Spaces(end)
    ensures var low := LowerAll(w);
            NoticeHtmlToText(Around(a, OpenText(gap, w, ""), body, EndText(gap, slashGap, w, end), b)) ==
            Some(Trim(Collapse(
              if Formats(low) then
                a + ((if low == "br" then " " else "") + (body + ((if EndsLine(low) then " " else "") + b)))
              else if Dangerous(low) then a + b
              else a + (body + b))))
  {
    hide *;
    var low, text := LowerAll(w), Around(a, OpenText(gap, w, ""), body, EndText(gap, slashGap, w, end), b);
    OuterPlain(a, b);
    NoRest();
    ElementEffect(a, gap, w, "", body, slashGap, end, b);
    if Formats(low) {
      var clean := a + ("<" + low + ">" + (body + ("</" + low + ">" + b)));
      LoweredName(w);
      WholeSolid(a, low, body, b);
      ElementBroken(a, low, body, b);
      ProjectionReads(text, clean, ReplaceAll(BreakTag, clean), ReplaceAll(AnyTag, ReplaceAll(BreakTag, clean)));
    } else if Dangerous(low) {
      PlainProjected(text, a + b);
    } else {
      PlainProjected(text, a + (body + b));
    }
  }

  lemma OuterPlain(a: string, b: string)
    requires Outer(a, b)
    ensures '<' !in a && '<' !in b && '&' !in a && '&' !in b
  {
  }

  lemma NoRest()
    ensures IsRest("")
  {
  }

  // ----- the projection of an entity -------------------------------------------------------------------------

  /** An ampersand, a name and a semicolon. */
  predicate IsEntity(ref: string) {
    && |ref| > 2 && ref[0] == '&' && ref[|ref| - 1] == ';'
    && forall i :: 1 <= i < |ref| - 1 ==> ref[i] != ';' && ref[i] != '&' && ref[i] != '<'
  }

  /** The character that an entity stands for, if the projection reads it: two of them in any case. */
  function Meaning(ref: string): Option<char> {
    var low := LowerAll(ref);
    if low == "&nbsp;" then Some(' ')
    else if low == "&#39;" || low == "&apos;" then Some('\'')
    else if ref == "&lt;" then Some('<')
    else if ref == "&gt;" then Some('>')
    else if ref == "&quot;" then Some('"')
    else if ref == "&amp;" then Some('&')
    else None
  }

  lemma RuleReads(rule: Rule, ref: string, b: string)
    requires IsEntity(ref) && IsEntity(rule.lit)
    ensures RuleHits(rule, ref + b) <==> if rule.fold then LowerAll(ref) == rule.lit else ref == rule.lit
  {
    var s, lit := ref + b, rule.lit;
    if |lit| <= |s| {
      var n := |lit| - 1;
      assert LowerAll(s[..|lit|])[n] == Lower(s[n]) && s[..|lit|][n] == s[n];
      assert |ref| - 1 < |lit| ==>
               LowerAll(s[..|lit|])[|ref| - 1] == Lower(s[|ref| - 1]) && s[..|lit|][|ref| - 1] == s[|ref| - 1];
      assert n < |ref| ==> s[n] == ref[n];
      assert s[|ref| - 1] == ';';
      assert |lit| == |ref| ==> s[..|lit|] == ref;
    }
    assert |lit| != |ref| ==> lit != ref && lit != LowerAll(ref);
    assert lit <= s ==> |lit| <= |s| && s[..|lit|] == lit;
  }

  lemma LiteralsAreEntities()
    ensures IsEntity(NBSP[0].lit) && IsEntity(LT[0].lit) && IsEntity(GT[0].lit) && IsEntity(QUOT[0].lit)
    ensures IsEntity(APOS[0].lit) && IsEntity(APOS[1].lit) && IsEntity(AMP[0].lit)
    ensures NBSP[0].fold && APOS[0].fold && APOS[1].fold && !LT[0].fold && !GT[0].fold && !QUOT[0].fold && !AMP[0].fold
    ensures NBSP[0].lit == "&nbsp;" && APOS[0].lit == "&#39;" && APOS[1].lit == "&apos;"
    ensures LT[0].lit == "&lt;" && GT[0].lit == "&gt;" && QUOT[0].lit == "&quot;" && AMP[0].lit == "&amp;"
  {
  }

  lemma EntityMatch(ref: string, b: string)
    requires IsEntity(ref)
    ensures FirstRule(AllRules(), ref + b)
         == match Meaning(ref) case None => NoMatch case Some(c) => Match(|ref|, [c], false)
  {
    LiteralsAreEntities();
    UnrollRules(ref + b);
    RuleReads(NBSP[0], ref, b);
    RuleReads(LT[0], ref, b);
    RuleReads(GT[0], ref, b);
    RuleReads(QUOT[0], ref, b);
    RuleReads(APOS[0], ref, b);
    RuleReads(APOS[1], ref, b);
    RuleReads(AMP[0], ref, b);
    hide *;
    MeaningReads(ref);
    assert |LowerAll(ref)| == |ref|;
  }

  lemma MeaningReads(ref: string)
    ensures var low := LowerAll(ref);
            Meaning(ref) ==
            if low == "&nbsp;" then Some(' ')
            else if low == "&#39;" || low == "&apos;" then Some('\'')
            else if ref == "&lt;" then Some('<')
            else if ref == "&gt;" then Some('>')
            else if ref == "&quot;" then Some('"')
            else if ref == "&amp;" then Some('&')
            else None
    ensures ref in ["&lt;", "&gt;", "&quot;", "&amp;"] ==> LowerAll(ref) == ref
  {
    LowerFixedHere(ref);
    hide LowerAll;
  }

  lemma LowerFixedHere(ref: string)
    ensures ref in ["&lt;", "&gt;", "&quot;", "&amp;"] ==> LowerAll(ref) == ref
  {
  }

  /** A pass with all the rules over one entity between plain texts. */
  lemma EntityDecodedIn(a: string, ref: string, b: string)
    requires IsEntity(ref) && '&' !in a && '&' !in b
    ensures DecodeInTurn(a + (ref + b))
         == a + ((match Meaning(ref) case None => ref case Some(c) => [c]) + b)
  {
    var p, s := Decoder(AllRules()), a + (ref + b);
    EntityMatch(ref, b);
    DecoderReads(ref + b);
    hide *;
    DecodesOnce(s);
    DecodeReads(s);
    DecodeReads(b);
    PlainDecodes(b);
    DecodesOnce(b);
    DecoderAtAmpersands();
    AmpersandsOnly(p, a, ref + b);
    var text := if Meaning(ref).Some? then [Meaning(ref).value] else ref;
    EntityPassed(p, ref, text, b);
  }

  lemma DecodeReads(s: string)
    ensures DecodeAtOnce(s) == ReplaceAll(Decoder(AllRules()), s)
  {
  }

  lemma DecoderReads(s: string)
    ensures Decoder(AllRules())(s) == FirstRule(AllRules(), s)
  {
  }

  /** A pattern that reads nothing but what begins with an ampersand. */
  ghost predicate AtAmpersands(p: Pattern) { forall s {:trigger Hits(p, s)} :: Hits(p, s) ==> s[0] == '&' }

  lemma DecoderAtAmpersands()
    ensures AtAmpersands(Decoder(AllRules()))
  {
    forall s | Hits(Decoder(AllRules()), s) ensures s[0] == '&' {
      EntityAtAmpersand(s);
    }
    hide AllRules, FirstRule, Decoder;
  }

  lemma {:induction false} AmpersandsOnly(p: Pattern, a: string, rest: string)
    requires AtAmpersands(p) && '&' !in a
    ensures ReplaceAll(p, a + rest) == a + ReplaceAll(p, rest)
  {
    if a == "" {
      assert a + rest == rest;
    } else {
      assert (a + rest)[1..] == a[1..] + rest && (a + rest)[0] == a[0];
      assert a[0] in a && !Hits(p, a + rest);
      AmpersandsOnly(p, a[1..], rest);
    }
  }

  lemma EntityMissed(p: Pattern, ref: string, b: string)
    requires AtAmpersands(p) && IsEntity(ref) && !Hits(p, ref + b)
    ensures ReplaceAll(p, ref + b) == ref + ReplaceAll(p, b)
  {
    var s := ref + b;
    assert s[1..] == ref[1..] + b && s[0] == ref[0] && [ref[0]] + ref[1..] == ref;
    assert '&' !in ref[1..] by {
      forall i | 1 <= i < |ref| ensures ref[i] != '&' {
      }
    }
    AmpersandsOnly(p, ref[1..], b);
    hide IsEntity, AtAmpersands;
    assert ReplaceAll(p, s) == [s[0]] + ReplaceAll(p, s[1..]);
  }

  lemma EntityHit(p: Pattern, ref: string, text: string, b: string)
    requires ref != "" && p(ref + b) == Match(|ref|, text, false)
    ensures ReplaceAll(p, ref + b) == text + ReplaceAll(p, b)
  {
    assert (ref + b)[|ref|..] == b && ref + b != "";
  }

  lemma EntityPassed(p: Pattern, ref: string, text: string, b: string)
    requires AtAmpersands(p) && IsEntity(ref) && '&' !in b
    requires p(ref + b) == NoMatch ==> text == ref
    requires p(ref + b) == NoMatch || p(ref + b) == Match(|ref|, text, false)
    ensures ReplaceAll(p, ref + b) == text + b
  {
    AmpersandsOnly(p, b, "");
    assert b + "" == b && ReplaceAll(p, "") == "";
    if p(ref + b) == NoMatch {
      EntityMissed(p, ref, b);
    } else {
      EntityHit(p, ref, text, b);
    }
    hide *;
  }

  /** The projection reads an entity as its character, once, and leaves any other as it is. */
  lemma EntityProjected(a: string, ref: string, b: string)
    requires Outer(a, b) && IsEntity(ref)
    ensures NoticeHtmlToText(a + (ref + b))
         == Some(Trim(Collapse(a + ((match Meaning(ref) case None => ref case Some(c) => [c]) + b))))
  {
    var s := a + (ref + b);
    OuterPlain(a, b);
    assert '<' !in ref by {
      forall i | 0 <= i < |ref| ensures ref[i] != '<' {
      }
    }
    SanitizePlain(s);
    EntitySolid(a, ref, b);
    NoTagsToDelete(s);
    EntityDecodedIn(a, ref, b);
    hide Sanitize, ReplaceAll, DecodeInTurn, Collapse, Trim, Meaning;
  }

  lemma EntitySolid(a: string, ref: string, b: string)
    requires Outer(a, b) && IsEntity(ref)
    ensures Trim(a + (ref + b)) == a + (ref + b)
  {
    var s := a + (ref + b);
    assert s[0] == if a != "" then a[0] else '&';
    assert s[|s| - 1] == if b != "" then b[|b| - 1] else ';';
    TrimSolid(s);
  }

  predicate WhiteSpace(c: char) {
    || c in "\t\n\U{000B}\U{000C}\r \U{00A0}\U{1680}\U{2000}\U{2001}\U{2002}\U{2003}\U{2004}\U{2005}"
    || c in "\U{2006}\U{2007}\U{2008}\U{2009}\U{200A}\U{2028}\U{2029}\U{202F}\U{205F}\U{3000}\U{FEFF}"
  }

  lemma WhiteSpaceIsSpace(c: char)
    requires WhiteSpace(c)
    ensures IsSpace(c) && !IsSpace('x') && c != '<'
  {
  }

  lemma TrimLeftStep(c: char, rest: string)
    ensures TrimLeft([c] + rest) == if IsSpace(c) then TrimLeft(rest) else [c] + rest
  {
    assert ([c] + rest)[1..] == rest;
    hide IsSpace;
  }

  lemma OneSpace(c: char)
    requires IsSpace(c)
    ensures AllSpace([c])
  {
  }

  /** White space is trimmed. */
  lemma WhiteSpaceTrimmed(c: char)
    requires WhiteSpace(c)
    ensures Sanitize([c] + ("x" + [c])) == Some("x")
  {
    hide *;
    var s := [c] + ("x" + [c]);
    WhiteSpaceIsSpace(c);
    SanitizePlain(s);
    TrimReads(s);
    TrimLeftStep(c, "x" + [c]);
    assert ['x'] + [c] == "x" + [c];
    TrimLeftStep('x', [c]);
    OneSpace(c);
    TrimRightDrop("x", [c]);
    TrimRightSolid("x");
  }
}
