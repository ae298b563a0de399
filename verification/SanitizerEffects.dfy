/** What the sanitiser and its plain-text projection make of an element, told by the tag's name alone. */
module SanitizerEffects {
  import opened Text
  import opened Wrappers
  import opened Lists
  import opened UrlCheck
  import opened HtmlScan
  import opened NoticeSanitizer
  import opened SanitizedLanguage
  import opened SanitizerIdempotence

  // ----- the names that stay, and those that go with their contents ------------------

  /** The formatting that a notice may use. */
  predicate Formats(tag: string) {
    || tag in ["p", "br", "hr", "div", "span", "strong", "b", "em", "i", "u", "s", "sub", "sup", "mark"]
    || tag in ["ul", "ol", "li", "h1", "h2", "h3", "h4", "h5", "h6", "blockquote", "pre", "code", "a"]
    || tag in ["table", "thead", "tbody", "tfoot", "tr", "th", "td", "caption"]
  }

  /** What is dropped together with its contents. */
  predicate Dangerous(tag: string) {
    || tag in ["script", "style", "iframe", "object", "embed", "applet", "svg", "math"]
    || tag in ["template", "noscript", "noembed", "frame", "frameset", "form", "head"]
  }

  lemma FormatsIff(tag: string)
    ensures Formats(tag) <==> IsAllowedTag(tag)
  {
  }

  lemma DangerousIff(tag: string)
    ensures Dangerous(tag) <==> tag in STRIPPED_SUBTREES
  {
  }

  // ----- passes over a text with few brackets -----------------------------------------------

  /** A pattern that reads nothing but what begins with an opening bracket. */
  ghost predicate AtAngles(p: Pattern) { forall s {:trigger Hits(p, s)} :: Hits(p, s) ==> s[0] == '<' }

  lemma {:induction false} PassPlain(p: Pattern, a: string, rest: string)
    requires AtAngles(p) && '<' !in a
    ensures ReplaceAll(p, a + rest) == a + ReplaceAll(p, rest)
  {
    if a == "" {
      assert a + rest == rest;
    } else {
      assert (a + rest)[1..] == a[1..] + rest && (a + rest)[0] == a[0];
      assert a[0] in a && !Hits(p, a + rest);
      PassPlain(p, a[1..], rest);
    }
  }

  /** One bracket and what follows it, which the pattern does not read. */
  lemma PassOver(p: Pattern, tag: string, rest: string)
    requires AtAngles(p) && tag != "" && '<' !in tag[1..] && !Hits(p, tag + rest)
    ensures ReplaceAll(p, tag + rest) == tag + ReplaceAll(p, rest)
  {
    var s := tag + rest;
    assert s[1..] == tag[1..] + rest && s[0] == tag[0];
    PassPlain(p, tag[1..], rest);
    assert ReplaceAll(p, s) == [s[0]] + ReplaceAll(p, s[1..]);
    assert [tag[0]] + tag[1..] == tag;
  }

  lemma PassNone(p: Pattern, a: string)
    requires AtAngles(p) && '<' !in a
    ensures ReplaceAll(p, a) == a
  {
    PassPlain(p, a, "");
    assert a + "" == a && ReplaceAll(p, "") == "";
  }

  lemma PatternsAtAngles(tag: string)
    ensures AtAngles(Comment) && AtAngles(Declaration) && AtAngles(Subtree(tag))
  {
    forall s | Hits(Comment, s) ensures s[0] == '<' {
      assert "<!--"[0] == '<';
    }
    forall s | Hits(Declaration, s) ensures s[0] == '<' {
      assert "<!"[0] == '<';
    }
    forall s | Hits(Subtree(tag), s) ensures s[0] == '<' {
      assert "<"[0] == '<';
    }
  }

  // ----- an element ---------------------------------------------------------------------------

  /** A tag's name: a letter, then letters and digits, in any case. */
  predicate IsName(w: string) { w != "" && IsLetter(w[0]) && forall i :: 0 <= i < |w| ==> IsAlnum(w[i]) }

  /** What may follow the name before the end of the tag: no quotes, no brackets, and no part of a name. */
  predicate IsRest(raw: string) {
    && (forall c :: c in raw ==> c != '<' && c != '>' && c != '"' && c != '\'')
    && (raw != "" ==> !IsWord(raw[0]))
  }

  predicate Spaces(s: string) { forall i :: 0 <= i < |s| ==> IsSpace(s[i]) }

  function OpenText(gap: string, w: string, raw: string): string { "<" + (gap + (w + (raw + ">"))) }

  function EndText(gap: string, slashGap: string, w: string, end: string): string {
    "<" + (gap + ("/" + (slashGap + (w + (end + ">")))))
  }

  lemma SpacesThen(gap: string, rest: string)
    requires Spaces(gap) && rest != "" && !IsSpace(rest[0])
    ensures Span(IsSpace, gap + rest) == |gap| && (gap + rest)[|gap|] == rest[0] && (gap + rest)[|gap|..] == rest
  {
    SpanUnique(IsSpace, gap, rest);
  }

  lemma NameHead(w: string, rest: string)
    requires IsName(w)
    ensures w + rest != "" && !IsSpace((w + rest)[0]) && IsLetter((w + rest)[0]) && (w + rest)[0] != '/' &&
            (w + rest)[0] != '!'
  {
    assert '!' <= w[0] <= '~';
  }

  /** The tag ends after this rest, whatever comes next. */
  ghost predicate Ends(raw: string) {
    && '<' !in raw && (raw != "" ==> !IsWord(raw[0]))
    && forall rest: string {:trigger TagBody(raw + (">" + rest))} :: TagBody(raw + (">" + rest)) == Some(|raw| + 1)
  }

  lemma RestEnds(raw: string)
    requires IsRest(raw)
    ensures Ends(raw)
  {
    forall i | 0 <= i < |raw| ensures raw[i] != '"' && raw[i] != '\'' && raw[i] != '>' {
      assert raw[i] in raw;
    }
    forall rest: string ensures TagBody(raw + (">" + rest)) == Some(|raw| + 1) {
      BodyEnds(rest);
      BodyOfPlain(raw, ">" + rest);
    }
    hide TagBody;
  }

  lemma BodyOfRest(raw: string, rest: string)
    requires Ends(raw)
    ensures TagBody(raw + (">" + rest)) == Some(|raw| + 1)
    ensures raw + (">" + rest) != "" && !IsWord((raw + (">" + rest))[0])
  {
    hide TagBody;
    assert TagBody(raw + (">" + rest)) == Some(|raw| + 1);
  }

  lemma OpenParts(gap: string, w: string, raw: string, rest: string)
    ensures var s, tail := OpenText(gap, w, raw) + rest, raw + (">" + rest);
            && s == "<" + (gap + (w + tail)) && s[0] == '<' && s[1..] == gap + (w + tail)
            && s[1 + |gap|..] == w + tail && s[1 + |gap| + |w|..] == tail
            && s[1 + |gap|..1 + |gap| + |w|] == w && s[1 + |gap| + |w|..1 + |gap| + |w| + |raw|] == raw
            && |OpenText(gap, w, raw)| == |gap| + |w| + |raw| + 2
  {
    var s, tail := OpenText(gap, w, raw) + rest, raw + (">" + rest);
    assert s[1..] == gap + (w + tail);
    assert s[1 + |gap|..] == (gap + (w + tail))[|gap|..] == w + tail;
    assert s[1 + |gap| + |w|..] == (w + tail)[|w|..] == tail;
    assert s[1 + |gap|..1 + |gap| + |w|] == (w + tail)[..|w|] == w;
    assert s[1 + |gap| + |w|..1 + |gap| + |w| + |raw|] == tail[..|raw|] == raw;
  }

  lemma OpenMatches(gap: string, w: string, raw: string, rest: string)
    requires Spaces(gap) && IsName(w) && Ends(raw)
    ensures MatchTag(OpenText(gap, w, raw) + rest) == TagHit(|OpenText(gap, w, raw)|, false, w, raw)
  {
    hide *;
    var s, tail := OpenText(gap, w, raw) + rest, raw + (">" + rest);
    OpenParts(gap, w, raw, rest);
    NameHead(w, tail);
    SpacesThen(gap, w + tail);
    BodyOfRest(raw, rest);
    NameEnds(w, tail);
    MatchOpened(s, 1 + |gap|);
    TagFromReads(s, 1 + |gap|, false, |w|, |raw| + 1);
  }

  lemma NameEnds(w: string, tail: string)
    requires IsName(w) && tail != "" && !IsWord(tail[0])
    ensures Span(IsAlnum, w + tail) == |w|
  {
    SpanUnique(IsAlnum, w, tail);
  }

  lemma MatchOpened(s: string, a: nat)
    requires s != "" && s[0] == '<' && a == 1 + Span(IsSpace, s[1..]) && a < |s| && s[a] != '/'
    ensures MatchTag(s) == TagFrom(s, a, false)
  {
    hide TagFrom, Span, IsSpace;
  }

  lemma MatchClosed(s: string, a: nat, b: nat)
    requires s != "" && s[0] == '<' && a == 1 + Span(IsSpace, s[1..]) && a < |s| && s[a] == '/'
    requires b == a + 1 + Span(IsSpace, s[a + 1..])
    ensures MatchTag(s) == TagFrom(s, b, true)
  {
    hide TagFrom, Span, IsSpace;
  }

  lemma CloseParts(gap: string, slashGap: string, w: string, end: string, rest: string)
    ensures var s, tail := EndText(gap, slashGap, w, end) + rest, end + (">" + rest);
            var a := 1 + |gap|;
            var b := a + 1 + |slashGap|;
            && s[0] == '<' && s[1..] == gap + ("/" + (slashGap + (w + tail)))
            && s[a + 1..] == slashGap + (w + tail) && s[b..] == w + tail && s[b + |w|..] == tail
            && s[b..b + |w|] == w && s[b + |w|..b + |w| + |end|] == end
            && |EndText(gap, slashGap, w, end)| == b + |w| + |end| + 1
  {
    var s, tail := EndText(gap, slashGap, w, end) + rest, end + (">" + rest);
    var one, two := slashGap + (w + tail), w + tail;
    assert s[1..] == gap + ("/" + one);
    assert s[2 + |gap|..] == (gap + ("/" + one))[|gap| + 1..] == one;
    assert s[2 + |gap| + |slashGap|..] == one[|slashGap|..] == two;
    assert s[2 + |gap| + |slashGap| + |w|..] == two[|w|..] == tail;
    assert s[2 + |gap| + |slashGap|..2 + |gap| + |slashGap| + |w|] == two[..|w|] == w;
    assert s[2 + |gap| + |slashGap| + |w|..2 + |gap| + |slashGap| + |w| + |end|] == tail[..|end|] == end;
  }

  lemma SlashHead(rest: string)
    ensures "/" + rest != "" && !IsSpace(("/" + rest)[0])
  {
  }

  lemma SpacesRest(end: string)
    requires Spaces(end)
    ensures IsRest(end) && Ends(end)
  {
    forall c | c in end ensures c != '<' && c != '>' && c != '"' && c != '\'' {
      var i :| 0 <= i < |end| && end[i] == c;
    }
    RestEnds(end);
    hide Ends;
  }

  lemma CloseMatches(gap: string, slashGap: string, w: string, end: string, rest: string)
    requires Spaces(gap) && Spaces(slashGap) && IsName(w) && Spaces(end)
    ensures MatchTag(EndText(gap, slashGap, w, end) + rest) == TagHit(|EndText(gap, slashGap, w, end)|, true, w, end)
  {
    hide *;
    var s, tail := EndText(gap, slashGap, w, end) + rest, end + (">" + rest);
    CloseParts(gap, slashGap, w, end, rest);
    SlashHead(slashGap + (w + tail));
    SpacesThen(gap, "/" + (slashGap + (w + tail)));
    NameHead(w, tail);
    SpacesThen(slashGap, w + tail);
    SpacesRest(end);
    BodyOfRest(end, rest);
    NameEnds(w, tail);
    var a := 1 + |gap|;
    assert s[a] == s[1..][|gap|];
    MatchClosed(s, a, a + 1 + |slashGap|);
    TagFromReads(s, a + 1 + |slashGap|, true, |w|, |end| + 1);
  }

  // ----- what the passes before the tag loop make of it ------------------------------------------

  lemma PrefixAt(lead: string, s: string, i: nat)
    requires i < |lead| && i < |s|
    ensures lead <= s ==> s[i] == lead[i]
  {
  }

  lemma NoBang(s: string)
    requires |s| > 1 && s[1] != '!'
    ensures !Hits(Comment, s) && !Hits(Declaration, s)
  {
    PrefixAt("<!--", s, 1);
    PrefixAt("<!", s, 1);
  }

  lemma SecondChar(gap: string, rest: string)
    requires Spaces(gap) && rest != "" && rest[0] != '!'
    ensures var s := "<" + (gap + rest); |s| > 1 && s[1] != '!'
  {
  }

  lemma {:induction false} LowerAllReads(w: string, u: string, n: nat)
    requires n <= |w| && n <= |u| && w[..n] == u[..n]
    ensures LowerAll(u[..n]) == LowerAll(w)[..n]
  {
    assert forall i :: 0 <= i < n ==> u[..n][i] == w[..n][i] == w[i];
  }

  lemma FoldStops(s: string, tag: string, i: nat)
    requires IsLowerWord(tag) && i < |s| && i < |tag| && !IsLetter(s[i])
    ensures !StartsWithFold(s, tag)
  {
    if |tag| <= |s| {
      assert LowerAll(s[..|tag|])[i] == Lower(s[i]);
    }
  }

  /** A name at the head of a text, and something that ends it. */
  lemma FoldHead(w: string, tail: string, tag: string)
    requires IsName(w) && tail != "" && !IsWord(tail[0]) && IsLowerWord(tag)
    ensures StartsWithFold(w + tail, tag) ==> |tag| <= |w| && LowerAll(w)[..|tag|] == tag
    ensures LowerAll(w) == tag ==> StartsWithFold(w + tail, tag)
  {
    var s := w + tail;
    assert s[|w|] == tail[0];
    if |tag| > |w| {
      FoldStops(s, tag, |w|);
    } else {
      assert s[..|tag|] == w[..|tag|];
      LowerAllReads(w, s, |tag|);
      assert w[..|w|] == w;
      assert |tag| == |w| ==> LowerAll(w)[..|tag|] == LowerAll(w);
    }
  }

  lemma SubtreeOpenReads(tag: string, s: string, a: nat)
    requires s != "" && s[0] == '<' && a == 1 + Span(IsSpace, s[1..])
    ensures SubtreeOpen(tag, s)
         == if StartsWithFold(s[a..], tag) && (a + |tag| == |s| || !IsWord(s[a + |tag|])) then a + |tag| else 0
  {
    hide Span, IsSpace, IsWord, StartsWithFold;
    assert "<" <= s;
  }

  lemma WordAt(w: string, tail: string, tag: string)
    requires IsName(w) && tail != "" && !IsWord(tail[0]) && |tag| <= |w|
    ensures IsWord((w + tail)[|tag|]) <==> |tag| < |w|
    ensures |tag| == |w| ==> LowerAll(w)[..|tag|] == LowerAll(w)
    ensures |tag| < |w| ==> LowerAll(w) != tag
  {
  }

  lemma OpenSpans(gap: string, w: string, raw: string, rest: string)
    requires Spaces(gap) && IsName(w) && Ends(raw)
    ensures var s, tail := OpenText(gap, w, raw) + rest, raw + (">" + rest);
            && s != "" && s[0] == '<' && Span(IsSpace, s[1..]) == |gap| && s[1 + |gap|..] == w + tail
            && tail != "" && !IsWord(tail[0])
  {
    hide *;
    OpenParts(gap, w, raw, rest);
    NameHead(w, raw + (">" + rest));
    SpacesThen(gap, w + (raw + (">" + rest)));
    BodyOfRest(raw, rest);
  }

  /** The tag opens a dropped element exactly if its whole name, in lower case, is the element's. */
  lemma SubtreeOpened(tag: string, gap: string, w: string, raw: string, rest: string)
    requires Spaces(gap) && IsName(w) && Ends(raw) && IsLowerWord(tag)
    ensures SubtreeOpen(tag, OpenText(gap, w, raw) + rest) == if LowerAll(w) == tag then 1 + |gap| + |w| else 0
  {
    hide *;
    var s, tail := OpenText(gap, w, raw) + rest, raw + (">" + rest);
    OpenSpans(gap, w, raw, rest);
    FoldHead(w, tail, tag);
    var a := 1 + |gap|;
    SubtreeOpenReads(tag, s, a);
    if |tag| <= |w| {
      WordAt(w, tail, tag);
      assert s[a + |tag|] == s[a..][|tag|];
    }
  }

  lemma NotOpened(tag: string, gap: string, slashGap: string, w: string, end: string, rest: string)
    requires Spaces(gap) && IsLowerWord(tag)
    ensures SubtreeOpen(tag, EndText(gap, slashGap, w, end) + rest) == 0
  {
    var s, tail := EndText(gap, slashGap, w, end) + rest, end + (">" + rest);
    CloseParts(gap, slashGap, w, end, rest);
    SlashHead(slashGap + (w + tail));
    SpacesThen(gap, "/" + (slashGap + (w + tail)));
    var a := 1 + |gap|;
    assert s[a] == s[1..][|gap|] == '/';
    SubtreeOpenReads(tag, s, a);
    if StartsWithFold(s[a..], tag) {
      FoldReads(s[a..], tag);
    }
    hide SubtreeOpen, EndText;
  }

  lemma SubtreeCloseReads(tag: string, s: string, a: nat, b: nat, c: nat)
    requires s != "" && s[0] == '<' && a == 1 + Span(IsSpace, s[1..]) && a < |s| && s[a] == '/'
    requires b == a + 1 + Span(IsSpace, s[a + 1..]) && StartsWithFold(s[b..], tag)
    requires c == b + |tag| + Span(IsSpace, s[b + |tag|..]) && c < |s| && s[c] == '>'
    ensures SubtreeClose(tag, s) == c + 1
  {
    hide Span, IsSpace, StartsWithFold;
    assert "<" <= s;
  }

  lemma AngleHead(rest: string)
    ensures ">" + rest != "" && !IsSpace((">" + rest)[0]) && (">" + rest)[0] == '>'
  {
  }

  lemma CloseSpans(gap: string, slashGap: string, w: string, end: string, rest: string)
    requires Spaces(gap) && Spaces(slashGap) && IsName(w) && Spaces(end)
    ensures var s, tail := EndText(gap, slashGap, w, end) + rest, end + (">" + rest);
            var a := 1 + |gap|;
            var b := a + 1 + |slashGap|;
            var c := b + |w| + |end|;
            && c < |s| && c + 1 == |EndText(gap, slashGap, w, end)| && s[0] == '<' && Span(IsSpace, s[1..]) == |gap|
            && s[a] == '/' && Span(IsSpace, s[a + 1..]) == |slashGap| && s[b..] == w + tail
            && Span(IsSpace, s[b + |w|..]) == |end| && s[c] == '>' && tail != "" && !IsWord(tail[0])
  {
    hide *;
    var s, tail := EndText(gap, slashGap, w, end) + rest, end + (">" + rest);
    CloseParts(gap, slashGap, w, end, rest);
    SlashHead(slashGap + (w + tail));
    SpacesThen(gap, "/" + (slashGap + (w + tail)));
    NameHead(w, tail);
    SpacesThen(slashGap, w + tail);
    SpacesRest(end);
    BodyOfRest(end, rest);
    AngleHead(rest);
    SpacesThen(end, ">" + rest);
    var a := 1 + |gap|;
    var b := a + 1 + |slashGap|;
    assert s[a] == s[1..][|gap|];
    assert s[b + |w| + |end|] == s[b + |w|..][|end|];
  }

  lemma SubtreeClosed(gap: string, slashGap: string, w: string, end: string, rest: string)
    requires Spaces(gap) && Spaces(slashGap) && IsName(w) && Spaces(end) && IsLowerWord(LowerAll(w))
    ensures SubtreeClose(LowerAll(w), EndText(gap, slashGap, w, end) + rest) == |EndText(gap, slashGap, w, end)|
  {
    hide *;
    CloseSpans(gap, slashGap, w, end, rest);
    FoldHead(w, end + (">" + rest), LowerAll(w));
    var a := 1 + |gap|;
    var b := a + 1 + |slashGap|;
    SubtreeCloseReads(LowerAll(w), EndText(gap, slashGap, w, end) + rest, a, b, b + |w| + |end|);
  }

  lemma {:induction false} TailPlain(tag: string, x: string, rest: string)
    requires '<' !in x
    ensures SubtreeTail(tag, x + rest) == |x| + SubtreeTail(tag, rest)
  {
    if x == "" {
      assert x + rest == rest;
    } else {
      assert (x + rest)[1..] == x[1..] + rest && (x + rest)[0] == x[0] != '<';
      TailPlain(tag, x[1..], rest);
      assert SubtreeClose(tag, x + rest) == 0;
      hide SubtreeClose;
    }
  }

  lemma TailHere(tag: string, s: string)
    requires s != "" && SubtreeClose(tag, s) > 0
    ensures SubtreeTail(tag, s) == SubtreeClose(tag, s)
  {
    hide SubtreeClose;
  }

  // ----- the whole text ------------------------------------------------------------------------------

  /** An element between two plain texts. */
  function Around(a: string, open: string, body: string, close: string, b: string): string {
    a + (open + (body + (close + b)))
  }

  lemma PassLeaves(p: Pattern, a: string, open: string, body: string, close: string, b: string)
    requires AtAngles(p) && '<' !in a && '<' !in body && '<' !in b
    requires open != "" && '<' !in open[1..] && close != "" && '<' !in close[1..]
    requires !Hits(p, open + (body + (close + b))) && !Hits(p, close + b)
    ensures ReplaceAll(p, Around(a, open, body, close, b)) == Around(a, open, body, close, b)
  {
    PassNone(p, b);
    PassOver(p, close, b);
    PassPlain(p, body, close + b);
    PassOver(p, open, body + (close + b));
    PassPlain(p, a, open + (body + (close + b)));
    hide *;
  }

  lemma OneBracket(gap: string, w: string, raw: string, slashGap: string, end: string)
    requires Spaces(gap) && IsName(w) && Ends(raw) && Spaces(slashGap) && Spaces(end)
    ensures var open, close := OpenText(gap, w, raw), EndText(gap, slashGap, w, end);
            && open != "" && '<' !in open[1..] && close != "" && '<' !in close[1..]
  {
    SpacesPlain(gap);
    SpacesPlain(slashGap);
    SpacesPlain(end);
    assert '<' !in w by {
      assert forall i :: 0 <= i < |w| ==> IsAlnum(w[i]);
    }
    assert OpenText(gap, w, raw)[1..] == gap + (w + (raw + ">"));
    assert EndText(gap, slashGap, w, end)[1..] == gap + ("/" + (slashGap + (w + (end + ">"))));
    hide IsSpace, TagBody;
  }

  lemma SpacesPlain(s: string)
    requires Spaces(s)
    ensures '<' !in s && (s != "" ==> s[0] != '!')
  {
  }

  lemma NothingBanged(gap: string, w: string, raw: string, slashGap: string, end: string, rest: string, b: string)
    requires Spaces(gap) && IsName(w)
    ensures var s, t := OpenText(gap, w, raw) + rest, EndText(gap, slashGap, w, end) + b;
            !Hits(Comment, s) && !Hits(Declaration, s) && !Hits(Comment, t) && !Hits(Declaration, t)
  {
    var s, t := OpenText(gap, w, raw) + rest, EndText(gap, slashGap, w, end) + b;
    NameHead(w, raw + (">" + rest));
    OpenParts(gap, w, raw, rest);
    CloseParts(gap, slashGap, w, end, b);
    hide *;
    SecondChar(gap, w + (raw + (">" + rest)));
    NoBang(s);
    var close := "/" + (slashGap + (w + (end + (">" + b))));
    assert close[0] == '/';
    SecondChar(gap, close);
    assert t == "<" + (gap + close);
    NoBang(t);
  }

  lemma SubtreeHits(tag: string, s: string, n: nat)
    requires n == SubtreeOpen(tag, s) > 0
    ensures Hits(Subtree(tag), s) && Subtree(tag)(s) == Match(n + SubtreeTail(tag, s[n..]), "", false)
  {
    hide SubtreeOpen, SubtreeTail;
  }

  lemma SubtreeMisses(tag: string, s: string)
    requires SubtreeOpen(tag, s) == 0
    ensures !Hits(Subtree(tag), s)
  {
    hide SubtreeOpen, SubtreeTail;
  }

  /** A dropped element goes from its opening to its closing tag. */
  lemma SubtreeDrops(a: string, gap: string, w: string, raw: string, body: string, slashGap: string, end: string,
                     b: string)
    requires '<' !in a && '<' !in body && '<' !in b
    requires Spaces(gap) && IsName(w) && Ends(raw) && Spaces(slashGap) && Spaces(end) && IsLowerWord(LowerAll(w))
    ensures var open, close := OpenText(gap, w, raw), EndText(gap, slashGap, w, end);
            ReplaceAll(Subtree(LowerAll(w)), Around(a, open, body, close, b)) == a + b
  {
    hide *;
    var low, open, close := LowerAll(w), OpenText(gap, w, raw), EndText(gap, slashGap, w, end);
    var p, rest := Subtree(low), body + (close + b);
    var s, n := open + rest, 1 + |gap| + |w|;
    SubtreeOpened(low, gap, w, raw, rest);
    SubtreeHits(low, s, n);
    OpenParts(gap, w, raw, rest);
    var inner := raw + (">" + body);
    assert s[n..] == inner + (close + b);
    InnerPlain(raw, body);
    TailPlain(low, inner, close + b);
    SubtreeClosed(gap, slashGap, w, end, b);
    CloseLong(gap, slashGap, w, end, b);
    TailHere(low, close + b);
    assert n + |inner| + |close| == |open| + |body| + |close|;
    assert s[|open| + |body| + |close|..] == b;
    ReplaceHit(p, s);
    PatternsAtAngles(low);
    PassNone(p, b);
    PassPlain(p, a, s);
    AroundReads(a, open, body, close, b);
  }

  lemma AroundReads(a: string, open: string, body: string, close: string, b: string)
    ensures Around(a, open, body, close, b) == a + (open + (body + (close + b)))
  {
  }

  lemma InnerPlain(raw: string, body: string)
    requires Ends(raw) && '<' !in body
    ensures '<' !in raw + (">" + body)
  {
    hide TagBody;
  }

  lemma CloseLong(gap: string, slashGap: string, w: string, end: string, b: string)
    ensures |EndText(gap, slashGap, w, end)| > 0 && EndText(gap, slashGap, w, end) + b != ""
  {
  }

  lemma ReplaceHit(p: Pattern, s: string)
    requires Hits(p, s) && p(s).text == ""
    ensures ReplaceAll(p, s) == ReplaceAll(p, s[p(s).len..])
  {
    assert s != "";
    assert "" + ReplaceAll(p, s[p(s).len..]) == ReplaceAll(p, s[p(s).len..]);
  }

  lemma {:induction false} StripsPlain(tags: seq<string>, s: string)
    requires '<' !in s
    ensures StripSubtrees(tags, s) == s
  {
    if tags != [] {
      PatternsAtAngles(tags[0]);
      PassNone(Subtree(tags[0]), s);
      StripsPlain(tags[1..], s);
      hide Subtree, AtAngles, ReplaceAll;
    }
  }

  lemma StripStep(tags: seq<string>, s: string)
    requires tags != []
    ensures StripSubtrees(tags, s) == StripSubtrees(tags[1..], ReplaceAll(Subtree(tags[0]), s))
  {
    hide Subtree, ReplaceAll;
  }

  lemma {:induction false} StripsElement(tags: seq<string>, a: string, gap: string, w: string, raw: string,
                                         body: string, slashGap: string, end: string, b: string)
    requires '<' !in a && '<' !in body && '<' !in b && forall t :: t in tags ==> IsLowerWord(t)
    requires Spaces(gap) && IsName(w) && Ends(raw) && Spaces(slashGap) && Spaces(end)
    ensures var text := Around(a, OpenText(gap, w, raw), body, EndText(gap, slashGap, w, end), b);
            StripSubtrees(tags, text) == if LowerAll(w) in tags then a + b else text
  {
    var open, close := OpenText(gap, w, raw), EndText(gap, slashGap, w, end);
    var text := Around(a, open, body, close, b);
    if tags != [] {
      var tag := tags[0];
      assert IsLowerWord(tag) && forall t :: t in tags[1..] ==> t in tags;
      hide *;
      StripStep(tags, text);
      if LowerAll(w) == tag {
        SubtreeDrops(a, gap, w, raw, body, slashGap, end, b);
        assert '<' !in a + b;
        StripsPlain(tags[1..], a + b);
      } else {
        SubtreeOpened(tag, gap, w, raw, body + (close + b));
        SubtreeMisses(tag, open + (body + (close + b)));
        NotOpened(tag, gap, slashGap, w, end, b);
        SubtreeMisses(tag, close + b);
        OneBracket(gap, w, raw, slashGap, end);
        PatternsAtAngles(tag);
        PassLeaves(Subtree(tag), a, open, body, close, b);
        StripsElement(tags[1..], a, gap, w, raw, body, slashGap, end, b);
        assert LowerAll(w) in tags <==> LowerAll(w) in tags[1..];
      }
    }
  }

  lemma AllStrippedShape()
    ensures forall t :: t in STRIPPED_SUBTREES ==> IsLowerWord(t)
  {
    forall t | t in STRIPPED_SUBTREES ensures IsLowerWord(t) {
      StrippedShape(t);
    }
  }

  lemma StrippedReads(input: string)
    ensures Stripped(input) == StripSubtrees(STRIPPED_SUBTREES, ReplaceAll(Declaration, ReplaceAll(Comment, input)))
  {
    hide StripSubtrees, ReplaceAll, Declaration, Comment;
  }

  lemma ElementStripped(a: string, gap: string, w: string, raw: string, body: string, slashGap: string, end: string,
                        b: string)
    requires '<' !in a && '<' !in body && '<' !in b
    requires Spaces(gap) && IsName(w) && Ends(raw) && Spaces(slashGap) && Spaces(end)
    ensures var text := Around(a, OpenText(gap, w, raw), body, EndText(gap, slashGap, w, end), b);
            Stripped(text) == if Dangerous(LowerAll(w)) then a + b else text
  {
    hide *;
    var open, close := OpenText(gap, w, raw), EndText(gap, slashGap, w, end);
    OneBracket(gap, w, raw, slashGap, end);
    NothingBanged(gap, w, raw, slashGap, end, body + (close + b), b);
    PatternsAtAngles("");
    PassLeaves(Comment, a, open, body, close, b);
    PassLeaves(Declaration, a, open, body, close, b);
    AllStrippedShape();
    StrippedReads(Around(a, open, body, close, b));
    StripsElement(STRIPPED_SUBTREES, a, gap, w, raw, body, slashGap, end, b);
    DangerousIff(LowerAll(w));
  }

  // ----- the tag loop ----------------------------------------------------------------------------------

  lemma AppendNothing(rest: Option<seq<Node>>)
    ensures Append(Some([]), rest) == rest
  {
    assert rest.Some? ==> [] + rest.value == rest.value;
  }

  lemma CharNodesCons(a: string, rest: string)
    requires a != ""
    ensures CharNodes(a) == [Char(a[0])] + CharNodes(a[1..])
    ensures RenderNode(Char(a[0])) + (a[1..] + rest) == a + rest
  {
    assert [a[0]] + (a[1..] + rest) == a + rest;
  }

  lemma {:induction false} NodesPlain(a: string, rest: string)
    requires '<' !in a
    ensures Nodes(a + rest) == Append(Some(CharNodes(a)), Nodes(rest))
  {
    if a == "" {
      assert a + rest == rest && CharNodes(a) == [];
      AppendNothing(Nodes(rest));
    } else {
      assert a[0] in a && '<' !in a[1..];
      hide *;
      NodesPlain(a[1..], rest);
      CharReread(a[0], a[1..] + rest);
      CharNodesCons(a, rest);
      AppendAssociates([Char(a[0])], Some(CharNodes(a[1..])), Nodes(rest));
      AppendBoth([Char(a[0])], CharNodes(a[1..]));
    }
  }

  lemma AppendBoth(a: seq<Node>, b: seq<Node>)
    ensures Append(Some(a), Some(b)) == Some(a + b)
  {
  }

  /** What is rendered of some nodes, if there are any. */
  function Rendered(nodes: Option<seq<Node>>): Option<string> {
    if nodes.None? then None else Some(Render(nodes.value))
  }

  function Joined(a: Option<string>, b: Option<string>): Option<string> {
    if a.None? || b.None? then None else Some(a.value + b.value)
  }

  lemma RenderedAppend(a: Option<seq<Node>>, b: Option<seq<Node>>)
    ensures Rendered(Append(a, b)) == Joined(Rendered(a), Rendered(b))
  {
    if a.Some? && b.Some? {
      RenderAppend(a.value, b.value);
    }
    hide Render;
  }

  lemma RenderedPlain(a: string, rest: string)
    requires '<' !in a
    ensures Rendered(Nodes(a + rest)) == Joined(Some(a), Rendered(Nodes(rest)))
  {
    NodesPlain(a, rest);
    RenderedAppend(Some(CharNodes(a)), Nodes(rest));
    RenderChars(a);
    hide Nodes, CharNodes, Render;
  }

  lemma RenderedTag(tag: string, rest: string)
    requires MatchTag(tag + rest).TagHit? && MatchTag(tag + rest).len == |tag|
    ensures Rendered(Nodes(tag + rest)) == Joined(Rendered(TagNodes(MatchTag(tag + rest))), Rendered(Nodes(rest)))
  {
    assert (tag + rest)[|tag|..] == rest;
    TagReread(tag + rest, rest);
    RenderedAppend(TagNodes(MatchTag(tag + rest)), Nodes(rest));
    hide *;
  }

  lemma NothingRendered()
    ensures Rendered(Nodes("")) == Some("")
  {
    assert Nodes("") == Some([]);
  }

  lemma SanitizeReads(input: string)
    ensures Sanitize(input) == match Rendered(Nodes(Stripped(input))) case None => None case Some(s) => Some(Trim(s))
  {
    hide Nodes, Stripped, Render, Trim;
  }

  /** The text that is written for an element which is not dropped. */
  lemma ElementWritten(a: string, gap: string, w: string, raw: string, body: string, slashGap: string, end: string,
                       b: string)
    requires '<' !in a && '<' !in body && '<' !in b && !Dangerous(LowerAll(w))
    requires Spaces(gap) && IsName(w) && Ends(raw) && Spaces(slashGap) && Spaces(end)
    ensures var open, close := OpenText(gap, w, raw), EndText(gap, slashGap, w, end);
            var first, last := TagNodes(TagHit(|open|, false, w, raw)), TagNodes(TagHit(|close|, true, w, end));
            Sanitize(Around(a, open, body, close, b)) ==
            match Joined(Rendered(first), Joined(Some(body), Joined(Rendered(last), Some(b))))
            case None => None
            case Some(s) => Some(Trim(a + s))
  {
    hide *;
    var open, close := OpenText(gap, w, raw), EndText(gap, slashGap, w, end);
    var text := Around(a, open, body, close, b);
    ElementStripped(a, gap, w, raw, body, slashGap, end, b);
    SanitizeReads(text);
    AroundReads(a, open, body, close, b);
    RenderedPlain(a, open + (body + (close + b)));
    OpenMatches(gap, w, raw, body + (close + b));
    RenderedTag(open, body + (close + b));
    RenderedPlain(body, close + b);
    CloseMatches(gap, slashGap, w, end, b);
    RenderedTag(close, b);
    RenderedPlain(b, "");
    assert b + "" == b;
    NothingRendered();
    JoinedEnds(a, b, Joined(Rendered(TagNodes(TagHit(|open|, false, w, raw))),
                            Joined(Some(body), Joined(Rendered(TagNodes(TagHit(|close|, true, w, end))), Some(b)))));
  }

  lemma JoinedEnds(a: string, b: string, rest: Option<string>)
    ensures Joined(Some(b), Some("")) == Some(b)
    ensures Joined(Some(a), rest) == match rest case None => None case Some(s) => Some(a + s)
  {
    assert b + "" == b;
  }

  lemma RenderOne(node: Node)
    ensures Render([node]) == RenderNode(node) && Render([]) == ""
  {
    assert [node][1..] == [] && RenderNode(node) + "" == RenderNode(node);
    hide RenderNode;
  }

  lemma TagNodesRead(t: TagHit)
    requires t.TagHit?
    ensures var name := LowerAll(t.name);
            TagNodes(t) == if !IsAllowedTag(name) then Some([])
                           else if t.closing then Some([Close(name)])
                           else match KeptAttrs(name, ScanAttrs(t.raw))
                                case None => None
                                case Some(attrs) => Some([Open(name, attrs)])
  {
    hide IsAllowedTag, LowerAll, KeptAttrs, ScanAttrs;
  }

  lemma NodeTexts(name: string, attrs: seq<Attr>)
    ensures RenderNode(Close(name)) == "</" + name + ">"
    ensures RenderNode(Open(name, attrs)) == "<" + name + AttrText(name, attrs) + ">"
  {
    hide AttrText;
  }

  lemma ClosedRendered(w: string, end: string, len: nat)
    ensures Rendered(TagNodes(TagHit(len, true, w, end)))
         == Some(if Formats(LowerAll(w)) then "</" + LowerAll(w) + ">" else "")
  {
    var low := LowerAll(w);
    hide Formats, IsAllowedTag, LowerAll, TagNodes, Render, RenderNode;
    FormatsIff(low);
    TagNodesRead(TagHit(len, true, w, end));
    RenderOne(Close(low));
    NodeTexts(low, []);
  }

  lemma OpenedRendered(w: string, raw: string, len: nat, attrs: Option<seq<Attr>>)
    requires KeptAttrs(LowerAll(w), ScanAttrs(raw)) == attrs
    ensures Rendered(TagNodes(TagHit(len, false, w, raw)))
         == if !Formats(LowerAll(w)) then Some("")
            else match attrs
                 case None => None
                 case Some(kept) => Some("<" + LowerAll(w) + AttrText(LowerAll(w), kept) + ">")
  {
    var low := LowerAll(w);
    hide Formats, IsAllowedTag, LowerAll, TagNodes, Render, RenderNode, AttrText, KeptAttrs, ScanAttrs;
    FormatsIff(low);
    TagNodesRead(TagHit(len, false, w, raw));
    RenderOne(Close(low));
    if attrs.Some? {
      RenderOne(Open(low, attrs.value));
      NodeTexts(low, attrs.value);
    }
  }

  lemma {:induction false} NoEquals(s: string)
    requires '=' !in s
    ensures ScanAttrs(s) == []
  {
    if s != "" {
      NoEquals(s[1..]);
      assert MatchAttr(s).NoAttr?;
    }
  }

  lemma NoAttrText(tag: string)
    ensures KeptAttrs(tag, []) == Some([]) && AttrText(tag, []) == ""
  {
  }

  /** What becomes of an element between plain texts is decided by its tag's name in lower case: formatting
      stays, without anything that is not an attribute; dangerous elements go with their contents; of all
      others the contents stay. White space within the tags makes no difference. */
  lemma ElementEffect(a: string, gap: string, w: string, raw: string, body: string, slashGap: string, end: string,
                      b: string)
    requires '<' !in a && '<' !in body && '<' !in b
    requires Spaces(gap) && IsName(w) && IsRest(raw) && '=' !in raw && Spaces(slashGap) && Spaces(end)
    ensures var low := LowerAll(w);
            Sanitize(Around(a, OpenText(gap, w, raw), body, EndText(gap, slashGap, w, end), b)) ==
            Some(Trim(if Formats(low) then a + ("<" + low + ">" + (body + ("</" + low + ">" + b)))
                      else if Dangerous(low) then a + b
                      else a + (body + b)))
  {
    hide *;
    var low, open, close := LowerAll(w), OpenText(gap, w, raw), EndText(gap, slashGap, w, end);
    var text := Around(a, open, body, close, b);
    RestEnds(raw);
    Disjoint(low);
    if Dangerous(low) {
      ElementStripped(a, gap, w, raw, body, slashGap, end, b);
      SanitizeReads(text);
      assert (a + b) + "" == a + b && '<' !in a + b;
      RenderedPlain(a + b, "");
      NothingRendered();
      JoinedEnds(a, a + b, None);
    } else {
      ElementWritten(a, gap, w, raw, body, slashGap, end, b);
      NoEquals(raw);
      NoAttrText(low);
      OpenedRendered(w, raw, |open|, Some([]));
      ClosedRendered(w, end, |close|);
      JoinedParts(if Formats(low) then "<" + low + "" + ">" else "", body,
                  if Formats(low) then "</" + low + ">" else "", b);
      assert "<" + low + "" + ">" == "<" + low + ">";
      assert "" + (body + ("" + b)) == body + b;
    }
  }

  lemma Disjoint(tag: string)
    ensures !(Formats(tag) && Dangerous(tag))
  {
  }

  lemma JoinedParts(open: string, body: string, close: string, b: string)
    ensures Joined(Some(open), Joined(Some(body), Joined(Some(close), Some(b)))) == Some(open + (body + (close + b)))
  {
  }

  // ----- an attribute -------------------------------------------------------------------------------------

  datatype Quoting = Double | Single | Bare

  /** A value as it is written in a tag. */
  function InQuoting(v: string, q: Quoting): string {
    match q
    case Double => "\"" + (v + "\"")
    case Single => "'" + (v + "'")
    case Bare => v
  }

  /** The value can be written that way. */
  predicate Writable(v: string, q: Quoting) {
    && '<' !in v
    && match q
       case Double => '"' !in v
       case Single => '\'' !in v
       case Bare => v != "" && forall i :: 0 <= i < |v| ==> v[i] != '"' && v[i] != '\'' && v[i] != '>' && !IsSpace(v[i])
  }

  /** An attribute as it is written, with or without white space around the equals sign. */
  function AttrSource(name: string, before: string, after: string, v: string, q: Quoting): string {
    " " + (name + (before + ("=" + (after + InQuoting(v, q)))))
  }

  /** An attribute's name, in any case. */
  predicate IsAttrName(name: string) {
    && name != "" && (IsLetter(name[0]) || name[0] == '_' || name[0] == ':')
    && forall i :: 0 <= i < |name| ==> IsAlnum(name[i]) || name[i] in ":._-"
  }

  lemma QuotedReads(v: string, quote: char, rest: string)
    requires quote in "\"'" && quote !in v
    ensures var s := [quote] + (v + ([quote] + rest));
            && Quoted(s) == |v| + 2 && s[1..|v| + 1] == v && s[|v| + 2..] == rest && s != "" && s[0] == quote
  {
    var s := [quote] + (v + ([quote] + rest));
    assert s[1..] == v + ([quote] + rest);
    SpanUnique(Not(quote), v, [quote] + rest);
  }

  lemma WrittenThen(v: string, q: Quoting, rest: string)
    ensures q == Double ==> InQuoting(v, q) + rest == ['"'] + (v + (['"'] + rest))
    ensures q == Single ==> InQuoting(v, q) + rest == ['\''] + (v + (['\''] + rest))
  {
  }

  lemma BareBody(v: string, rest: string)
    requires Writable(v, Bare) && TagBody(rest).Some?
    ensures TagBody(v + rest) == Some(|v| + TagBody(rest).value)
  {
    hide IsSpace, TagBody;
    BodyOfPlain(v, rest);
  }

  lemma QuotedBody(v: string, quote: char, rest: string)
    requires quote in "\"'" && quote !in v && TagBody(rest).Some?
    ensures TagBody([quote] + (v + ([quote] + rest))) == Some(|v| + 2 + TagBody(rest).value)
  {
    hide *;
    QuotedReads(v, quote, rest);
    BodyTakesQuoted([quote] + (v + ([quote] + rest)), |v| + 2);
  }

  function Quote(q: Quoting): char { if q == Double then '"' else '\'' }

  lemma QuoteReads(v: string, q: Quoting, rest: string)
    requires Writable(v, q) && q != Bare
    ensures Quote(q) in "\"'" && Quote(q) !in v && |InQuoting(v, q)| == |v| + 2
    ensures InQuoting(v, q) + rest == [Quote(q)] + (v + ([Quote(q)] + rest))
  {
    WrittenThen(v, q, rest);
  }

  lemma ValueBody(v: string, q: Quoting, rest: string)
    requires Writable(v, q) && TagBody(rest).Some?
    ensures TagBody(InQuoting(v, q) + rest) == Some(|InQuoting(v, q)| + TagBody(rest).value)
  {
    hide *;
    if q == Bare {
      BareReads(v);
      BareBody(v, rest);
    } else {
      QuoteReads(v, q, rest);
      QuotedBody(v, Quote(q), rest);
    }
  }

  /** Everything before the value. */
  function Lead(name: string, before: string, after: string): string { " " + (name + (before + ("=" + after))) }

  lemma LeadPlain(name: string, before: string, after: string)
    requires IsAttrName(name) && Spaces(before) && Spaces(after)
    ensures var s := Lead(name, before, after);
            forall i :: 0 <= i < |s| ==> s[i] != '"' && s[i] != '\'' && s[i] != '>' && s[i] != '<'
  {
    SpacesRest(before);
    SpacesRest(after);
    var s := Lead(name, before, after);
    assert forall i :: 0 <= i < |name| ==> name[i] != '"' && name[i] != '\'' && name[i] != '>' && name[i] != '<';
    hide IsSpace, IsAlnum, Ends, IsWord;
    forall i | 0 <= i < |s| ensures s[i] != '"' && s[i] != '\'' && s[i] != '>' && s[i] != '<' {
      assert s[i] == ' ' || s[i] == '=' || s[i] in name || s[i] in before || s[i] in after;
    }
  }

  lemma SourceReads(name: string, before: string, after: string, v: string, q: Quoting, rest: string)
    ensures AttrSource(name, before, after, v, q) + rest == Lead(name, before, after) + (InQuoting(v, q) + rest)
    ensures AttrSource(name, before, after, v, q)[1..] == name + (before + ("=" + (after + InQuoting(v, q))))
    ensures |AttrSource(name, before, after, v, q)| == |Lead(name, before, after)| + |InQuoting(v, q)|
    ensures AttrSource(name, before, after, v, q)[0] == ' '
  {
    assert Lead(name, before, after) + (InQuoting(v, q) + rest)
        == " " + (name + (before + ("=" + (after + InQuoting(v, q))))) + rest;
  }

  lemma SourceBody(name: string, before: string, after: string, v: string, q: Quoting, rest: string)
    requires IsAttrName(name) && Spaces(before) && Spaces(after) && Writable(v, q)
    ensures TagBody(AttrSource(name, before, after, v, q) + (">" + rest))
            == Some(|AttrSource(name, before, after, v, q)| + 1)
  {
    hide *;
    BodyEnds(rest);
    ValueBody(v, q, ">" + rest);
    LeadPlain(name, before, after);
    SourceReads(name, before, after, v, q, ">" + rest);
    BodyOfPlain(Lead(name, before, after), InQuoting(v, q) + (">" + rest));
  }

  lemma WrittenPlain(v: string, q: Quoting)
    requires Writable(v, q)
    ensures '<' !in InQuoting(v, q)
  {
  }

  lemma SourcePlain(name: string, before: string, after: string, v: string, q: Quoting)
    requires IsAttrName(name) && Spaces(before) && Spaces(after) && Writable(v, q)
    ensures var raw := AttrSource(name, before, after, v, q); '<' !in raw && raw != "" && !IsWord(raw[0])
  {
    LeadPlain(name, before, after);
    WrittenPlain(v, q);
    SourceReads(name, before, after, v, q, "");
    var lead, value := Lead(name, before, after), InQuoting(v, q);
    hide *;
    assert lead + (value + "") == lead + value &&
           AttrSource(name, before, after, v, q) + "" == AttrSource(name, before, after, v, q);
    BlankNoWord();
  }

  lemma BlankNoWord()
    ensures !IsWord(' ')
  {
  }

  lemma SourceEnds(name: string, before: string, after: string, v: string, q: Quoting)
    requires IsAttrName(name) && Spaces(before) && Spaces(after) && Writable(v, q)
    ensures Ends(AttrSource(name, before, after, v, q))
  {
    hide IsAttrName, Writable, AttrSource, TagBody, IsWord, Spaces;
    SourcePlain(name, before, after, v, q);
    var raw := AttrSource(name, before, after, v, q);
    forall rest: string ensures TagBody(raw + (">" + rest)) == Some(|raw| + 1) {
      SourceBody(name, before, after, v, q, rest);
    }
  }

  lemma BareReads(v: string)
    requires Writable(v, Bare)
    ensures v[0] != '"' && InQuoting(v, Bare) == v
  {
  }

  /** What ends a value: its second quote, or without quotes the end, white space, a quote or a bracket. */
  predicate Stops(q: Quoting, rest: string) {
    q == Bare && rest != "" ==> IsSpace(rest[0]) || rest[0] == '"' || rest[0] == '\'' || rest[0] == '>'
  }

  lemma BareThen(v: string, rest: string)
    requires Writable(v, Bare) && Stops(Bare, rest)
    ensures Quoted(v + rest) == 0 && Span(IsUnquoted, v + rest) == |v| && v != ""
  {
    assert (v + rest)[0] == v[0];
    SpanUnique(IsUnquoted, v, rest);
  }

  lemma BareValue(s: string, n: nat, at: nat, v: string, rest: string)
    requires n <= at <= |s| && s[at..] == v + rest && Quoted(v + rest) == 0 && Span(IsUnquoted, v + rest) == |v| > 0
    ensures ValueFrom(s, n, at) == AttrHit(at + |v|, Attr(s[..n], v))
  {
    assert s[at..at + |v|] == s[at..][..|v|] == v;
    hide Quoted, Span, IsUnquoted;
  }

  lemma QuotedValue(s: string, n: nat, at: nat, v: string)
    requires n <= at <= |s| && Quoted(s[at..]) == |v| + 2 <= |s| - at && s[at..][1..|v| + 1] == v
    ensures ValueFrom(s, n, at) == AttrHit(at + |v| + 2, Attr(s[..n], v))
  {
    assert s[at + 1..at + 1 + |v|] == s[at..][1..|v| + 1];
    hide Quoted;
  }

  lemma ValueReads(s: string, n: nat, at: nat, v: string, q: Quoting, rest: string)
    requires n <= at <= |s| && s[at..] == InQuoting(v, q) + rest && Writable(v, q) && Stops(q, rest)
    ensures ValueFrom(s, n, at) == AttrHit(at + |InQuoting(v, q)|, Attr(s[..n], v))
  {
    hide *;
    if q == Bare {
      BareReads(v);
      BareThen(v, rest);
      BareValue(s, n, at, v, rest);
    } else {
      QuoteReads(v, q, rest);
      QuotedReads(v, Quote(q), rest);
      QuotedValue(s, n, at, v);
    }
  }

  lemma MatchAttrAt(s: string, n: nat, e: nat, at: nat)
    requires s != "" && IsNameStart(s[0]) && n == Span(IsNameChar, s) && e == n + Span(IsSpace, s[n..]) && e < |s| &&
             s[e] == '='
    requires at == e + 1 + Span(IsSpace, s[e + 1..])
    ensures MatchAttr(s) == ValueFrom(s, n, at)
  {
    hide Span, IsSpace, IsNameChar, IsNameStart, ValueFrom;
  }

  lemma ValueHead(v: string, q: Quoting)
    requires Writable(v, q)
    ensures InQuoting(v, q) != "" && !IsSpace(InQuoting(v, q)[0])
  {
  }

  lemma SourceParts(name: string, before: string, after: string, written: string)
    requires name != "" && written != ""
    ensures var tail := before + ("=" + (after + written));
            var s := name + tail;
            var e := |name| + |before|;
            && s[0] == name[0] && s[..|name|] == name && s[|name|..] == tail && e < |s| && s[e] == '='
            && s[e + 1..] == after + written && s[e + 1 + |after|..] == written
  {
    var tail := before + ("=" + (after + written));
    var s := name + tail;
    assert s[|name|..] == tail;
    assert s[|name| + |before|..] == tail[|before|..] == "=" + (after + written);
    assert s[|name| + |before| + 1..] == ("=" + (after + written))[1..] == after + written;
    assert s[|name| + |before| + 1 + |after|..] == (after + written)[|after|..] == written;
  }

  lemma NoNameChar(before: string, rest: string)
    requires Spaces(before)
    ensures var s := before + ("=" + rest); s != "" && !IsNameChar(s[0])
    ensures "=" + rest != "" && !IsSpace(("=" + rest)[0])
  {
  }

  lemma NameOnly(name: string)
    requires IsAttrName(name)
    ensures forall i :: 0 <= i < |name| ==> IsNameChar(name[i])
  {
  }

  lemma NameThen(name: string, before: string, after: string, written: string)
    requires IsAttrName(name) && Spaces(before)
    ensures Span(IsNameChar, name + (before + ("=" + (after + written)))) == |name|
    ensures Span(IsSpace, before + ("=" + (after + written))) == |before|
  {
    hide *;
    NoNameChar(before, after + written);
    NameOnly(name);
    SpanUnique(IsNameChar, name, before + ("=" + (after + written)));
    SpacesThen(before, "=" + (after + written));
  }

  lemma SourceMatched(name: string, before: string, after: string, v: string, q: Quoting, rest: string)
    requires IsAttrName(name) && Spaces(before) && Spaces(after) && Writable(v, q)
    ensures var s := name + (before + ("=" + (after + (InQuoting(v, q) + rest))));
            MatchAttr(s) == ValueFrom(s, |name|, |name| + |before| + 1 + |after|)
  {
    hide *;
    var written := InQuoting(v, q) + rest;
    var e := |name| + |before|;
    ValueHead(v, q);
    NameChars(name);
    SourceParts(name, before, after, written);
    NameThen(name, before, after, written);
    SpacesThen(after, written);
    MatchAttrAt(name + (before + ("=" + (after + written))), |name|, e, e + 1 + |after|);
  }

  /** An attribute is read as it is written, whatever follows: a value without quotes ends at white space, a
      quote or a bracket, and a quoted one at its second quote. */
  lemma SourceScanned(name: string, before: string, after: string, v: string, q: Quoting, rest: string)
    requires IsAttrName(name) && Spaces(before) && Spaces(after) && Writable(v, q) && Stops(q, rest)
    ensures ScanAttrs(AttrSource(name, before, after, v, q) + rest) == [Attr(name, v)] + ScanAttrs(rest)
  {
    hide *;
    var written := InQuoting(v, q) + rest;
    var s := name + (before + ("=" + (after + written)));
    SourceThen(name, before, after, v, q, rest);
    ValueHead(v, q);
    NameChars(name);
    SourceMatched(name, before, after, v, q, rest);
    SourceParts(name, before, after, written);
    ValueReads(s, |name|, |name| + |before| + 1 + |after|, v, q, rest);
    ScanOne(AttrSource(name, before, after, v, q) + rest, s, Attr(name, v), rest);
  }

  lemma SourceThen(name: string, before: string, after: string, v: string, q: Quoting, rest: string)
    ensures var raw := AttrSource(name, before, after, v, q) + rest;
            && raw != "" && raw[0] == ' ' && raw[1..] == name + (before + ("=" + (after + (InQuoting(v, q) + rest))))
            && raw[|AttrSource(name, before, after, v, q)|..] == rest
            && |AttrSource(name, before, after, v, q)| == 2 + |name| + |before| + |after| + |InQuoting(v, q)|
  {
    hide InQuoting;
  }

  lemma OneScanned(name: string, before: string, after: string, v: string, q: Quoting)
    requires IsAttrName(name) && Spaces(before) && Spaces(after) && Writable(v, q)
    ensures ScanAttrs(AttrSource(name, before, after, v, q)) == [Attr(name, v)]
  {
    var raw := AttrSource(name, before, after, v, q);
    assert raw + "" == raw && ScanAttrs("") == [] && Stops(q, "");
    hide *;
    SourceScanned(name, before, after, v, q, "");
  }

  lemma NameChars(name: string)
    requires IsAttrName(name)
    ensures name != "" && IsNameStart(name[0])
  {
  }

  lemma ScanOne(raw: string, s: string, attr: Attr, rest: string)
    requires raw != "" && raw[0] == ' ' && raw[1..] == s && |rest| < |s| && s[|s| - |rest|..] == rest
    requires MatchAttr(s) == AttrHit(|s| - |rest|, attr)
    ensures ScanAttrs(raw) == [attr] + ScanAttrs(rest)
  {
    NoAttrHere(raw);
    hide MatchAttr;
  }

  predicate InName(c: char) { IsAlnum(c) || c in ":._-" }

  lemma NoAttrBroken(word: string, c: char, rest: string)
    requires (forall i :: 0 <= i < |word| ==> InName(word[i])) && !InName(c) && !IsSpace(c) && c != '='
    ensures MatchAttr(word + ([c] + rest)) == NoAttr
  {
    var s := word + ([c] + rest);
    if word != "" {
      SpanUnique(IsNameChar, word, [c] + rest);
      assert s[|word|] == c && s[|word|..][0] == c;
    }
    hide ValueFrom;
  }

  /** No name begins with anything but a letter, an underscore or a colon: whatever else is there is passed over. */
  lemma NoNameBegins(c: char, rest: string)
    requires !IsLetter(c) && c != '_' && c != ':'
    ensures ScanAttrs([c] + rest) == ScanAttrs(rest)
  {
    assert ([c] + rest)[1..] == rest;
    hide Span, ValueFrom;
  }

  /** A word that neither an equals sign nor white space follows is no attribute, and names begin anew after it. */
  lemma {:induction false} BrokenName(word: string, c: char, rest: string)
    requires (forall i :: 0 <= i < |word| ==> InName(word[i])) && !InName(c) && !IsSpace(c) && c != '='
    ensures ScanAttrs(word + ([c] + rest)) == ScanAttrs(rest)
  {
    var s := word + ([c] + rest);
    NoAttrBroken(word, c, rest);
    assert s[1..] == if word == "" then rest else word[1..] + ([c] + rest);
    if word != "" {
      BrokenName(word[1..], c, rest);
    }
    hide MatchAttr, InName, IsSpace;
  }

  /** The attributes that a tag may bear. */
  predicate Bears(tag: string, name: string) {
    || (tag == "a" && (name == "href" || name == "title"))
    || ((tag == "th" || tag == "td") && (name == "colspan" || name == "rowspan"))
  }

  lemma KeptOne(tag: string, name: string, v: string)
    ensures KeptAttrs(tag, [Attr(name, v)]) ==
            if !Bears(tag, LowerAll(name)) then Some([])
            else if LowerAll(name) != "href" || IsSafeUrl(v) == Some(true)
            then Some([Attr(LowerAll(name), EscapeAttrValue(v))])
            else if IsSafeUrl(v).None? then None
            else Some([])
  {
    var attr := Attr(name, v);
    assert [attr][1..] == [] && KeptAttrs(tag, []) == Some([]) && [Clean(attr)] + [] == [Clean(attr)];
    hide IsSafeUrl, EscapeAttrValue, LowerAll;
  }

  /** The fixed attributes of a link. */
  const LINK_SUFFIX := " target=\"" + "_blank" + "\"" + (" rel=\"" + "noopener noreferrer nofollow" + "\"")

  lemma RenderTwo(a: Attr, b: Attr)
    ensures RenderAttrs([a, b]) == RenderAttr(a) + RenderAttr(b)
  {
    assert [a, b][1..] == [b] && [b][1..] == [];
    hide RenderAttr;
    assert RenderAttrs([b]) == RenderAttr(b);
  }

  lemma AttrReads(attr: Attr, lead: string)
    requires lead == " " + attr.name + "=\""
    ensures RenderAttr(attr) == lead + attr.value + "\""
  {
  }

  lemma FixedTexts()
    ensures RenderAttr(TARGET) == " target=\"" + "_blank" + "\""
    ensures RenderAttr(REL) == " rel=\"" + "noopener noreferrer nofollow" + "\""
  {
    hide RenderAttr;
    AttrReads(TARGET, " target=\"");
    AttrReads(REL, " rel=\"");
  }

  lemma SuffixText(tag: string, hasHref: bool)
    ensures Suffix(tag, hasHref) == if tag == "a" && hasHref then LINK_SUFFIX else ""
  {
    RenderTwo(TARGET, REL);
    FixedTexts();
    hide RenderAttr;
  }

  lemma OneAttrText(tag: string, name: string, value: string)
    ensures AttrText(tag, [Attr(name, value)]) == " " + name + "=\"" + value + "\""
            + if tag == "a" && name == "href" then LINK_SUFFIX else ""
  {
    var attr := Attr(name, value);
    assert [attr][1..] == [] && attr in [attr] && HasHref([attr]) == (name == "href");
    assert RenderAttrs([attr]) == RenderAttr(attr);
    SuffixText(tag, name == "href");
    hide Suffix;
  }

  /** What is written for an attribute that stays. */
  function AttrOutput(tag: string, name: string, v: string): string {
    " " + name + "=\"" + EscapeAttrValue(v) + "\""
    + if tag == "a" && name == "href" then LINK_SUFFIX else ""
  }

  /** A formatting tag keeps an attribute, however it is quoted, if it may bear one of that name in lower case,
      and a link only if the link passes; the link's tag is then given a fixed target. The value is escaped. */
  lemma AttrEffect(w: string, name: string, before: string, after: string, v: string, q: Quoting, body: string)
    requires IsName(w) && Formats(LowerAll(w)) && '<' !in body
    requires IsAttrName(name) && Spaces(before) && Spaces(after) && Writable(v, q)
    ensures var low, key := LowerAll(w), LowerAll(name);
            Sanitize("<" + (w + (AttrSource(name, before, after, v, q) + (">" + (body + ("</" + (w + ">"))))))) ==
            if Bears(low, key) && key == "href" && IsSafeUrl(v).None? then None
            else
              Some("<" + low
                   + (if Bears(low, key) && (key == "href" ==> IsSafeUrl(v) == Some(true))
                      then AttrOutput(low, key, v)
                      else "")
                   + ">" + (body + ("</" + low + ">")))
  {
    hide *;
    var low, key, raw := LowerAll(w), LowerAll(name), AttrSource(name, before, after, v, q);
    Disjoint(low);
    EmptyGap();
    SourceEnds(name, before, after, v, q);
    OneScanned(name, before, after, v, q);
    ElementWritten("", "", w, raw, body, "", "", "");
    PlainElement(w, raw, body);
    KeptOne(low, name, v);
    NoAttrText(low);
    OneAttrText(low, key, EscapeAttrValue(v));
    OutputReads(low, key, v);
    OpenedRendered(w, raw, |OpenText("", w, raw)|, KeptAttrs(low, [Attr(name, v)]));
    ClosedRendered(w, "", |EndText("", "", w, "")|);
    var kept := KeptAttrs(low, [Attr(name, v)]);
    JoinedNone(Joined(Some(body), Joined(Some("</" + low + ">"), Some(""))));
    if kept.Some? {
      var text := AttrText(low, kept.value);
      JoinedParts("<" + low + text + ">", body, "</" + low + ">", "");
      WholeTrimmed("<" + low + text, body, "</" + low);
      assert text == if Bears(low, key) && (key == "href" ==> IsSafeUrl(v) == Some(true))
                     then AttrOutput(low, key, v)
                     else "";
    }
  }

  lemma JoinedNone(rest: Option<string>)
    ensures Joined(None, rest) == None
  {
  }

  lemma OutputReads(tag: string, name: string, v: string)
    ensures AttrOutput(tag, name, v) == " " + name + "=\"" + EscapeAttrValue(v) + "\""
            + if tag == "a" && name == "href" then LINK_SUFFIX else ""
  {
  }

  lemma EmptyGap()
    ensures Spaces("")
  {
  }

  lemma PlainElement(w: string, raw: string, body: string)
    ensures Around("", OpenText("", w, raw), body, EndText("", "", w, ""), "")
         == "<" + (w + (raw + (">" + (body + ("</" + (w + ">"))))))
  {
  }

  lemma WholeTrimmed(open: string, body: string, close: string)
    requires open != "" && open[0] == '<'
    ensures Trim("" + (open + ">" + (body + (close + ">" + "")))) == open + ">" + (body + (close + ">"))
  {
    var s := open + ">" + (body + (close + ">"));
    assert "" + (open + ">" + (body + (close + ">" + ""))) == s;
    assert s[0] == '<' && s[|s| - 1] == '>';
    TrimSolid(s);
  }
}
