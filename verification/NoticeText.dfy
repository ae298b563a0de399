/** The plain-text projection of a notice, and what its successive replacements amount to. */
module NoticeText {
  import opened Text
  import opened Wrappers
  import opened Lists
  import opened HtmlScan
  import opened NoticeSanitizer
  import opened SanitizedLanguage
  import opened SanitizerIdempotence

  // ----- the replacements ------------------------------------------------------

  /** Length of `br`, `/p`, `/li`, `/h1` to `/h6` or `/tr` at the head of `s`; 0 if none is there. */
  function BreakWord(s: string): (n: nat)
    ensures n <= |s|
  {
    if StartsWithFold(s, "br") || StartsWithFold(s, "/p") then 2
    else if StartsWithFold(s, "/li") || StartsWithFold(s, "/tr") then 3
    else if StartsWithFold(s, "/h") && |s| > 2 && '1' <= s[2] <= '6' then 3
    else 0
  }

  function BreakTag(s: string): Match {
    if !("<" <= s) then NoMatch
    else
      var a := 1 + Span(IsSpace, s[1..]);
      var w := BreakWord(s[a..]);
      var b := a + w + Span(IsSpace, s[a + w..]);
      var c := if b < |s| && s[b] == '/' then b + 1 else b;
      if w > 0 && c < |s| && s[c] == '>' then Match(c + 1, " ", false) else NoMatch
  }

  function AnyTag(s: string): Match {
    if !("<" <= s) then NoMatch
    else
      var n := Span(Not('>'), s[1..]);
      if 1 + n < |s| then Match(n + 2, "", false) else NoMatch
  }

  /** One literal entity and the character it stands for. */
  datatype Rule = Rule(lit: string, rep: char, fold: bool)

  predicate RuleHits(rule: Rule, s: string) {
    if rule.fold then StartsWithFold(s, rule.lit) else rule.lit <= s
  }

  function FirstRule(rules: seq<Rule>, s: string): Match {
    if rules == [] then NoMatch
    else if RuleHits(rules[0], s) then Match(|rules[0].lit|, [rules[0].rep], false)
    else FirstRule(rules[1..], s)
  }

  function Decoder(rules: seq<Rule>): Pattern { s => FirstRule(rules, s) }

  const NBSP := [Rule("&nbsp;", ' ', true)]
  const LT := [Rule("&lt;", '<', false)]
  const GT := [Rule("&gt;", '>', false)]
  const QUOT := [Rule("&quot;", '"', false)]
  const APOS := [Rule("&#39;", '\'', true), Rule("&apos;", '\'', true)]
  const AMP := [Rule("&amp;", '&', false)]

  /** The six replacements, one after the other. */
  function DecodeInTurn(s: string): string {
    ReplaceAll(Decoder(AMP),
      ReplaceAll(Decoder(APOS),
        ReplaceAll(Decoder(QUOT),
          ReplaceAll(Decoder(GT),
            ReplaceAll(Decoder(LT),
              ReplaceAll(Decoder(NBSP), s))))))
  }

  function Collapse(s: string): string
    decreases |s|
  {
    if s == "" then ""
    else if IsSpace(s[0]) then " " + Collapse(s[Span(IsSpace, s)..])
    else [s[0]] + Collapse(s[1..])
  }

  /** None when sanitising throws. */
  function NoticeHtmlToText(input: string): Option<string> {
    var clean := Sanitize(input);
    if clean.None? then None
    else Some(Trim(Collapse(DecodeInTurn(ReplaceAll(AnyTag, ReplaceAll(BreakTag, clean.value))))))
  }

  // ----- successive replacements are one ----------------------------------------

  predicate EntityChar(c: char) { IsAlnum(c) || c == '#' || c == ';' }

  /** The literal is an ampersand and then entity characters; folding only applies to lower case. */
  predicate RuleFits(rule: Rule) {
    && |rule.lit| > 1 && rule.lit[0] == '&'
    && forall i :: 1 <= i < |rule.lit| ==> EntityChar(rule.lit[i])
  }

  /** What the rule writes can neither start nor continue an entity. */
  predicate RuleInert(rule: Rule) { !EntityChar(rule.rep) && rule.rep != '&' }

  predicate RulesFit(rules: seq<Rule>) { forall r :: r in rules ==> RuleFits(r) }

  predicate RulesInert(rules: seq<Rule>) { forall r :: r in rules ==> RuleInert(r) }

  lemma {:induction false} FirstRuleIn(rules: seq<Rule>, s: string)
    requires RulesFit(rules) && FirstRule(rules, s).Match?
    ensures exists r :: r in rules && RuleHits(r, s) && FirstRule(rules, s) == Match(|r.lit|, [r.rep], false)
    ensures s != "" && s[0] == '&' && Hits(Decoder(rules), s)
  {
    if RuleHits(rules[0], s) {
      assert rules[0] in rules;
      HitHead(rules[0], s);
    } else {
      FirstRuleIn(rules[1..], s);
    }
  }

  lemma HitHead(rule: Rule, s: string)
    requires RuleFits(rule) && RuleHits(rule, s)
    ensures |rule.lit| <= |s| && s[0] == '&'
    ensures forall i :: 1 <= i < |rule.lit| ==> EntityChar(s[i])
  {
    if rule.fold {
      var low := LowerAll(s[..|rule.lit|]);
      assert forall i :: 0 <= i < |rule.lit| ==> low[i] == Lower(s[i]) == rule.lit[i];
    }
  }

  lemma {:induction false} FirstRuleAppend(f: seq<Rule>, g: seq<Rule>, s: string)
    ensures FirstRule(f + g, s) == if FirstRule(f, s).Match? then FirstRule(f, s) else FirstRule(g, s)
  {
    if f == [] {
      assert f + g == g;
    } else {
      assert (f + g)[1..] == f[1..] + g;
      FirstRuleAppend(f[1..], g, s);
    }
  }

  predicate Run(s: string, k: nat) {
    k <= |s| && forall i :: 0 <= i < k ==> EntityChar(s[i])
  }

  /** Entity characters at the head are the same before and after inert replacements. */
  lemma {:induction false} RunStays(f: seq<Rule>, s: string, k: nat)
    requires RulesFit(f) && RulesInert(f)
    ensures var t := ReplaceAll(Decoder(f), s);
            && (Run(s, k) <==> Run(t, k))
            && (Run(s, k) ==> t[..k] == s[..k] && t[k..] == ReplaceAll(Decoder(f), s[k..]))
    decreases k
  {
    var t := ReplaceAll(Decoder(f), s);
    if k == 0 {
      assert s[0..] == s && t[0..] == t;
    } else if s != "" {
      if FirstRule(f, s).Match? {
        FirstRuleIn(f, s);
        assert t[0] == FirstRule(f, s).text[0];
        assert !EntityChar(t[0]) && !EntityChar(s[0]);
      } else {
        var u := ReplaceAll(Decoder(f), s[1..]);
        assert t == [s[0]] + u;
        RunStays(f, s[1..], k - 1);
        RunShift(s, k);
        RunShift(t, k);
        assert t[1..] == u;
        if Run(s, k) {
          assert s[1..][k - 1..] == s[k..] && u[k - 1..] == t[k..];
          assert s[..k] == [s[0]] + s[1..][..k - 1] && t[..k] == [s[0]] + u[..k - 1];
        }
      }
    }
  }

  lemma RunShift(s: string, k: nat)
    requires k > 0 && s != ""
    ensures Run(s, k) <==> EntityChar(s[0]) && Run(s[1..], k - 1)
  {
    if Run(s, k) {
      assert forall i :: 0 <= i < k - 1 ==> s[1..][i] == s[i + 1];
    } else if EntityChar(s[0]) && k <= |s| {
      var i :| 0 <= i < k && !EntityChar(s[i]);
      assert s[1..][i - 1] == s[i];
    }
  }

  lemma HitsByRun(rule: Rule, s: string, t: string)
    requires RuleFits(rule) && s != "" && t != "" && s[0] == t[0]
    requires var k := |rule.lit| - 1; Run(s[1..], k) && Run(t[1..], k) ==> s[1..][..k] == t[1..][..k]
    requires var k := |rule.lit| - 1; Run(s[1..], k) <==> Run(t[1..], k)
    ensures RuleHits(rule, s) <==> RuleHits(rule, t)
  {
    var k := |rule.lit| - 1;
    if RuleHits(rule, s) {
      HitHead(rule, s);
      assert Run(s[1..], k);
      assert s[..k + 1] == [s[0]] + s[1..][..k] && t[..k + 1] == [t[0]] + t[1..][..k];
    }
    if RuleHits(rule, t) {
      HitHead(rule, t);
      assert Run(t[1..], k);
      assert s[..k + 1] == [s[0]] + s[1..][..k] && t[..k + 1] == [t[0]] + t[1..][..k];
    }
  }

  /** Where no inert rule applies, later rules see the same text. */
  lemma {:induction false} SameRule(f: seq<Rule>, g: seq<Rule>, s: string)
    requires RulesFit(f) && RulesInert(f) && RulesFit(g) && s != "" && FirstRule(f, s).NoMatch?
    ensures FirstRule(g, ReplaceAll(Decoder(f), s)) == FirstRule(g, s)
  {
    if g != [] {
      var t, u := ReplaceAll(Decoder(f), s), ReplaceAll(Decoder(f), s[1..]);
      assert t == [s[0]] + u && t[1..] == u;
      assert g[0] in g;
      RunStays(f, s[1..], |g[0].lit| - 1);
      HitsByRun(g[0], s, t);
      SameRule(f, g[1..], s);
    }
  }

  /** Two rounds of replacement, the first inert, are one round with all the rules. */
  lemma {:induction false} Fuse(f: seq<Rule>, g: seq<Rule>, s: string)
    requires RulesFit(f) && RulesInert(f) && RulesFit(g)
    ensures ReplaceAll(Decoder(g), ReplaceAll(Decoder(f), s)) == ReplaceAll(Decoder(f + g), s)
    decreases |s|
  {
    if s != "" {
      FirstRuleAppend(f, g, s);
      var t := ReplaceAll(Decoder(f), s);
      if FirstRule(f, s).Match? {
        FusedFirst(f, g, s);
      } else {
        SameRule(f, g, s);
        var u := ReplaceAll(Decoder(f), s[1..]);
        assert t == [s[0]] + u && t[1..] == u;
        if FirstRule(g, s).Match? {
          FusedSecond(f, g, s);
        } else {
          Fuse(f, g, s[1..]);
        }
      }
    }
  }

  lemma {:induction false} FusedFirst(f: seq<Rule>, g: seq<Rule>, s: string)
    requires RulesFit(f) && RulesInert(f) && RulesFit(g) && s != "" && FirstRule(f, s).Match?
    ensures ReplaceAll(Decoder(g), ReplaceAll(Decoder(f), s)) == ReplaceAll(Decoder(f + g), s)
    decreases |s|, 0
  {
    FirstRuleAppend(f, g, s);
    FirstRuleIn(f, s);
    var n, text := FirstRule(f, s).len, FirstRule(f, s).text;
    var rest := ReplaceAll(Decoder(f), s[n..]);
    Fuse(f, g, s[n..]);
    assert (text + rest)[1..] == rest;
    if FirstRule(g, text + rest).Match? {
      FirstRuleIn(g, text + rest);
    }
  }

  lemma {:induction false} FusedSecond(f: seq<Rule>, g: seq<Rule>, s: string)
    requires RulesFit(f) && RulesInert(f) && RulesFit(g) && s != ""
    requires FirstRule(f, s).NoMatch? && FirstRule(g, s).Match?
    requires FirstRule(g, ReplaceAll(Decoder(f), s)) == FirstRule(g, s)
    ensures ReplaceAll(Decoder(g), ReplaceAll(Decoder(f), s)) == ReplaceAll(Decoder(f + g), s)
    decreases |s|, 0
  {
    FirstRuleAppend(f, g, s);
    FirstRuleIn(g, s);
    var n := FirstRule(g, s).len;
    var r :| r in g && RuleHits(r, s) && n == |r.lit|;
    HitHead(r, s);
    var u := ReplaceAll(Decoder(f), s[1..]);
    var t := ReplaceAll(Decoder(f), s);
    assert t == [s[0]] + u;
    RunStays(f, s[1..], n - 1);
    assert s[1..][n - 1..] == s[n..] && u[n - 1..] == t[n..];
    Fuse(f, g, s[n..]);
  }

  function AllRules(): seq<Rule> { NBSP + LT + GT + QUOT + APOS + AMP }

  /** A single pass with all the rules. */
  function DecodeAtOnce(s: string): string { ReplaceAll(Decoder(AllRules()), s) }

  lemma RulesFitAll()
    ensures RulesFit(NBSP) && RulesFit(LT) && RulesFit(GT) && RulesFit(QUOT) && RulesFit(APOS) && RulesFit(AMP)
    ensures RulesInert(NBSP) && RulesInert(LT) && RulesInert(GT) && RulesInert(QUOT) && RulesInert(APOS)
  {
  }

  lemma FitAppend(f: seq<Rule>, g: seq<Rule>)
    ensures RulesFit(f) && RulesFit(g) ==> RulesFit(f + g)
    ensures RulesInert(f) && RulesInert(g) ==> RulesInert(f + g)
  {
  }

  /** The successive replacements decode every entity once and none twice, whatever the text. */
  lemma DecodesOnce(s: string)
    ensures DecodeInTurn(s) == DecodeAtOnce(s)
  {
    RulesFitAll();
    hide RulesFit, RulesInert, ReplaceAll, Decoder;
    Fuse(NBSP, LT, s);
    FitAppend(NBSP, LT);
    Fuse(NBSP + LT, GT, s);
    FitAppend(NBSP + LT, GT);
    Fuse(NBSP + LT + GT, QUOT, s);
    FitAppend(NBSP + LT + GT, QUOT);
    Fuse(NBSP + LT + GT + QUOT, APOS, s);
    FitAppend(NBSP + LT + GT + QUOT, APOS);
    Fuse(NBSP + LT + GT + QUOT + APOS, AMP, s);
  }

  // ----- escaping a plain text and reading it back --------------------------------

  function EscapePlain(c: char): string {
    if c == '&' then "&amp;"
    else if c == '<' then "&lt;"
    else if c == '>' then "&gt;"
    else if c == '"' then "&quot;"
    else if c == '\'' then "&#39;"
    else [c]
  }

  /** Every character that HTML treats specially replaced by an entity. */
  function EscapeAll(s: string): string {
    if s == "" then "" else EscapePlain(s[0]) + EscapeAll(s[1..])
  }

  lemma LiteralHits(rule: Rule, rest: string)
    ensures !rule.fold ==> RuleHits(rule, rule.lit + rest)
    ensures LowerAll(rule.lit) == rule.lit ==> RuleHits(rule, rule.lit + rest)
  {
    assert (rule.lit + rest)[..|rule.lit|] == rule.lit;
  }

  /** Two literals that differ within the shorter one do not both match. */
  lemma LiteralMisses(rule: Rule, head: string, rest: string, i: nat)
    requires i < |head| && i < |rule.lit| && Lower(head[i]) != rule.lit[i] && head[i] != rule.lit[i]
    ensures !RuleHits(rule, head + rest)
  {
    var s := head + rest;
    assert s[i] == head[i];
    if rule.fold && |rule.lit| <= |s| {
      assert LowerAll(s[..|rule.lit|])[i] == Lower(s[i]);
    }
  }

  lemma EntityRead(c: char, rest: string)
    requires c in "&<>\"'"
    ensures FirstRule(AllRules(), EscapePlain(c) + rest) == Match(|EscapePlain(c)|, [c], false)
  {
    hide *;
    var head := EscapePlain(c);
    UnrollRules(head + rest);
    if c == '<' {
      LtRead(rest);
    } else if c == '>' {
      GtRead(rest);
    } else if c == '"' {
      QuotRead(rest);
    } else if c == '\'' {
      AposRead(rest);
    } else {
      AmpRead(c, rest);
    }
  }

  lemma LtRead(rest: string)
    ensures var s := EscapePlain('<') + rest; RuleHits(LT[0], s) && !RuleHits(NBSP[0], s) && |EscapePlain('<')| == 4
  {
    hide RuleHits;
    LiteralMisses(NBSP[0], "&lt;", rest, 1);
    LiteralHits(LT[0], rest);
  }

  lemma GtRead(rest: string)
    ensures var s := EscapePlain('>') + rest;
            RuleHits(GT[0], s) && !RuleHits(NBSP[0], s) && !RuleHits(LT[0], s) && |EscapePlain('>')| == 4
  {
    hide RuleHits;
    LiteralMisses(NBSP[0], "&gt;", rest, 1);
    LiteralMisses(LT[0], "&gt;", rest, 1);
    LiteralHits(GT[0], rest);
  }

  lemma QuotRead(rest: string)
    ensures var s := EscapePlain('"') + rest;
            RuleHits(QUOT[0], s) && !RuleHits(NBSP[0], s) && !RuleHits(LT[0], s) && !RuleHits(GT[0], s)
            && |EscapePlain('"')| == 6
  {
    hide RuleHits;
    LiteralMisses(NBSP[0], "&quot;", rest, 1);
    LiteralMisses(LT[0], "&quot;", rest, 1);
    LiteralMisses(GT[0], "&quot;", rest, 1);
    LiteralHits(QUOT[0], rest);
  }

  lemma AposRead(rest: string)
    ensures var s := EscapePlain('\'') + rest;
            RuleHits(APOS[0], s) && !RuleHits(NBSP[0], s) && !RuleHits(LT[0], s) && !RuleHits(GT[0], s) &&
              !RuleHits(QUOT[0], s)
            && |EscapePlain('\'')| == 5
  {
    hide RuleHits;
    assert Lower('#') == '#';
    LiteralMisses(NBSP[0], "&#39;", rest, 1);
    LiteralMisses(LT[0], "&#39;", rest, 1);
    LiteralMisses(GT[0], "&#39;", rest, 1);
    LiteralMisses(QUOT[0], "&#39;", rest, 1);
    LiteralHits(APOS[0], rest);
  }

  lemma AmpRead(c: char, rest: string)
    requires c in "&<>\"'" && c != '<' && c != '>' && c != '"' && c != '\''
    ensures c == '&' && |EscapePlain(c)| == 5
    ensures var s := EscapePlain(c) + rest;
            RuleHits(AMP[0], s) && !RuleHits(NBSP[0], s) && !RuleHits(LT[0], s) && !RuleHits(GT[0], s) &&
              !RuleHits(QUOT[0], s)
            && !RuleHits(APOS[0], s) && !RuleHits(APOS[1], s)
  {
    hide RuleHits;
    assert Lower('a') == 'a' && Lower('m') == 'm';
    LiteralMisses(NBSP[0], "&amp;", rest, 1);
    LiteralMisses(LT[0], "&amp;", rest, 1);
    LiteralMisses(GT[0], "&amp;", rest, 1);
    LiteralMisses(QUOT[0], "&amp;", rest, 1);
    LiteralMisses(APOS[0], "&amp;", rest, 1);
    LiteralMisses(APOS[1], "&amp;", rest, 2);
    LiteralHits(AMP[0], rest);
  }

  lemma UnrollRules(s: string)
    ensures FirstRule(AllRules(), s)
         == if RuleHits(NBSP[0], s) then Match(6, " ", false)
            else if RuleHits(LT[0], s) then Match(4, "<", false)
            else if RuleHits(GT[0], s) then Match(4, ">", false)
            else if RuleHits(QUOT[0], s) then Match(6, "\"", false)
            else if RuleHits(APOS[0], s) then Match(5, "'", false)
            else if RuleHits(APOS[1], s) then Match(6, "'", false)
            else if RuleHits(AMP[0], s) then Match(5, "&", false)
            else NoMatch
  {
    hide RuleHits;
    var rules := AllRules();
    assert rules == [NBSP[0], LT[0], GT[0], QUOT[0], APOS[0], APOS[1], AMP[0]];
    RulesStep(rules, 0, s);
    RulesStep(rules, 1, s);
    RulesStep(rules, 2, s);
    RulesStep(rules, 3, s);
    RulesStep(rules, 4, s);
    RulesStep(rules, 5, s);
    RulesStep(rules, 6, s);
    assert rules[0..] == rules && FirstRule(rules[7..], s) == NoMatch;
  }

  lemma RulesStep(rules: seq<Rule>, k: nat, s: string)
    requires k < |rules|
    ensures FirstRule(rules[k..], s)
         == if RuleHits(rules[k], s) then Match(|rules[k].lit|, [rules[k].rep], false) else FirstRule(rules[k + 1..], s)
  {
    hide RuleHits;
    assert rules[k..][1..] == rules[k + 1..];
  }

  /** Decoding undoes escaping, for every text. */
  lemma {:induction false} DecodeUndoesEscape(t: string)
    ensures DecodeAtOnce(EscapeAll(t)) == t
  {
    if t != "" {
      DecodeUndoesEscape(t[1..]);
      var c, rest := t[0], EscapeAll(t[1..]);
      assert EscapeAll(t) == EscapePlain(c) + rest && t == [c] + t[1..];
      hide *;
      if c in "&<>\"'" {
        EntityDecoded(c, rest);
      } else {
        PlainDecoded(c, rest);
      }
    }
  }

  lemma EntityDecoded(c: char, rest: string)
    requires c in "&<>\"'"
    ensures DecodeAtOnce(EscapePlain(c) + rest) == [c] + DecodeAtOnce(rest)
  {
    EntityRead(c, rest);
    hide FirstRule, AllRules;
    assert EscapePlain(c) != "";
    hide EscapePlain;
    assert (EscapePlain(c) + rest)[|EscapePlain(c)|..] == rest;
  }

  lemma PlainDecoded(c: char, rest: string)
    requires c !in "&<>\"'"
    ensures DecodeAtOnce(EscapePlain(c) + rest) == [c] + DecodeAtOnce(rest)
  {
    AllRulesFit();
    var s := EscapePlain(c) + rest;
    assert s[0] == c && s[1..] == rest && c != '&';
    hide FirstRule, RulesFit, AllRules, EscapePlain;
    if FirstRule(AllRules(), s).Match? {
      FirstRuleIn(AllRules(), s);
    }
  }

  lemma AllRulesFit()
    ensures RulesFit(AllRules())
  {
    RulesFitAll();
    hide RulesFit;
    FitAppend(NBSP, LT);
    FitAppend(NBSP + LT, GT);
    FitAppend(NBSP + LT + GT, QUOT);
    FitAppend(NBSP + LT + GT + QUOT, APOS);
    FitAppend(NBSP + LT + GT + QUOT + APOS, AMP);
  }

  // ----- the round trip -----------------------------------------------------------

  lemma {:induction false} EscapeAllPlain(t: string)
    ensures '<' !in EscapeAll(t)
    ensures AllSpace(EscapeAll(t)) <==> AllSpace(t)
    ensures EscapeAll(t) == "" <==> t == ""
  {
    if t != "" {
      EscapeAllPlain(t[1..]);
      AllSpaceAppend(EscapePlain(t[0]), EscapeAll(t[1..]));
      AllSpaceAppend([t[0]], t[1..]);
      assert t == [t[0]] + t[1..];
      EscapePlainEnds(t[0]);
      hide EscapePlain, IsSpace;
    }
  }

  lemma EscapePlainEnds(c: char)
    ensures var e := EscapePlain(c);
            && e != "" && '<' !in e && (AllSpace(e) <==> IsSpace(c)) && (AllSpace([c]) <==> IsSpace(c))
            && (IsSpace(c) ==> e == [c])
            && (!IsSpace(c) ==> !IsSpace(e[0]) && !IsSpace(e[|e| - 1]))
  {
    assert [c][0] == c;
  }

  lemma {:induction false} TrimLeftEscapes(t: string)
    ensures TrimLeft(EscapeAll(t)) == EscapeAll(TrimLeft(t))
  {
    if t != "" {
      EscapePlainEnds(t[0]);
      hide EscapePlain, IsSpace, AllSpace;
      if IsSpace(t[0]) {
        TrimLeftEscapes(t[1..]);
        assert EscapeAll(t)[1..] == EscapeAll(t[1..]);
      }
    }
  }

  lemma {:induction false} TrimRightEscapes(t: string)
    ensures TrimRight(EscapeAll(t)) == EscapeAll(TrimRight(t))
  {
    EscapeAllPlain(t);
    if !AllSpace(t) {
      hide *;
      var head, rest := EscapePlain(t[0]), t[1..];
      TrimRightEscapes(rest);
      EscapeAllPlain(rest);
      EscapeAllCons(t[0], rest);
      EscapeAllCons(t[0], TrimRight(rest));
      TrimRightCons(t);
      assert t == [t[0]] + rest;
      TrimRightHead(t[0], rest);
    }
  }

  lemma EscapeAllCons(c: char, rest: string)
    ensures EscapeAll([c] + rest) == EscapePlain(c) + EscapeAll(rest)
  {
    assert ([c] + rest)[1..] == rest;
    hide EscapePlain;
  }

  lemma TrimRightCons(t: string)
    requires !AllSpace(t)
    ensures TrimRight(t) == [t[0]] + TrimRight(t[1..])
    ensures AllSpace(t[1..]) ==> !IsSpace(t[0]) && TrimRight(t[1..]) == ""
  {
    AllSpaceAppend([t[0]], t[1..]);
    assert t == [t[0]] + t[1..] && [t[0]][0] == t[0];
    hide IsSpace;
  }

  /** Trimming what an escaped character precedes. */
  lemma TrimRightHead(c: char, rest: string)
    requires AllSpace(rest) ==> !IsSpace(c) && TrimRight(rest) == ""
    ensures TrimRight(EscapePlain(c) + EscapeAll(rest)) == EscapePlain(c) + TrimRight(EscapeAll(rest))
  {
    EscapeAllPlain(rest);
    EscapePlainEnds(c);
    hide *;
    var head := EscapePlain(c);
    if AllSpace(rest) {
      TrimRightDrop(head, EscapeAll(rest));
      TrimRightDrop("", EscapeAll(rest));
      TrimRightSolid(head);
      TrimRightSolid("");
      assert "" + EscapeAll(rest) == EscapeAll(rest) && head + "" == head;
    } else {
      TrimRightAppend(head, EscapeAll(rest));
    }
  }

  lemma {:induction false} CharsFit(s: string)
    requires '<' !in s
    ensures AllFit(CharNodes(s)) && LinksReadBack(CharNodes(s))
  {
  }

  /** A text without `<` is only trimmed. */
  lemma SanitizePlain(s: string)
    requires '<' !in s
    ensures Sanitize(s) == Some(Trim(s))
  {
    CharsFit(s);
    hide Sanitize, CharNodes, Fits, AllFit, LinksReadBack, Render, Reread, Trim;
    RenderChars(s);
    SanitizeOutput(CharNodes(s));
    RereadShorter(CharNodes(s));
  }

  lemma NoTagsToDelete(s: string)
    requires '<' !in s
    ensures ReplaceAll(AnyTag, ReplaceAll(BreakTag, s)) == s
  {
    forall i | 0 <= i < |s| ensures !Hits(AnyTag, s[i..]) && !Hits(BreakTag, s[i..]) {
      assert s[i..][0] == s[i] && s[i] in s;
    }
    ReplaceNothing(BreakTag, s);
    ReplaceNothing(AnyTag, s);
  }

  // Collapsing runs of white space and trimming.

  lemma {:induction false} CollapseSpaces(s: string)
    ensures AllSpace(Collapse(s)) <==> AllSpace(s)
    ensures Collapse(s) == "" <==> s == ""
    decreases |s|
  {
    if s != "" {
      var n := if IsSpace(s[0]) then Span(IsSpace, s) else 1;
      CollapseSpaces(s[n..]);
      assert s == s[..n] + s[n..];
      AllSpaceAppend(s[..n], s[n..]);
      AllSpaceAppend(if IsSpace(s[0]) then " " else [s[0]], Collapse(s[n..]));
      assert AllSpace(" ") && (AllSpace([s[0]]) ==> IsSpace([s[0]][0]));
      assert s[..n][0] == s[0];
      hide IsSpace;
    }
  }

  lemma CollapseRest(s: string)
    requires s != "" && IsSpace(s[0])
    ensures var n := Span(IsSpace, s); s[n..] == TrimLeft(s)
    ensures Collapse(s) == " " + Collapse(TrimLeft(s))
  {
    SpanTrims(s);
  }

  lemma {:induction false} SpanTrims(s: string)
    ensures s[Span(IsSpace, s)..] == TrimLeft(s)
  {
    hide IsSpace;
    if s != "" && IsSpace(s[0]) {
      SpanTrims(s[1..]);
    }
  }

  lemma TrimLeftCollapse(s: string)
    ensures TrimLeft(Collapse(s)) == Collapse(TrimLeft(s))
  {
    if s != "" && IsSpace(s[0]) {
      CollapseRest(s);
      var rest := TrimLeft(s);
      assert (" " + Collapse(rest))[1..] == Collapse(rest);
      assert rest != "" ==> Collapse(rest)[0] == rest[0];
    }
  }

  lemma TrimRightPastSpace(s: string)
    requires s != "" && IsSpace(s[0]) && !AllSpace(s)
    requires var rest := TrimLeft(s); TrimRight(Collapse(rest)) == Collapse(TrimRight(rest))
    ensures TrimRight(Collapse(s)) == Collapse(TrimRight(s))
  {
    hide *;
    CollapseRest(s);
    LeadingSpaces(s);
    var rest := TrimLeft(s);
    var n := Span(IsSpace, s);
    assert s == s[..n] + rest && !IsSpace(rest[0]);
    CollapseSpaces(rest);
    TrimRightAppend(" ", Collapse(rest));
    TrimRightAppend(s[..n], rest);
    NotAllTrimmed(rest);
    SpacesThenText(s[..n], TrimRight(rest));
  }

  lemma NotAllTrimmed(s: string)
    requires !AllSpace(s)
    ensures TrimRight(s) != "" && TrimRight(s)[0] == s[0]
  {
  }

  lemma {:induction false} TrimRightCollapse(s: string)
    ensures TrimRight(Collapse(s)) == Collapse(TrimRight(s))
    decreases |s|
  {
    CollapseSpaces(s);
    if !AllSpace(s) {
      if IsSpace(s[0]) {
        CollapseRest(s);
        assert |TrimLeft(s)| < |s|;
        hide Collapse, TrimRight, AllSpace, IsSpace;
        TrimRightCollapse(TrimLeft(s));
        TrimRightPastSpace(s);
      } else {
        var rest := s[1..];
        TrimRightCollapse(rest);
        CollapseSpaces(rest);
        assert s == [s[0]] + rest;
        assert Collapse([s[0]] + TrimRight(rest)) == [s[0]] + Collapse(TrimRight(rest));
        if AllSpace(rest) {
          TrimRightDrop([s[0]], Collapse(rest));
          TrimRightSolid([s[0]]);
        } else {
          TrimRightAppend([s[0]], Collapse(rest));
        }
      }
    }
  }

  lemma LeadingSpaces(s: string)
    ensures AllSpace(s[..Span(IsSpace, s)]) && TrimLeft(s) == s[Span(IsSpace, s)..]
    ensures !AllSpace(s) ==> TrimLeft(s) != "" && !AllSpace(TrimLeft(s))
  {
    SpanTrims(s);
    var n := Span(IsSpace, s);
    hide IsSpace, TrimLeft;
    AllSpaceAppend(s[..n], s[n..]);
    assert s == s[..n] + s[n..];
  }

  lemma SpacesThenText(a: string, b: string)
    requires a != "" && AllSpace(a) && b != "" && !IsSpace(b[0])
    ensures Collapse(a + b) == " " + Collapse(b)
  {
    SpanUnique(IsSpace, a, b);
    assert (a + b)[0] == a[0] && (a + b)[|a|..] == b;
  }

  /** For every plain text, escaping it and projecting the result gives the text with runs of
      white space collapsed and both ends trimmed. */
  lemma TextRoundTrip(t: string)
    ensures NoticeHtmlToText(EscapeAll(t)) == Some(Trim(Collapse(t)))
  {
    var s := EscapeAll(t);
    EscapeAllPlain(t);
    SanitizePlain(s);
    TrimLeftEscapes(t);
    TrimRightEscapes(TrimLeft(t));
    var clean := EscapeAll(Trim(t));
    EscapeAllPlain(Trim(t));
    hide Sanitize, ReplaceAll, Collapse, EscapeAll, DecodeInTurn, DecodeAtOnce;
    NoTagsToDelete(clean);
    DecodesOnce(clean);
    DecodeUndoesEscape(Trim(t));
    TrimLeftCollapse(t);
    TrimRightCollapse(TrimLeft(t));
    TrimIdempotent(Collapse(t));
  }

  // ----- deleting the tags ---------------------------------------------------------

  /** The characters of an output outside its tags. */
  function Letters(nodes: seq<Node>): string {
    if nodes == [] then ""
    else LetterOf(nodes[0]) + Letters(nodes[1..])
  }

  function LetterOf(node: Node): string { if node.Char? then [node.c] else "" }

  lemma LettersStep(nodes: seq<Node>)
    requires nodes != []
    ensures Letters(nodes) == LetterOf(nodes[0]) + Letters(nodes[1..])
  {
  }

  /** The text between the tags that the tag loop finds, allowed or not. */
  function ScannedText(html: string): string
    decreases |html|
  {
    if html == "" then ""
    else
      var t := MatchTag(html);
      if t.NoTag? then [html[0]] + ScannedText(html[1..]) else ScannedText(html[t.len..])
  }

  lemma {:induction false} LettersAppend(a: seq<Node>, b: seq<Node>)
    ensures Letters(a + b) == Letters(a) + Letters(b)
  {
    if a == [] {
      assert a + b == b;
    } else {
      LettersAppend(a[1..], b);
      LettersStep(a);
      LettersStep(a + b);
      hide Letters;
      assert (a + b)[1..] == a[1..] + b && (a + b)[0] == a[0];
      Associative(LetterOf(a[0]), Letters(a[1..]), Letters(b));
    }
  }

  lemma {:induction false} LettersOfChars(s: string)
    ensures Letters(CharNodes(s)) == s
  {
    if s != "" {
      assert CharNodes(s)[1..] == CharNodes(s[1..]);
      LettersOfChars(s[1..]);
    }
  }

  lemma TagHasNoLetters(t: TagHit)
    requires t.TagHit?
    ensures TagNodes(t).Some? ==> Letters(TagNodes(t).value) == ""
  {
    hide IsAllowedTag, KeptAttrs, LowerAll;
  }

  /** The characters that stay are the escaped text between the scanned tags. */
  lemma {:induction false} LettersAreScanned(html: string)
    requires Nodes(html).Some?
    ensures Letters(Nodes(html).value) == EscapeText(ScannedText(html))
    decreases |html|
  {
    hide MatchTag, TagNodes, CharNodes;
    if html != "" {
      var t := MatchTag(html);
      if t.NoTag? {
        LettersAreScanned(html[1..]);
        var head := CharNodes(EscapeChar(html[0]));
        LettersAppend(head, Nodes(html[1..]).value);
        LettersOfChars(EscapeChar(html[0]));
        var text := [html[0]] + ScannedText(html[1..]);
        EscapeTextStep(text);
        assert text[1..] == ScannedText(html[1..]);
      } else {
        LettersAreScanned(html[t.len..]);
        TagHasNoLetters(t);
        LettersAppend(TagNodes(t).value, Nodes(html[t.len..]).value);
      }
    }
  }

  lemma OneTagDeleted(body: string, rest: string)
    requires NoAngles(body)
    ensures ReplaceAll(AnyTag, "<" + (body + (">" + rest))) == ReplaceAll(AnyTag, rest)
  {
    var s := "<" + (body + (">" + rest));
    assert s[1..] == body + (">" + rest);
    SpanUnique(Not('>'), body, ">" + rest);
    assert AnyTag(s) == Match(|body| + 2, "", false) && s[|body| + 2..] == rest;
    hide AnyTag;
  }

  lemma NodeDeleted(node: Node, rest: string)
    requires Fits(node)
    ensures ReplaceAll(AnyTag, RenderNode(node) + rest)
         == (if node.Char? then [node.c] else "") + ReplaceAll(AnyTag, rest)
  {
    hide *;
    assert "" + ReplaceAll(AnyTag, rest) == ReplaceAll(AnyTag, rest);
    match node
    case Char(c) => CharNotDeleted(c, rest);
    case Open(name, attrs) => OpenDeleted(name, attrs, rest);
    case Close(name) => CloseDeleted(name, rest);
  }

  lemma CharNotDeleted(c: char, rest: string)
    requires Fits(Char(c))
    ensures ReplaceAll(AnyTag, RenderNode(Char(c)) + rest) == [c] + ReplaceAll(AnyTag, rest)
  {
    assert ([c] + rest)[1..] == rest && ([c] + rest)[0] == c;
  }

  lemma OpenDeleted(name: string, attrs: seq<Attr>, rest: string)
    requires Fits(Open(name, attrs))
    ensures ReplaceAll(AnyTag, RenderNode(Open(name, attrs)) + rest) == ReplaceAll(AnyTag, rest)
  {
    hide *;
    OpenOnlyTags(name, attrs);
    RenderOpen(name, attrs, rest);
    var body := name + AttrText(name, attrs);
    OneTagDeleted(body, rest);
    Associative(name, AttrText(name, attrs), ">" + rest);
  }

  lemma CloseDeleted(name: string, rest: string)
    requires Fits(Close(name))
    ensures ReplaceAll(AnyTag, RenderNode(Close(name)) + rest) == ReplaceAll(AnyTag, rest)
  {
    hide *;
    CloseReads(name, rest);
    assert NoAngles("/") by { SlashPlain(); }
    NoAnglesAppend("/", name);
    OneTagDeleted("/" + name, rest);
    Associative("/", name, ">" + rest);
    Associative("<", "/", name + (">" + rest));
    assert "<" + "/" == "</";
  }

  lemma SlashPlain()
    ensures NoAngles("/")
  {
  }

  /** Deleting whatever looks like a tag deletes exactly the tags. */
  lemma {:induction false} TagsDeleted(nodes: seq<Node>)
    requires AllFit(nodes)
    ensures ReplaceAll(AnyTag, Render(nodes)) == Letters(nodes)
  {
    if nodes != [] {
      hide AnyTag, RenderNode, Fits;
      assert Fits(nodes[0]);
      TagsDeleted(nodes[1..]);
      NodeDeleted(nodes[0], Render(nodes[1..]));
    }
  }

  lemma {:induction false} LettersDropBlank(nodes: seq<Node>)
    ensures TrimLeft(Letters(DropBlank(nodes))) == TrimLeft(Letters(nodes))
  {
    if nodes != [] && Blank(nodes[0]) {
      LettersDropBlank(nodes[1..]);
      assert Letters(nodes)[1..] == Letters(nodes[1..]);
    }
  }

  lemma {:induction false} LettersOfBlank(nodes: seq<Node>)
    requires AllBlank(nodes)
    ensures AllSpace(Letters(nodes))
  {
    if nodes != [] {
      assert Blank(nodes[0]);
      LettersOfBlank(nodes[1..]);
    }
  }

  lemma {:induction false} LettersDropEnd(nodes: seq<Node>)
    ensures TrimRight(Letters(DropBlankEnd(nodes))) == TrimRight(Letters(nodes))
  {
    if AllBlank(nodes) {
      LettersOfBlank(nodes);
    } else {
      var head, rest := if nodes[0].Char? then [nodes[0].c] else "", nodes[1..];
      LettersDropEnd(rest);
      var kept := DropBlankEnd(rest);
      assert Letters([nodes[0]] + kept) == head + Letters(kept);
      TrimRightSame(head, Letters(kept), Letters(rest));
    }
  }

  lemma TrimRightSame(head: string, a: string, b: string)
    requires TrimRight(a) == TrimRight(b)
    ensures TrimRight(head + a) == TrimRight(head + b)
  {
    if AllSpace(a) {
      TrimRightDrop(head, a);
      TrimRightDrop(head, b);
    } else {
      TrimRightAppend(head, a);
      TrimRightAppend(head, b);
    }
  }

  lemma {:induction false} TrimsCommute(s: string)
    ensures TrimLeft(TrimRight(s)) == TrimRight(TrimLeft(s))
  {
    hide IsSpace;
    if s != "" && IsSpace(s[0]) {
      TrimsCommute(s[1..]);
      AllSpaceCons(s);
      hide AllSpace;
      var rest := TrimRight(s[1..]);
      assert ([s[0]] + rest)[1..] == rest;
    }
  }

  lemma AllSpaceCons(s: string)
    requires s != "" && IsSpace(s[0])
    ensures AllSpace(s) <==> AllSpace(s[1..])
  {
    AllSpaceAppend([s[0]], s[1..]);
    assert s == [s[0]] + s[1..] && [s[0]][0] == s[0];
  }

  /** Deleting the tags of an output leaves the escaped text between the tags of the input,
      but for white space at its ends. */
  lemma DeletingTagsLeavesText(input: string)
    ensures match Sanitize(input)
            case None => true
            case Some(output) => Trim(ReplaceAll(AnyTag, output)) == Trim(EscapeText(ScannedText(Stripped(input))))
  {
    var html := Stripped(input);
    OutputInLanguage(input);
    assert Sanitize(input).Some? ==> Nodes(html).Some? && OutputNodes(input) == Some(TrimNodes(Nodes(html).value));
    hide *;
    if Sanitize(input).Some? {
      DeletedText(html);
    }
  }

  lemma DeletedText(html: string)
    requires Nodes(html).Some? && AllFit(TrimNodes(Nodes(html).value))
    ensures Trim(ReplaceAll(AnyTag, Render(TrimNodes(Nodes(html).value)))) == Trim(EscapeText(ScannedText(html)))
  {
    hide Nodes, Render, AllFit, EscapeText, ScannedText, ReplaceAll, TrimLeft, TrimRight;
    var all := Nodes(html).value;
    TagsDeleted(TrimNodes(all));
    LettersAreScanned(html);
    LettersDropBlank(all);
    LettersDropEnd(DropBlank(all));
    TrimsCommute(Letters(DropBlankEnd(DropBlank(all))));
    TrimsCommute(Letters(DropBlank(all)));
  }
}
