/** Character classes, trimming and global replacement, as JavaScript's strings
    and regular expressions define them.  A string is a sequence of code points. */
module Text {

  // ----- character classes ---------------------------------------------------

  /** The class `\s`, which is also what `trim` removes. */
  predicate IsSpace(c: char) {
    var n := c as int;
    || 9 <= n <= 13 || n == 32 || n == 0xA0 || n == 0x1680 || 0x2000 <= n <= 0x200A
    || n == 0x2028 || n == 0x2029 || n == 0x202F || n == 0x205F || n == 0x3000 || n == 0xFEFF
  }

  predicate IsLetter(c: char) { 'a' <= c <= 'z' || 'A' <= c <= 'Z' }

  predicate IsDigit(c: char) { '0' <= c <= '9' }

  predicate IsAlnum(c: char) { IsLetter(c) || IsDigit(c) }

  predicate IsWord(c: char) { IsAlnum(c) || c == '_' }

  predicate IsHex(c: char) { IsDigit(c) || 'a' <= c <= 'f' || 'A' <= c <= 'F' }

  function Lower(c: char): char {
    if 'A' <= c <= 'Z' then (c as int + 32) as char else c
  }

  function LowerAll(s: string): (r: string)
    ensures |r| == |s|
    ensures forall i :: 0 <= i < |s| ==> r[i] == Lower(s[i])
  {
    seq(|s|, i requires 0 <= i < |s| => Lower(s[i]))
  }

  /** `s` begins with the lower-case literal `p`, case ignored. */
  predicate StartsWithFold(s: string, p: string) {
    |p| <= |s| && LowerAll(s[..|p|]) == p
  }

  // ----- runs ----------------------------------------------------------------

  /** Length of the longest prefix whose characters all satisfy `p`. */
  function Span(p: char -> bool, s: string): (n: nat)
    ensures n <= |s|
    ensures forall i :: 0 <= i < n ==> p(s[i])
    ensures n < |s| ==> !p(s[n])
  {
    if |s| > 0 && p(s[0]) then 1 + Span(p, s[1..]) else 0
  }

  /** The class `[^q]`. */
  function Not(q: char): char -> bool { c => c != q }

  lemma SpanUnique(p: char -> bool, a: string, b: string)
    requires forall i :: 0 <= i < |a| ==> p(a[i])
    requires b == "" || !p(b[0])
    ensures Span(p, a + b) == |a|
  {
    assert forall i :: 0 <= i < |a| ==> (a + b)[i] == a[i];
    assert b == "" || (a + b)[|a|] == b[0];
  }

  // ----- trimming ------------------------------------------------------------

  function TrimLeft(s: string): (r: string)
    ensures |r| <= |s|
    ensures r == "" || !IsSpace(r[0])
  {
    if s != "" && IsSpace(s[0]) then TrimLeft(s[1..]) else s
  }

  predicate AllSpace(s: string) { forall i :: 0 <= i < |s| ==> IsSpace(s[i]) }

  function TrimRight(s: string): (r: string)
    ensures r <= s
    ensures r == "" || !IsSpace(r[|r| - 1])
  {
    if AllSpace(s) then "" else [s[0]] + TrimRight(s[1..])
  }

  function Trim(s: string): string { TrimRight(TrimLeft(s)) }

  lemma {:induction false} TrimRightSolid(s: string)
    requires s == "" || !IsSpace(s[|s| - 1])
    ensures TrimRight(s) == s
  {
    if s != "" {
      TrimRightSolid(s[1..]);
    }
  }

  lemma {:induction false} TrimRightAppend(a: string, b: string)
    requires !AllSpace(b)
    ensures TrimRight(a + b) == a + TrimRight(b)
  {
    if a == "" {
      assert a + b == b;
    } else {
      var i :| 0 <= i < |b| && !IsSpace(b[i]);
      assert (a + b)[|a| + i] == b[i];
      assert (a + b)[1..] == a[1..] + b;
      TrimRightAppend(a[1..], b);
    }
  }

  /** Trailing white space does not survive, whatever precedes it. */
  lemma {:induction false} TrimRightDrop(a: string, b: string)
    requires AllSpace(b)
    ensures TrimRight(a + b) == TrimRight(a)
  {
    if a == "" {
      assert a + b == b;
    } else if AllSpace(a) {
      assert AllSpace(a + b);
    } else {
      var i :| 0 <= i < |a| && !IsSpace(a[i]);
      assert (a + b)[i] == a[i];
      assert (a + b)[1..] == a[1..] + b;
      TrimRightDrop(a[1..], b);
    }
  }

  lemma TrimSolid(s: string)
    requires s == "" || (!IsSpace(s[0]) && !IsSpace(s[|s| - 1]))
    ensures Trim(s) == s
  {
    TrimRightSolid(s);
  }

  lemma TrimIdempotent(s: string)
    ensures Trim(Trim(s)) == Trim(s)
  {
    TrimSolid(Trim(s));
  }

  // ----- global replacement --------------------------------------------------

  /** What a pattern finds at the head of a string: how much it takes, what stands in
      for it, and whether computing the stand-in raises an exception. */
  datatype Match = NoMatch | Match(len: nat, text: string, raises: bool)

  type Pattern = string -> Match

  /** A pattern hit that is not empty and lies within the string. */
  predicate Hits(p: Pattern, s: string) {
    p(s).Match? && 0 < p(s).len <= |s|
  }

  /** `s.replace(/p/g, ...)`: matches are taken from the left and never overlap. */
  function ReplaceAll(p: Pattern, s: string): string {
    if s == "" then ""
    else if Hits(p, s) then p(s).text + ReplaceAll(p, s[p(s).len..])
    else [s[0]] + ReplaceAll(p, s[1..])
  }

  /** Whether that call raises: some replaced match does. */
  predicate Raises(p: Pattern, s: string) {
    if s == "" then false
    else if Hits(p, s) then p(s).raises || Raises(p, s[p(s).len..])
    else Raises(p, s[1..])
  }

  lemma {:induction false} ReplaceNothing(p: Pattern, s: string)
    requires forall i :: 0 <= i < |s| ==> !Hits(p, s[i..])
    ensures ReplaceAll(p, s) == s && !Raises(p, s)
  {
    if s != "" {
      assert s[0..] == s;
      forall i | 0 <= i < |s[1..]| ensures !Hits(p, s[1..][i..]) {
        assert s[1..][i..] == s[i + 1..];
      }
      ReplaceNothing(p, s[1..]);
    }
  }

  function Literal(lit: string, rep: string): Pattern {
    (s: string) => if lit <= s then Match(|lit|, rep, false) else NoMatch
  }
}
