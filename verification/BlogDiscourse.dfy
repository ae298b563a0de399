/** Comments and reactions on blogs: the two levels of threads, the tree that is built from a list of
    comments, and the count kept beside the reactions. */
module BlogDiscourse {
  import opened Wrappers
  import opened Lists

  // ----- comments -------------------------------------------------------------------

  datatype Comment = Comment(id: string, blogId: string, parentId: Option<string>, authorId: string, hidden: bool,
                             deleted: bool)

  function Find(rows: seq<Comment>, id: string): Option<Comment> {
    if rows == [] then None else if rows[0].id == id then Some(rows[0]) else Find(rows[1..], id)
  }

  datatype Refusal = NoParent | TooDeep

  function CommentRefusal(rows: seq<Comment>, blogId: string, parentId: Option<string>): Option<Refusal> {
    if parentId.None? then None
    else
      match Find(rows, parentId.value)
      case None => Some(NoParent)
      case Some(p) =>
        if p.deleted || p.blogId != blogId then Some(NoParent)
        else if p.parentId.Some? then Some(TooDeep)
        else None
  }

  datatype Change =
    | Create(id: string, blogId: string, parentId: Option<string>, authorId: string)
    | Moderate(id: string, hidden: bool)
    | Delete(id: string)

  function SetFlags(rows: seq<Comment>, change: Change): (r: seq<Comment>)
    requires !change.Create?
    ensures |r| == |rows|
    ensures forall i :: 0 <= i < |rows| ==>
              r[i] == if rows[i].id != change.id then rows[i]
                      else if change.Delete? then rows[i].(deleted := true)
                      else rows[i].(hidden := change.hidden)
  {
    if rows == [] then []
    else
      [if rows[0].id != change.id then rows[0]
       else if change.Delete? then rows[0].(deleted := true)
       else rows[0].(hidden := change.hidden)]
      + SetFlags(rows[1..], change)
  }

  /** `createComment`, `moderateComment` and `deleteComment` on the table; an identifier is never reused. */
  function Apply(rows: seq<Comment>, change: Change): seq<Comment> {
    if !change.Create? then SetFlags(rows, change)
    else if Find(rows, change.id).Some? || CommentRefusal(rows, change.blogId, change.parentId).Some? then rows
    else rows + [Comment(change.id, change.blogId, change.parentId, change.authorId, false, false)]
  }

  function Run(rows: seq<Comment>, changes: seq<Change>): seq<Comment>
    decreases |changes|
  {
    if changes == [] then rows else Run(Apply(rows, changes[0]), changes[1..])
  }

  predicate IdsDiffer(rows: seq<Comment>) {
    forall i, j :: 0 <= i < j < |rows| ==> rows[i].id != rows[j].id
  }

  /** Row `j` is the parent of row `i`: a comment on the same blog that has no parent itself. */
  predicate Parents(rows: seq<Comment>, i: nat, j: nat)
    requires i < |rows| && j < |rows|
  {
    rows[i].parentId == Some(rows[j].id) && rows[j].blogId == rows[i].blogId && rows[j].parentId.None?
  }

  predicate TwoLevels(rows: seq<Comment>) {
    forall i :: 0 <= i < |rows| && rows[i].parentId.Some? ==> exists j :: 0 <= j < |rows| && Parents(rows, i, j)
  }

  lemma {:induction false} FindIs(rows: seq<Comment>, id: string)
    ensures match Find(rows, id)
            case Some(c) => exists j :: 0 <= j < |rows| && rows[j] == c && c.id == id
            case None => forall j :: 0 <= j < |rows| ==> rows[j].id != id
  {
    if rows != [] && rows[0].id != id {
      FindIs(rows[1..], id);
      if Find(rows, id).Some? {
        var j :| 0 <= j < |rows[1..]| && rows[1..][j] == Find(rows, id).value;
        assert rows[j + 1] == Find(rows, id).value;
      }
    }
  }

  lemma ApplyKeeps(rows: seq<Comment>, change: Change)
    requires IdsDiffer(rows) && TwoLevels(rows)
    ensures IdsDiffer(Apply(rows, change)) && TwoLevels(Apply(rows, change))
  {
    var next := Apply(rows, change);
    if change.Create? && next != rows {
      FindIs(rows, change.id);
      if change.parentId.Some? {
        FindIs(rows, change.parentId.value);
      }
    }
    forall i | 0 <= i < |next| && next[i].parentId.Some?
      ensures exists j :: 0 <= j < |next| && Parents(next, i, j)
    {
      if i < |rows| {
        var j :| 0 <= j < |rows| && Parents(rows, i, j);
        assert Parents(next, i, j);
      } else {
        var j :| 0 <= j < |rows| && rows[j] == Find(rows, change.parentId.value).value;
        assert Parents(next, i, j);
      }
    }
  }

  /** However comments are created, hidden and deleted through the blog's own operations, threads never
      nest deeper than two levels. */
  lemma {:induction false} NeverDeeper(rows: seq<Comment>, changes: seq<Change>)
    requires IdsDiffer(rows) && TwoLevels(rows)
    ensures IdsDiffer(Run(rows, changes)) && TwoLevels(Run(rows, changes))
    decreases |changes|
  {
    if changes != [] {
      ApplyKeeps(rows, changes[0]);
      NeverDeeper(Apply(rows, changes[0]), changes[1..]);
    }
  }

  /** A comment is created if and only if it answers nothing, or a comment on the same blog that is neither
      deleted nor itself an answer; it is then added at the end, neither hidden nor deleted. */
  lemma CreatedIff(rows: seq<Comment>, id: string, blogId: string, parentId: Option<string>, authorId: string)
    requires IdsDiffer(rows) && forall c :: c in rows ==> c.id != id
    ensures Apply(rows, Create(id, blogId, parentId, authorId)) ==
            if parentId.None?
               || (exists p ::
                     p in rows && p.id == parentId.value && !p.deleted && p.blogId == blogId && p.parentId.None?)
            then rows + [Comment(id, blogId, parentId, authorId, false, false)] else rows
  {
    FindIs(rows, id);
    assert forall j :: 0 <= j < |rows| ==> rows[j] in rows;
    if parentId.Some? {
      FindIs(rows, parentId.value);
    }
  }

  // A comment that was written offline is upserted by its identifier, under whatever parent it names.

  /** Whether the parent exists as far as the table requires: it may be the comment itself. */
  predicate ParentExists(rows: seq<Comment>, c: Comment) {
    c.parentId.None? || c.parentId == Some(c.id) || Find(rows, c.parentId.value).Some?
  }

  /** Where the row with that identifier is, or the end of the table. */
  function Place(rows: seq<Comment>, id: string): (k: nat)
    ensures k <= |rows| && (k < |rows| ==> rows[k].id == id)
    ensures forall i :: 0 <= i < k ==> rows[i].id != id
  {
    if rows == [] || rows[0].id == id then 0 else 1 + Place(rows[1..], id)
  }

  /** What the upsert does not send has the table's defaults. */
  function AsNew(c: Comment): Comment { c.(hidden := false, deleted := false) }

  function Upsert(rows: seq<Comment>, c: Comment): seq<Comment> {
    var k := Place(rows, c.id);
    if k == |rows| then rows + [AsNew(c)] else rows[k := c.(hidden := rows[k].hidden, deleted := rows[k].deleted)]
  }

  function SyncComment(rows: seq<Comment>, c: Comment): seq<Comment> {
    if ParentExists(rows, c) then Upsert(rows, c) else rows
  }

  /** The parent is another comment on the same blog that has no parent itself. */
  predicate ParentFits(rows: seq<Comment>, c: Comment) {
    c.parentId.Some? ==>
      exists j :: 0 <= j < |rows| && rows[j].id == c.parentId.value != c.id && rows[j].blogId == c.blogId &&
             rows[j].parentId.None?
  }

  /** The replies that the comment already has are on its blog, and it has none if it is a reply. */
  predicate RepliesFit(rows: seq<Comment>, c: Comment) {
    forall i :: 0 <= i < |rows| && rows[i].id != c.id && rows[i].parentId == Some(c.id) ==>
      c.parentId.None? && rows[i].blogId == c.blogId
  }

  /** The table `next` has the comment in place `k`, and the other rows as they were. */
  predicate Replaced(rows: seq<Comment>, next: seq<Comment>, c: Comment, k: nat) {
    && k < |next| && |rows| <= |next|
    && next[k].id == c.id && next[k].parentId == c.parentId && next[k].blogId == c.blogId
    && (forall i :: 0 <= i < |next| && i != k ==> i < |rows| && next[i] == rows[i] && rows[i].id != c.id)
    && (k < |rows| ==> rows[k].id == c.id)
  }

  lemma UpsertReplaces(rows: seq<Comment>, c: Comment)
    requires IdsDiffer(rows)
    ensures IdsDiffer(Upsert(rows, c)) && Replaced(rows, Upsert(rows, c), c, Place(rows, c.id))
  {
    hide Place;
  }

  lemma FitsAfter(rows: seq<Comment>, next: seq<Comment>, c: Comment, k: nat)
    requires Replaced(rows, next, c, k) && TwoLevels(next) && IdsDiffer(next)
    ensures ParentFits(rows, c) && RepliesFit(rows, c)
  {
    if c.parentId.Some? {
      var j :| 0 <= j < |next| && Parents(next, k, j);
      assert j != k;
    }
    forall i | 0 <= i < |rows| && rows[i].id != c.id && rows[i].parentId == Some(c.id)
      ensures c.parentId.None? && rows[i].blogId == c.blogId
    {
      var j :| 0 <= j < |next| && Parents(next, i, j);
      assert j == k;
    }
  }

  lemma StillParent(rows: seq<Comment>, next: seq<Comment>, c: Comment, k: nat, i: nat)
    requires Replaced(rows, next, c, k) && TwoLevels(rows) && ParentFits(rows, c) && RepliesFit(rows, c)
    requires i < |next| && next[i].parentId.Some?
    ensures exists j :: 0 <= j < |next| && Parents(next, i, j)
  {
    if i == k {
      var j :| 0 <= j < |rows| && rows[j].id == c.parentId.value != c.id && rows[j].blogId == c.blogId &&
          rows[j].parentId.None?;
      assert Parents(next, i, j);
    } else {
      var j :| 0 <= j < |rows| && Parents(rows, i, j);
      assert Parents(next, i, j);
    }
  }

  lemma StillTwo(rows: seq<Comment>, next: seq<Comment>, c: Comment, k: nat)
    requires Replaced(rows, next, c, k) && TwoLevels(rows) && ParentFits(rows, c) && RepliesFit(rows, c)
    ensures TwoLevels(next)
  {
    hide Replaced, ParentFits, RepliesFit, Parents;
    forall i | 0 <= i < |next| && next[i].parentId.Some? ensures exists j :: 0 <= j < |next| && Parents(next, i, j) {
      StillParent(rows, next, c, k, i);
    }
  }

  lemma Synced(rows: seq<Comment>, c: Comment)
    requires ParentExists(rows, c)
    ensures SyncComment(rows, c) == Upsert(rows, c)
  {
  }

  /** A synced comment is written if and only if its parent is itself, or there. A new one is neither hidden nor
      deleted, and one that is there is overwritten where it stands but stays hidden or deleted if it was. */
  lemma SyncWrites(rows: seq<Comment>, c: Comment)
    requires IdsDiffer(rows)
    ensures var next := SyncComment(rows, c);
            var known := c.parentId.None? || c.parentId == Some(c.id)
                         || (exists p :: p in rows && p.id == c.parentId.value);
            && (!known ==> next == rows)
            && (known && (forall p :: p in rows ==> p.id != c.id) ==>
                 next == rows + [c.(hidden := false, deleted := false)])
            && forall k :: 0 <= k < |rows| && rows[k].id == c.id && known ==>
                 next == rows[k := Comment(c.id, c.blogId, c.parentId, c.authorId, rows[k].hidden, rows[k].deleted)]
  {
    if c.parentId.Some? {
      FindIs(rows, c.parentId.value);
    }
    assert forall i :: 0 <= i < |rows| ==> rows[i] in rows;
  }

  /** A synced comment keeps the two levels if and only if its parent and its replies fit. */
  lemma SyncKeepsIff(rows: seq<Comment>, c: Comment)
    requires IdsDiffer(rows) && TwoLevels(rows) && ParentExists(rows, c)
    ensures IdsDiffer(SyncComment(rows, c))
    ensures TwoLevels(SyncComment(rows, c)) <==> ParentFits(rows, c) && RepliesFit(rows, c)
  {
    hide *;
    var next, k := Upsert(rows, c), Place(rows, c.id);
    Synced(rows, c);
    UpsertReplaces(rows, c);
    if TwoLevels(next) {
      FitsAfter(rows, next, c, k);
    }
    if ParentFits(rows, c) && RepliesFit(rows, c) {
      StillTwo(rows, next, c, k);
    }
  }

  // ----- the tree ---------------------------------------------------------------------------

  predicate Shown(c: Comment, blogId: string, moderator: bool, caller: string) {
    c.blogId == blogId && !c.deleted && (!c.hidden || moderator || c.authorId == caller)
  }

  function Visible(rows: seq<Comment>, blogId: string, moderator: bool, caller: string): seq<Comment> {
    Filter((c: Comment) => Shown(c, blogId, moderator, caller), rows)
  }

  /** What a caller is shown of a blog's comments: those that are not deleted, and hidden ones only as their
      author or a moderator; in their order, and each as often as it is there. */
  lemma VisibleIff(rows: seq<Comment>, blogId: string, moderator: bool, caller: string, c: Comment)
    ensures var list := Visible(rows, blogId, moderator, caller);
            && multiset(list)[c] == (if c.deleted || c.blogId != blogId then 0
                                     else if c.hidden && !moderator && c.authorId != caller then 0
                                     else multiset(rows)[c])
            && (forall a, b :: Visible(a + b, blogId, moderator, caller)
                               == Visible(a, blogId, moderator, caller) + Visible(b, blogId, moderator, caller))
  {
    var shown := (x: Comment) => Shown(x, blogId, moderator, caller);
    CountFilter(shown, rows, c);
    forall a, b ensures Visible(a + b, blogId, moderator, caller)
                        == Visible(a, blogId, moderator, caller) + Visible(b, blogId, moderator, caller) {
      FilterAppend(shown, a, b);
    }
    hide Filter;
  }

  predicate Listed(list: seq<Comment>, id: string) { exists i :: 0 <= i < |list| && list[i].id == id }

  /** A comment stands at the top if it has no parent, or none that is in the list. */
  predicate IsRoot(list: seq<Comment>, c: Comment) { c.parentId.None? || !Listed(list, c.parentId.value) }

  function AtTop(list: seq<Comment>): Comment -> bool { (c: Comment) => IsRoot(list, c) }

  function RepliesTo(id: string): Comment -> bool { (c: Comment) => c.parentId == Some(id) }

  function Roots(list: seq<Comment>): seq<Comment> { Filter(AtTop(list), list) }

  function Replies(list: seq<Comment>, id: string): seq<Comment> { Filter(RepliesTo(id), list) }

  /** Roots and replies among the first `i` comments of a list. */
  function RootsUpTo(list: seq<Comment>, i: nat): seq<Comment>
    requires i <= |list|
  {
    Filter(AtTop(list), list[..i])
  }

  function RepliesUpTo(list: seq<Comment>, i: nat, id: string): seq<Comment>
    requires i <= |list|
  {
    Filter(RepliesTo(id), list[..i])
  }

  lemma OneMore(list: seq<Comment>, i: nat, id: string)
    requires i < |list|
    ensures RootsUpTo(list, i + 1) == RootsUpTo(list, i) + if IsRoot(list, list[i]) then [list[i]] else []
    ensures RepliesUpTo(list, i + 1, id)
            == RepliesUpTo(list, i, id) + if list[i].parentId == Some(id) then [list[i]] else []
  {
    var c := list[i];
    assert list[..i + 1] == list[..i] + [c] && [c][1..] == [];
    FilterAppend(AtTop(list), list[..i], [c]);
    FilterAppend(RepliesTo(id), list[..i], [c]);
  }

  lemma TreeEnds(list: seq<Comment>, id: string)
    ensures RootsUpTo(list, 0) == [] && RootsUpTo(list, |list|) == Roots(list)
    ensures RepliesUpTo(list, 0, id) == [] && RepliesUpTo(list, |list|, id) == Replies(list, id)
  {
    assert list[..|list|] == list;
  }

  lemma ListedSnoc(s: seq<Comment>, x: Comment, id: string)
    ensures Listed(s + [x], id) <==> Listed(s, id) || id == x.id
  {
    assert (s + [x])[|s|] == x && forall k :: 0 <= k < |s| ==> (s + [x])[k] == s[k];
  }

  /** The two passes of `getBlogById`: a map of all comments, then each comment to its parent or the top. */
  method BuildTree(list: seq<Comment>) returns (roots: seq<Comment>, replies: map<string, seq<Comment>>)
    ensures roots == Roots(list)
    ensures forall id :: id in replies <==> Listed(list, id)
    ensures forall id :: id in replies ==> replies[id] == Replies(list, id)
  {
    hide *;
    roots, replies := [], map[];
    ListedEnds(list);
    for i := 0 to |list|
      invariant forall id :: id in replies <==> Listed(list[..i], id)
      invariant forall id :: id in replies ==> replies[id] == []
    {
      assert list[..i + 1] == list[..i] + [list[i]];
      forall id ensures Listed(list[..i + 1], id) <==> Listed(list[..i], id) || id == list[i].id {
        ListedSnoc(list[..i], list[i], id);
      }
      replies := replies[list[i].id := []];
    }
    forall id ensures RepliesUpTo(list, 0, id) == [] && RepliesUpTo(list, |list|, id) == Replies(list, id) {
      TreeEnds(list, id);
    }
    TreeEnds(list, "");
    for i := 0 to |list|
      invariant forall id :: id in replies <==> Listed(list, id)
      invariant roots == RootsUpTo(list, i)
      invariant forall id :: id in replies ==> replies[id] == RepliesUpTo(list, i, id)
    {
      var c := list[i];
      forall id
        ensures RepliesUpTo(list, i + 1, id) == RepliesUpTo(list, i, id) + if c.parentId == Some(id) then [c] else []
      {
        OneMore(list, i, id);
      }
      OneMore(list, i, "");
      RootIs(list, c);
      if c.parentId.Some? && c.parentId.value in replies {
        replies := replies[c.parentId.value := replies[c.parentId.value] + [c]];
      } else {
        roots := roots + [c];
      }
    }
  }

  lemma ListedEnds(list: seq<Comment>)
    ensures list[..0] == [] && list[..|list|] == list && forall id :: !Listed([], id)
  {
  }

  lemma RootIs(list: seq<Comment>, c: Comment)
    ensures IsRoot(list, c) <==> c.parentId.None? || !Listed(list, c.parentId.value)
  {
  }

  /** The tree as it is read, down to a number of levels: each comment followed by its replies and theirs. */
  function Nested(list: seq<Comment>, nodes: seq<Comment>, levels: nat): seq<Comment>
    decreases levels, |nodes|
  {
    if nodes == [] || levels == 0 then []
    else
      var last := nodes[|nodes| - 1];
      Nested(list, nodes[..|nodes| - 1], levels) + [last] + Nested(list, Replies(list, last.id), levels - 1)
  }

  // The line of a comment's parents within the list.

  function Parent(list: seq<Comment>, c: Comment): Option<Comment> {
    if c.parentId.None? then None else Find(list, c.parentId.value)
  }

  function Up(list: seq<Comment>, c: Comment, n: nat): Option<Comment>
    decreases n
  {
    if n == 0 then Some(c)
    else
      var p := Parent(list, c);
      if p.None? then None else Up(list, p.value, n - 1)
  }

  /** The line of parents ends within so many levels. */
  predicate Ends(list: seq<Comment>, c: Comment, levels: nat)
    decreases levels
  {
    levels > 0 && (Parent(list, c).Some? ==> Ends(list, Parent(list, c).value, levels - 1))
  }

  /** No comment is its own ancestor. */
  predicate NoCycle(list: seq<Comment>) {
    forall c, n :: c in list && 0 < n <= |list| ==> Up(list, c, n) != Some(c)
  }

  lemma ParentIs(list: seq<Comment>, c: Comment)
    requires IdsDiffer(list)
    ensures Parent(list, c).None? <==> IsRoot(list, c)
    ensures Parent(list, c).Some? ==> Parent(list, c).value in list && c.parentId == Some(Parent(list, c).value.id)
    ensures forall p :: p in list && c.parentId == Some(p.id) ==> Parent(list, c) == Some(p)
  {
    if c.parentId.Some? {
      FindIs(list, c.parentId.value);
    }
  }

  lemma {:induction false} CountOnce(s: seq<Comment>, c: Comment)
    requires IdsDiffer(s)
    ensures multiset(s)[c] == if c in s then 1 else 0
  {
    if s != [] {
      CountOnce(s[1..], c);
      assert s == [s[0]] + s[1..];
    }
  }

  /** Every comment of the list has one place: at the top, or among the replies to its parent. */
  lemma OnePlace(list: seq<Comment>, c: Comment, id: string)
    requires IdsDiffer(list) && c in list
    ensures multiset(Roots(list))[c] == if Parent(list, c).None? then 1 else 0
    ensures multiset(Replies(list, id))[c] == if c.parentId == Some(id) then 1 else 0
  {
    CountOnce(list, c);
    CountFilter(AtTop(list), list, c);
    CountFilter(RepliesTo(id), list, c);
    ParentIs(list, c);
    hide Filter, Parent;
  }

  /** How often the line of a comment, itself included, meets some comments within so many levels. */
  function Meets(list: seq<Comment>, nodes: seq<Comment>, c: Comment, levels: nat): nat
    decreases levels
  {
    if levels == 0 then 0
    else
      var p := Parent(list, c);
      multiset(nodes)[c] + if p.None? then 0 else Meets(list, nodes, p.value, levels - 1)
  }

  lemma {:induction false} MeetsAppend(list: seq<Comment>, a: seq<Comment>, b: seq<Comment>, c: Comment, levels: nat)
    ensures Meets(list, a + b, c, levels) == Meets(list, a, c, levels) + Meets(list, b, c, levels)
    decreases levels
  {
    hide Parent;
    if levels > 0 && Parent(list, c).Some? {
      MeetsAppend(list, a, b, Parent(list, c).value, levels - 1);
    }
  }

  lemma {:induction false} MeetsNothing(list: seq<Comment>, c: Comment, levels: nat)
    ensures Meets(list, [], c, levels) == 0
    decreases levels
  {
    hide Parent;
    if levels > 0 && Parent(list, c).Some? {
      MeetsNothing(list, Parent(list, c).value, levels - 1);
    }
  }

  /** A line that meets the replies to a comment meets that comment one level further up. */
  lemma {:induction false} MeetsReplies(list: seq<Comment>, top: Comment, c: Comment, levels: nat)
    requires IdsDiffer(list) && top in list && c in list
    ensures Meets(list, [top], c, levels + 1)
         == multiset([top])[c] + Meets(list, Replies(list, top.id), c, levels)
    decreases levels
  {
    hide Parent, Replies;
    ParentIs(list, c);
    var p := Parent(list, c);
    if levels > 0 {
      OnePlace(list, c, top.id);
      if p.Some? {
        ParentIs(list, p.value);
        MeetsReplies(list, top, p.value, levels - 1);
        SameParent(list, top, c);
      }
    }
  }

  lemma SameParent(list: seq<Comment>, top: Comment, c: Comment)
    requires IdsDiffer(list) && top in list && Parent(list, c).Some?
    ensures multiset([top])[Parent(list, c).value] == if c.parentId == Some(top.id) then 1 else 0
  {
    ParentIs(list, c);
    hide Parent;
  }

  lemma NestedStep(list: seq<Comment>, nodes: seq<Comment>, c: Comment, levels: nat)
    requires nodes != [] && levels > 0
    ensures multiset(Nested(list, nodes, levels))[c]
         == multiset(Nested(list, nodes[..|nodes| - 1], levels))[c] + multiset([nodes[|nodes| - 1]])[c]
            + multiset(Nested(list, Replies(list, nodes[|nodes| - 1].id), levels - 1))[c]
  {
    hide Replies;
  }

  lemma MeetsStep(list: seq<Comment>, nodes: seq<Comment>, c: Comment, levels: nat)
    requires IdsDiffer(list) && c in list && nodes != [] && nodes[|nodes| - 1] in list && levels > 0
    ensures Meets(list, nodes, c, levels)
         == Meets(list, nodes[..|nodes| - 1], c, levels) + multiset([nodes[|nodes| - 1]])[c]
            + Meets(list, Replies(list, nodes[|nodes| - 1].id), c, levels - 1)
  {
    hide *;
    var n := |nodes| - 1;
    assert nodes == nodes[..n] + [nodes[n]];
    MeetsAppend(list, nodes[..n], [nodes[n]], c, levels);
    MeetsReplies(list, nodes[n], c, levels - 1);
  }

  predicate AllIn(nodes: seq<Comment>, list: seq<Comment>) { forall x :: x in nodes ==> x in list }

  lemma RepliesIn(list: seq<Comment>, id: string)
    ensures AllIn(Replies(list, id), list) && AllIn(Roots(list), list)
  {
  }

  lemma RestIn(list: seq<Comment>, nodes: seq<Comment>)
    requires nodes != [] && AllIn(nodes, list)
    ensures nodes[|nodes| - 1] in list && AllIn(nodes[..|nodes| - 1], list)
  {
  }

  lemma NoneShown(list: seq<Comment>, nodes: seq<Comment>, c: Comment, levels: nat)
    requires nodes == [] || levels == 0
    ensures Nested(list, nodes, levels) == [] && Meets(list, nodes, c, levels) == 0
  {
    MeetsNothing(list, c, levels);
  }

  /** How often a comment is shown below some comments: as often as its line meets them. */
  lemma {:induction false} ShownBelow(list: seq<Comment>, nodes: seq<Comment>, c: Comment, levels: nat)
    requires IdsDiffer(list) && c in list && AllIn(nodes, list)
    ensures multiset(Nested(list, nodes, levels))[c] == Meets(list, nodes, c, levels)
    decreases levels, |nodes|
  {
    hide *;
    if nodes == [] || levels == 0 {
      NoneShown(list, nodes, c, levels);
    } else {
      RestIn(list, nodes);
      RepliesIn(list, nodes[|nodes| - 1].id);
      NestedStep(list, nodes, c, levels);
      MeetsStep(list, nodes, c, levels);
      ShownBelow(list, nodes[..|nodes| - 1], c, levels);
      ShownBelow(list, Replies(list, nodes[|nodes| - 1].id), c, levels - 1);
    }
  }

  lemma {:induction false} NestedIn(list: seq<Comment>, nodes: seq<Comment>, levels: nat)
    requires AllIn(nodes, list)
    ensures AllIn(Nested(list, nodes, levels), list)
    decreases levels, |nodes|
  {
    if nodes != [] && levels > 0 {
      var n := |nodes| - 1;
      RestIn(list, nodes);
      NestedIn(list, nodes[..n], levels);
      RepliesIn(list, nodes[n].id);
      NestedIn(list, Replies(list, nodes[n].id), levels - 1);
      hide Replies;
    }
  }

  /** A line of parents meets the top once, where it ends. */
  lemma {:induction false} MeetsTop(list: seq<Comment>, c: Comment, levels: nat)
    requires IdsDiffer(list) && c in list
    ensures Meets(list, Roots(list), c, levels) == if Ends(list, c, levels) then 1 else 0
    decreases levels
  {
    hide Parent, Roots;
    if levels > 0 {
      OnePlace(list, c, "");
      ParentIs(list, c);
      if Parent(list, c).Some? {
        MeetsTop(list, Parent(list, c).value, levels - 1);
      }
    }
  }

  lemma NotIn(nodes: seq<Comment>, list: seq<Comment>, c: Comment)
    requires AllIn(nodes, list) && c !in list
    ensures multiset(nodes)[c] == 0
  {
  }

  lemma TopShows(list: seq<Comment>, c: Comment, levels: nat)
    requires IdsDiffer(list)
    ensures multiset(Nested(list, Roots(list), levels))[c] == if c in list && Ends(list, c, levels) then 1 else 0
  {
    hide *;
    RepliesIn(list, "");
    if c in list {
      ShownBelow(list, Roots(list), c, levels);
      MeetsTop(list, c, levels);
    } else {
      NestedIn(list, Roots(list), levels);
      NotIn(Nested(list, Roots(list), levels), list, c);
    }
  }

  /** Down to any level the tree shows no comment twice, and shows each comment exactly if each line of
      parents has ended there. */
  lemma EachOnceIff(list: seq<Comment>, levels: nat)
    requires IdsDiffer(list)
    ensures multiset(Nested(list, Roots(list), levels)) <= multiset(list)
    ensures multiset(Nested(list, Roots(list), levels)) == multiset(list)
            <==> forall c :: c in list ==> Ends(list, c, levels)
  {
    hide *;
    forall c
      ensures multiset(Nested(list, Roots(list), levels))[c] == if c in list && Ends(list, c, levels) then 1 else 0
      ensures multiset(list)[c] == if c in list then 1 else 0
    {
      TopShows(list, c, levels);
      CountOnce(list, c);
    }
  }

  // A line that does not end returns to where it was.

  /** The first ancestors of a comment, itself first. */
  function Line(list: seq<Comment>, c: Comment, n: nat): (line: seq<Comment>)
    requires !Ends(list, c, n)
    ensures |line| == n + 1
    decreases n
  {
    if n == 0 then [c] else [c] + Line(list, Parent(list, c).value, n - 1)
  }

  lemma {:induction false} LineIn(list: seq<Comment>, c: Comment, n: nat)
    requires IdsDiffer(list) && c in list && !Ends(list, c, n)
    ensures forall x :: x in Line(list, c, n) ==> x in list
    decreases n
  {
    if n > 0 {
      ParentIs(list, c);
      LineIn(list, Parent(list, c).value, n - 1);
    }
  }

  lemma {:induction false} LineUp(list: seq<Comment>, c: Comment, n: nat, i: nat, j: nat)
    requires !Ends(list, c, n) && i <= j <= n
    ensures Up(list, Line(list, c, n)[i], j - i) == Some(Line(list, c, n)[j])
    decreases n
  {
    hide Parent;
    if n > 0 && j > 0 {
      var p := Parent(list, c).value;
      if i > 0 {
        LineUp(list, p, n - 1, i - 1, j - 1);
      } else {
        LineUp(list, p, n - 1, 0, j - 1);
        assert Line(list, p, n - 1)[0] == p;
      }
    }
  }

  function Except(x: Comment): Comment -> bool { (c: Comment) => c != x }

  lemma {:induction false} FilterLoses(p: Comment -> bool, s: seq<Comment>, x: Comment)
    requires x in s && !p(x)
    ensures |Filter(p, s)| < |s|
  {
    if s[0] != x {
      FilterLoses(p, s[1..], x);
    }
  }

  /** More comments than the list has: two of them are the same. */
  lemma {:induction false} Repeated(list: seq<Comment>, line: seq<Comment>) returns (i: nat, j: nat)
    requires |line| > |list| && forall x :: x in line ==> x in list
    ensures i < j < |line| && line[i] == line[j]
    decreases |list|
  {
    var x, rest := line[0], line[1..];
    if x in rest {
      var k :| 0 <= k < |rest| && rest[k] == x;
      i, j := 0, k + 1;
    } else {
      FilterLoses(Except(x), list, x);
      var k, l := Repeated(Filter(Except(x), list), rest);
      i, j := k + 1, l + 1;
    }
  }

  lemma Returns(list: seq<Comment>, c: Comment)
    requires IdsDiffer(list) && c in list && !Ends(list, c, |list|)
    ensures !NoCycle(list)
  {
    var line := Line(list, c, |list|);
    LineIn(list, c, |list|);
    var i, j := Repeated(list, line);
    LineUp(list, c, |list|, i, j);
    hide Line, Up, Ends;
    assert line[i] in list && Up(list, line[i], j - i) == Some(line[i]);
  }

  lemma {:induction false} UpOne(list: seq<Comment>, c: Comment, n: nat)
    requires Up(list, c, n).Some?
    ensures Up(list, c, n + 1) == Parent(list, Up(list, c, n).value)
    decreases n
  {
    hide Parent;
    if n > 0 {
      UpOne(list, Parent(list, c).value, n - 1);
    }
  }

  /** A line that returns to its comment never ends. */
  lemma {:induction false} NeverEnds(list: seq<Comment>, c: Comment, n: nat, levels: nat)
    requires n > 0 && Up(list, c, n) == Some(c)
    ensures !Ends(list, c, levels)
    decreases levels
  {
    hide Parent;
    if levels > 0 {
      UpOne(list, c, n);
      NeverEnds(list, Parent(list, c).value, n, levels - 1);
    }
  }

  lemma {:induction false} EndsLater(list: seq<Comment>, c: Comment, levels: nat, more: nat)
    requires Ends(list, c, levels) && levels <= more
    ensures Ends(list, c, more)
    decreases levels
  {
    hide Parent;
    if Parent(list, c).Some? {
      EndsLater(list, Parent(list, c).value, levels - 1, more - 1);
    }
  }

  /** The whole tree shows every comment of the list, and shows it once, if and only if no comment is its
      own ancestor; no line is longer than the list, so that many levels are the whole tree. */
  lemma WholeTreeIff(list: seq<Comment>, levels: nat)
    requires IdsDiffer(list) && levels >= |list|
    ensures multiset(Nested(list, Roots(list), levels)) == multiset(list) <==> NoCycle(list)
  {
    EachOnceIff(list, levels);
    hide Nested, Roots, Ends, Up;
    if NoCycle(list) {
      forall c | c in list ensures Ends(list, c, levels) {
        if !Ends(list, c, |list|) {
          Returns(list, c);
        }
        EndsLater(list, c, |list|, levels);
      }
    } else {
      var c, n :| c in list && 0 < n <= |list| && Up(list, c, n) == Some(c);
      NeverEnds(list, c, n, levels);
    }
  }

  lemma {:induction false} FilterDiffers(p: Comment -> bool, s: seq<Comment>)
    requires IdsDiffer(s)
    ensures IdsDiffer(Filter(p, s))
  {
    if s != [] {
      FilterDiffers(p, s[1..]);
      var rest := Filter(p, s[1..]);
      forall j | 0 <= j < |rest| ensures rest[j].id != s[0].id {
        assert rest[j] in rest;
        var k :| 0 <= k < |s[1..]| && s[1..][k] == rest[j];
        assert s[k + 1] == rest[j];
      }
    }
  }

  lemma VisibleDiffer(rows: seq<Comment>, blogId: string, moderator: bool, caller: string)
    requires IdsDiffer(rows)
    ensures IdsDiffer(Visible(rows, blogId, moderator, caller))
    ensures forall c :: c in Visible(rows, blogId, moderator, caller) ==> c in rows
  {
    FilterDiffers((c: Comment) => Shown(c, blogId, moderator, caller), rows);
  }

  /** Whatever is hidden or deleted, a caller is shown each visible comment once, replies to invisible ones
      at the top, if and only if none of them is its own ancestor. */
  lemma VisibleOnceIff(rows: seq<Comment>, blogId: string, moderator: bool, caller: string, levels: nat)
    requires IdsDiffer(rows) && levels >= |rows|
    ensures var list := Visible(rows, blogId, moderator, caller);
            multiset(Nested(list, Roots(list), levels)) == multiset(list) <==> NoCycle(list)
  {
    VisibleDiffer(rows, blogId, moderator, caller);
    WholeTreeIff(Visible(rows, blogId, moderator, caller), levels);
    hide *;
  }

  lemma VisibleShallow(rows: seq<Comment>, blogId: string, moderator: bool, caller: string, c: Comment)
    requires IdsDiffer(rows) && TwoLevels(rows) && c in Visible(rows, blogId, moderator, caller)
    ensures Ends(Visible(rows, blogId, moderator, caller), c, 2)
  {
    var list := Visible(rows, blogId, moderator, caller);
    VisibleDiffer(rows, blogId, moderator, caller);
    ParentIs(list, c);
    hide Visible, Parent;
    if Parent(list, c).Some? {
      var p := Parent(list, c).value;
      assert c in rows && p in rows;
      var a :| 0 <= a < |rows| && rows[a] == c;
      var b :| 0 <= b < |rows| && Parents(rows, a, b);
      var d :| 0 <= d < |rows| && rows[d] == p;
      assert b == d;
      ParentIs(list, p);
    }
  }

  /** Comments nested at most twice are all shown, and shown once, within two levels. */
  lemma VisibleOnce(rows: seq<Comment>, blogId: string, moderator: bool, caller: string)
    requires IdsDiffer(rows) && TwoLevels(rows)
    ensures var list := Visible(rows, blogId, moderator, caller);
            multiset(Nested(list, Roots(list), 2)) == multiset(list)
  {
    var list := Visible(rows, blogId, moderator, caller);
    VisibleDiffer(rows, blogId, moderator, caller);
    forall c | c in list ensures Ends(list, c, 2) {
      VisibleShallow(rows, blogId, moderator, caller, c);
    }
    hide *;
    EachOnceIff(list, 2);
  }

  lemma SelfAlone(rows: seq<Comment>, c: Comment)
    requires IdsDiffer(rows) && c.parentId == Some(c.id) && Find(rows, c.id).None?
    ensures var list, stored := SyncComment(rows, c), AsNew(c);
            IdsDiffer(list) && stored in list && Up(list, stored, 1) == Some(stored)
  {
    var list := SyncComment(rows, c);
    UpsertReplaces(rows, c);
    FindIs(rows, c.id);
    assert list == rows + [AsNew(c)];
    ParentIs(list, AsNew(c));
    hide Parent;
  }

  /** A synced comment that names itself as its parent is stored, and is shown nowhere. */
  lemma SelfParentLost(rows: seq<Comment>, c: Comment, levels: nat)
    requires IdsDiffer(rows) && c.parentId == Some(c.id) && Find(rows, c.id).None?
    ensures var list := SyncComment(rows, c); AsNew(c) in list && AsNew(c) !in Nested(list, Roots(list), levels)
  {
    hide *;
    var list := SyncComment(rows, c);
    SelfAlone(rows, c);
    NeverEnds(list, AsNew(c), 1, levels);
    TopShows(list, AsNew(c), levels);
  }

  // ----- reactions ------------------------------------------------------------------------------

  datatype Target = OnBlog(id: string) | OnComment(id: string)

  datatype Reaction = Reaction(target: Target, userId: string, kind: string)

  function Mine(target: Target, userId: string): Reaction -> bool {
    (r: Reaction) => r.target == target && r.userId == userId
  }

  function At(target: Target): Reaction -> bool { (r: Reaction) => r.target == target }

  function Count(rows: seq<Reaction>, target: Target): nat { |Filter(At(target), rows)| }

  function MineOf(rows: seq<Reaction>, target: Target, userId: string): seq<Reaction> {
    Filter(Mine(target, userId), rows)
  }

  function IsNot(r: Reaction): Reaction -> bool { (x: Reaction) => x != r }

  function Without(rows: seq<Reaction>, r: Reaction): seq<Reaction> { Filter(IsNot(r), rows) }

  /** The table and the counts stored with blogs and comments. */
  datatype Board = Board(rows: seq<Reaction>, likes: map<Target, nat>)

  function Recount(rows: seq<Reaction>, likes: map<Target, nat>, target: Target): Board {
    Board(rows, likes[target := Count(rows, target)])
  }

  /** `toggleReaction`: a query that expects at most one row finds none when there are several; the same
      kind twice is refused. */
  function Toggle(b: Board, target: Target, userId: string, kind: string): Board {
    var mine := MineOf(b.rows, target, userId);
    if |mine| == 1 then Recount(Without(b.rows, mine[0]), b.likes, target)
    else if Reaction(target, userId, kind) in mine then b
    else Recount(b.rows + [Reaction(target, userId, kind)], b.likes, target)
  }

  /** `removeReaction`. */
  function Remove(b: Board, target: Target, userId: string): Board {
    var mine := MineOf(b.rows, target, userId);
    Recount(if |mine| == 1 then Without(b.rows, mine[0]) else b.rows, b.likes, target)
  }

  class ReactionBoard {
    var rows: seq<Reaction>
    var likes: map<Target, nat>

    function State(): Board
      reads this
    {
      Board(rows, likes)
    }

    constructor ()
      ensures State() == Board([], map[])
    {
      rows, likes := [], map[];
    }

    method UpdateReactionCount(target: Target) returns (count: nat)
      modifies this`likes
      ensures State() == Recount(old(rows), old(likes), target) && count == likes[target]
    {
      count := |Filter(At(target), rows)|;
      likes := likes[target := count];
    }

    /** The result says whether the reaction is on, or is None when the insert is refused. */
    method ToggleReaction(target: Target, userId: string, kind: string) returns (active: Option<bool>, total: nat)
      modifies this
      ensures State() == Toggle(old(State()), target, userId, kind)
      ensures active.Some? ==> total == Count(rows, target) && target in likes && likes[target] == total
      ensures active == Some(false) <==> |MineOf(old(rows), target, userId)| == 1
    {
      var mine := MineOf(rows, target, userId);
      if |mine| == 1 {
        rows := Without(rows, mine[0]);
        total := UpdateReactionCount(target);
        return Some(false), total;
      }
      if Reaction(target, userId, kind) in mine {
        return None, 0;
      }
      rows := rows + [Reaction(target, userId, kind)];
      total := UpdateReactionCount(target);
      return Some(true), total;
    }

    method RemoveReaction(target: Target, userId: string) returns (total: nat)
      modifies this
      ensures State() == Remove(old(State()), target, userId) && total == Count(rows, target)
    {
      var mine := MineOf(rows, target, userId);
      if |mine| == 1 {
        rows := Without(rows, mine[0]);
      }
      total := UpdateReactionCount(target);
    }
  }

  datatype Act = Toggling(target: Target, userId: string, kind: string) | Removing(target: Target, userId: string)

  function After(b: Board, act: Act): Board {
    match act
    case Toggling(target, userId, kind) => Toggle(b, target, userId, kind)
    case Removing(target, userId) => Remove(b, target, userId)
  }

  /** Each user has at most one reaction to each target, and every stored count is right. */
  ghost predicate Sound(b: Board) {
    && (forall t: Target, u: string {:trigger MineOf(b.rows, t, u)} :: |MineOf(b.rows, t, u)| <= 1)
    && forall t :: Count(b.rows, t) == if t in b.likes then b.likes[t] else 0
  }

  lemma {:induction false} SizeWithout(s: seq<Reaction>, r: Reaction)
    ensures |Without(s, r)| == |s| - multiset(s)[r]
  {
    if s != [] {
      SizeWithout(s[1..], r);
      assert s == [s[0]] + s[1..];
    }
  }

  /** What deleting a row does to the rows of a target and of a user there. */
  lemma Deleted(rows: seq<Reaction>, r: Reaction, t: Target, u: string)
    ensures |MineOf(Without(rows, r), t, u)|
            == |MineOf(rows, t, u)| - if r.target == t && r.userId == u then multiset(rows)[r] else 0
    ensures Count(Without(rows, r), t) == Count(rows, t) - if r.target == t then multiset(rows)[r] else 0
  {
    FilterBoth(Mine(t, u), IsNot(r), rows);
    FilterBoth(At(t), IsNot(r), rows);
    SizeWithout(MineOf(rows, t, u), r);
    SizeWithout(Filter(At(t), rows), r);
    CountFilter(Mine(t, u), rows, r);
    CountFilter(At(t), rows, r);
    hide Filter;
  }

  lemma Inserted(rows: seq<Reaction>, r: Reaction, t: Target, u: string)
    ensures |MineOf(rows + [r], t, u)| == |MineOf(rows, t, u)| + if r.target == t && r.userId == u then 1 else 0
    ensures Count(rows + [r], t) == Count(rows, t) + if r.target == t then 1 else 0
  {
    FilterAppend(Mine(t, u), rows, [r]);
    FilterAppend(At(t), rows, [r]);
    assert [r][1..] == [];
  }

  /** The only row of a user at a target stands in the table once. */
  lemma OnlyRow(rows: seq<Reaction>, t: Target, u: string)
    requires |MineOf(rows, t, u)| == 1
    ensures var r := MineOf(rows, t, u)[0]; r.target == t && r.userId == u && multiset(rows)[r] == 1
  {
    var mine := MineOf(rows, t, u);
    var r := mine[0];
    assert mine == [r] && r in mine;
    CountFilter(Mine(t, u), rows, r);
  }

  /** What an act does to the rows of any user at any target. */
  lemma AfterRows(b: Board, act: Act, t: Target, u: string)
    ensures var mine := |MineOf(b.rows, act.target, act.userId)|;
            var here, there := act.target == t, act.target == t && act.userId == u;
            var refused := act.Toggling? && mine != 1 &&
                Reaction(act.target, act.userId, act.kind) in MineOf(b.rows, act.target, act.userId);
            var change := if mine == 1 then -1 else if act.Toggling? && !refused then 1 else 0;
            && |MineOf(After(b, act).rows, t, u)| == |MineOf(b.rows, t, u)| + (if there then change else 0)
            && Count(After(b, act).rows, t) == Count(b.rows, t) + (if here then change else 0)
            && After(b, act).likes == if refused then b.likes
               else b.likes[act.target := Count(After(b, act).rows, act.target)]
  {
    hide MineOf, Count, Without;
    var mine := MineOf(b.rows, act.target, act.userId);
    if |mine| == 1 {
      OnlyRow(b.rows, act.target, act.userId);
      Deleted(b.rows, mine[0], t, u);
    } else if act.Toggling? {
      Inserted(b.rows, Reaction(act.target, act.userId, act.kind), t, u);
    }
  }

  /** After every act each stored count is the number of rows, and nobody reacts twice to one target. */
  lemma StaysSound(b: Board, act: Act)
    requires Sound(b)
    ensures Sound(After(b, act))
  {
    var after := After(b, act);
    hide After, MineOf, Count;
    forall t: Target, u: string ensures |MineOf(after.rows, t, u)| <= 1 {
      AfterRows(b, act, t, u);
    }
    forall t ensures Count(after.rows, t) == if t in after.likes then after.likes[t] else 0 {
      AfterRows(b, act, t, "");
    }
  }

  /** Two toggles by one user give back the count, whatever kinds are clicked. */
  lemma ToggledTwice(b: Board, target: Target, userId: string, kind: string, again: string)
    requires Sound(b)
    ensures var after := Toggle(Toggle(b, target, userId, kind), target, userId, again);
            && Count(after.rows, target) == Count(b.rows, target) && target in after.likes &&
               after.likes[target] == Count(b.rows, target)
            && |MineOf(after.rows, target, userId)| == |MineOf(b.rows, target, userId)|
  {
    var once := Toggle(b, target, userId, kind);
    StaysSound(b, Toggling(target, userId, kind));
    AfterRows(b, Toggling(target, userId, kind), target, userId);
    AfterRows(once, Toggling(target, userId, again), target, userId);
    assert |MineOf(b.rows, target, userId)| <= 1 && |MineOf(once.rows, target, userId)| <= 1;
    hide MineOf, Count, Toggle;
  }

  /** A toggle takes a user's reaction away exactly if there was one row; with several, as a race between
      two toggles of different kinds leaves them, it never does. */
  lemma TogglesOffIff(b: Board, target: Target, userId: string, kind: string)
    ensures MineOf(Toggle(b, target, userId, kind).rows, target, userId) == []
            <==> |MineOf(b.rows, target, userId)| == 1
  {
    AfterRows(b, Toggling(target, userId, kind), target, userId);
    hide MineOf, Toggle, Count;
  }

  // ----- counting and storing as two queries ----------------------------------------------------

  /** The table, the stored counts, and what requests have counted and not yet stored. */
  datatype Race = Race(board: Board, counted: map<nat, nat>)

  /** A request changes the rows, counts them, and stores the count, with other requests in between. */
  datatype Half =
    | Touch(act: Act)
    | CountRows(request: nat, target: Target)
    | Store(request: nat, target: Target)

  function HalfNext(r: Race, half: Half): Race {
    match half
    case Touch(act) => r.(board := r.board.(rows := After(r.board, act).rows))
    case CountRows(request, target) => r.(counted := r.counted[request := Count(r.board.rows, target)])
    case Store(request, target) =>
      if request in r.counted then r.(board := r.board.(likes := r.board.likes[target := r.counted[request]])) else r
  }

  function HalfRun(r: Race, halves: seq<Half>): Race
    decreases |halves|
  {
    if halves == [] then r else HalfRun(HalfNext(r, halves[0]), halves[1..])
  }

  predicate CountRight(b: Board, target: Target) { target in b.likes && b.likes[target] == Count(b.rows, target) }

  /** The request does not count again. */
  predicate CountsOnce(halves: seq<Half>, request: nat) {
    forall i :: 0 <= i < |halves| && halves[i].CountRows? ==> halves[i].request != request
  }

  lemma {:induction false} CountedStays(r: Race, halves: seq<Half>, request: nat)
    requires CountsOnce(halves, request) && request in r.counted
    ensures var after := HalfRun(r, halves); request in after.counted && after.counted[request] == r.counted[request]
    decreases |halves|
  {
    if halves != [] {
      assert CountsOnce(halves[1..], request);
      hide After, Count;
      CountedStays(HalfNext(r, halves[0]), halves[1..], request);
    }
  }

  /** What a request does to the number of rows of a target. */
  function Moves(b: Board, act: Act, target: Target): int {
    if act.target != target then 0
    else if |MineOf(b.rows, target, act.userId)| == 1 then -1
    else if act.Toggling? && Reaction(target, act.userId, act.kind) !in MineOf(b.rows, target, act.userId) then 1
    else 0
  }

  /** The rows of the target that some halves insert, less those that they delete. */
  function Balance(r: Race, halves: seq<Half>, target: Target): int
    decreases |halves|
  {
    if halves == [] then 0
    else (if halves[0].Touch? then Moves(r.board, halves[0].act, target) else 0)
         + Balance(HalfNext(r, halves[0]), halves[1..], target)
  }

  lemma MovesCount(b: Board, act: Act, target: Target)
    ensures Count(After(b, act).rows, target) == Count(b.rows, target) + Moves(b, act, target)
  {
    AfterRows(b, act, target, "");
    hide After, Count, MineOf;
  }

  lemma HalfCount(r: Race, half: Half, target: Target)
    ensures Count(HalfNext(r, half).board.rows, target)
         == Count(r.board.rows, target) + if half.Touch? then Moves(r.board, half.act, target) else 0
  {
    if half.Touch? {
      MovesCount(r.board, half.act, target);
    }
    hide After, Count, Moves;
  }

  lemma {:induction false} CountBalance(r: Race, halves: seq<Half>, target: Target)
    ensures Count(HalfRun(r, halves).board.rows, target) == Count(r.board.rows, target) + Balance(r, halves, target)
    decreases |halves|
  {
    if halves != [] {
      HalfCount(r, halves[0], target);
      hide HalfNext, Count, Moves;
      CountBalance(HalfNext(r, halves[0]), halves[1..], target);
    }
  }

  /** What a request stores after anything else has happened since it counted is right if and only if as
      many rows of the target were inserted as were deleted in between. */
  lemma StoredRightIff(r: Race, request: nat, target: Target, between: seq<Half>)
    requires CountsOnce(between, request)
    ensures var counted := HalfNext(r, CountRows(request, target));
            CountRight(HalfNext(HalfRun(counted, between), Store(request, target)).board, target)
            <==> Balance(counted, between, target) == 0
  {
    var counted := HalfNext(r, CountRows(request, target));
    CountedStays(counted, between, request);
    CountBalance(counted, between, target);
    hide HalfRun, Count, Balance;
  }

  /** Nobody changes a row of the target. */
  predicate Undisturbed(halves: seq<Half>, target: Target) {
    forall i :: 0 <= i < |halves| && halves[i].Touch? ==> halves[i].act.target != target
  }

  lemma {:induction false} NothingMoves(r: Race, halves: seq<Half>, target: Target)
    requires Undisturbed(halves, target)
    ensures Balance(r, halves, target) == 0
    decreases |halves|
  {
    if halves != [] {
      assert Undisturbed(halves[1..], target);
      hide HalfNext, MineOf;
      NothingMoves(HalfNext(r, halves[0]), halves[1..], target);
    }
  }

  /** So the stored count is right whenever no row of the target changes between counting and storing. */
  lemma StoredRight(r: Race, request: nat, target: Target, between: seq<Half>)
    requires CountsOnce(between, request) && Undisturbed(between, target)
    ensures CountRight(HalfNext(HalfRun(HalfNext(r, CountRows(request, target)), between),
            Store(request, target)).board, target)
  {
    hide *;
    StoredRightIff(r, request, target, between);
    NothingMoves(HalfNext(r, CountRows(request, target)), between, target);
  }

  /** Two users react at once, and the one who counted first stores last: the stored count is stale. */
  lemma StaleCount(r: Race, target: Target, u: string, v: string, kind: string)
    requires u != v && MineOf(r.board.rows, target, u) == [] && MineOf(r.board.rows, target, v) == []
    ensures var first := HalfNext(r, Touch(Toggling(target, u, kind)));
            var between := [Touch(Toggling(target, v, kind)), CountRows(2, target), Store(2, target)];
            var end := HalfNext(HalfRun(HalfNext(first, CountRows(1, target)), between), Store(1, target)).board;
            target in end.likes && end.likes[target] + 1 == Count(end.rows, target)
  {
    var first := HalfNext(r, Touch(Toggling(target, u, kind)));
    var counted := HalfNext(first, CountRows(1, target));
    var a, b, c := Touch(Toggling(target, v, kind)), CountRows(2, target), Store(2, target);
    AfterRows(r.board, Toggling(target, u, kind), target, v);
    AfterRows(first.board, Toggling(target, v, kind), target, v);
    HalfThree(counted, a, b, c);
    hide Toggle, MineOf, Count, HalfRun;
  }

  lemma HalfThree(r: Race, a: Half, b: Half, c: Half)
    ensures HalfRun(r, [a, b, c]) == HalfNext(HalfNext(HalfNext(r, a), b), c)
  {
    hide HalfNext;
    assert [a, b, c][1..] == [b, c] && [b, c][1..] == [c] && [c][1..] == [];
    assert HalfRun(HalfNext(HalfNext(r, a), b), [c]) == HalfNext(HalfNext(HalfNext(r, a), b), c);
  }
}
