/** A conversation read backwards page by page, and the list that a client keeps of it. */
module ChatHistory {
  import opened Wrappers
  import opened Lists

  // ----- the server ---------------------------------------------------------------

  /** A row of `chat_messages`. */
  datatype Row = Row(id: string, senderId: string, content: string, createdAt: int)

  datatype Receipt = Receipt(messageId: string, userId: string)

  /** A message as the client holds it; what a source does not send is None. */
  datatype Message = Message(id: string, createdAt: int, content: string, readBy: Option<seq<string>>,
                             isRead: Option<bool>)

  const DEFAULT_PAGE_SIZE := 50
  const MAX_PAGE_SIZE := 100

  function PageSize(limit: Option<int>): (n: nat)
    ensures limit.None? ==> n == 50
    ensures limit.Some? ==> n == if limit.value < 1 then 1 else if limit.value > 100 then 100 else limit.value
  {
    var asked := match limit case Some(l) => l case None => DEFAULT_PAGE_SIZE;
    if asked < 1 then 1 else if asked > MAX_PAGE_SIZE then MAX_PAGE_SIZE else asked
  }

  function OlderThan(before: Option<int>): Row -> bool {
    (r: Row) => before.None? || r.createdAt < before.value
  }

  /** The newest `n` elements, oldest first. */
  function Last<T>(n: nat, s: seq<T>): seq<T> { if n <= |s| then s[|s| - n..] else s }

  /** The rows of a page: of those before the cursor, the newest, oldest first. */
  function PageRows(conversation: seq<Row>, before: Option<int>, size: nat): seq<Row> {
    Last(size, Filter(OlderThan(before), conversation))
  }

  /** Who has read a message, in the order of the receipts. */
  function ReadersOf(receipts: seq<Receipt>, id: string): seq<string> {
    if receipts == [] then []
    else
      var last := receipts[|receipts| - 1];
      ReadersOf(receipts[..|receipts| - 1], id) + if last.messageId == id then [last.userId] else []
  }

  /** The readers of a message are exactly those with a receipt for it. */
  lemma {:induction false} ReadersAre(receipts: seq<Receipt>, id: string, userId: string)
    ensures userId in ReadersOf(receipts, id) <==> Receipt(id, userId) in receipts
  {
    if receipts != [] {
      var n := |receipts| - 1;
      ReadersAre(receipts[..n], id, userId);
      assert receipts == receipts[..n] + [receipts[n]];
    }
  }

  function Shown(receipts: seq<Receipt>, r: Row): Message {
    var readBy := ReadersOf(receipts, r.id);
    Message(r.id, r.createdAt, r.content, Some(readBy), Some(exists i :: 0 <= i < |readBy| && readBy[i] != r.senderId))
  }

  function ShownAll(receipts: seq<Receipt>, rows: seq<Row>): (messages: seq<Message>)
    ensures |messages| == |rows|
    ensures forall i :: 0 <= i < |rows| ==> messages[i] == Shown(receipts, rows[i])
  {
    if rows == [] then [] else [Shown(receipts, rows[0])] + ShownAll(receipts, rows[1..])
  }

  /** A message counts as read exactly if somebody but its sender has a receipt for it. */
  lemma ReadIff(receipts: seq<Receipt>, r: Row)
    ensures var m := Shown(receipts, r);
            && m.id == r.id && m.createdAt == r.createdAt && m.content == r.content && m.readBy.Some? && m.isRead.Some?
            && (m.isRead.value <==> exists x :: x in receipts && x.messageId == r.id && x.userId != r.senderId)
            && forall u :: u in m.readBy.value <==> Receipt(r.id, u) in receipts
  {
    var readBy := ReadersOf(receipts, r.id);
    forall u ensures u in readBy <==> Receipt(r.id, u) in receipts {
      ReadersAre(receipts, r.id, u);
    }
    if x :| x in receipts && x.messageId == r.id && x.userId != r.senderId {
      assert x == Receipt(r.id, x.userId) && x.userId in readBy;
      var i :| 0 <= i < |readBy| && readBy[i] == x.userId;
    }
    if i :| 0 <= i < |readBy| && readBy[i] != r.senderId {
      assert readBy[i] in readBy && Receipt(r.id, readBy[i]) in receipts;
    }
    hide ReadersOf;
  }

  datatype Page = Page(messages: seq<Message>, hasMore: bool)

  function PageOf(conversation: seq<Row>, receipts: seq<Receipt>, before: Option<int>, size: nat): Page {
    var rows := PageRows(conversation, before, size);
    Page(ShownAll(receipts, rows), |rows| == size)
  }

  /** `getMessages`, for a conversation in ascending order of creation. */
  method GetMessages(conversation: seq<Row>, receipts: seq<Receipt>, before: Option<int>, limit: Option<int>)
    returns (page: Page)
    ensures page == PageOf(conversation, receipts, before, PageSize(limit))
  {
    hide *;
    var size := PageSize(limit);
    var rows := PageRows(conversation, before, size);
    PageReads(conversation, receipts, before, size);
    if rows == [] {
      return Page([], false);
    }
    var readers: map<string, seq<string>> := map[];
    assert receipts[..0] == [];
    for i := 0 to |receipts|
      invariant forall id :: id in readers ==> readers[id] == ReadersOf(receipts[..i], id)
      invariant forall id :: id !in readers ==> ReadersOf(receipts[..i], id) == []
    {
      var r := receipts[i];
      ReadersStep(receipts, i);
      readers := readers[r.messageId := (if r.messageId in readers then readers[r.messageId] else []) + [r.userId]];
    }
    assert receipts[..|receipts|] == receipts;
    var messages: seq<Message> := [];
    for i := 0 to |rows|
      invariant |messages| == i && forall k :: 0 <= k < i ==> messages[k] == Shown(receipts, rows[k])
    {
      var m := rows[i];
      var readBy := if m.id in readers then readers[m.id] else [];
      ShownReads(receipts, m);
      messages := messages + [Message(m.id, m.createdAt, m.content, Some(readBy),
                                      Some(exists k :: 0 <= k < |readBy| && readBy[k] != m.senderId))];
    }
    assert messages == ShownAll(receipts, rows);
    return Page(messages, |rows| == size);
  }

  lemma PageReads(conversation: seq<Row>, receipts: seq<Receipt>, before: Option<int>, size: nat)
    ensures var rows := PageRows(conversation, before, size);
            && PageOf(conversation, receipts, before, size) == Page(ShownAll(receipts, rows), |rows| == size)
            && (rows == [] ==> ShownAll(receipts, rows) == [])
    ensures forall id :: ReadersOf([], id) == []
  {
  }

  lemma ReadersStep(receipts: seq<Receipt>, i: nat)
    requires i < |receipts|
    ensures forall id :: ReadersOf(receipts[..i + 1], id)
                      == ReadersOf(receipts[..i], id) + if receipts[i].messageId == id then [receipts[i].userId] else []
  {
    assert receipts[..i + 1][..i] == receipts[..i];
  }

  lemma ShownReads(receipts: seq<Receipt>, r: Row)
    ensures var readBy := ReadersOf(receipts, r.id);
            Shown(receipts, r)
            == Message(r.id, r.createdAt, r.content, Some(readBy),
               Some(exists k :: 0 <= k < |readBy| && readBy[k] != r.senderId))
  {
  }

  // ----- the client's list -----------------------------------------------------------

  /** The newer copy's fields, and the older's where the newer has none. */
  function Merge(held: Message, next: Message): Message {
    Message(next.id, next.createdAt, next.content,
            if next.readBy.Some? then next.readBy else held.readBy,
            if next.isRead.Some? then next.isRead else held.isRead)
  }

  function Upsert(list: seq<Message>, next: Message): seq<Message> {
    if list == [] then [next]
    else if list[0].id == next.id then [Merge(list[0], next)] + list[1..]
    else [list[0]] + Upsert(list[1..], next)
  }

  function UpsertAll(list: seq<Message>, page: seq<Message>): seq<Message>
    decreases |page|
  {
    if page == [] then list else UpsertAll(Upsert(list, page[0]), page[1..])
  }

  function Ids(list: seq<Message>): (ids: seq<string>)
    ensures |ids| == |list|
    ensures forall i :: 0 <= i < |list| ==> ids[i] == list[i].id
  {
    if list == [] then [] else [list[0].id] + Ids(list[1..])
  }

  function Unseen(held: seq<Message>): Message -> bool {
    (m: Message) => m.id !in Ids(held)
  }

  /** An older page is put in front, without the messages already held. */
  function Prepend(held: seq<Message>, older: seq<Message>): seq<Message> {
    Filter(Unseen(held), older) + held
  }

  /** A read receipt that arrives over the socket. */
  function MarkRead(list: seq<Message>, id: string, userId: string): seq<Message> {
    if list == [] then []
    else
      var m := list[0];
      var readBy := match m.readBy case Some(r) => r case None => [];
      var marked := m.(readBy := Some(if userId in readBy then readBy else readBy + [userId]), isRead := Some(true));
      [if m.id == id then marked else m] + MarkRead(list[1..], id, userId)
  }

  lemma UpsertStep(list: seq<Message>, next: Message)
    requires list != []
    ensures Upsert(list, next) == if list[0].id == next.id then [Merge(list[0], next)] + list[1..]
                                  else [list[0]] + Upsert(list[1..], next)
  {
  }

  lemma MergeKeeps(held: Message, next: Message)
    ensures var m := Merge(held, next);
            && m.id == next.id && m.createdAt == next.createdAt && m.content == next.content
            && m.readBy == (if next.readBy.None? then held.readBy else next.readBy)
            && m.isRead == (if next.isRead.None? then held.isRead else next.isRead)
  {
  }

  /** A message that is held is brought up to date where it stands: it says what the newer copy says, and
      about readers what was known if the newer copy says nothing; the others stay as they are. */
  lemma {:induction false} UpsertKnown(list: seq<Message>, next: Message, k: nat)
    requires k < |list| && list[k].id == next.id && forall i :: 0 <= i < k ==> list[i].id != next.id
    ensures var after := Upsert(list, next);
            && |after| == |list| && (forall i :: 0 <= i < |list| && i != k ==> after[i] == list[i])
            && after[k].id == next.id && after[k].createdAt == next.createdAt && after[k].content == next.content
            && after[k].readBy == (if next.readBy.None? then list[k].readBy else next.readBy)
            && after[k].isRead == (if next.isRead.None? then list[k].isRead else next.isRead)
  {
    hide *;
    UpsertStep(list, next);
    MergeKeeps(list[0], next);
    if k > 0 {
      forall i | 0 <= i < k - 1 ensures list[1..][i].id != next.id {
        assert list[i + 1].id != next.id;
      }
      UpsertKnown(list[1..], next, k - 1);
    }
  }

  /** A receipt marks its message as read and names the reader once; it changes no other message. */
  lemma {:induction false} MarkedRead(list: seq<Message>, id: string, userId: string)
    ensures var after := MarkRead(list, id, userId);
            |after| == |list| && forall i :: 0 <= i < |list| ==>
              var known := if list[i].readBy.None? then [] else list[i].readBy.value;
              after[i] == if list[i].id != id then list[i]
                          else Message(list[i].id, list[i].createdAt, list[i].content,
                                       Some(if userId in known then known else known + [userId]), Some(true))
  {
    if list != [] {
      MarkedRead(list[1..], id, userId);
    }
  }

  /** The polling fallback folds a page into the list one message at a time. */
  method MergePage(prev: seq<Message>, page: seq<Message>) returns (next: seq<Message>)
    ensures next == UpsertAll(prev, page)
  {
    next := prev;
    for i := 0 to |page|
      invariant UpsertAll(next, page[i..]) == UpsertAll(prev, page)
    {
      next := Upsert(next, page[i]);
      assert page[i..][1..] == page[i + 1..];
    }
  }

  // ----- nothing held is lost ----------------------------------------------------------

  predicate Distinct(ids: seq<string>) {
    forall i, j :: 0 <= i < j < |ids| ==> ids[i] != ids[j]
  }

  datatype Step =
    | Socket(message: Message)
    | Sent(message: Message)
    | Poll(page: seq<Message>)
    | Older(page: seq<Message>)
    | Read(id: string, userId: string)

  function Apply(list: seq<Message>, step: Step): seq<Message> {
    match step
    case Socket(m) => Upsert(list, m)
    case Sent(m) => Upsert(list, m)
    case Poll(page) => UpsertAll(list, page)
    case Older(page) => Prepend(list, page)
    case Read(id, userId) => MarkRead(list, id, userId)
  }

  function Run(list: seq<Message>, steps: seq<Step>): seq<Message>
    decreases |steps|
  {
    if steps == [] then list else Run(Apply(list, steps[0]), steps[1..])
  }

  /** A page never lists one message twice. */
  predicate PagesDistinct(steps: seq<Step>) {
    forall i :: 0 <= i < |steps| && steps[i].Older? ==> Distinct(Ids(steps[i].page))
  }

  /** The list has grown at its ends only: everything held is there, in its order, and no identifier twice. */
  ghost predicate Grown(before: seq<string>, after: seq<string>) {
    && Distinct(after)
    && exists front: seq<string>, back: seq<string> :: after == front + before + back
  }

  lemma {:induction false} UpsertIds(list: seq<Message>, next: Message)
    ensures Ids(Upsert(list, next)) == if next.id in Ids(list) then Ids(list) else Ids(list) + [next.id]
  {
    if list != [] && list[0].id != next.id {
      UpsertIds(list[1..], next);
      IdsStep(list);
      IdsStep(Upsert(list, next));
      hide Ids;
      assert next.id in Ids(list) <==> next.id in Ids(list[1..]);
      Associative([list[0].id], Ids(list[1..]), [next.id]);
    }
  }

  lemma IdsStep(list: seq<Message>)
    requires list != []
    ensures Ids(list) == [list[0].id] + Ids(list[1..])
  {
  }

  lemma {:induction false} MarkReadIds(list: seq<Message>, id: string, userId: string)
    ensures Ids(MarkRead(list, id, userId)) == Ids(list)
  {
    if list != [] {
      MarkReadIds(list[1..], id, userId);
    }
  }

  lemma GrownChain(a: seq<string>, b: seq<string>, c: seq<string>)
    requires Grown(a, b) && Grown(b, c)
    ensures Grown(a, c)
  {
    var f, g :| b == f + a + g;
    var h, k :| c == h + b + k;
    assert c == (h + f) + a + (g + k);
  }

  lemma UpsertGrows(list: seq<Message>, next: Message)
    requires Distinct(Ids(list))
    ensures Grown(Ids(list), Ids(Upsert(list, next)))
  {
    UpsertIds(list, next);
    var ids := Ids(list);
    if next.id in ids {
      assert ids == [] + ids + [];
    } else {
      assert ids + [next.id] == [] + ids + [next.id];
    }
  }

  lemma {:induction false} UpsertAllGrows(list: seq<Message>, page: seq<Message>)
    requires Distinct(Ids(list))
    ensures Grown(Ids(list), Ids(UpsertAll(list, page)))
    decreases |page|
  {
    if page == [] {
      assert Ids(list) == [] + Ids(list) + [];
    } else {
      UpsertGrows(list, page[0]);
      UpsertAllGrows(Upsert(list, page[0]), page[1..]);
      GrownChain(Ids(list), Ids(Upsert(list, page[0])), Ids(UpsertAll(list, page)));
    }
  }

  lemma {:induction false} IdsAppend(a: seq<Message>, b: seq<Message>)
    ensures Ids(a + b) == Ids(a) + Ids(b)
  {
  }

  lemma {:induction false} FilteredIds(p: Message -> bool, page: seq<Message>)
    requires Distinct(Ids(page))
    ensures Distinct(Ids(Filter(p, page)))
    ensures forall id :: id in Ids(Filter(p, page)) ==> id in Ids(page)
    ensures forall id :: id in Ids(Filter(p, page)) ==> exists m :: m in page && m.id == id && p(m)
  {
    if page != [] {
      assert Distinct(Ids(page[1..])) by { assert Ids(page) == [page[0].id] + Ids(page[1..]); }
      FilteredIds(p, page[1..]);
      assert page[0].id !in Ids(page[1..]) by { assert Ids(page) == [page[0].id] + Ids(page[1..]); }
      var rest := Filter(p, page[1..]);
      if p(page[0]) {
        assert Ids([page[0]] + rest) == [page[0].id] + Ids(rest);
      }
    }
  }

  lemma PrependGrows(list: seq<Message>, page: seq<Message>)
    requires Distinct(Ids(list)) && Distinct(Ids(page))
    ensures Grown(Ids(list), Ids(Prepend(list, page)))
  {
    var front := Filter(Unseen(list), page);
    FilteredIds(Unseen(list), page);
    IdsAppend(front, list);
    var f, ids := Ids(front), Ids(list);
    assert Ids(Prepend(list, page)) == f + ids + [];
    forall i, j | 0 <= i < j < |f + ids| ensures (f + ids)[i] != (f + ids)[j] {
      if i < |f| <= j {
        assert f[i] in f && ids[j - |f|] in ids;
      }
    }
  }

  lemma StepGrows(list: seq<Message>, step: Step)
    requires Distinct(Ids(list)) && (step.Older? ==> Distinct(Ids(step.page)))
    ensures Grown(Ids(list), Ids(Apply(list, step)))
  {
    match step
    case Socket(m) => UpsertGrows(list, m);
    case Sent(m) => UpsertGrows(list, m);
    case Poll(page) => UpsertAllGrows(list, page);
    case Older(page) => PrependGrows(list, page);
    case Read(id, userId) =>
      MarkReadIds(list, id, userId);
      assert Ids(list) == [] + Ids(list) + [];
  }

  /** Whatever arrives over the socket, by polling, by sending or from older pages, in any order:
      identifiers stay unique, and all that was held stays, side by side and in its order. */
  lemma {:induction false} NothingLost(list: seq<Message>, steps: seq<Step>)
    requires Distinct(Ids(list)) && PagesDistinct(steps)
    ensures Grown(Ids(list), Ids(Run(list, steps)))
    decreases |steps|
  {
    if steps == [] {
      assert Ids(list) == [] + Ids(list) + [];
    } else {
      var next := Apply(list, steps[0]);
      StepGrows(list, steps[0]);
      assert PagesDistinct(steps[1..]);
      NothingLost(next, steps[1..]);
      GrownChain(Ids(list), Ids(next), Ids(Run(list, steps)));
    }
  }

  // ----- walking back to the beginning -----------------------------------------------------

  predicate Ascending(conversation: seq<Row>) {
    forall i, j :: 0 <= i < j < |conversation| ==> conversation[i].createdAt <= conversation[j].createdAt
  }

  predicate TimesDiffer(conversation: seq<Row>) {
    forall i, j :: 0 <= i < j < |conversation| ==> conversation[i].createdAt < conversation[j].createdAt
  }

  predicate IdsDiffer(conversation: seq<Row>) {
    forall i, j :: 0 <= i < j < |conversation| ==> conversation[i].id != conversation[j].id
  }

  /** How many messages are older than a cursor. */
  function OlderCount(conversation: seq<Row>, before: int): (n: nat)
    ensures n <= |conversation|
    ensures forall i :: 0 <= i < n ==> conversation[i].createdAt < before
    ensures n < |conversation| ==> conversation[n].createdAt >= before
  {
    if conversation == [] || conversation[0].createdAt >= before then 0 else 1 + OlderCount(conversation[1..], before)
  }

  lemma OlderRows(conversation: seq<Row>, before: int)
    requires Ascending(conversation)
    ensures Filter(OlderThan(Some(before)), conversation) == conversation[..OlderCount(conversation, before)]
  {
    var n := OlderCount(conversation, before);
    var p := OlderThan(Some(before));
    assert conversation == conversation[..n] + conversation[n..];
    FilterAppend(p, conversation[..n], conversation[n..]);
    FilterAll(p, conversation[..n]);
    FilterNone(p, conversation[n..]);
  }

  /** Where a page of a given size before index `end` begins. */
  function PageStart(end: nat, size: nat): (start: nat)
    ensures start <= end
  {
    if end < size then 0 else end - size
  }

  function Load(conversation: seq<Row>, receipts: seq<Receipt>, held: seq<Message>, size: nat): (seq<Message>, bool) {
    if held == [] then ([], false)
    else
      var page := PageOf(conversation, receipts, Some(held[0].createdAt), size);
      (Prepend(held, page.messages), page.hasMore)
  }

  lemma ShownSlice(receipts: seq<Receipt>, conversation: seq<Row>, i: nat, j: nat, k: nat)
    requires i <= j <= k <= |conversation|
    ensures ShownAll(receipts, conversation[i..j]) + ShownAll(receipts, conversation[j..k])
            == ShownAll(receipts, conversation[i..k])
  {
    var all := ShownAll(receipts, conversation[i..k]);
    var parts := ShownAll(receipts, conversation[i..j]) + ShownAll(receipts, conversation[j..k]);
    assert |all| == |parts|;
    forall n | 0 <= n < |all| ensures all[n] == parts[n] {
    }
  }

  /** The rows of an older page share no identifier with the rows held. */
  lemma NoneSeen(receipts: seq<Receipt>, conversation: seq<Row>, i: nat, j: nat, k: nat)
    requires IdsDiffer(conversation) && i <= j <= k <= |conversation|
    ensures var held := ShownAll(receipts, conversation[k..]);
            Prepend(held, ShownAll(receipts, conversation[i..j])) == ShownAll(receipts, conversation[i..j]) + held
  {
    var held, older := ShownAll(receipts, conversation[k..]), ShownAll(receipts, conversation[i..j]);
    forall n | 0 <= n < |older| ensures Unseen(held)(older[n]) {
      assert older[n].id == conversation[i + n].id;
      forall m | 0 <= m < |held| ensures Ids(held)[m] != older[n].id {
        assert held[m].id == conversation[k + m].id;
      }
    }
    FilterAll(Unseen(held), older);
  }

  /** One step back from a suffix of the conversation: what is loaded ends at the last message that is
      strictly older than the oldest held. */
  lemma LoadStep(conversation: seq<Row>, receipts: seq<Receipt>, k: nat, size: nat)
    requires Ascending(conversation) && IdsDiffer(conversation) && k < |conversation| && size > 0
    ensures var end := OlderCount(conversation, conversation[k].createdAt);
            var start := PageStart(end, size);
            && end <= k
            && Load(conversation, receipts, ShownAll(receipts, conversation[k..]), size)
               == (ShownAll(receipts, conversation[start..end]) + ShownAll(receipts, conversation[k..]), end >= size)
  {
    hide *;
    var before := conversation[k].createdAt;
    var end := OlderCount(conversation, before);
    OlderEnds(conversation, k);
    OlderRows(conversation, before);
    LastUpTo(conversation, end, size);
    NoneSeen(receipts, conversation, PageStart(end, size), end, k);
    LoadReads(conversation, receipts, ShownAll(receipts, conversation[k..]), size);
    assert ShownAll(receipts, conversation[k..])[0] == Shown(receipts, conversation[k]);
    ShownReads(receipts, conversation[k]);
  }

  lemma OlderEnds(conversation: seq<Row>, k: nat)
    requires Ascending(conversation) && k < |conversation|
    ensures OlderCount(conversation, conversation[k].createdAt) <= k
  {
  }

  lemma LastUpTo(conversation: seq<Row>, end: nat, size: nat)
    requires end <= |conversation| && size > 0
    ensures Last(size, conversation[..end]) == conversation[PageStart(end, size)..end]
    ensures end - PageStart(end, size) == size <==> end >= size
  {
  }

  lemma LoadReads(conversation: seq<Row>, receipts: seq<Receipt>, held: seq<Message>, size: nat)
    requires held != []
    ensures var rows := Last(size, Filter(OlderThan(Some(held[0].createdAt)), conversation));
            Load(conversation, receipts, held, size) == (Prepend(held, ShownAll(receipts, rows)), |rows| == size)
  {
    hide Filter, Last, Prepend, ShownAll;
  }

  lemma Joined(receipts: seq<Receipt>, conversation: seq<Row>, start: nat, k: nat)
    requires start <= k <= |conversation|
    ensures ShownAll(receipts, conversation[start..k]) + ShownAll(receipts, conversation[k..])
            == ShownAll(receipts, conversation[start..])
  {
    ShownSlice(receipts, conversation, start, k, |conversation|);
    assert conversation[k..|conversation|] == conversation[k..] &&
           conversation[start..|conversation|] == conversation[start..];
  }

  lemma ShownEnd(receipts: seq<Receipt>, conversation: seq<Row>, i: nat, j: nat)
    requires i <= j <= |conversation|
    ensures var shown := ShownAll(receipts, conversation[i..j]);
            && (i == j <==> shown == [])
            && (i < j ==> shown[|shown| - 1].id == conversation[j - 1].id)
  {
    if i < j {
      assert conversation[i..j][j - 1 - i] == conversation[j - 1];
    }
  }

  lemma OtherId(conversation: seq<Row>, j: nat, k: nat)
    requires IdsDiffer(conversation) && j < k < |conversation|
    ensures conversation[j].id != conversation[k].id
  {
  }

  /** Two runs of messages before the same rest differ when they end at different messages. */
  lemma EndsApart(receipts: seq<Receipt>, conversation: seq<Row>, i: nat, j: nat, start: nat, k: nat)
    requires IdsDiffer(conversation) && i <= j < k <= |conversation| && start < k
    ensures ShownAll(receipts, conversation[i..j]) != ShownAll(receipts, conversation[start..k])
  {
    hide *;
    ShownEnd(receipts, conversation, i, j);
    ShownEnd(receipts, conversation, start, k);
    if i < j {
      OtherId(conversation, j - 1, k - 1);
    }
  }

  lemma SameTail<T>(a: seq<T>, b: seq<T>, tail: seq<T>)
    ensures a + tail == b + tail <==> a == b
  {
    if a + tail == b + tail {
      assert |a| == |b|;
      assert a == (a + tail)[..|a|] && b == (b + tail)[..|b|];
    }
  }

  /** A step back loads exactly the page before what is held if and only if no message just before it
      bears the time of the oldest held. */
  lemma NoGapIff(conversation: seq<Row>, receipts: seq<Receipt>, k: nat, size: nat)
    requires Ascending(conversation) && IdsDiffer(conversation) && 0 < k < |conversation| && size > 0
    ensures Load(conversation, receipts, ShownAll(receipts, conversation[k..]), size).0
            == ShownAll(receipts, conversation[PageStart(k, size)..])
            <==> conversation[k - 1].createdAt < conversation[k].createdAt
  {
    var end := OlderCount(conversation, conversation[k].createdAt);
    var start := PageStart(end, size);
    TieEnds(conversation, k);
    hide *;
    LoadStep(conversation, receipts, k, size);
    PageBefore(k, size);
    Joined(receipts, conversation, PageStart(k, size), k);
    SameTail(ShownAll(receipts, conversation[start..end]), ShownAll(receipts, conversation[PageStart(k, size)..k]),
             ShownAll(receipts, conversation[k..]));
    if end < k {
      EndsApart(receipts, conversation, start, end, PageStart(k, size), k);
    }
  }

  lemma PageBefore(k: nat, size: nat)
    requires 0 < k && 0 < size
    ensures PageStart(k, size) < k
  {
  }

  lemma TieEnds(conversation: seq<Row>, k: nat)
    requires Ascending(conversation) && 0 < k < |conversation|
    ensures OlderCount(conversation, conversation[k].createdAt) == k
            <==> conversation[k - 1].createdAt < conversation[k].createdAt
    ensures OlderCount(conversation, conversation[k].createdAt) <= k
  {
  }

  /** The list after the first page and `n` steps back, and whether more is said to be left. */
  function Walk(conversation: seq<Row>, receipts: seq<Receipt>, size: nat, n: nat): (seq<Message>, bool) {
    if n == 0 then
      var page := PageOf(conversation, receipts, None, size);
      (page.messages, page.hasMore)
    else Load(conversation, receipts, Walk(conversation, receipts, size, n - 1).0, size)
  }

  lemma OlderOfDistinct(conversation: seq<Row>, k: nat)
    requires TimesDiffer(conversation) && k < |conversation|
    ensures OlderCount(conversation, conversation[k].createdAt) == k
  {
    forall i | 0 <= i < k ensures conversation[i].createdAt < conversation[k].createdAt {
    }
  }

  /** Where `n` steps back end. */
  function Reached(length: nat, size: nat, n: nat): (k: nat)
    ensures k <= length
    ensures length > 0 && size > 0 ==> k < length
  {
    if n == 0 then PageStart(length, size) else PageStart(Reached(length, size, n - 1), size)
  }

  /** With distinct times every walk holds an unbroken end of the conversation, in ascending order, and
      is told that more is left exactly while its last page was full. */
  lemma {:induction false} WalkExact(conversation: seq<Row>, receipts: seq<Receipt>, size: nat, n: nat)
    requires TimesDiffer(conversation) && IdsDiffer(conversation) && size > 0
    ensures var (held, more) := Walk(conversation, receipts, size, n);
            && held == ShownAll(receipts, conversation[Reached(|conversation|, size, n)..])
            && (more <==> (if n == 0 then |conversation| else Reached(|conversation|, size, n - 1)) >= size)
  {
    hide *;
    if n == 0 {
      FirstPage(conversation, receipts, size);
    } else {
      WalkExact(conversation, receipts, size, n - 1);
      WalkUnfolds(conversation, receipts, size, n);
      LoadExact(conversation, receipts, size, Reached(|conversation|, size, n - 1));
    }
  }

  lemma LoadExact(conversation: seq<Row>, receipts: seq<Receipt>, size: nat, k: nat)
    requires TimesDiffer(conversation) && IdsDiffer(conversation) && size > 0
    requires k <= |conversation| && (conversation != [] ==> k < |conversation|)
    ensures Load(conversation, receipts, ShownAll(receipts, conversation[k..]), size)
         == (ShownAll(receipts, conversation[PageStart(k, size)..]), k >= size)
  {
    if conversation != [] {
      hide *;
      OlderOfDistinct(conversation, k);
      DistinctAscend(conversation);
      LoadStep(conversation, receipts, k, size);
      Joined(receipts, conversation, PageStart(k, size), k);
    }
  }

  lemma DistinctAscend(conversation: seq<Row>)
    requires TimesDiffer(conversation)
    ensures Ascending(conversation)
  {
  }

  lemma FirstPage(conversation: seq<Row>, receipts: seq<Receipt>, size: nat)
    ensures Walk(conversation, receipts, size, 0)
         == (ShownAll(receipts, conversation[Reached(|conversation|, size, 0)..]), |conversation| >= size)
  {
    FilterAll(OlderThan(None), conversation);
    hide ShownAll;
    assert conversation[0..] == conversation;
  }

  lemma WalkUnfolds(conversation: seq<Row>, receipts: seq<Receipt>, size: nat, n: nat)
    requires n > 0
    ensures Walk(conversation, receipts, size, n)
            == Load(conversation, receipts, Walk(conversation, receipts, size, n - 1).0, size)
    ensures Reached(|conversation|, size, n) == PageStart(Reached(|conversation|, size, n - 1), size)
  {
  }

  lemma {:induction false} ReachedIs(length: nat, size: nat, n: nat)
    requires size > 0
    ensures Reached(length, size, n) == PageStart(length, (n + 1) * size)
  {
    if n > 0 {
      ReachedIs(length, size, n - 1);
      assert (n + 1) * size == n * size + size;
      StartOfStart(length, n * size, size);
      hide PageStart;
    }
  }

  lemma StartOfStart(length: nat, a: nat, b: nat)
    ensures PageStart(PageStart(length, a), b) == PageStart(length, a + b)
  {
  }

  /** Once no more is said to be left, the whole conversation is held; and that comes about within as
      many steps as the conversation has pages. */
  lemma WalkEnds(conversation: seq<Row>, receipts: seq<Receipt>, size: nat, n: nat)
    requires TimesDiffer(conversation) && IdsDiffer(conversation) && size > 0
    ensures !Walk(conversation, receipts, size, n).1 ==>
              Walk(conversation, receipts, size, n).0 == ShownAll(receipts, conversation)
    ensures n * size > |conversation| - size ==> !Walk(conversation, receipts, size, n).1
  {
    hide *;
    WalkExact(conversation, receipts, size, n);
    ReachedEnd(|conversation|, size, n);
    assert conversation[0..] == conversation;
  }

  lemma ReachedEnd(length: nat, size: nat, n: nat)
    requires size > 0
    ensures var end := if n == 0 then length else Reached(length, size, n - 1);
            && (end < size ==> Reached(length, size, n) == 0)
            && (n * size > length - size ==> end < size)
  {
    if n > 0 {
      ReachedIs(length, size, n - 1);
      assert (n - 1 + 1) * size == n * size;
    }
  }

  // ----- the polling fallback ------------------------------------------------------------------

  function RowIds(rows: seq<Row>): (ids: seq<string>)
    ensures |ids| == |rows|
    ensures forall i :: 0 <= i < |rows| ==> ids[i] == rows[i].id
  {
    if rows == [] then [] else [rows[0].id] + RowIds(rows[1..])
  }

  lemma RowIdsSlice(rows: seq<Row>, i: nat, j: nat)
    requires i <= j <= |rows|
    ensures RowIds(rows[i..j]) == RowIds(rows)[i..j]
  {
  }

  lemma ShownIds(receipts: seq<Receipt>, rows: seq<Row>)
    ensures Ids(ShownAll(receipts, rows)) == RowIds(rows)
  {
  }

  /** The identifiers of a page that are new, in order, once each. */
  function NewIds(held: seq<string>, page: seq<string>): seq<string>
    decreases |page|
  {
    if page == [] then []
    else if page[0] in held then NewIds(held, page[1..])
    else [page[0]] + NewIds(held + [page[0]], page[1..])
  }

  lemma UpsertAllStep(list: seq<Message>, page: seq<Message>)
    requires page != []
    ensures UpsertAll(list, page) == UpsertAll(Upsert(list, page[0]), page[1..])
    ensures Ids(page) == [page[0].id] + Ids(page[1..])
  {
  }

  lemma NewIdsStep(held: seq<string>, id: string, rest: seq<string>)
    ensures NewIds(held, [id] + rest) == if id in held then NewIds(held, rest) else [id] + NewIds(held + [id], rest)
  {
    assert ([id] + rest)[1..] == rest;
  }

  lemma {:induction false} PolledIds(list: seq<Message>, page: seq<Message>)
    ensures Ids(UpsertAll(list, page)) == Ids(list) + NewIds(Ids(list), Ids(page))
    decreases |page|
  {
    if page != [] {
      hide *;
      var id := page[0].id;
      UpsertAllStep(list, page);
      UpsertIds(list, page[0]);
      PolledIds(Upsert(list, page[0]), page[1..]);
      NewIdsStep(Ids(list), id, Ids(page[1..]));
      Associative(Ids(list), [id], NewIds(Ids(list) + [id], Ids(page[1..])));
    }
  }

  function NotIn(held: seq<string>): string -> bool { (id: string) => id !in held }

  lemma {:induction false} FilterSame<T>(p: T -> bool, q: T -> bool, s: seq<T>)
    requires forall x :: x in s ==> p(x) == q(x)
    ensures Filter(p, s) == Filter(q, s)
  {
    if s != [] {
      FilterSame(p, q, s[1..]);
    }
  }

  lemma {:induction false} NewIdsFilter(held: seq<string>, page: seq<string>)
    requires Distinct(page)
    ensures NewIds(held, page) == Filter(NotIn(held), page)
    decreases |page|
  {
    if page != [] {
      assert Distinct(page[1..]);
      if page[0] in held {
        NewIdsFilter(held, page[1..]);
      } else {
        NewIdsFilter(held + [page[0]], page[1..]);
        FilterSame(NotIn(held), NotIn(held + [page[0]]), page[1..]);
      }
    }
  }

  lemma Apart(ids: seq<string>, p: nat, q: nat, i: nat, j: nat)
    requires Distinct(ids) && p <= q <= |ids| && i <= j <= |ids| && (j <= p || q <= i)
    ensures Filter(NotIn(ids[p..q]), ids[i..j]) == ids[i..j]
  {
    FilterAll(NotIn(ids[p..q]), ids[i..j]);
  }

  lemma Within(ids: seq<string>, p: nat, q: nat, i: nat)
    requires p <= i <= q <= |ids|
    ensures Filter(NotIn(ids[p..q]), ids[i..q]) == []
  {
    forall n | 0 <= n < |ids[i..q]| ensures ids[i..q][n] in ids[p..q] {
      assert ids[i..q][n] == ids[p..q][n + (i - p)];
    }
    FilterNone(NotIn(ids[p..q]), ids[i..q]);
  }

  /** What a page adds to identifiers that stand side by side in the conversation. */
  lemma AddedTo(ids: seq<string>, p: nat, q: nat, start: nat)
    requires Distinct(ids) && p <= q <= |ids| && start <= |ids|
    ensures Filter(NotIn(ids[p..q]), ids[start..])
         == (if start < p then ids[start..p] else []) + ids[if start < q then q else start..]
  {
    hide Filter, Distinct;
    var fits, n := NotIn(ids[p..q]), |ids|;
    if q <= start {
      Apart(ids, p, q, start, n);
      assert ids[start..n] == ids[start..];
    } else {
      var middle := if start < p then p else start;
      Apart(ids, p, q, q, n);
      Within(ids, p, q, middle);
      assert ids[start..] == ids[start..middle] + (ids[middle..q] + ids[q..n]);
      FilterAppend(fits, ids[start..middle], ids[middle..q] + ids[q..n]);
      FilterAppend(fits, ids[middle..q], ids[q..n]);
      if start < p {
        Apart(ids, p, q, start, p);
      } else {
        FilterNone(fits, []);
      }
    }
  }

  lemma EndStarts(ids: seq<string>, held: seq<string>, added: seq<string>, p: nat, j: nat)
    requires Distinct(ids) && held != [] && p < |ids| && ids[p] == held[0]
    requires j <= |ids| && held + added == ids[j..]
    ensures j == p && p + |held| <= |ids| && ids[p..p + |held|] == held && added == ids[p + |held|..]
  {
    assert ids[j] == (held + added)[0];
    assert held == (held + added)[..|held|];
    assert added == (held + added)[|held|..];
  }

  lemma AddedIff(ids: seq<string>, p: nat, q: nat, start: nat)
    requires Distinct(ids) && p < q <= |ids| && start <= |ids|
    ensures Filter(NotIn(ids[p..q]), ids[start..]) == ids[q..] <==> p <= start <= q
  {
    AddedTo(ids, p, q, start);
    hide *;
    if start < p {
      assert |ids[start..p] + ids[q..]| != |ids[q..]|;
    } else {
      assert [] + ids[if start < q then q else start..] == ids[if start < q then q else start..];
    }
  }

  /** Identifiers followed by what a page adds to them are an end of the conversation exactly when they
      stand side by side, the page reaches back to them, and it does not reach beyond them. */
  lemma EndIff(ids: seq<string>, held: seq<string>, p: nat, start: nat)
    requires Distinct(ids) && held != [] && p < |ids| && ids[p] == held[0] && start <= |ids|
    ensures (exists j :: 0 <= j <= |ids| && held + Filter(NotIn(held), ids[start..]) == ids[j..])
            <==> p + |held| <= |ids| && ids[p..p + |held|] == held && p <= start <= p + |held|
  {
    hide *;
    var added := Filter(NotIn(held), ids[start..]);
    var q := p + |held|;
    if q <= |ids| && ids[p..q] == held {
      AddedIff(ids, p, q, start);
      assert held + ids[q..] == ids[p..];
    }
    if j :| 0 <= j <= |ids| && held + added == ids[j..] {
      EndStarts(ids, held, added, p, j);
    }
  }

  // Messages that have come since, wherever their times place them.

  function Among(rows: seq<Row>): Row -> bool { (r: Row) => r in rows }

  function NewerThan(time: int): Row -> bool { (r: Row) => r.createdAt > time }

  /** No row that has come since is dated after the oldest held and not after the newest. */
  predicate NoneBetween(before: seq<Row>, now: seq<Row>, oldest: int, newest: int) {
    forall r :: r in now && r !in before && r.createdAt > oldest ==> r.createdAt > newest
  }

  /** What a poll can count on, as far as the times tell: of the messages that have come none falls between
      those held, at most a page of them is newer, and the page reaches back to nothing older. */
  predicate StaysEnd(before: seq<Row>, now: seq<Row>, k: nat, size: nat)
    requires k < |before|
  {
    var oldest, newest := before[k].createdAt, before[|before| - 1].createdAt;
    && NoneBetween(before, now, oldest, newest)
    && |Filter(NewerThan(newest), now)| <= size
    && (OlderCount(now, oldest) == 0 || |now| - OlderCount(now, oldest) >= size)
  }

  lemma Polled(now: seq<Row>, receipts: seq<Receipt>, size: nat)
    ensures PageOf(now, receipts, None, size).messages == ShownAll(receipts, Last(size, now))
  {
    FilterAll(OlderThan(None), now);
  }

  lemma LastIds(rows: seq<Row>, size: nat)
    requires size > 0
    ensures RowIds(Last(size, rows)) == RowIds(rows)[PageStart(|rows|, size)..]
  {
    RowIdsSlice(rows, PageStart(|rows|, size), |rows|);
    hide RowIds;
    assert rows[..|rows|] == rows;
    assert RowIds(rows)[..|rows|] == RowIds(rows);
    LastUpTo(rows, |rows|, size);
  }

  lemma IdsDistinct(rows: seq<Row>)
    requires IdsDiffer(rows)
    ensures Distinct(RowIds(rows))
  {
  }

  /** The identifiers after a poll: those held, then those of the newest page that are new. */
  lemma PolledAre(rows: seq<Row>, now: seq<Row>, receipts: seq<Receipt>, later: seq<Receipt>, size: nat)
    requires IdsDiffer(now) && size > 0
    ensures Ids(UpsertAll(ShownAll(receipts, rows), PageOf(now, later, None, size).messages))
         == RowIds(rows) + Filter(NotIn(RowIds(rows)), RowIds(now)[PageStart(|now|, size)..])
  {
    hide *;
    var page := Last(size, now);
    Polled(now, later, size);
    ShownIds(receipts, rows);
    ShownIds(later, page);
    PolledIds(ShownAll(receipts, rows), ShownAll(later, page));
    LastIds(now, size);
    IdsDistinct(now);
    DistinctFrom(RowIds(now), PageStart(|now|, size));
    NewIdsFilter(RowIds(rows), RowIds(page));
  }

  lemma DistinctFrom(ids: seq<string>, start: nat)
    requires Distinct(ids) && start <= |ids|
    ensures Distinct(ids[start..])
  {
  }

  /** After a poll the list is an unbroken end of the conversation if and only if the messages held stand
      side by side in it, at most a page of messages follows them, and the page does not reach beyond them
      unless they are the whole beginning. This needs no order of times. */
  lemma PollPlaced(rows: seq<Row>, now: seq<Row>, receipts: seq<Receipt>, later: seq<Receipt>, p: nat, size: nat)
    requires IdsDiffer(now) && size > 0 && rows != [] && p < |now| && now[p].id == rows[0].id
    ensures (exists j :: 0 <= j <= |now|
               && Ids(UpsertAll(ShownAll(receipts, rows), PageOf(now, later, None, size).messages)) == RowIds(now)[j..])
            <==> && p + |rows| <= |now| && RowIds(now)[p..p + |rows|] == RowIds(rows)
                 && |now| - (p + |rows|) <= size && (p == 0 || |now| - p >= size)
  {
    hide *;
    PolledAre(rows, now, receipts, later, size);
    IdsDistinct(now);
    StartFits(|now|, size, p, p + |rows|);
    EndIff(RowIds(now), RowIds(rows), p, PageStart(|now|, size));
  }

  lemma StartFits(length: nat, size: nat, p: nat, q: nat)
    requires size > 0 && p < length
    ensures PageStart(length, size) <= q <==> length - q <= size
    ensures p <= PageStart(length, size) <==> p == 0 || length - p >= size
  {
  }

  lemma {:induction false} Suborder(p: Row -> bool, rows: seq<Row>)
    requires TimesDiffer(rows)
    ensures TimesDiffer(Filter(p, rows))
  {
    if rows != [] {
      Suborder(p, rows[1..]);
      var rest := Filter(p, rows[1..]);
      forall i | 0 <= i < |rest| ensures rest[i].createdAt > rows[0].createdAt {
        assert rest[i] in rows[1..];
      }
    }
  }

  lemma StandsAt(now: seq<Row>, r: Row) returns (p: nat)
    requires TimesDiffer(now) && r in now
    ensures p < |now| && now[p] == r && p == OlderCount(now, r.createdAt)
  {
    p :| 0 <= p < |now| && now[p] == r;
    OlderOfDistinct(now, p);
  }

  lemma NewerRows(now: seq<Row>, q: nat)
    requires TimesDiffer(now) && q < |now|
    ensures Filter(NewerThan(now[q].createdAt), now) == now[q + 1..]
  {
    FilterCut(NewerThan(now[q].createdAt), now, q + 1);
  }

  lemma Inner(rows: seq<Row>, front: seq<Row>, middle: seq<Row>, back: seq<Row>, k: nat)
    requires TimesDiffer(rows) && rows == front + middle + back && middle != [] && k < |rows|
    requires middle[0] == rows[k] && middle[|middle| - 1] == rows[|rows| - 1]
    ensures middle == rows[k..]
  {
    assert rows[|front|] == middle[0];
    assert rows[|front| + |middle| - 1] == middle[|middle| - 1];
  }

  lemma AllAmong(before: seq<Row>, now: seq<Row>, p: nat, q: nat)
    requires p <= q < |now| && forall i :: p <= i <= q ==> now[i] in before
    ensures Filter(Among(before), now[p..q + 1]) == now[p..q + 1]
  {
    FilterAll(Among(before), now[p..q + 1]);
  }

  lemma SliceEdges(rows: seq<Row>, p: nat, q: nat)
    requires p <= q < |rows|
    ensures var middle := rows[p..q + 1];
            middle != [] && middle[0] == rows[p] && middle[|middle| - 1] == rows[q]
  {
  }

  /** Nothing but what is held between the oldest and the newest held: they stand side by side. */
  lemma SideBySide(before: seq<Row>, now: seq<Row>, k: nat, p: nat, q: nat)
    requires TimesDiffer(now) && Filter(Among(before), now) == before && k < |before| && p <= q < |now|
    requires now[p] == before[k] && now[q] == before[|before| - 1]
    requires Filter(Among(before), now[p..q + 1]) == now[p..q + 1]
    ensures now[p..q + 1] == before[k..]
  {
    hide *;
    var among := Among(before);
    var front, middle, back := Filter(among, now[..p]), now[p..q + 1], Filter(among, now[q + 1..]);
    Suborder(among, now);
    SplitAround(among, now, p, q + 1);
    SliceEdges(now, p, q);
    Inner(before, front, middle, back, k);
  }

  lemma Slices<T>(s: seq<T>, i: nat, j: nat)
    requires i <= j <= |s|
    ensures s == s[..j] + s[j..] && s[..j] == s[..i] + s[i..j]
  {
  }

  lemma SplitAround<T>(p: T -> bool, s: seq<T>, i: nat, j: nat)
    requires i <= j <= |s|
    ensures Filter(p, s) == Filter(p, s[..i]) + Filter(p, s[i..j]) + Filter(p, s[j..])
  {
    hide *;
    Slices(s, i, j);
    FilterAppend(p, s[..j], s[j..]);
    FilterAppend(p, s[..i], s[i..j]);
  }

  lemma SameId(now: seq<Row>, r: Row, x: Row)
    requires IdsDiffer(now) && r in now && x in now && r.id == x.id
    ensures r == x
  {
  }

  lemma SameRows(before: seq<Row>, now: seq<Row>, k: nat, p: nat, end: nat)
    requires IdsDiffer(now) && k < |before| && p <= end <= |now| && (forall r :: r in before ==> r in now)
    requires RowIds(now)[p..end] == RowIds(before[k..])
    ensures now[p..end] == before[k..]
  {
    RowIdsSlice(now, p, end);
    hide RowIds, IdsDiffer;
    var slice, held := now[p..end], before[k..];
    forall i | 0 <= i < |slice| ensures slice[i] == held[i] {
      assert RowIds(slice)[i] == RowIds(held)[i];
      assert held[i] in before && slice[i] in now;
      SameId(now, slice[i], held[i]);
    }
  }

  lemma SliceIn(before: seq<Row>, now: seq<Row>, k: nat, p: nat, q: nat)
    requires k < |before| && p <= q < |now| && now[p..q + 1] == before[k..]
    ensures forall i :: p <= i <= q ==> now[i] in before
  {
    forall i | p <= i <= q ensures now[i] in before {
      assert now[i] == now[p..q + 1][i - p] == before[k..][i - p];
    }
  }

  lemma NoneBetweenIff(before: seq<Row>, now: seq<Row>, p: nat, q: nat)
    requires TimesDiffer(now) && p <= q < |now| && now[p] in before
    ensures NoneBetween(before, now, now[p].createdAt, now[q].createdAt)
            <==> forall i :: p <= i <= q ==> now[i] in before
  {
    if NoneBetween(before, now, now[p].createdAt, now[q].createdAt) {
      forall i | p < i <= q ensures now[i] in before {
        assert now[i] in now;
      }
    }
  }

  lemma InOrder(before: seq<Row>, now: seq<Row>, k: nat, p: nat, q: nat)
    requires TimesDiffer(now) && TimesDiffer(before) && k < |before| && p < |now| && q < |now|
    requires now[p] == before[k] && now[q] == before[|before| - 1]
    ensures p <= q
  {
  }

  lemma LastPlace(now: seq<Row>, q: nat, end: nat)
    requires TimesDiffer(now) && q < |now| && 0 < end <= |now| && now[end - 1] == now[q]
    ensures end == q + 1
  {
  }

  lemma SliceEnds(before: seq<Row>, now: seq<Row>, k: nat, p: nat, q: nat)
    requires k < |before| && p <= q < |now| && now[p..q + 1] == before[k..]
    ensures q + 1 == p + |before| - k
  {
    assert |now[p..q + 1]| == |before[k..]|;
  }

  lemma EndRow(before: seq<Row>, now: seq<Row>, k: nat, p: nat, end: nat)
    requires k < |before| && p < end <= |now| && now[p..end] == before[k..]
    ensures now[end - 1] == before[|before| - 1]
  {
    assert now[end - 1] == now[p..end][|now[p..end]| - 1];
  }

  lemma HeldThen(before: seq<Row>, now: seq<Row>, k: nat, p: nat, q: nat, end: nat)
    requires TimesDiffer(now) && IdsDiffer(now) && (forall r :: r in before ==> r in now)
    requires k < |before| && p <= q < |now| && now[p] == before[k] && now[q] == before[|before| - 1]
    requires end == p + |before| - k && end <= |now| && RowIds(now)[p..end] == RowIds(before[k..])
    ensures q + 1 == end && NoneBetween(before, now, now[p].createdAt, now[q].createdAt)
  {
    hide *;
    SameRows(before, now, k, p, end);
    EndRow(before, now, k, p, end);
    LastPlace(now, q, end);
    SliceIn(before, now, k, p, q);
    NoneBetweenIff(before, now, p, q);
  }

  lemma NoneThen(before: seq<Row>, now: seq<Row>, k: nat, p: nat, q: nat)
    requires TimesDiffer(now) && Filter(Among(before), now) == before && k < |before| && p <= q < |now|
    requires now[p] == before[k] && now[q] == before[|before| - 1]
    requires NoneBetween(before, now, now[p].createdAt, now[q].createdAt)
    ensures q + 1 == p + |before| - k && RowIds(now)[p..q + 1] == RowIds(before[k..])
  {
    hide *;
    NoneBetweenIff(before, now, p, q);
    AllAmong(before, now, p, q);
    SideBySide(before, now, k, p, q);
    RowIdsSlice(now, p, q + 1);
    SliceEnds(before, now, k, p, q);
  }

  /** Messages held stand side by side exactly when no arrival falls between them by its time. */
  lemma UnbrokenIff(before: seq<Row>, now: seq<Row>, k: nat, p: nat, q: nat)
    requires TimesDiffer(now) && IdsDiffer(now) && Filter(Among(before), now) == before && k < |before|
    requires p < |now| && q < |now| && now[p] == before[k] && now[q] == before[|before| - 1]
    ensures var end := p + |before| - k;
            && (NoneBetween(before, now, now[p].createdAt, now[q].createdAt)
                <==> end <= |now| && RowIds(now)[p..end] == RowIds(before[k..]))
            && (end <= |now| && RowIds(now)[p..end] == RowIds(before[k..]) ==> q + 1 == end)
  {
    hide *;
    var end := p + |before| - k;
    FilterMembers(before, now);
    Suborder(Among(before), now);
    InOrder(before, now, k, p, q);
    if end <= |now| && RowIds(now)[p..end] == RowIds(before[k..]) {
      HeldThen(before, now, k, p, q, end);
    }
    if NoneBetween(before, now, now[p].createdAt, now[q].createdAt) {
      NoneThen(before, now, k, p, q);
    }
  }

  /** A conversation grows anywhere. After a poll the list is still an unbroken end of it if and only if
      nothing was held, or no arrival is dated between the messages held, no more than a page of messages
      is dated after them, and the page does not reach beyond them to older ones. */
  lemma PollIff(before: seq<Row>, now: seq<Row>, receipts: seq<Receipt>, later: seq<Receipt>, k: nat, size: nat)
    requires TimesDiffer(now) && IdsDiffer(now) && Filter(Among(before), now) == before
    requires k <= |before| && size > 0
    ensures (exists j :: 0 <= j <= |now|
               && Ids(UpsertAll(ShownAll(receipts, before[k..]), PageOf(now, later, None, size).messages))
                  == RowIds(now)[j..])
            <==> k == |before| || StaysEnd(before, now, k, size)
  {
    hide *;
    if k == |before| {
      PolledAre(before[k..], now, receipts, later, size);
      NothingHeld(before[k..], RowIds(now)[PageStart(|now|, size)..]);
    } else {
      FilterMembers(before, now);
      var p := StandsAt(now, before[k]);
      var q := StandsAt(now, before[|before| - 1]);
      UnbrokenIff(before, now, k, p, q);
      NewerRows(now, q);
      StaysReads(before, now, k, size);
      PollPlaced(before[k..], now, receipts, later, p, size);
    }
  }

  lemma FilterMembers(before: seq<Row>, now: seq<Row>)
    requires Filter(Among(before), now) == before
    ensures forall r :: r in before ==> r in now
  {
  }

  lemma NothingHeld(rows: seq<Row>, page: seq<string>)
    requires rows == []
    ensures RowIds(rows) + Filter(NotIn(RowIds(rows)), page) == page
  {
    FilterAll(NotIn([]), page);
  }

  lemma StaysReads(before: seq<Row>, now: seq<Row>, k: nat, size: nat)
    requires k < |before|
    ensures StaysEnd(before, now, k, size)
        <==> && NoneBetween(before, now, before[k].createdAt, before[|before| - 1].createdAt)
             && |Filter(NewerThan(before[|before| - 1].createdAt), now)| <= size
             && (OlderCount(now, before[k].createdAt) == 0 || |now| - OlderCount(now, before[k].createdAt) >= size)
  {
  }

  /** Messages that all come after those held: the list stays an unbroken end of the conversation exactly
      when no more of them have come than a poll returns. */
  lemma PollAppended(before: seq<Row>, arrived: seq<Row>, receipts: seq<Receipt>, later: seq<Receipt>, k: nat,
                     size: nat)
    requires IdsDiffer(before + arrived) && k < |before| && (k == 0 || |before| - k >= size) && size > 0
    ensures (exists j :: 0 <= j <= |before + arrived|
               && Ids(UpsertAll(ShownAll(receipts, before[k..]), PageOf(before + arrived, later, None, size).messages))
                  == RowIds(before + arrived)[j..])
            <==> |arrived| <= size
  {
    hide *;
    var now := before + arrived;
    PollPlaced(before[k..], now, receipts, later, k, size);
    RowIdsSlice(now, k, |before|);
    assert now[k..|before|] == before[k..];
  }

  /** A message dated between two that are held is put after them: the list no longer runs in order. */
  lemma BackdatedLast(a: Row, x: Row, b: Row, receipts: seq<Receipt>, later: seq<Receipt>, size: nat)
    requires a.createdAt < x.createdAt < b.createdAt && IdsDiffer([a, x, b]) && size >= 3
    ensures Ids(UpsertAll(ShownAll(receipts, [a, b]), PageOf([a, x, b], later, None, size).messages))
            == [a.id, b.id, x.id]
  {
    PolledAre([a, b], [a, x, b], receipts, later, size);
    hide *;
    ThreeIds(a, x, b, size);
  }

  lemma ThreeIds(a: Row, x: Row, b: Row, size: nat)
    requires IdsDiffer([a, x, b]) && size >= 3
    ensures RowIds([a, b]) + Filter(NotIn(RowIds([a, b])), RowIds([a, x, b])[PageStart(3, size)..])
            == [a.id, b.id, x.id]
  {
    var ids := RowIds([a, x, b]);
    assert [a, x, b][0] == a && [a, x, b][1] == x && [a, x, b][2] == b;
    assert RowIds([a, b]) == [a.id, b.id] && ids[PageStart(3, size)..] == [a.id] + ([x.id] + [b.id]);
    var p := NotIn([a.id, b.id]);
    FilterAppend(p, [a.id], [x.id] + [b.id]);
    FilterAppend(p, [x.id], [b.id]);
  }
}
