/** What concurrent attendance writes converge to, how far their times can drift, and what the
    conflict log lets one reconstruct. */
module AttendanceMerge {
  import opened Attendance
  import opened Lists
  import opened Wrappers

  // ----- the last writer wins, whatever the order -----------------------------------

  /** A roll call for one cell: its status, the client's time, and the server's time at arrival. */
  datatype Arrival = Arrival(status: string, clientTime: int, now: int)

  function Time(a: Arrival): int { Clamp(a.clientTime, a.now) }

  function Merge(t: Table, cell: Cell, arrivals: seq<Arrival>): Table {
    if arrivals == [] then t
    else
      var a := arrivals[|arrivals| - 1];
      SyncMark(Merge(t, cell, arrivals[..|arrivals| - 1]), cell, a.status, a.clientTime, a.now, BOTH)
  }

  /** The earliest arrival among those with the greatest time. */
  predicate FirstGreatest(arrivals: seq<Arrival>, w: nat) {
    && w < |arrivals|
    && (forall i :: 0 <= i < |arrivals| ==> Time(arrivals[i]) <= Time(arrivals[w]))
    && (forall i :: 0 <= i < w ==> Time(arrivals[i]) < Time(arrivals[w]))
  }

  /** After any arrivals the row is the first of those with the greatest time; no other row changes. */
  lemma {:induction false} LastWriterWins(t: Table, cell: Cell, arrivals: seq<Arrival>) returns (w: nat)
    requires cell !in t.rows && arrivals != []
    ensures FirstGreatest(arrivals, w)
    ensures Merge(t, cell, arrivals).rows == t.rows[cell := Row(arrivals[w].status, Time(arrivals[w]))]
  {
    var n := |arrivals| - 1;
    var before := arrivals[..n];
    if n == 0 {
      w := 0;
    } else {
      w := LastWriterWins(t, cell, before);
      if Time(arrivals[n]) > Time(arrivals[w]) {
        forall i | 0 <= i < n ensures Time(arrivals[i]) < Time(arrivals[n]) {
          assert before[i] == arrivals[i];
        }
        w := n;
      } else {
        forall i | 0 <= i < n ensures Time(arrivals[i]) <= Time(arrivals[w]) {
          assert before[i] == arrivals[i];
        }
        forall i | 0 <= i < w ensures Time(arrivals[i]) < Time(arrivals[w]) {
          assert before[i] == arrivals[i];
        }
      }
    }
  }

  /** What the clients meant, without the moment of arrival. */
  function Claims(arrivals: seq<Arrival>): set<(string, int)> {
    set a | a in arrivals :: (a.status, a.clientTime)
  }

  predicate NoneAhead(arrivals: seq<Arrival>) {
    forall a :: a in arrivals ==> a.clientTime <= a.now + SKEW
  }

  /** Different statuses bear different times. */
  predicate TimesDiffer(claims: set<(string, int)>) {
    forall c, d :: c in claims && d in claims && c.1 == d.1 ==> c == d
  }

  lemma GreatestClaim(a: seq<Arrival>, i: nat, b: seq<Arrival>, j: nat)
    requires NoneAhead(a) && NoneAhead(b) && Claims(a) == Claims(b)
    requires FirstGreatest(a, i) && FirstGreatest(b, j)
    ensures Time(a[i]) <= Time(b[j]) && Time(a[i]) == a[i].clientTime
    ensures (a[i].status, a[i].clientTime) in Claims(a)
  {
    assert a[i] in a && (a[i].status, a[i].clientTime) in Claims(b);
    var x :| x in b && x.status == a[i].status && x.clientTime == a[i].clientTime;
    var k :| 0 <= k < |b| && b[k] == x;
    assert Time(b[k]) <= Time(b[j]);
  }

  /** The same claims lead to the same row in every order and however often each is repeated, if none
      is dated more than the tolerated skew ahead and no two statuses bear the same time. */
  lemma Converges(t: Table, cell: Cell, a: seq<Arrival>, b: seq<Arrival>)
    requires cell !in t.rows
    requires Claims(a) == Claims(b) && NoneAhead(a) && NoneAhead(b) && TimesDiffer(Claims(a))
    ensures Merge(t, cell, a).rows == Merge(t, cell, b).rows
  {
    SameEmpty(a, b);
    if a != [] {
      var i := LastWriterWins(t, cell, a);
      var j := LastWriterWins(t, cell, b);
      GreatestClaim(a, i, b, j);
      GreatestClaim(b, j, a, i);
      hide Merge, FirstGreatest, NoneAhead, Claims;
      assert (a[i].status, a[i].clientTime) == (b[j].status, b[j].clientTime);
    }
  }

  lemma SameEmpty(a: seq<Arrival>, b: seq<Arrival>)
    requires Claims(a) == Claims(b)
    ensures a == [] <==> b == []
  {
    if a != [] {
      assert (a[0].status, a[0].clientTime) in Claims(a);
    }
    if b != [] {
      assert (b[0].status, b[0].clientTime) in Claims(b);
    }
  }

  // ----- when the order matters ---------------------------------------------------------

  /** What a client sends for a cell. */
  datatype Claim = Claim(status: string, clientTime: int)

  predicate NeverBack(clock: seq<int>) {
    forall i, j :: 0 <= i < j < |clock| ==> clock[i] <= clock[j]
  }

  /** Claims that arrive one after the other, the first at the first reading of the clock and so on. */
  function Arriving(claims: seq<Claim>, clock: seq<int>): (arrivals: seq<Arrival>)
    requires |claims| == |clock|
    ensures |arrivals| == |claims|
    ensures forall i :: 0 <= i < |claims| ==> arrivals[i] == Arrival(claims[i].status, claims[i].clientTime, clock[i])
  {
    seq(|claims|, i requires 0 <= i < |claims| => Arrival(claims[i].status, claims[i].clientTime, clock[i]))
  }

  function Latest(claims: seq<Claim>): (t: int)
    requires claims != []
    ensures forall c :: c in claims ==> c.clientTime <= t
    ensures exists c :: c in claims && c.clientTime == t
  {
    if |claims| == 1 then claims[0].clientTime
    else
      var rest := Latest(claims[1..]);
      assert claims == [claims[0]] + claims[1..];
      if claims[0].clientTime > rest then claims[0].clientTime else rest
  }

  /** The greatest time that any order of the claims can leave in the row. */
  function Ceiling(claims: seq<Claim>, clock: seq<int>): int
    requires |claims| == |clock| && claims != []
  {
    Clamp(Latest(claims), clock[|clock| - 1])
  }

  function Reaches(time: int): Claim -> bool { (c: Claim) => c.clientTime >= time }

  /** The claims that can leave that time. */
  function Top(claims: seq<Claim>, clock: seq<int>): seq<Claim>
    requires |claims| == |clock| && claims != []
  {
    Filter(Reaches(Ceiling(claims, clock)), claims)
  }

  predicate OneStatus(claims: seq<Claim>) {
    forall i, j :: 0 <= i < j < |claims| ==> claims[i].status == claims[j].status
  }

  /** The first position at which a claim can still leave a given time. */
  function FirstReading(clock: seq<int>, time: int): (k: nat)
    requires clock != [] && clock[|clock| - 1] + SKEW >= time
    ensures k < |clock| && clock[k] + SKEW >= time
    ensures forall i :: 0 <= i < k ==> clock[i] + SKEW < time
  {
    if clock[0] + SKEW >= time then 0 else 1 + FirstReading(clock[1..], time)
  }

  lemma SameClaims(a: seq<Claim>, b: seq<Claim>)
    requires multiset(a) == multiset(b)
    ensures |a| == |b| && forall c :: c in a <==> c in b
  {
    assert |multiset(a)| == |a| && |multiset(b)| == |b|;
    assert forall c :: c in a <==> c in multiset(a);
    assert forall c :: c in b <==> c in multiset(b);
  }

  /** No order leaves a greater time than the ceiling, and only a top claim leaves it. */
  lemma WithinCeiling(a: seq<Claim>, b: seq<Claim>, clock: seq<int>, i: nat)
    requires |a| == |b| == |clock| && a != [] && (forall c :: c in b ==> c in a) && NeverBack(clock) && i < |b|
    ensures var arrival, time := Arriving(b, clock)[i], Ceiling(a, clock);
            && Time(arrival) <= time
            && (Time(arrival) == time <==> b[i].clientTime >= time && clock[i] + SKEW >= time)
  {
    assert b[i] in b && b[i].clientTime <= Latest(a);
    assert clock[i] <= clock[|clock| - 1];
  }

  /** The row when some order leaves the ceiling: the first top claim from the first sufficient reading on. */
  lemma RowAtCeiling(t: Table, cell: Cell, a: seq<Claim>, b: seq<Claim>, clock: seq<int>, p: nat)
    requires cell !in t.rows && |a| == |b| == |clock| && a != [] && (forall c :: c in b ==> c in a) && NeverBack(clock)
    requires p < |b| && Time(Arriving(b, clock)[p]) == Ceiling(a, clock)
    requires forall i :: 0 <= i < p ==> Time(Arriving(b, clock)[i]) < Ceiling(a, clock)
    ensures Merge(t, cell, Arriving(b, clock)).rows == t.rows[cell := Row(b[p].status, Ceiling(a, clock))]
  {
    var arrivals := Arriving(b, clock);
    var w := LastWriterWins(t, cell, arrivals);
    WithinCeiling(a, b, clock, w);
    hide Merge, Ceiling;
    assert Time(arrivals[p]) <= Time(arrivals[w]);
    assert w == p;
  }

  lemma Halves(p: Claim -> bool, q: Claim -> bool, s: seq<Claim>)
    requires forall c :: p(c) != q(c)
    ensures multiset(Filter(p, s) + Filter(q, s)) == multiset(s)
  {
    hide Filter;
    var some, others := Filter(p, s), Filter(q, s);
    assert multiset(some + others) == multiset(some) + multiset(others);
    forall c ensures multiset(some + others)[c] == multiset(s)[c] {
      CountFilter(p, s, c);
      CountFilter(q, s, c);
    }
  }

  /** An order of the same claims with a given one at a given place. */
  lemma Placed(a: seq<Claim>, x: Claim, k: nat) returns (b: seq<Claim>)
    requires x in a && k < |a|
    ensures multiset(b) == multiset(a) && |b| == |a| && b[k] == x
  {
    var i :| 0 <= i < |a| && a[i] == x;
    var rest := a[..i] + a[i + 1..];
    assert a == a[..i] + ([x] + a[i + 1..]);
    b := rest[..k] + ([x] + rest[k..]);
    assert rest == rest[..k] + rest[k..];
    assert multiset(b) == multiset(rest) + multiset{x};
  }

  lemma TopMember(a: seq<Claim>, clock: seq<int>, c: Claim)
    requires |a| == |clock| && a != []
    ensures c in Top(a, clock) <==> c in a && c.clientTime >= Ceiling(a, clock)
  {
  }

  /** A top claim at the first sufficient reading decides the row. */
  lemma PlacedDecides(t: Table, cell: Cell, a: seq<Claim>, clock: seq<int>, x: Claim) returns (b: seq<Claim>)
    requires cell !in t.rows && |a| == |clock| && a != [] && NeverBack(clock) && x in Top(a, clock)
    ensures multiset(b) == multiset(a) && |b| == |a|
    ensures Merge(t, cell, Arriving(b, clock)).rows == t.rows[cell := Row(x.status, Ceiling(a, clock))]
  {
    TopMember(a, clock, x);
    var time := Ceiling(a, clock);
    var k := FirstReading(clock, time);
    b := Placed(a, x, k);
    SameClaims(a, b);
    forall i | 0 <= i < |b|
      ensures Time(Arriving(b, clock)[i]) == time <==> b[i].clientTime >= time && clock[i] + SKEW >= time
    {
      WithinCeiling(a, b, clock, i);
    }
    forall i | 0 <= i < k ensures Time(Arriving(b, clock)[i]) < time {
      WithinCeiling(a, b, clock, i);
    }
    hide Merge, Top, Ceiling, Time;
    RowAtCeiling(t, cell, a, b, clock, k);
  }

  /** More top claims than earlier places: one of them stands at the last of these places or later. */
  lemma TopStandsLate(a: seq<Claim>, b: seq<Claim>, clock: seq<int>) returns (p: nat)
    requires |a| == |clock| && a != [] && multiset(b) == multiset(a) && Top(a, clock) != []
    ensures |b| == |a| && |Top(a, clock)| <= |a| && |Top(a, clock)| - 1 <= p < |b| && b[p] in Top(a, clock)
  {
    var time := Ceiling(a, clock);
    var reaches := Reaches(time);
    var m := |Top(a, clock)|;
    SameClaims(a, b);
    SameSize(reaches, a, b);
    assert b == b[..m - 1] + b[m - 1..];
    FilterAppend(reaches, b[..m - 1], b[m - 1..]);
    var late := Filter(reaches, b[m - 1..]);
    assert |late| > 0 && late[0] in late;
    var q :| 0 <= q < |b[m - 1..]| && b[m - 1..][q] == late[0];
    p := m - 1 + q;
    assert b[p] in b;
    TopMember(a, clock, b[p]);
  }

  lemma SameSize(p: Claim -> bool, a: seq<Claim>, b: seq<Claim>)
    requires multiset(a) == multiset(b)
    ensures |Filter(p, a)| == |Filter(p, b)|
  {
    forall c ensures multiset(Filter(p, a))[c] == multiset(Filter(p, b))[c] {
      CountFilter(p, a, c);
      CountFilter(p, b, c);
    }
    assert multiset(Filter(p, a)) == multiset(Filter(p, b));
    assert |multiset(Filter(p, a))| == |Filter(p, a)| && |multiset(Filter(p, b))| == |Filter(p, b)|;
  }

  lemma {:induction false} FirstAtCeiling(a: seq<Claim>, b: seq<Claim>, clock: seq<int>, p: nat) returns (first: nat)
    requires |a| == |b| == |clock| && a != [] && (forall c :: c in b ==> c in a) && NeverBack(clock)
    requires p < |b| && Time(Arriving(b, clock)[p]) == Ceiling(a, clock)
    ensures first <= p && Time(Arriving(b, clock)[first]) == Ceiling(a, clock)
    ensures forall i :: 0 <= i < first ==> Time(Arriving(b, clock)[i]) < Ceiling(a, clock)
    decreases p
  {
    first := p;
    if q :| 0 <= q < p && Time(Arriving(b, clock)[q]) == Ceiling(a, clock) {
      first := FirstAtCeiling(a, b, clock, q);
    } else {
      forall i | 0 <= i < p ensures Time(Arriving(b, clock)[i]) < Ceiling(a, clock) {
        WithinCeiling(a, b, clock, i);
      }
    }
  }

  /** With one status on top and a top claim always late enough, every order leaves the same row. */
  lemma AlwaysTop(t: Table, cell: Cell, a: seq<Claim>, b: seq<Claim>, clock: seq<int>, x: Claim)
    requires cell !in t.rows && |a| == |clock| && a != [] && NeverBack(clock) && multiset(b) == multiset(a)
    requires x in Top(a, clock) && OneStatus(Top(a, clock))
    requires |Top(a, clock)| <= |clock| && clock[|Top(a, clock)| - 1] + SKEW >= Ceiling(a, clock)
    ensures |b| == |a| && Merge(t, cell, Arriving(b, clock)).rows == t.rows[cell := Row(x.status, Ceiling(a, clock))]
  {
    SameClaims(a, b);
    var p := TopStandsLate(a, b, clock);
    TopMember(a, clock, b[p]);
    assert clock[|Top(a, clock)| - 1] <= clock[p];
    WithinCeiling(a, b, clock, p);
    var first := FirstAtCeiling(a, b, clock, p);
    WithinCeiling(a, b, clock, first);
    assert b[first] in b;
    TopMember(a, clock, b[first]);
    StatusShared(Top(a, clock), x, b[first]);
    hide Merge, Top, Ceiling, Time, OneStatus;
    RowAtCeiling(t, cell, a, b, clock, first);
  }

  lemma StatusShared(claims: seq<Claim>, x: Claim, y: Claim)
    requires OneStatus(claims) && x in claims && y in claims
    ensures x.status == y.status
  {
    var i :| 0 <= i < |claims| && claims[i] == x;
    var j :| 0 <= j < |claims| && claims[j] == y;
  }

  lemma SomeTop(a: seq<Claim>, clock: seq<int>) returns (x: Claim)
    requires |a| == |clock| && a != []
    ensures x in Top(a, clock) && 0 < |Top(a, clock)| <= |a|
  {
    var latest := Latest(a);
    x :| x in a && x.clientTime == latest;
    TopMember(a, clock, x);
  }

  /** The top claims first, then the others. */
  lemma TopAhead(a: seq<Claim>, clock: seq<int>) returns (b: seq<Claim>)
    requires |a| == |clock| && a != []
    ensures multiset(b) == multiset(a) && |b| == |a| && |Top(a, clock)| <= |b|
    ensures forall i :: |Top(a, clock)| <= i < |b| ==> b[i].clientTime < Ceiling(a, clock)
  {
    var time, top := Ceiling(a, clock), Top(a, clock);
    var misses := (c: Claim) => c.clientTime < time;
    var others := Filter(misses, a);
    b := top + others;
    Halves(Reaches(time), misses, a);
    SameClaims(a, b);
    forall i | |top| <= i < |b| ensures b[i].clientTime < time {
      assert b[i] == others[i - |top|] && others[i - |top|] in others;
    }
  }

  /** If the clock is behind while the top claims arrive first, no claim leaves the ceiling. */
  lemma TopFirst(t: Table, cell: Cell, a: seq<Claim>, clock: seq<int>) returns (b: seq<Claim>)
    requires cell !in t.rows && |a| == |clock| && a != [] && NeverBack(clock)
    requires 0 < |Top(a, clock)| <= |clock| && clock[|Top(a, clock)| - 1] + SKEW < Ceiling(a, clock)
    ensures multiset(b) == multiset(a) && |b| == |a|
    ensures cell in Merge(t, cell, Arriving(b, clock)).rows
    ensures Merge(t, cell, Arriving(b, clock)).rows[cell].markedAt < Ceiling(a, clock)
  {
    hide Merge, Top, Ceiling, Time, Clamp;
    b := TopAhead(a, clock);
    SameClaims(a, b);
    var w := LastWriterWins(t, cell, Arriving(b, clock));
    WithinCeiling(a, b, clock, w);
    if w < |Top(a, clock)| {
      assert clock[w] <= clock[|Top(a, clock)| - 1];
    }
  }

  /** Every order in which the claims can arrive leaves the same row, while the clock runs as it does, if
      and only if the top claims bear one status and there are so many of them that one always comes when
      the clock has caught up with the ceiling. */
  lemma OrderIff(t: Table, cell: Cell, a: seq<Claim>, clock: seq<int>)
    requires cell !in t.rows && |a| == |clock| && a != [] && NeverBack(clock)
    ensures 0 < |Top(a, clock)| <= |clock|
    ensures (forall b: seq<Claim> :: multiset(b) == multiset(a) ==>
               |b| == |clock| && Merge(t, cell, Arriving(b, clock)).rows == Merge(t, cell, Arriving(a, clock)).rows)
            <==> OneStatus(Top(a, clock)) && clock[|Top(a, clock)| - 1] + SKEW >= Ceiling(a, clock)
  {
    var x := SomeTop(a, clock);
    if OneStatus(Top(a, clock)) && clock[|Top(a, clock)| - 1] + SKEW >= Ceiling(a, clock) {
      AlwaysTop(t, cell, a, a, clock, x);
      forall b: seq<Claim> | multiset(b) == multiset(a)
        ensures |b| == |clock| && Merge(t, cell, Arriving(b, clock)).rows == Merge(t, cell, Arriving(a, clock)).rows
      {
        AlwaysTop(t, cell, a, b, clock, x);
      }
    } else {
      var first := PlacedDecides(t, cell, a, clock, x);
      if !OneStatus(Top(a, clock)) {
        var top := Top(a, clock);
        var i, j :| 0 <= i < j < |top| && top[i].status != top[j].status;
        var one := PlacedDecides(t, cell, a, clock, top[i]);
        var other := PlacedDecides(t, cell, a, clock, top[j]);
        assert Merge(t, cell, Arriving(one, clock)).rows[cell].status
            != Merge(t, cell, Arriving(other, clock)).rows[cell].status;
      } else {
        var behind := TopFirst(t, cell, a, clock);
        assert Merge(t, cell, Arriving(behind, clock)).rows[cell].markedAt
            != Merge(t, cell, Arriving(first, clock)).rows[cell].markedAt;
      }
    }
    hide *;
  }

  /** While no claim is dated more than the skew ahead of the first reading, the order matters exactly if
      claims with different statuses share the latest time. */
  lemma OrderIffNoneAhead(t: Table, cell: Cell, a: seq<Claim>, clock: seq<int>)
    requires cell !in t.rows && |a| == |clock| && a != [] && NeverBack(clock)
    requires forall c :: c in a ==> c.clientTime <= clock[0] + SKEW
    ensures (forall b: seq<Claim> :: multiset(b) == multiset(a) ==>
               |b| == |clock| && Merge(t, cell, Arriving(b, clock)).rows == Merge(t, cell, Arriving(a, clock)).rows)
            <==> forall c, d :: c in a && d in a && c.clientTime == d.clientTime == Latest(a) ==> c.status == d.status
  {
    OrderIff(t, cell, a, clock);
    var top := Top(a, clock);
    assert clock[0] <= clock[|top| - 1] && clock[0] <= clock[|clock| - 1];
    assert Ceiling(a, clock) == Latest(a);
    forall c ensures c in top <==> c in a && c.clientTime == Latest(a) {
      TopMember(a, clock, c);
    }
    hide Merge, Top, Ceiling, Latest;
    if OneStatus(top) {
      forall c, d | c in a && d in a && c.clientTime == d.clientTime == Latest(a) ensures c.status == d.status {
        StatusShared(top, c, d);
      }
    } else {
      var i, j :| 0 <= i < j < |top| && top[i].status != top[j].status;
      assert top[i] in top && top[j] in top;
    }
  }

  /** Two roll calls dated further ahead than the skew, with different times, are taken in the order of
      arrival: the clamp makes their times equal. */
  lemma AheadDiverges(t: Table, cell: Cell, first: Arrival, second: Arrival)
    requires cell !in t.rows && first.now == second.now && first.status != second.status
    requires first.clientTime > first.now + SKEW && second.clientTime > second.now + SKEW
    ensures Merge(t, cell, [first, second]).rows[cell].status == first.status
    ensures Merge(t, cell, [second, first]).rows[cell].status == second.status
  {
    var v := LastWriterWins(t, cell, [first, second]);
    var w := LastWriterWins(t, cell, [second, first]);
    hide Merge;
  }

  /** A running clock decides between a claim dated ahead and one that is not: whichever way they arrive,
      the claim dated ahead has the later time only when it comes second. */
  lemma ClockDecides(t: Table, cell: Cell, ahead: string, near: string)
    requires cell !in t.rows
    ensures var a, b := Claim(ahead, 1_000_000_000), Claim(near, 60_005);
            && Merge(t, cell, Arriving([a, b], [0, 10])).rows[cell] == Row(near, 60_005)
            && Merge(t, cell, Arriving([b, a], [0, 10])).rows[cell] == Row(ahead, 60_010)
  {
    var a, b := Claim(ahead, 1_000_000_000), Claim(near, 60_005);
    var v := LastWriterWins(t, cell, Arriving([a, b], [0, 10]));
    var w := LastWriterWins(t, cell, Arriving([b, a], [0, 10]));
    hide Merge;
  }

  // ----- runs that mix both kinds of writes --------------------------------------------

  datatype Op =
    | Sync(cell: Cell, status: string, clientTime: int, now: int, ok: Writes)
    | Rest(marks: seq<Mark>, now: int, ok: Writes)

  function Apply(t: Table, op: Op): Table {
    match op
    case Sync(cell, status, clientTime, now, ok) => SyncMark(t, cell, status, clientTime, now, ok)
    case Rest(marks, now, ok) => RestMarks(t, marks, now, ok)
  }

  function Run(t: Table, ops: seq<Op>): Table {
    if ops == [] then t else Apply(Run(t, ops[..|ops| - 1]), ops[|ops| - 1])
  }

  // ----- times -------------------------------------------------------------------------

  predicate Bounded(rows: map<Cell, Row>, now: int) {
    forall c :: c in rows ==> rows[c].markedAt <= now + SKEW
  }

  lemma {:induction false} UpsertRow(rows: map<Cell, Row>, marks: seq<Mark>, now: int, c: Cell)
    ensures c in Upsert(rows, marks, now) <==> c in rows || exists i :: 0 <= i < |marks| && marks[i].cell == c
    ensures (forall i :: 0 <= i < |marks| ==> marks[i].cell != c) && c in rows ==>
              Upsert(rows, marks, now)[c] == rows[c]
    ensures (exists i :: 0 <= i < |marks| && marks[i].cell == c) ==> Upsert(rows, marks, now)[c].markedAt == now
    ensures Distinct(marks) ==>
              forall i :: 0 <= i < |marks| && marks[i].cell == c ==>
                       Upsert(rows, marks, now)[c] == Row(marks[i].status, now)
  {
    if marks != [] {
      var n := |marks| - 1;
      var rest := marks[..n];
      UpsertRow(rows, rest, now, c);
      assert forall i :: 0 <= i < n ==> rest[i] == marks[i];
      if i :| 0 <= i < n && marks[i].cell == c {
        assert rest[i].cell == c;
      }
    }
  }

  /** No mark runs more than the skew ahead of the server's clock; an offline write never takes a row
      back in time, and an online write takes it back by the skew at most. */
  lemma StepTimes(t: Table, op: Op, clock: int)
    requires Bounded(t.rows, clock) && clock <= op.now
    ensures Bounded(Apply(t, op).rows, op.now)
    ensures forall c :: c in t.rows ==> c in Apply(t, op).rows
    ensures op.Sync? ==> forall c :: c in t.rows ==> Apply(t, op).rows[c].markedAt >= t.rows[c].markedAt
    ensures op.Rest? ==> forall c :: c in t.rows ==> Apply(t, op).rows[c].markedAt >= t.rows[c].markedAt - SKEW
  {
    if op.Rest? {
      forall c {:trigger c in t.rows} {:trigger c in Apply(t, op).rows}
        ensures c in Apply(t, op).rows && c !in t.rows ==> Apply(t, op).rows[c].markedAt == op.now
        ensures c in t.rows ==> c in Apply(t, op).rows
        ensures c in t.rows ==> Apply(t, op).rows[c] == t.rows[c] || Apply(t, op).rows[c].markedAt == op.now
      {
        UpsertRow(t.rows, op.marks, op.now, c);
      }
    }
  }

  predicate ClockRuns(ops: seq<Op>) {
    forall i, j :: 0 <= i < j < |ops| ==> ops[i].now <= ops[j].now
  }

  lemma {:induction false} TimesBounded(t: Table, ops: seq<Op>)
    requires ClockRuns(ops) && ops != [] && Bounded(t.rows, ops[0].now)
    ensures Bounded(Run(t, ops).rows, ops[|ops| - 1].now)
  {
    var n := |ops| - 1;
    if n == 0 {
      assert ops[..0] == [] && Run(t, []) == t;
      StepTimes(t, ops[0], ops[0].now);
    } else {
      TimesBounded(t, ops[..n]);
      StepTimes(Run(t, ops[..n]), ops[n], ops[n - 1].now);
    }
  }

  // ----- the conflict log ----------------------------------------------------------------

  /** The status of a cell after the logged client wins, from the status it was first given. */
  function Replay(first: string, log: seq<LogEntry>, cell: Cell): string {
    if log == [] then first
    else
      var e := log[|log| - 1];
      if e.cell == cell && e.resolution == CLIENT_WINS then e.client.status
      else Replay(first, log[..|log| - 1], cell)
  }

  /** Every entry of the cell names the status that the entries before it lead to. */
  predicate Traced(first: string, log: seq<LogEntry>, cell: Cell) {
    if log == [] then true
    else
      var e, before := log[|log| - 1], log[..|log| - 1];
      Traced(first, before, cell) && (e.cell == cell ==> e.server.status == Replay(first, before, cell))
  }

  predicate Named(log: seq<LogEntry>, cell: Cell) {
    exists i :: 0 <= i < |log| && log[i].cell == cell
  }

  /** The log explains a row from its first status, and names no row that does not exist. */
  predicate ExplainsCell(first: map<Cell, string>, t: Table, c: Cell) {
    && (c in first <==> c in t.rows)
    && if c in t.rows then Replay(first[c], t.log, c) == t.rows[c].status && Traced(first[c], t.log, c)
       else !Named(t.log, c)
  }

  ghost predicate Explains(first: map<Cell, string>, t: Table) {
    forall c :: ExplainsCell(first, t, c)
  }

  /** First statuses, once a step has inserted new rows. */
  function Extend(first: map<Cell, string>, rows: map<Cell, Row>): map<Cell, string> {
    map c | c in rows :: if c in first then first[c] else rows[c].status
  }

  /** The entries of the log that a step writes and the change of status they stand for come together. */
  predicate LoggedIffWritten(t: Table, op: Op) {
    match op
    case Sync(cell, status, clientTime, now, ok) =>
      Disputed(t, cell, status) && Wins(t, cell, clientTime, now) ==> ok.log == ok.row
    case Rest(marks, now, ok) =>
      Conflicts(t.rows, marks, now) != [] ==> ok.log == Saved(marks, ok)
  }

  lemma ReplayLast(first: string, log: seq<LogEntry>, e: LogEntry, cell: Cell)
    ensures Replay(first, log + [e], cell)
         == if e.cell == cell && e.resolution == CLIENT_WINS then e.client.status else Replay(first, log, cell)
    ensures Traced(first, log + [e], cell)
         <==> Traced(first, log, cell) && (e.cell == cell ==> e.server.status == Replay(first, log, cell))
  {
    assert (log + [e])[..|log|] == log;
  }

  lemma {:induction false} ReplayOthers(first: string, log: seq<LogEntry>, cell: Cell)
    requires !Named(log, cell)
    ensures Replay(first, log, cell) == first && Traced(first, log, cell)
  {
    if log != [] {
      var n := |log| - 1;
      assert forall i :: 0 <= i < n ==> log[..n][i] == log[i];
      ReplayOthers(first, log[..n], cell);
    }
  }

  lemma NamedLast(log: seq<LogEntry>, e: LogEntry, c: Cell)
    ensures Named(log + [e], c) <==> Named(log, c) || e.cell == c
  {
    if i :| 0 <= i < |log| && log[i].cell == c {
      assert (log + [e])[i].cell == c;
    }
    assert (log + [e])[|log|] == e;
  }

  /** One offline roll call, seen from one cell. */
  lemma SyncExplainsCell(first: map<Cell, string>, t: Table, op: Op, c: Cell)
    requires op.Sync? && ExplainsCell(first, t, c) && ExplainsCell(first, t, op.cell)
    ensures var t' := Apply(t, op);
            ExplainsCell(Extend(first, t'.rows), t', c) <==> (c == op.cell ==> LoggedIffWritten(t, op))
  {
    var t' := Apply(t, op);
    if Disputed(t, op.cell, op.status) && op.ok.log {
      var e := LogEntry(op.cell, Row(op.status, Clamp(op.clientTime, op.now)), t.rows[op.cell],
                        if Wins(t, op.cell, op.clientTime, op.now) then CLIENT_WINS else SERVER_WINS);
      assert t'.log == t.log + [e];
      NamedLast(t.log, e, c);
      if c in first {
        ReplayLast(first[c], t.log, e, c);
      }
    } else {
      assert t'.log == t.log;
    }
    if op.cell !in t.rows {
      ReplayOthers(op.status, t.log, op.cell);
    }
    hide Replay, Traced, Named;
  }

  /** One offline roll call keeps the log an explanation exactly if its entry and its row are written together. */
  lemma SyncExplains(first: map<Cell, string>, t: Table, op: Op)
    requires Explains(first, t) && op.Sync?
    ensures var t' := Apply(t, op); Explains(Extend(first, t'.rows), t') <==> LoggedIffWritten(t, op)
  {
    var t' := Apply(t, op);
    forall c ensures ExplainsCell(Extend(first, t'.rows), t', c) <==> (c == op.cell ==> LoggedIffWritten(t, op)) {
      SyncExplainsCell(first, t, op, c);
    }
    hide ExplainsCell, Apply, LoggedIffWritten;
    assert ExplainsCell(Extend(first, t'.rows), t', op.cell) <==> LoggedIffWritten(t, op);
  }

  // A bulk save, seen from one cell.

  /** The status that the marks give a cell, if any. */
  function MarkFor(marks: seq<Mark>, c: Cell): Option<string> {
    if marks == [] then None
    else if marks[|marks| - 1].cell == c then Some(marks[|marks| - 1].status)
    else MarkFor(marks[..|marks| - 1], c)
  }

  lemma {:induction false} MarkForNone(marks: seq<Mark>, c: Cell)
    ensures MarkFor(marks, c).None? <==> forall i :: 0 <= i < |marks| ==> marks[i].cell != c
  {
    if marks != [] {
      var n := |marks| - 1;
      MarkForNone(marks[..n], c);
      assert forall i :: 0 <= i < n ==> marks[..n][i] == marks[i];
      assert marks[n].cell == c || (MarkFor(marks, c) == MarkFor(marks[..n], c));
    }
  }

  lemma {:induction false} UpsertCell(rows: map<Cell, Row>, marks: seq<Mark>, now: int, c: Cell)
    ensures var after := Upsert(rows, marks, now);
            match MarkFor(marks, c)
            case Some(s) => c in after && after[c] == Row(s, now)
            case None => (c in after <==> c in rows) && (c in rows ==> after[c] == rows[c])
  {
    if marks != [] {
      UpsertCell(rows, marks[..|marks| - 1], now, c);
    }
  }

  predicate DistinctFrom(marks: seq<Mark>, m: Mark) { MarkFor(marks, m.cell).None? }

  lemma DistinctLast(marks: seq<Mark>)
    requires Distinct(marks) && marks != []
    ensures Distinct(marks[..|marks| - 1]) && DistinctFrom(marks[..|marks| - 1], marks[|marks| - 1])
  {
    MarkForNone(marks[..|marks| - 1], marks[|marks| - 1].cell);
  }

  lemma {:induction false} ConflictsReplay(first: string, log: seq<LogEntry>, rows: map<Cell, Row>, marks: seq<Mark>,
                                           now: int, c: Cell)
    requires Distinct(marks) && c in rows && Replay(first, log, c) == rows[c].status && Traced(first, log, c)
    ensures var all := log + Conflicts(rows, marks, now);
            && Traced(first, all, c)
            && Replay(first, all, c) == (match MarkFor(marks, c) case Some(s) => s case None => rows[c].status)
  {
    hide Replay, Traced, Distinct;
    if marks == [] {
      assert log + [] == log;
    } else {
      var n := |marks| - 1;
      var rest, m := marks[..n], marks[n];
      DistinctLast(marks);
      ConflictsReplay(first, log, rows, rest, now, c);
      var before := Conflicts(rows, rest, now);
      var e := LogEntry(m.cell, Row(m.status, now), if m.cell in rows then rows[m.cell] else Row("", 0), CLIENT_WINS);
      ReplayLast(first, log + before, e, c);
      assert log + (before + [e]) == log + before + [e];
    }
  }

  /** A bulk save logs only changes of rows that exist, and logs nothing only if there are none. */
  lemma {:induction false} ConflictsName(rows: map<Cell, Row>, marks: seq<Mark>, now: int)
    ensures forall e :: e in Conflicts(rows, marks, now) ==>
              e.cell in rows && e.resolution == CLIENT_WINS && e.client.status != rows[e.cell].status
              && MarkFor(marks, e.cell).Some?
    ensures Conflicts(rows, marks, now) == [] ==>
              forall c :: c in rows && MarkFor(marks, c).Some? ==> MarkFor(marks, c) == Some(rows[c].status)
  {
    if marks != [] {
      ConflictsName(rows, marks[..|marks| - 1], now);
    }
  }

  lemma {:induction false} ConflictMark(rows: map<Cell, Row>, marks: seq<Mark>, now: int, e: LogEntry)
    requires Distinct(marks) && e in Conflicts(rows, marks, now)
    ensures MarkFor(marks, e.cell) == Some(e.client.status)
  {
    if marks != [] {
      DistinctLast(marks);
      var rest := marks[..|marks| - 1];
      ConflictsName(rows, rest, now);
      if e in Conflicts(rows, rest, now) {
        ConflictMark(rows, rest, now, e);
      }
    }
  }

  lemma NamedAppend(log: seq<LogEntry>, more: seq<LogEntry>, c: Cell)
    requires !Named(log, c) && forall e :: e in more ==> e.cell != c
    ensures !Named(log + more, c)
  {
    forall i | 0 <= i < |log + more| ensures (log + more)[i].cell != c {
      if i >= |log| {
        assert (log + more)[i] in more;
      }
    }
  }

  /** A bulk save whose entries and rows are written together, seen from one cell. */
  lemma RestExplainsCell(first: map<Cell, string>, t: Table, op: Op, c: Cell)
    requires op.Rest? && ExplainsCell(first, t, c) && LoggedIffWritten(t, op)
    ensures var t' := Apply(t, op); ExplainsCell(Extend(first, t'.rows), t', c)
  {
    var conflicts := Conflicts(t.rows, op.marks, op.now);
    ConflictsName(t.rows, op.marks, op.now);
    UpsertCell(t.rows, op.marks, op.now, c);
    assert t.log + [] == t.log;
    if c !in t.rows {
      NamedAppend(t.log, conflicts, c);
      if MarkFor(op.marks, c).Some? {
        NamedAppend(t.log, [], c);
        ReplayOthers(MarkFor(op.marks, c).value, t.log + (if op.ok.log then conflicts else []), c);
      }
    } else if Saved(op.marks, op.ok) && conflicts != [] {
      ConflictsReplay(first[c], t.log, t.rows, op.marks, op.now, c);
    }
    hide Replay, Traced, Named, Conflicts, Upsert, MarkFor, Distinct;
  }

  /** One of the two writes of a bulk save without the other leaves some row unexplained. */
  lemma RestBreaks(first: map<Cell, string>, t: Table, op: Op)
    requires op.Rest? && Explains(first, t) && !LoggedIffWritten(t, op)
    ensures var t' := Apply(t, op); !Explains(Extend(first, t'.rows), t')
  {
    var t' := Apply(t, op);
    var conflicts := Conflicts(t.rows, op.marks, op.now);
    ConflictsName(t.rows, op.marks, op.now);
    var e := conflicts[|conflicts| - 1];
    assert e in conflicts;
    var c := e.cell;
    assert ExplainsCell(first, t, c);
    hide Conflicts, Traced, Named;
    if op.ok.log {
      assert t'.log == t.log + conflicts && t'.log[|t'.log| - 1] == e;
    } else {
      UpsertCell(t.rows, op.marks, op.now, c);
      ConflictMark(t.rows, op.marks, op.now, e);
    }
    assert !ExplainsCell(Extend(first, t'.rows), t', c);
  }

  /** A bulk save keeps the log an explanation exactly if its entries and its rows are written together. */
  lemma RestExplains(first: map<Cell, string>, t: Table, op: Op)
    requires Explains(first, t) && op.Rest?
    ensures var t' := Apply(t, op); Explains(Extend(first, t'.rows), t') <==> LoggedIffWritten(t, op)
  {
    if LoggedIffWritten(t, op) {
      var t' := Apply(t, op);
      forall c ensures ExplainsCell(Extend(first, t'.rows), t', c) {
        RestExplainsCell(first, t, op, c);
      }
    } else {
      RestBreaks(first, t, op);
    }
  }

  lemma OpExplains(first: map<Cell, string>, t: Table, op: Op)
    requires Explains(first, t)
    ensures var t' := Apply(t, op); Explains(Extend(first, t'.rows), t') <==> LoggedIffWritten(t, op)
  {
    hide Explains, Apply, LoggedIffWritten;
    if op.Sync? {
      SyncExplains(first, t, op);
    } else {
      RestExplains(first, t, op);
    }
  }

  /** The first status that each row of a run was given. */
  function FirstStatuses(t: Table, ops: seq<Op>): map<Cell, string> {
    if ops == [] then Extend(map[], t.rows) else Extend(FirstStatuses(t, ops[..|ops| - 1]), Run(t, ops).rows)
  }

  predicate AllLogged(t: Table, ops: seq<Op>) {
    ops == [] || (AllLogged(t, ops[..|ops| - 1]) && LoggedIffWritten(Run(t, ops[..|ops| - 1]), ops[|ops| - 1]))
  }

  /** Over every mix of offline and online writes from an empty table, replaying the client wins of the
      conflict log from the first statuses yields the current ones, and every entry names the status held
      just before it. */
  lemma {:induction false} LogExplainsRun(ops: seq<Op>)
    requires AllLogged(Table(map[], []), ops)
    ensures var t := Run(Table(map[], []), ops); Explains(FirstStatuses(Table(map[], []), ops), t)
  {
    var empty := Table(map[], []);
    if ops != [] {
      var before := ops[..|ops| - 1];
      LogExplainsRun(before);
      OpExplains(FirstStatuses(empty, before), Run(empty, before), ops[|ops| - 1]);
      hide Explains, Apply, LoggedIffWritten;
    }
  }

  /** A server win is only ever logged by an offline roll call that leaves its row as it was. */
  lemma ServerWinKeeps(t: Table, op: Op, i: nat)
    requires |t.log| <= i < |Apply(t, op).log|
    ensures Apply(t, op).log[i].resolution == SERVER_WINS
            <==> op.Sync? && Apply(t, op).rows == t.rows && !Wins(t, op.cell, op.clientTime, op.now)
  {
    if op.Rest? {
      ConflictsName(t.rows, op.marks, op.now);
      assert Apply(t, op).log[i] == Conflicts(t.rows, op.marks, op.now)[i - |t.log|];
    }
  }
}
