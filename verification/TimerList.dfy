/**
 The timers of the event loop in asyn_network/ae.c: a doubly linked list that callbacks may add to, and mark entries of,
 while a pass walks over it. The clock and what each callback does are arbitrary functions of the number of times they
 have been asked. The methods keep the list linked (`List`) and say what it holds as a sequence of `Info`.
 */
module TimerList {
  const AE_OK := 0
  const AE_ERR := -1
  const AE_NOMORE := -1
  const AE_DELETED_EVENT_ID := -1

  datatype Time = Time(sec: int, ms: int)

  /** Division and remainder of C, which truncate towards zero. */
  function Quotient(a: int, b: nat): int
    requires b > 0
  {
    if a >= 0 then a / b else -((-a) / b)
  }

  /** aeAddMillisecondsToNow */
  function Later(now: Time, milliseconds: int): Time {
    var sec := now.sec + Quotient(milliseconds, 1000);
    var ms := now.ms + (milliseconds - 1000 * Quotient(milliseconds, 1000));
    if ms >= 1000 then Time(sec + 1, ms - 1000) else Time(sec, ms)
  }

  predicate Due(now: Time, when: Time) {
    now.sec > when.sec || (now.sec == when.sec && now.ms >= when.ms)
  }

  predicate Earlier(a: Time, b: Time) {
    a.sec < b.sec || (a.sec == b.sec && a.ms < b.ms)
  }

  // ---------- what is outside ----------

  datatype Command = Create(milliseconds: int, finalizer: bool) | Delete(id: int)

  /** What a callback does to the loop, and what it returns. */
  datatype Script = Script(commands: seq<Command>, result: int)

  datatype World = World(clock: nat -> Time, callback: nat -> Script)

  function DeletedIn(commands: seq<Command>, n: nat): set<int>
    requires n <= |commands|
  {
    if n == 0 then {}
    else DeletedIn(commands, n - 1) + Deleting(commands[n - 1])
  }

  function Deleting(command: Command): set<int> {
    if command.Delete? then {command.id} else {}
  }

  /** The ids that callback `n` asks to delete, and those that the first `n` callbacks do. */
  function Asked(w: World, n: nat): set<int> {
    DeletedIn(w.callback(n).commands, |w.callback(n).commands|)
  }

  function DeletedBy(w: World, n: nat): set<int> {
    if n == 0 then {} else DeletedBy(w, n - 1) + Asked(w, n - 1)
  }

  function Marked(id: int, deleted: set<int>): int {
    if id in deleted then AE_DELETED_EVENT_ID else id
  }

  // ---------- the list ----------

  class TimeEvent {
    var id: int
    var when: Time
    var prev: TimeEvent?
    var next: TimeEvent?
    const finalizer: bool

    constructor (id: int, when: Time, finalizer: bool)
      ensures this.id == id && this.when == when && this.finalizer == finalizer && prev == null
    {
      this.id, this.when, this.finalizer, prev := id, when, finalizer, null;
    }
  }

  /** What the loop knows of a timer besides its links. */
  datatype Info = Info(id: int, when: Time)

  /** `head` and the links lead through `s`, whose first node has `prev` in front of it; `infos` is what the nodes hold. */
  ghost predicate List(prev: TimeEvent?, head: TimeEvent?, s: seq<TimeEvent>, infos: seq<Info>)
    reads s
    decreases |s|
  {
    && |infos| == |s|
    && if s == [] then head == null
       else
         && head == s[0] && s[0].prev == prev && s[0] !in s[1..] && infos[0] == Info(s[0].id, s[0].when)
         && List(s[0], s[0].next, s[1..], infos[1..])
  }

  ghost predicate Distinct(s: seq<TimeEvent>) {
    forall i, j :: 0 <= i < j < |s| ==> s[i] != s[j]
  }

  /** The same, said of every node. */
  ghost predicate Linked(prev: TimeEvent?, head: TimeEvent?, s: seq<TimeEvent>, infos: seq<Info>)
    reads s
  {
    && Distinct(s) && |infos| == |s| && head == (if s == [] then null else s[0])
    && (s != [] ==> s[0].prev == prev && s[|s| - 1].next == null)
    && (forall i, j :: 0 <= i < |s| && j == i + 1 < |s| ==> s[i].next == s[j] && s[j].prev == s[i])
    && (forall i :: 0 <= i < |s| ==> infos[i] == Info(s[i].id, s[i].when))
  }

  lemma {:induction false} ListLinked(prev: TimeEvent?, head: TimeEvent?, s: seq<TimeEvent>, infos: seq<Info>)
    requires List(prev, head, s, infos)
    ensures Linked(prev, head, s, infos)
    decreases |s|
  {
    if s != [] {
      var t, rest := s[1..], infos[1..];
      ListLinked(s[0], s[0].next, t, rest);
      assert forall i :: 0 < i < |s| ==> s[i] == t[i - 1] && infos[i] == rest[i - 1];
    }
  }

  lemma {:induction false} LinkedList(prev: TimeEvent?, head: TimeEvent?, s: seq<TimeEvent>, infos: seq<Info>)
    requires Linked(prev, head, s, infos)
    ensures List(prev, head, s, infos)
    decreases |s|
  {
    if s != [] {
      var t, rest := s[1..], infos[1..];
      assert forall i :: 0 <= i < |t| ==> t[i] == s[i + 1] && rest[i] == infos[i + 1];
      LinkedList(s[0], s[0].next, t, rest);
    }
  }

  /** One node: its neighbours and what it holds. */
  lemma {:induction false} ListAt(head: TimeEvent?, s: seq<TimeEvent>, infos: seq<Info>, k: nat)
    requires List(null, head, s, infos) && k < |s|
    ensures s[k].next == (if k + 1 < |s| then s[k + 1] else null) && s[k].prev == if k > 0 then s[k - 1] else null
    ensures |infos| == |s| && infos[k] == Info(s[k].id, s[k].when)
  {
    ListLinked(null, head, s, infos);
    if k + 1 < |s| { assert s[k].next == s[k + 1]; }
    if k > 0 { assert s[k - 1].next == s[k]; }
  }

  function Removed<T>(s: seq<T>, k: nat): seq<T>
    requires k < |s|
  {
    s[..k] + s[k + 1..]
  }

  /** Puts a new timer in front of a list. */
  method PushFront(id: int, when: Time, finalizer: bool, head: TimeEvent?, ghost s: seq<TimeEvent>,
                   ghost infos: seq<Info>)
    returns (te: TimeEvent)
    requires List(null, head, s, infos)
    modifies s
    ensures fresh(te) && te.finalizer == finalizer && List(null, te, [te] + s, [Info(id, when)] + infos)
  {
    te := new TimeEvent(id, when, finalizer);
    te.prev := null;
    te.next := head;
    if te.next != null {
      te.next.prev := te;
    }
    ghost var t, all := [te] + s, [Info(id, when)] + infos;
    assert t[1..] == s && all[1..] == infos;
    assert List(te, te.next, s, infos);
  }

  method SetId(te: TimeEvent, id: int, ghost head: TimeEvent?, ghost s: seq<TimeEvent>, ghost infos: seq<Info>,
               ghost k: nat)
    requires List(null, head, s, infos) && k < |s| && s[k] == te
    modifies te`id
    ensures List(null, head, s, infos[k := Info(id, infos[k].when)])
  {
    ListLinked(null, head, s, infos);
    te.id := id;
    LinkedList(null, head, s, infos[k := Info(id, infos[k].when)]);
  }

  method SetWhen(te: TimeEvent, when: Time, ghost head: TimeEvent?, ghost s: seq<TimeEvent>, ghost infos: seq<Info>,
                 ghost k: nat)
    requires List(null, head, s, infos) && k < |s| && s[k] == te
    modifies te`when
    ensures List(null, head, s, infos[k := Info(infos[k].id, when)])
  {
    ListLinked(null, head, s, infos);
    te.when := when;
    LinkedList(null, head, s, infos[k := Info(infos[k].id, when)]);
  }

  lemma RemovedAt<T>(s: seq<T>, k: nat)
    requires k < |s|
    ensures |Removed(s, k)| == |s| - 1 && forall i :: 0 <= i < |s| - 1 ==> Removed(s, k)[i] == s[if i < k then i else i + 1]
  { }

  /** Takes a timer out of the list; returns the new head, and the timer that followed. */
  method Unlink(te: TimeEvent, head: TimeEvent?, ghost s: seq<TimeEvent>, ghost infos: seq<Info>, ghost k: nat)
    returns (h: TimeEvent?, next: TimeEvent?)
    requires List(null, head, s, infos) && k < |s| && s[k] == te
    modifies s
    ensures k < |infos| && List(null, h, Removed(s, k), Removed(infos, k))
    ensures next == if k + 1 < |s| then s[k + 1] else null
  {
    ListLinked(null, head, s, infos);
    ListAt(head, s, infos, k);
    next := te.next;
    h := head;
    if te.prev != null {
      te.prev.next := te.next;
    } else {
      h := te.next;
    }
    if te.next != null {
      te.next.prev := te.prev;
    }
    RemovedAt(s, k);
    RemovedAt(infos, k);
    LinkedList(null, h, Removed(s, k), Removed(infos, k));
  }

  // ---------- ids ----------

  /** Ids count up, and only the mark of deletion occurs twice. */
  ghost predicate IdsOk(s: seq<Info>, next: int) {
    && next >= 0
    && (forall i :: 0 <= i < |s| ==> AE_DELETED_EVENT_ID <= s[i].id < next)
    && (forall i, j :: 0 <= i < j < |s| && s[i].id == s[j].id ==> s[i].id == AE_DELETED_EVENT_ID)
  }

  function MarkAll(s: seq<Info>, deleted: set<int>): (r: seq<Info>)
    ensures |r| == |s|
  {
    if s == [] then [] else [Info(Marked(s[0].id, deleted), s[0].when)] + MarkAll(s[1..], deleted)
  }

  lemma {:induction false} MarkAllAt(s: seq<Info>, deleted: set<int>, i: nat)
    requires i < |s|
    ensures MarkAll(s, deleted)[i] == Info(Marked(s[i].id, deleted), s[i].when)
  {
    if i > 0 { MarkAllAt(s[1..], deleted, i - 1); }
  }

  lemma {:induction false} IdsMarked(s: seq<Info>, next: int, deleted: set<int>)
    requires IdsOk(s, next)
    ensures IdsOk(MarkAll(s, deleted), next)
  {
    var r := MarkAll(s, deleted);
    forall i | 0 <= i < |s| ensures r[i] == Info(Marked(s[i].id, deleted), s[i].when) {
      MarkAllAt(s, deleted, i);
    }
  }

  lemma {:induction false} IdsPushed(s: seq<Info>, next: int, when: Time)
    requires IdsOk(s, next)
    ensures IdsOk([Info(next, when)] + s, next + 1)
  { }

  lemma {:induction false} MarkedTwice(s: seq<Info>, a: set<int>, b: set<int>)
    ensures MarkAll(MarkAll(s, a), b) == MarkAll(s, a + b)
  {
    if s != [] {
      MarkedTwice(s[1..], a, b);
      assert MarkAll(s, a)[1..] == MarkAll(s[1..], a);
    }
  }

  lemma {:induction false} MarkedNothing(s: seq<Info>)
    ensures MarkAll(s, {}) == s
  {
    if s != [] { MarkedNothing(s[1..]); }
  }

  lemma {:induction false} MarkedConcat(a: seq<Info>, b: seq<Info>, deleted: set<int>)
    ensures MarkAll(a + b, deleted) == MarkAll(a, deleted) + MarkAll(b, deleted)
  {
    if a == [] {
      assert a + b == b;
    } else {
      MarkedConcat(a[1..], b, deleted);
      assert (a + b)[1..] == a[1..] + b && (a + b)[0] == a[0];
    }
  }

  /** The only timer with a live id is the one to mark. */
  lemma {:induction false} MarkOne(s: seq<Info>, next: int, k: nat)
    requires IdsOk(s, next) && k < |s|
    ensures MarkAll(s, {s[k].id}) == s[k := Info(AE_DELETED_EVENT_ID, s[k].when)]
  {
    var r := MarkAll(s, {s[k].id});
    forall i | 0 <= i < |s| ensures r[i] == s[k := Info(AE_DELETED_EVENT_ID, s[k].when)][i] {
      MarkAllAt(s, {s[k].id}, i);
    }
  }

  lemma {:induction false} MarkNone(s: seq<Info>, id: int)
    requires forall i :: 0 <= i < |s| ==> s[i].id != id
    ensures MarkAll(s, {id}) == s
  {
    forall i | 0 <= i < |s| ensures MarkAll(s, {id})[i] == s[i] {
      MarkAllAt(s, {id}, i);
    }
  }

  lemma {:induction false} IdsRemoved(s: seq<Info>, next: int, k: nat)
    requires IdsOk(s, next) && k < |s|
    ensures IdsOk(Removed(s, k), next)
  {
    var r := Removed(s, k);
    assert forall i :: 0 <= i < |r| ==> r[i] == s[if i < k then i else i + 1];
  }

  lemma {:induction false} IdsSame(s: seq<Info>, next: int, k: nat, when: Time)
    requires IdsOk(s, next) && k < |s|
    ensures IdsOk(s[k := Info(s[k].id, when)], next)
  { }

  lemma {:induction false} IdsDropped(s: seq<Info>, next: int, k: nat)
    requires IdsOk(s, next) && k < |s|
    ensures IdsOk(s[k := Info(AE_DELETED_EVENT_ID, s[k].when)], next)
  { }

  function Forgotten(s: seq<Info>): (r: seq<Info>)
    ensures |r| == |s|
  {
    if s == [] then [] else Forgotten(s[..|s| - 1]) + [Info(s[|s| - 1].id, Time(0, s[|s| - 1].when.ms))]
  }

  /** The first `k` forgotten, the others as they were. */
  function ForgottenTo(s: seq<Info>, k: nat): (r: seq<Info>)
    requires k <= |s|
    ensures |r| == |s|
  {
    Forgotten(s[..k]) + s[k..]
  }

  lemma ForgottenMore(s: seq<Info>, k: nat)
    requires k < |s|
    ensures ForgottenTo(s, k)[k] == s[k]
    ensures ForgottenTo(s, k)[k := Info(s[k].id, Time(0, s[k].when.ms))] == ForgottenTo(s, k + 1)
  {
    assert s[..k + 1][..k] == s[..k];
  }

  lemma RemovedMiddle<T>(a: seq<T>, x: T, b: seq<T>)
    ensures Removed(a + ([x] + b), |a|) == a + b && (a + ([x] + b))[|a|] == x
    ensures |a| + 1 < |a + ([x] + b)| <==> b != []
    ensures b != [] ==> (a + ([x] + b))[|a| + 1] == b[0]
  { }

  /** A timer after its callback: set again, or marked. */
  function Finished(info: Info, result: int, now: Time): Info {
    if result != AE_NOMORE then Info(info.id, Later(now, result)) else Info(AE_DELETED_EVENT_ID, info.when)
  }

  // ---------- a pass, as values ----------

  /**
   What a pass finds when it reaches a timer, and what comes of it. A pass is described by the sequence of its visits,
   one for each timer that was there when it began: `Found` says in what state a timer is reached, `Calls` which
   callbacks run, `Kept` and `KeptInfos` what is left. `Passing` is the state of the list between two visits, with the
   timers that were added in front.
   */
  datatype Visit = Visit(id: int, when: Time, now: Time, result: int, again: Time)

  datatype Call = Fired(event: TimeEvent, id: int) | Finalised(event: TimeEvent)

  predicate Marks(v: Visit) {
    v.id == AE_DELETED_EVENT_ID
  }

  predicate Fires(v: Visit) {
    v.id != AE_DELETED_EVENT_ID && Due(v.now, v.when)
  }

  function CallOf(e: TimeEvent, v: Visit): seq<Call> {
    if Marks(v) then if e.finalizer then [Finalised(e)] else [] else if Fires(v) then [Fired(e, v.id)] else []
  }

  datatype Pass = Pass(visits: seq<Visit>, calls: seq<Call>, added: seq<TimeEvent>, news: seq<Info>)

  /** The callbacks that a pass runs, in order. */
  function Calls(es: seq<TimeEvent>, visits: seq<Visit>): seq<Call>
    requires |visits| <= |es|
  {
    if visits == [] then []
    else var n := |visits| - 1; Calls(es, visits[..n]) + CallOf(es[n], visits[n])
  }

  function FiredCount(visits: seq<Visit>): nat {
    if visits == [] then 0 else FiredCount(visits[..|visits| - 1]) + if Fires(visits[|visits| - 1]) then 1 else 0
  }

  function TimesFired(calls: seq<Call>, e: TimeEvent): nat {
    if calls == [] then 0
    else TimesFired(calls[..|calls| - 1], e) + if calls[|calls| - 1].Fired? && calls[|calls| - 1].event == e then 1 else 0
  }

  function TimesFinalised(calls: seq<Call>, e: TimeEvent): nat {
    if calls == [] then 0
    else TimesFinalised(calls[..|calls| - 1], e) + if calls[|calls| - 1].Finalised? && calls[|calls| - 1].event == e then 1 else 0
  }

  /** A timer that is not among those that were there, a new one for instance, never fires and is not finalised. */
  lemma {:induction false} OthersNever(es: seq<TimeEvent>, visits: seq<Visit>, e: TimeEvent)
    requires |visits| <= |es| && forall j :: 0 <= j < |visits| ==> es[j] != e
    ensures TimesFired(Calls(es, visits), e) == 0 && TimesFinalised(Calls(es, visits), e) == 0
  {
    if visits != [] {
      var n := |visits| - 1;
      OthersNever(es, visits[..n], e);
      LastVisit(es, visits, e);
    }
  }

  /**
   Every timer that was there fires exactly once if it is live and due when the pass reaches it, and else not at all; it
   is finalised exactly once if it is marked then and has a finaliser.
   */
  lemma {:induction false} EachOnce(es: seq<TimeEvent>, visits: seq<Visit>, j: nat, e: TimeEvent)
    requires j < |visits| <= |es| && e == es[j] && forall i :: 0 <= i < |visits| && i != j ==> es[i] != e
    ensures TimesFired(Calls(es, visits), e) == if Fires(visits[j]) then 1 else 0
    ensures TimesFinalised(Calls(es, visits), e) == if Marks(visits[j]) && e.finalizer then 1 else 0
    decreases |visits|
  {
    var n := |visits| - 1;
    var before := visits[..n];
    var was := Calls(es, before);
    assert TimesFired(was, e) == (if j < n && Fires(visits[j]) then 1 else 0)
        && TimesFinalised(was, e) == (if j < n && Marks(visits[j]) && e.finalizer then 1 else 0) by {
      if j < n {
        assert before[j] == visits[j];
        EachOnce(es, before, j, e);
      } else {
        OthersNever(es, before, e);
      }
    }
    OneMore(was, es[n], visits[n], e);
    assert Calls(es, visits) == was + CallOf(es[n], visits[n]);
  }

  /** Each timer that was there is called as it was found. */
  ghost predicate EachFound(es: seq<TimeEvent>, p: Pass) {
    && |p.visits| == |es|
    && forall j :: 0 <= j < |es| ==>
         && TimesFired(p.calls, es[j]) == (if Fires(p.visits[j]) then 1 else 0)
         && TimesFinalised(p.calls, es[j]) == (if Marks(p.visits[j]) && es[j].finalizer then 1 else 0)
  }

  /** No timer that was added is called. */
  ghost predicate NoneAdded(p: Pass) {
    forall i :: 0 <= i < |p.added| ==> TimesFired(p.calls, p.added[i]) == TimesFinalised(p.calls, p.added[i]) == 0
  }

  /** What a whole pass calls, timer by timer. */
  lemma {:induction false} PassCalls(w: World, es: seq<TimeEvent>, start: seq<Info>, from: int, p: Pass,
                                     events: seq<TimeEvent>, infos: seq<Info>)
    requires PassDone(w, es, start, from, p, events, infos) && Distinct(es)
    ensures EachFound(es, p) && NoneAdded(p)
  {
    forall j | 0 <= j < |es|
      ensures TimesFired(p.calls, es[j]) == (if Fires(p.visits[j]) then 1 else 0)
      ensures TimesFinalised(p.calls, es[j]) == (if Marks(p.visits[j]) && es[j].finalizer then 1 else 0)
    {
      EachOnce(es, p.visits, j, es[j]);
    }
    forall i | 0 <= i < |p.added| ensures TimesFired(p.calls, p.added[i]) == TimesFinalised(p.calls, p.added[i]) == 0 {
      OthersNever(es, p.visits, p.added[i]);
    }
  }

  lemma {:induction false} LastVisit(es: seq<TimeEvent>, visits: seq<Visit>, e: TimeEvent)
    requires 0 < |visits| <= |es|
    ensures var n := |visits| - 1;
      && TimesFired(Calls(es, visits), e) == TimesFired(Calls(es, visits[..n]), e) + (if es[n] == e && Fires(visits[n]) then 1 else 0)
      && TimesFinalised(Calls(es, visits), e)
         == TimesFinalised(Calls(es, visits[..n]), e) + if es[n] == e && Marks(visits[n]) && e.finalizer then 1 else 0
  {
    var n := |visits| - 1;
    OneMore(Calls(es, visits[..n]), es[n], visits[n], e);
  }

  lemma {:induction false} OneMore(calls: seq<Call>, t: TimeEvent, v: Visit, e: TimeEvent)
    ensures TimesFired(calls + CallOf(t, v), e) == TimesFired(calls, e) + if t == e && Fires(v) then 1 else 0
    ensures TimesFinalised(calls + CallOf(t, v), e) == TimesFinalised(calls, e) + if t == e && Marks(v) && e.finalizer then 1 else 0
  {
    var c := CallOf(t, v);
    if c != [] {
      Last(calls, c[0]);
    } else {
      assert calls + c == calls;
    }
  }

  /** The timers that a pass leaves linked. */
  function Kept(es: seq<TimeEvent>, visits: seq<Visit>): seq<TimeEvent>
    requires |visits| <= |es|
  {
    if visits == [] then []
    else var n := |visits| - 1; Kept(es, visits[..n]) + if Marks(visits[n]) then [] else [es[n]]
  }

  function Left(v: Visit): Info {
    if Fires(v) then Finished(Info(v.id, v.when), v.result, v.again) else Info(v.id, v.when)
  }

  /** What they hold then: fired ones set again or marked, and those marked that callbacks have deleted. */
  function KeptInfos(visits: seq<Visit>, deleted: set<int>): seq<Info> {
    if visits == [] then []
    else
      var v := visits[|visits| - 1];
      KeptInfos(visits[..|visits| - 1], deleted) + if Marks(v) then [] else [Info(Marked(Left(v).id, deleted), Left(v).when)]
  }

  /** A timer is found as it was when the pass began, unless one of the callbacks run before has deleted it. */
  ghost predicate Found(w: World, info: Info, v: Visit, asked: nat) {
    && v.id == Marked(info.id, DeletedBy(w, asked)) && v.when == info.when
    && (!Marks(v) ==> exists n: nat :: v.now == w.clock(n))
    && (Fires(v) ==> v.result == w.callback(asked).result && exists n: nat :: v.again == w.clock(n))
  }

  ghost predicate AllFound(w: World, es: seq<TimeEvent>, start: seq<Info>, visits: seq<Visit>)
    requires |visits| <= |es| == |start|
  {
    forall j :: 0 <= j < |visits| ==> Found(w, start[j], visits[j], |Calls(es, visits[..j])|)
  }

  /** The list in the middle of a pass: new timers, those passed, and those to come. */
  ghost predicate Passing(w: World, es: seq<TimeEvent>, start: seq<Info>, visits: seq<Visit>, asked: nat,
                          added: seq<TimeEvent>, news: seq<Info>, events: seq<TimeEvent>, infos: seq<Info>)
    requires |visits| <= |es| == |start|
  {
    var k, deleted := |visits|, DeletedBy(w, asked);
    && |added| == |news|
    && events == (added + Kept(es, visits)) + es[k..]
    && infos == (news + KeptInfos(visits, deleted)) + MarkAll(start[k..], deleted)
  }

  lemma {:induction false} KeptLength(es: seq<TimeEvent>, visits: seq<Visit>, deleted: set<int>)
    requires |visits| <= |es|
    ensures |Kept(es, visits)| == |KeptInfos(visits, deleted)|
  {
    if visits != [] { KeptLength(es, visits[..|visits| - 1], deleted); }
  }

  lemma {:induction false} KeptMarked(visits: seq<Visit>, deleted: set<int>, d: set<int>)
    ensures MarkAll(KeptInfos(visits, deleted), d) == KeptInfos(visits, deleted + d)
  {
    if visits != [] {
      var v := visits[|visits| - 1];
      var last := if Marks(v) then [] else [Info(Marked(Left(v).id, deleted), Left(v).when)];
      KeptMarked(visits[..|visits| - 1], deleted, d);
      MarkedConcat(KeptInfos(visits[..|visits| - 1], deleted), last, d);
      MarkedOne(last, d);
    }
  }

  lemma MarkedOne(s: seq<Info>, d: set<int>)
    requires |s| <= 1
    ensures MarkAll(s, d) == if s == [] then [] else [Info(Marked(s[0].id, d), s[0].when)]
  { }

  lemma Last<T>(s: seq<T>, x: T)
    ensures (s + [x])[..|s|] == s && (s + [x])[|s|] == x
  { }

  /** One more visit. */
  lemma {:induction false} FoundMore(w: World, es: seq<TimeEvent>, start: seq<Info>, visits: seq<Visit>, v: Visit)
    requires |visits| < |es| == |start| && AllFound(w, es, start, visits)
    requires Found(w, start[|visits|], v, |Calls(es, visits)|)
    ensures AllFound(w, es, start, visits + [v])
    ensures Calls(es, visits + [v]) == Calls(es, visits) + CallOf(es[|visits|], v)
  {
    var more := visits + [v];
    Last(visits, v);
    forall j | 0 <= j < |more| ensures Found(w, start[j], more[j], |Calls(es, more[..j])|) {
      if j < |visits| { assert more[..j] == visits[..j]; }
    }
  }

  /** The list split at the timer to visit, and what that timer holds. */
  lemma {:induction false} PassingSplit(w: World, es: seq<TimeEvent>, start: seq<Info>, visits: seq<Visit>, asked: nat,
                      added: seq<TimeEvent>, news: seq<Info>, events: seq<TimeEvent>, infos: seq<Info>)
    requires |visits| < |es| == |start| && Passing(w, es, start, visits, asked, added, news, events, infos)
    ensures var k, deleted := |visits|, DeletedBy(w, asked);
      var front, fi := added + Kept(es, visits), news + KeptInfos(visits, deleted);
      var ti := Info(Marked(start[k].id, deleted), start[k].when);
      && |front| == |fi| && events == front + ([es[k]] + es[k + 1..]) && infos == fi + ([ti] + MarkAll(start[k + 1..], deleted))
      && |front| < |events| == |infos| && events[|front|] == es[k] && infos[|front|] == ti
  {
    var k, deleted := |visits|, DeletedBy(w, asked);
    KeptLength(es, visits, deleted);
    assert es[k..] == [es[k]] + es[k + 1..];
    assert start[k..][0] == start[k] && start[k..][1..] == start[k + 1..];
    MarkAllLength(start[k + 1..], deleted);
  }

  lemma MarkAllLength(s: seq<Info>, d: set<int>)
    ensures |MarkAll(s, d)| == |s|
  { }

  /** A live timer that is not due stays. */
  lemma {:induction false} PassedOver(w: World, es: seq<TimeEvent>, start: seq<Info>, visits: seq<Visit>, v: Visit,
                                      asked: nat,
                    added: seq<TimeEvent>, news: seq<Info>, events: seq<TimeEvent>, infos: seq<Info>)
    requires |visits| < |es| == |start| && Passing(w, es, start, visits, asked, added, news, events, infos)
    requires Found(w, start[|visits|], v, asked) && !Marks(v) && !Fires(v)
    ensures Passing(w, es, start, visits + [v], asked, added, news, events, infos)
  {
    var k, deleted := |visits|, DeletedBy(w, asked);
    PassingSplit(w, es, start, visits, asked, added, news, events, infos);
    Last(visits, v);
    Regrouped(added, Kept(es, visits), es[k], es[k + 1..]);
    var ti := Info(Marked(start[k].id, deleted), start[k].when);
    Regrouped(news, KeptInfos(visits, deleted), ti, MarkAll(start[k + 1..], deleted));
    assert Info(Marked(Left(v).id, deleted), Left(v).when) == ti;
  }

  lemma Regrouped<T>(a: seq<T>, b: seq<T>, x: T, c: seq<T>)
    ensures (a + b) + ([x] + c) == (a + (b + [x])) + c
  { }

  lemma Fronted<T>(a: seq<T>, b: seq<T>, c: seq<T>, d: seq<T>)
    ensures a + ((b + c) + d) == ((a + b) + c) + d
  { }

  lemma {:induction false} ReapedInfos(start: seq<Info>, visits: seq<Visit>, k: nat, deleted: set<int>,
                                       news: seq<Info>, moreNews: seq<Info>, d: set<int>)
    requires k < |start|
    ensures moreNews + MarkAll((news + KeptInfos(visits, deleted)) + MarkAll(start[k + 1..], deleted), d)
         == ((moreNews + MarkAll(news, d)) + KeptInfos(visits, deleted + d)) + MarkAll(start[k + 1..], deleted + d)
  {
    var kept, rest := KeptInfos(visits, deleted), MarkAll(start[k + 1..], deleted);
    MarkedConcat(news + kept, rest, d);
    MarkedConcat(news, kept, d);
    KeptMarked(visits, deleted, d);
    MarkedTwice(start[k + 1..], deleted, d);
    Fronted(moreNews, MarkAll(news, d), MarkAll(kept, d), MarkAll(rest, d));
  }

  lemma {:induction false} KeptMarks(es: seq<TimeEvent>, visits: seq<Visit>, v: Visit, deleted: set<int>)
    requires |visits| < |es| && Marks(v)
    ensures Kept(es, visits + [v]) == Kept(es, visits) && KeptInfos(visits + [v], deleted) == KeptInfos(visits, deleted)
  {
    Last(visits, v);
  }

  /** A marked timer is gone. */
  lemma {:induction false} Reaped(w: World, es: seq<TimeEvent>, start: seq<Info>, visits: seq<Visit>, v: Visit,
                                  asked: nat,
                added: seq<TimeEvent>, news: seq<Info>, more: seq<TimeEvent>, moreNews: seq<Info>, asks: bool)
    requires |visits| < |es| == |start| && |added| == |news| && |more| == |moreNews| && Marks(v)
    ensures var k, deleted := |visits|, DeletedBy(w, asked);
      var d := if asks then Asked(w, asked) else {};
      var front, fi := added + Kept(es, visits), news + KeptInfos(visits, deleted);
      Passing(w, es, start, visits + [v], if asks then asked + 1 else asked, more + added, moreNews + MarkAll(news, d),
              more + (front + es[k + 1..]), moreNews + MarkAll(fi + MarkAll(start[k + 1..], deleted), d))
  {
    var k, deleted := |visits|, DeletedBy(w, asked);
    var d := if asks then Asked(w, asked) else {};
    assert DeletedBy(w, if asks then asked + 1 else asked) == deleted + d;
    KeptMarks(es, visits, v, deleted + d);
    Fronted(more, added, Kept(es, visits), es[k + 1..]);
    ReapedInfos(start, visits, k, deleted, news, moreNews, d);
    MarkAllLength(news, d);
  }

  /** A due timer is set again or marked, and stays. */
  lemma {:induction false} FiredStep(w: World, es: seq<TimeEvent>, start: seq<Info>, visits: seq<Visit>, v: Visit,
                                     asked: nat,
                   added: seq<TimeEvent>, news: seq<Info>, more: seq<TimeEvent>, moreNews: seq<Info>)
    requires |visits| < |es| == |start| && |added| == |news| && |more| == |moreNews|
    requires Fires(v) && v.id == Marked(start[|visits|].id, DeletedBy(w, asked)) && v.when == start[|visits|].when
    ensures var k, deleted := |visits|, DeletedBy(w, asked);
      var d := Asked(w, asked);
      var front, fi := added + Kept(es, visits), news + KeptInfos(visits, deleted);
      var infos := fi + ([Info(v.id, v.when)] + MarkAll(start[k + 1..], deleted));
      var marked := MarkAll(infos, d);
      && |front| < |marked|
      && Passing(w, es, start, visits + [v], asked + 1, more + added, moreNews + MarkAll(news, d),
                 more + (front + ([es[k]] + es[k + 1..])), moreNews + marked[|front| := Finished(marked[|front|], v.result, v.again)])
  {
    var k, deleted := |visits|, DeletedBy(w, asked);
    var d := Asked(w, asked);
    var kept, rest, ti := KeptInfos(visits, deleted), MarkAll(start[k + 1..], deleted), Info(v.id, v.when);
    var last := Info(Marked(Left(v).id, deleted + d), Left(v).when);
    KeptLength(es, visits, deleted);
    Last(visits, v);
    Regrouped(added, Kept(es, visits), es[k], es[k + 1..]);
    Fronted(more, added, Kept(es, visits) + [es[k]], es[k + 1..]);
    MarkedMiddle(news, kept, ti, rest, d, v.result, v.again);
    KeptMarked(visits, deleted, d);
    MarkedTwice(start[k + 1..], deleted, d);
    assert Finished(Info(Marked(ti.id, d), ti.when), v.result, v.again) == last;
    Fronted(moreNews, MarkAll(news, d), MarkAll(kept, d) + [last], MarkAll(rest, d));
    MarkAllLength(news, d);
  }

  /** Marking everywhere and finishing the timer in the middle. */
  lemma {:induction false} MarkedMiddle(news: seq<Info>, kept: seq<Info>, ti: Info, rest: seq<Info>, d: set<int>,
                                        result: int, now: Time)
    ensures var marked := MarkAll((news + kept) + ([ti] + rest), d);
      var k := |news + kept|;
      && k < |marked|
      && marked[k := Finished(marked[k], result, now)]
         == (MarkAll(news, d) + (MarkAll(kept, d) + [Finished(Info(Marked(ti.id, d), ti.when), result, now)])) + MarkAll(rest, d)
  {
    MarkedConcat(news + kept, [ti] + rest, d);
    MarkedConcat(news, kept, d);
    assert ([ti] + rest)[1..] == rest;
  }

  // ---------- a pass, one visit at a time ----------

  /** The timer at place `k`, null behind the end. */
  function At(es: seq<TimeEvent>, k: nat): TimeEvent? {
    if k < |es| then es[k] else null
  }

  /** No timer that was added is one that was there. */
  ghost predicate Apart(added: seq<TimeEvent>, es: seq<TimeEvent>) {
    forall i, j :: 0 <= i < |added| && 0 <= j < |es| ==> added[i] != es[j]
  }

  lemma ApartMore(more: seq<TimeEvent>, added: seq<TimeEvent>, es: seq<TimeEvent>)
    requires Apart(more, es) && Apart(added, es)
    ensures Apart(more + added, es)
  { }

  /** The state of a pass between two visits. */
  ghost predicate PassOk(w: World, es: seq<TimeEvent>, start: seq<Info>, from: int, p: Pass, events: seq<TimeEvent>,
                         infos: seq<Info>) {
    && |p.visits| <= |es| == |start|
    && Passing(w, es, start, p.visits, |p.calls|, p.added, p.news, events, infos)
    && AllFound(w, es, start, p.visits) && p.calls == Calls(es, p.visits) && AllNew(p.news, from) && Apart(p.added, es)
  }

  /** The list split at the timer to visit, and what that timer holds. */
  datatype View = View(front: seq<TimeEvent>, fi: seq<Info>, ti: Info, rest: seq<TimeEvent>, ri: seq<Info>)

  ghost function ViewOf(w: World, es: seq<TimeEvent>, start: seq<Info>, p: Pass): View
    requires |p.visits| < |es| == |start|
  {
    var k, deleted := |p.visits|, DeletedBy(w, |p.calls|);
    View(p.added + Kept(es, p.visits), p.news + KeptInfos(p.visits, deleted), Info(Marked(start[k].id, deleted), start[k].when),
         es[k + 1..], MarkAll(start[k + 1..], deleted))
  }

  lemma {:induction false} PassView(w: World, es: seq<TimeEvent>, start: seq<Info>, from: int, p: Pass,
                                    events: seq<TimeEvent>, infos: seq<Info>, x: View)
    requires PassOk(w, es, start, from, p, events, infos) && |p.visits| < |es| && x == ViewOf(w, es, start, p)
    ensures |x.front| == |x.fi| && |x.rest| == |x.ri| && events == x.front + ([es[|p.visits|]] + x.rest) && infos == x.fi + ([x.ti] + x.ri)
    ensures |x.front| < |events| == |infos| && events[|x.front|] == es[|p.visits|] && infos[|x.front|] == x.ti
  {
    PassingSplit(w, es, start, p.visits, |p.calls|, p.added, p.news, events, infos);
    MarkAllLength(start[|p.visits| + 1..], DeletedBy(w, |p.calls|));
  }

  /** What a whole pass has done. */
  ghost predicate PassDone(w: World, es: seq<TimeEvent>, start: seq<Info>, from: int, p: Pass, events: seq<TimeEvent>,
                           infos: seq<Info>) {
    && |p.visits| == |es| == |start| && AllFound(w, es, start, p.visits) && p.calls == Calls(es, p.visits)
    && events == p.added + Kept(es, p.visits) && infos == p.news + KeptInfos(p.visits, DeletedBy(w, |p.calls|))
    && |p.added| == |p.news| && AllNew(p.news, from) && Apart(p.added, es)
  }

  lemma PassEnd(w: World, es: seq<TimeEvent>, start: seq<Info>, from: int, p: Pass, events: seq<TimeEvent>,
                infos: seq<Info>)
    requires PassOk(w, es, start, from, p, events, infos) && |p.visits| == |es|
    ensures PassDone(w, es, start, from, p, events, infos)
  {
    assert es[|es|..] == [] && start[|es|..] == [];
  }

  lemma AddedFirst(w: World, es: seq<TimeEvent>, start: seq<Info>, from: int, p: Pass, events: seq<TimeEvent>,
                   infos: seq<Info>)
    requires PassDone(w, es, start, from, p, events, infos)
    ensures |p.added| <= |events|
    ensures forall i :: 0 <= i < |p.added| ==> p.added[i] == events[i] && p.added[i] !in es
  { }

  /** Where the timer just passed stands, and the one that follows it. */
  lemma {:induction false} JustPassed(w: World, es: seq<TimeEvent>, start: seq<Info>, from: int, p: Pass,
                                      events: seq<TimeEvent>, infos: seq<Info>)
    returns (k: nat)
    requires PassOk(w, es, start, from, p, events, infos) && p.visits != [] && !Marks(p.visits[|p.visits| - 1])
    ensures k < |events| && events[k] == es[|p.visits| - 1]
    ensures if |p.visits| < |es| then k + 1 < |events| && events[k + 1] == es[|p.visits|] else k + 1 == |events|
  {
    k := |p.added + Kept(es, p.visits)| - 1;
  }

  lemma HeadOf(head: TimeEvent?, es: seq<TimeEvent>, start: seq<Info>)
    requires List(null, head, es, start)
    ensures |es| == |start| && head == if 0 < |es| then es[0] else null
  { }

  lemma PassBegin(w: World, es: seq<TimeEvent>, start: seq<Info>, from: int)
    requires |es| == |start|
    ensures PassOk(w, es, start, from, Pass([], [], [], []), es, start)
  {
    MarkedNothing(start);
    assert es[0..] == es && start[0..] == start;
  }

  lemma {:induction false} MarkedVisit(w: World, es: seq<TimeEvent>, start: seq<Info>, from: int, p: Pass, x: View,
                                       more: seq<TimeEvent>, moreNews: seq<Info>, events: seq<TimeEvent>, infos: seq<Info>)
    returns (q: Pass)
    requires PassOk(w, es, start, from, p, events, infos) && |p.visits| < |es| && x == ViewOf(w, es, start, p)
    requires x.ti.id == AE_DELETED_EVENT_ID && |more| == |moreNews| && AllNew(moreNews, from) && Apart(more, es)
    ensures var asks := es[|p.visits|].finalizer;
      && PassOk(w, es, start, from, q, more + (x.front + x.rest), moreNews + MarkAll(x.fi + x.ri, if asks then Asked(w, |p.calls|) else {}))
      && q.calls == p.calls + (if asks then [Finalised(es[|p.visits|])] else [])
    ensures |q.visits| == |p.visits| + 1 && FiredCount(q.visits) == FiredCount(p.visits)
  {
    var te, asked := es[|p.visits|], |p.calls|;
    var v := Visit(AE_DELETED_EVENT_ID, start[|p.visits|].when, Time(0, 0), 0, Time(0, 0));
    var d := if te.finalizer then Asked(w, asked) else {};
    Reaped(w, es, start, p.visits, v, asked, p.added, p.news, more, moreNews, te.finalizer);
    FoundMore(w, es, start, p.visits, v);
    NewMarked(p.news, from, d);
    ApartMore(more, p.added, es);
    Last(p.visits, v);
    q := Pass(p.visits + [v], p.calls + CallOf(te, v), more + p.added, moreNews + MarkAll(p.news, d));
  }

  lemma {:induction false} EarlyVisit(w: World, es: seq<TimeEvent>, start: seq<Info>, from: int, p: Pass, x: View,
                                      now: Time, tick: nat, events: seq<TimeEvent>, infos: seq<Info>)
    returns (q: Pass)
    requires PassOk(w, es, start, from, p, events, infos) && |p.visits| < |es| && x == ViewOf(w, es, start, p)
    requires x.ti.id != AE_DELETED_EVENT_ID && now == w.clock(tick) && !Due(now, x.ti.when)
    ensures PassOk(w, es, start, from, q, events, infos) && q.calls == p.calls
    ensures |q.visits| == |p.visits| + 1 && FiredCount(q.visits) == FiredCount(p.visits) && !Marks(q.visits[|p.visits|])
  {
    var v := Visit(x.ti.id, x.ti.when, now, 0, Time(0, 0));
    PassedOver(w, es, start, p.visits, v, |p.calls|, p.added, p.news, events, infos);
    FoundMore(w, es, start, p.visits, v);
    Last(p.visits, v);
    q := p.(visits := p.visits + [v]);
  }

  lemma {:induction false} DueVisit(w: World, es: seq<TimeEvent>, start: seq<Info>, from: int, p: Pass, x: View,
                                    now: Time, tick: nat, again: Time, tock: nat,
                                    more: seq<TimeEvent>, moreNews: seq<Info>, events: seq<TimeEvent>, infos: seq<Info>)
    returns (q: Pass)
    requires PassOk(w, es, start, from, p, events, infos) && |p.visits| < |es| && x == ViewOf(w, es, start, p)
    requires x.ti.id != AE_DELETED_EVENT_ID && now == w.clock(tick) && again == w.clock(tock) && Due(now, x.ti.when)
    requires |more| == |moreNews| && AllNew(moreNews, from) && Apart(more, es)
    ensures var marked := MarkAll(infos, Asked(w, |p.calls|));
      && |x.front| < |marked|
      && PassOk(w, es, start, from, q, more + events, moreNews + marked[|x.front| := Finished(marked[|x.front|], w.callback(|p.calls|).result, again)])
    ensures q.calls == p.calls + [Fired(es[|p.visits|], x.ti.id)]
    ensures |q.visits| == |p.visits| + 1 && FiredCount(q.visits) == FiredCount(p.visits) + 1 && !Marks(q.visits[|p.visits|])
  {
    var te, asked := es[|p.visits|], |p.calls|;
    var v := Visit(x.ti.id, x.ti.when, now, w.callback(asked).result, again);
    assert CallOf(te, v) == [Fired(te, x.ti.id)];
    FiredMore(p.visits, v);
    q := Pass(p.visits + [v], p.calls + CallOf(te, v), more + p.added, moreNews + MarkAll(p.news, Asked(w, asked)));
    DuePass(w, es, start, from, p, x, v, q, more, moreNews, events, infos, tick, tock);
  }

  lemma {:induction false} FiredMore(visits: seq<Visit>, v: Visit)
    requires Fires(v)
    ensures FiredCount(visits + [v]) == FiredCount(visits) + 1
  {
    Last(visits, v);
  }

  /** The description of a pass after a timer has been fired. */
  lemma {:induction false} DuePass(w: World, es: seq<TimeEvent>, start: seq<Info>, from: int, p: Pass, x: View, v: Visit,
                                   q: Pass, more: seq<TimeEvent>, moreNews: seq<Info>, events: seq<TimeEvent>,
                                   infos: seq<Info>, tick: nat, tock: nat)
    requires PassOk(w, es, start, from, p, events, infos) && |p.visits| < |es| && x == ViewOf(w, es, start, p)
    requires Fires(v) && v == Visit(x.ti.id, x.ti.when, w.clock(tick), w.callback(|p.calls|).result, w.clock(tock))
    requires |more| == |moreNews| && AllNew(moreNews, from) && Apart(more, es)
    requires q == Pass(p.visits + [v], p.calls + CallOf(es[|p.visits|], v), more + p.added,
                       moreNews + MarkAll(p.news, Asked(w, |p.calls|)))
    requires |CallOf(es[|p.visits|], v)| == 1
    ensures var marked := MarkAll(infos, Asked(w, |p.calls|));
      && |x.front| < |marked|
      && PassOk(w, es, start, from, q, more + events, moreNews + marked[|x.front| := Finished(marked[|x.front|], v.result, v.again)])
  {
    DuePassing(w, es, start, from, p, x, v, more, moreNews, events, infos);
    FoundMore(w, es, start, p.visits, v);
    NewMarked(p.news, from, Asked(w, |p.calls|));
    NewConcat(moreNews, MarkAll(p.news, Asked(w, |p.calls|)), from);
    ApartMore(more, p.added, es);
  }

  lemma NewConcat(a: seq<Info>, b: seq<Info>, from: int)
    requires AllNew(a, from) && AllNew(b, from)
    ensures AllNew(a + b, from)
  { }

  lemma {:induction false} DuePassing(w: World, es: seq<TimeEvent>, start: seq<Info>, from: int, p: Pass, x: View, v: Visit,
                                      more: seq<TimeEvent>, moreNews: seq<Info>, events: seq<TimeEvent>, infos: seq<Info>)
    requires PassOk(w, es, start, from, p, events, infos) && |p.visits| < |es| && x == ViewOf(w, es, start, p)
    requires Fires(v) && v.id == x.ti.id && v.when == x.ti.when && |more| == |moreNews|
    ensures var marked := MarkAll(infos, Asked(w, |p.calls|));
      && |x.front| < |marked|
      && Passing(w, es, start, p.visits + [v], |p.calls| + 1, more + p.added, moreNews + MarkAll(p.news, Asked(w, |p.calls|)),
                 more + events, moreNews + marked[|x.front| := Finished(marked[|x.front|], v.result, v.again)])
  {
    PassView(w, es, start, from, p, events, infos, x);
    FiredStep(w, es, start, p.visits, v, |p.calls|, p.added, p.news, more, moreNews);
    assert Info(v.id, v.when) == x.ti;
  }

  lemma ForgottenEnds(start: seq<Info>)
    ensures ForgottenTo(start, 0) == start && ForgottenTo(start, |start|) == Forgotten(start)
  {
    assert start[..|start|] == start;
  }

  // ---------- the loop ----------

  class EventLoop {
    var timeEventHead: TimeEvent?
    var timeEventNextId: int
    var lastTime: int
    ghost var events: seq<TimeEvent>
    ghost var infos: seq<Info>

    ghost predicate Valid()
      reads this, events
    {
      List(null, timeEventHead, events, infos) && IdsOk(infos, timeEventNextId)
    }

    /** Whatever is in the list now was in it then or is new. */
    twostate predicate OnlyNew()
      reads this
    {
      forall i :: 0 <= i < |events| ==> fresh(events[i]) || events[i] in old(events)
    }

    /** The new timer comes first. */
    method CreateTimeEvent(milliseconds: int, finalizer: bool, now: Time) returns (id: int)
      requires Valid()
      modifies this, events
      ensures Valid() && lastTime == old(lastTime)
      ensures id == old(timeEventNextId) && timeEventNextId == id + 1
      ensures |events| > 0 && fresh(events[0]) && events[0].finalizer == finalizer && events == [events[0]] + old(events)
      ensures infos == [Info(id, Later(now, milliseconds))] + old(infos)
    {
      id := timeEventNextId;
      timeEventNextId := timeEventNextId + 1;
      var te := PushFront(id, Later(now, milliseconds), finalizer, timeEventHead, events, infos);
      timeEventHead := te;
      IdsPushed(infos, id, Later(now, milliseconds));
      events, infos := [te] + events, [Info(id, Later(now, milliseconds))] + infos;
    }

    /** Only marks the timer with this id, if there is one. */
    method DeleteTimeEvent(id: int) returns (r: int)
      requires Valid()
      modifies `infos, events
      ensures Valid() && infos == MarkAll(old(infos), {id})
      ensures r == if exists i :: 0 <= i < |old(infos)| && old(infos)[i].id == id then AE_OK else AE_ERR
    {
      var te := timeEventHead;
      ghost var k := 0;
      while te != null
        invariant Valid() && infos == old(infos) && k <= |events| && te == if k < |events| then events[k] else null
        invariant forall i :: 0 <= i < k ==> infos[i].id != id
        decreases |events| - k
      {
        ListAt(timeEventHead, events, infos, k);
        if te.id == id {
          MarkOne(infos, timeEventNextId, k);
          IdsMarked(infos, timeEventNextId, {id});
          SetId(te, AE_DELETED_EVENT_ID, timeEventHead, events, infos, k);
          infos := infos[k := Info(AE_DELETED_EVENT_ID, infos[k].when)];
          return AE_OK;
        }
        te := te.next;
        k := k + 1;
      }
      MarkNone(infos, id);
      return AE_ERR;
    }

    /** The first of the timers that are due soonest. */
    method SearchNearestTimer() returns (nearest: TimeEvent?, ghost n: nat)
      requires Valid()
      ensures nearest == null <==> events == []
      ensures nearest != null ==>
        && n < |events| == |infos| && nearest == events[n]
        && (forall i :: 0 <= i < |infos| ==> !Earlier(infos[i].when, infos[n].when))
        && (forall i :: 0 <= i < n ==> Earlier(infos[n].when, infos[i].when))
    {
      var te := timeEventHead;
      nearest, n := null, 0;
      ghost var k := 0;
      while te != null
        invariant k <= |events| == |infos| && te == if k < |events| then events[k] else null
        invariant nearest == null <==> k == 0
        invariant nearest != null ==> n < k && nearest == events[n] && nearest.when == infos[n].when
        invariant nearest != null ==> forall i :: 0 <= i < k ==> !Earlier(infos[i].when, infos[n].when)
        invariant nearest != null ==> forall i :: 0 <= i < n ==> Earlier(infos[n].when, infos[i].when)
        decreases |events| - k
      {
        ListAt(timeEventHead, events, infos, k);
        if nearest == null || Earlier(te.when, nearest.when) {
          nearest, n := te, k;
        }
        te := te.next;
        k := k + 1;
      }
    }

    method Do(command: Command, w: World, t: nat)
      returns (ticks: nat, ghost added: seq<TimeEvent>, ghost news: seq<Info>)
      requires Valid()
      modifies this, events
      ensures Valid() && lastTime == old(lastTime) && timeEventNextId >= old(timeEventNextId)
      ensures events == added + old(events) && |news| == |added| && infos == news + MarkAll(old(infos), Deleting(command))
      ensures (forall i :: 0 <= i < |added| ==> fresh(added[i])) && AllNew(news, old(timeEventNextId))
    {
      match command
      case Create(milliseconds, finalizer) =>
        var id := CreateTimeEvent(milliseconds, finalizer, w.clock(t));
        MarkedNothing(old(infos));
        ticks, added, news := t + 1, [events[0]], [Info(id, Later(w.clock(t), milliseconds))];
      case Delete(id) =>
        var r := DeleteTimeEvent(id);
        ticks, added, news := t, [], [];
    }

    /** What the first `n` commands of a callback do: they add timers in front and mark old ones, and nothing else. */
    method Run(commands: seq<Command>, n: nat, w: World, t: nat)
      returns (ticks: nat, ghost added: seq<TimeEvent>, ghost news: seq<Info>)
      requires Valid() && n <= |commands|
      modifies this, events
      ensures Valid() && lastTime == old(lastTime) && timeEventNextId >= old(timeEventNextId)
      ensures events == added + old(events) && |news| == |added| && infos == news + MarkAll(old(infos), DeletedIn(commands, n))
      ensures (forall i :: 0 <= i < |added| ==> fresh(added[i])) && AllNew(news, old(timeEventNextId))
    {
      if n == 0 {
        MarkedNothing(infos);
        return t, [], [];
      }
      ghost var first, firstNews;
      ticks, first, firstNews := Run(commands, n - 1, w, t);
      ticks, added, news := DoMore(commands, n, w, ticks, first, firstNews, old(events), old(infos), old(timeEventNextId));
    }

    /** One more command. */
    method DoMore(commands: seq<Command>, n: nat, w: World, t: nat, ghost first: seq<TimeEvent>, ghost firstNews: seq<Info>,
                  ghost base: seq<TimeEvent>, ghost baseInfos: seq<Info>, ghost from: int)
      returns (ticks: nat, ghost added: seq<TimeEvent>, ghost news: seq<Info>)
      requires Valid() && 0 < n <= |commands| && events == first + base && |first| == |firstNews| && timeEventNextId >= from
      requires infos == firstNews + MarkAll(baseInfos, DeletedIn(commands, n - 1)) && AllNew(firstNews, from)
      modifies this, events
      ensures Valid() && lastTime == old(lastTime) && timeEventNextId >= from
      ensures events == added + base && |news| == |added| && infos == news + MarkAll(baseInfos, DeletedIn(commands, n))
      ensures (forall i :: 0 <= i < |added| ==> fresh(added[i]) || added[i] in first) && AllNew(news, from)
    {
      ghost var more, moreNews;
      ticks, more, moreNews := Do(commands[n - 1], w, t);
      NewComposed(moreNews, firstNews, baseInfos, DeletedIn(commands, n - 1), Deleting(commands[n - 1]), from);
      AddedComposed(more, first, base);
      added, news := more + first, moreNews + MarkAll(firstNews, Deleting(commands[n - 1]));
    }

    /** After a clock that went back, every timer counts as due long ago. */
    method ForgetSeconds()
      requires Valid()
      modifies `infos, events
      ensures Valid() && infos == Forgotten(old(infos))
    {
      var te := timeEventHead;
      ghost var k, start, es := 0, infos, events;
      ForgottenEnds(start);
      HeadOf(te, es, start);
      while te != null
        invariant events == es && k <= |es| && |infos| == |es| == |start| && te == At(es, k)
        invariant Valid() && infos == ForgottenTo(start, k)
        decreases |es| - k
      {
        ForgetOne(te, k, start);
        te := te.next;
        k := k + 1;
      }
      assert k == |start|;
    }

    method ForgetOne(te: TimeEvent, ghost k: nat, ghost start: seq<Info>)
      requires Valid() && k < |events| == |infos| == |start| && te == events[k] && infos == ForgottenTo(start, k)
      modifies `infos, events
      ensures Valid() && infos == ForgottenTo(start, k + 1) && events == old(events)
      ensures te.next == At(events, k + 1)
    {
      ListAt(timeEventHead, events, infos, k);
      ForgottenMore(start, k);
      IdsSame(infos, timeEventNextId, k, Time(0, te.when.ms));
      SetWhen(te, Time(0, te.when.ms), timeEventHead, events, infos, k);
      infos := infos[k := Info(infos[k].id, Time(0, infos[k].when.ms))];
      ListAt(timeEventHead, events, infos, k);
    }

    /** Takes a timer out of the list. */
    method Drop(te: TimeEvent, ghost k: nat) returns (next: TimeEvent?)
      requires Valid() && k < |events| == |infos| && events[k] == te
      modifies `timeEventHead, `events, `infos, events
      ensures Valid() && events == Removed(old(events), k) && infos == Removed(old(infos), k)
      ensures next == if k + 1 < |old(events)| then old(events)[k + 1] else null
    {
      IdsRemoved(infos, timeEventNextId, k);
      timeEventHead, next := Unlink(te, timeEventHead, events, infos, k);
      events, infos := Removed(events, k), Removed(infos, k);
    }

    /** Calls the finaliser of a timer, if it has one. */
    method Finalise(te: TimeEvent, w: World, t: nat, asked: nat)
      returns (ticks: nat, ghost more: seq<TimeEvent>, ghost news: seq<Info>)
      requires Valid()
      modifies this, events
      ensures Valid() && lastTime == old(lastTime) && timeEventNextId >= old(timeEventNextId)
      ensures events == more + old(events) && |more| == |news| && infos == news + MarkAll(old(infos), if te.finalizer then Asked(w, asked) else {})
      ensures (forall i :: 0 <= i < |more| ==> fresh(more[i])) && AllNew(news, old(timeEventNextId))
    {
      if te.finalizer {
        ticks, more, news := Run(w.callback(asked).commands, |w.callback(asked).commands|, w, t);
      } else {
        ticks, more, news := t, [], [];
        MarkedNothing(infos);
      }
    }

    /** Unlinks a marked timer and finalises it. */
    method Reap(te: TimeEvent, w: World, t: nat, asked: nat, ghost k: nat)
      returns (next: TimeEvent?, ticks: nat, ghost more: seq<TimeEvent>, ghost news: seq<Info>)
      requires Valid() && k < |events| == |infos| && events[k] == te
      modifies this, events
      ensures Valid() && lastTime == old(lastTime) && timeEventNextId >= old(timeEventNextId)
      ensures next == (if k + 1 < |old(events)| then old(events)[k + 1] else null)
      ensures |more| == |news| && AllNew(news, old(timeEventNextId)) && forall i :: 0 <= i < |more| ==> fresh(more[i])
      ensures OnlyNew()
      ensures events == more + Removed(old(events), k)
      ensures infos == news + MarkAll(Removed(old(infos), k), if te.finalizer then Asked(w, asked) else {})
    {
      next := Drop(te, k);
      assert forall i :: 0 <= i < |events| ==> events[i] == old(events)[if i < k then i else i + 1];
      ticks, more, news := Finalise(te, w, t, asked);
    }

    /** Overwrites a timer, at place `k`, once its callback has returned. */
    method Finish(te: TimeEvent, result: int, now: Time, ghost k: nat)
      requires Valid() && k < |events| && events[k] == te
      modifies `infos, events
      ensures Valid() && k < |old(infos)| && infos == old(infos)[k := Finished(old(infos)[k], result, now)]
    {
      ListAt(timeEventHead, events, infos, k);
      if result != AE_NOMORE {
        IdsSame(infos, timeEventNextId, k, Later(now, result));
        SetWhen(te, Later(now, result), timeEventHead, events, infos, k);
      } else {
        IdsDropped(infos, timeEventNextId, k);
        SetId(te, AE_DELETED_EVENT_ID, timeEventHead, events, infos, k);
      }
      infos := infos[k := Finished(infos[k], result, now)];
    }

    /** Runs the callback of a timer that is due. */
    method Fire(te: TimeEvent, w: World, t: nat, asked: nat, ghost k: nat)
      returns (ticks: nat, ghost rescheduled: Time, ghost more: seq<TimeEvent>, ghost news: seq<Info>)
      requires Valid() && k < |events| && events[k] == te
      modifies this, events
      ensures Valid() && lastTime == old(lastTime) && timeEventNextId >= old(timeEventNextId)
      ensures |more| == |news| && AllNew(news, old(timeEventNextId)) && forall i :: 0 <= i < |more| ==> fresh(more[i])
      ensures events == more + old(events) && k < |old(infos)|
      ensures var marked := MarkAll(old(infos), Asked(w, asked));
        infos == news + marked[k := Finished(marked[k], w.callback(asked).result, rescheduled)]
      ensures exists n: nat :: rescheduled == w.clock(n)
    {
      ListAt(timeEventHead, events, infos, k);
      ticks, more, news := Run(w.callback(asked).commands, |w.callback(asked).commands|, w, t);
      var now := w.clock(ticks);
      ticks := ticks + 1;
      rescheduled := now;
      Finish(te, w.callback(asked).result, now, |more| + k);
    }

    ghost predicate InPass(w: World, es: seq<TimeEvent>, start: seq<Info>, from: int, p: Pass)
      reads this, events
    {
      Valid() && timeEventNextId >= from && PassOk(w, es, start, from, p, events, infos)
    }

    /** A timer that is marked when the pass reaches it. */
    method VisitMarked(te: TimeEvent, w: World, t: nat, asked: nat, ghost es: seq<TimeEvent>, ghost start: seq<Info>,
                       ghost from: int, ghost p: Pass, ghost x: View)
      returns (next: TimeEvent?, ticks: nat, ghost q: Pass)
      requires InPass(w, es, start, from, p) && |p.visits| < |es| && te == es[|p.visits|] && asked == |p.calls|
      requires x == ViewOf(w, es, start, p) && x.ti.id == AE_DELETED_EVENT_ID
      modifies this, events
      ensures InPass(w, es, start, from, q) && lastTime == old(lastTime)
      ensures q.calls == p.calls + if te.finalizer then [Finalised(te)] else []
      ensures |q.visits| == |p.visits| + 1 && FiredCount(q.visits) == FiredCount(p.visits)
      ensures next == At(es, |q.visits|)
      ensures OnlyNew()
    {
      PassView(w, es, start, from, p, events, infos, x);
      ghost var more, news;
      RemovedMiddle(x.front, te, x.rest);
      RemovedMiddle(x.fi, x.ti, x.ri);
      next, ticks, more, news := Reap(te, w, t, asked, |x.front|);
      q := MarkedVisit(w, es, start, from, p, x, more, news, old(events), old(infos));
    }

    /** A timer that is due when the pass reaches it. */
    method VisitDue(te: TimeEvent, w: World, t: nat, now: Time, ghost tick: nat, asked: nat, ghost es: seq<TimeEvent>,
                    ghost start: seq<Info>, ghost from: int, ghost p: Pass, ghost x: View)
      returns (ticks: nat, ghost q: Pass)
      requires InPass(w, es, start, from, p) && |p.visits| < |es| && te == es[|p.visits|] && asked == |p.calls|
      requires x == ViewOf(w, es, start, p) && x.ti.id != AE_DELETED_EVENT_ID && now == w.clock(tick) && Due(now, x.ti.when)
      modifies this, events
      ensures InPass(w, es, start, from, q) && lastTime == old(lastTime)
      ensures q.calls == p.calls + [Fired(te, x.ti.id)]
      ensures |q.visits| == |p.visits| + 1 && FiredCount(q.visits) == FiredCount(p.visits) + 1 && !Marks(q.visits[|p.visits|])
      ensures OnlyNew()
    {
      PassView(w, es, start, from, p, events, infos, x);
      ghost var again, more, news;
      ticks, again, more, news := Fire(te, w, t, asked, |x.front|);
      ghost var tock: nat :| again == w.clock(tock);
      q := DueVisit(w, es, start, from, p, x, now, tick, again, tock, more, news, old(events), old(infos));
    }

    /** A live timer; returns the next one, which is read after the callback. */
    method VisitLive(te: TimeEvent, w: World, t: nat, asked: nat, ghost es: seq<TimeEvent>, ghost start: seq<Info>,
                     ghost from: int, ghost p: Pass, ghost x: View)
      returns (next: TimeEvent?, ticks: nat, fired: bool, ghost q: Pass)
      requires InPass(w, es, start, from, p) && |p.visits| < |es| && te == es[|p.visits|] && asked == |p.calls|
      requires x == ViewOf(w, es, start, p) && x.ti == Info(te.id, te.when) && te.id != AE_DELETED_EVENT_ID
      modifies this, events
      ensures InPass(w, es, start, from, q) && lastTime == old(lastTime)
      ensures |q.calls| == asked + if fired then 1 else 0
      ensures |q.visits| == |p.visits| + 1 && FiredCount(q.visits) == FiredCount(p.visits) + if fired then 1 else 0
      ensures next == At(es, |q.visits|)
      ensures OnlyNew()
    {
      var now := w.clock(t);
      ticks := t + 1;
      fired := Due(now, te.when);
      if fired {
        ticks, q := VisitDue(te, w, ticks, now, t, asked, es, start, from, p, x);
      } else {
        q := EarlyVisit(w, es, start, from, p, x, now, t, events, infos);
      }
      ghost var k := JustPassed(w, es, start, from, q, events, infos);
      ListAt(timeEventHead, events, infos, k);
      next := te.next;
    }

    /** One round of the loop. */
    method VisitOne(te: TimeEvent, maxId: int, w: World, t: nat, asked: nat, done: nat, ghost es: seq<TimeEvent>,
                    ghost start: seq<Info>, ghost from: int, ghost p: Pass)
      returns (next: TimeEvent?, ticks: nat, asks: nat, processed: nat, ghost q: Pass)
      requires InPass(w, es, start, from, p) && |p.visits| < |es| && te == es[|p.visits|] && asked == |p.calls| && done == FiredCount(p.visits)
      requires forall i :: 0 <= i < |start| ==> start[i].id <= maxId
      requires maxId >= AE_DELETED_EVENT_ID
      modifies this, events
      ensures InPass(w, es, start, from, q) && lastTime == old(lastTime) && asks == |q.calls|
      ensures |q.visits| == |p.visits| + 1 && processed == FiredCount(q.visits)
      ensures next == At(es, |q.visits|)
      ensures OnlyNew()
    {
      ghost var x := ViewOf(w, es, start, p);
      PassView(w, es, start, from, p, events, infos, x);
      ListAt(timeEventHead, events, infos, |x.front|);
      processed := done;
      if te.id == AE_DELETED_EVENT_ID {
        asks := asked + if te.finalizer then 1 else 0;
        next, ticks, q := VisitMarked(te, w, t, asked, es, start, from, p, x);
      } else if te.id > maxId {
        // Timers with a later id are new, and new timers stand in front of where the pass began.
        assert false;
      } else {
        var fired;
        next, ticks, fired, q := VisitLive(te, w, t, asked, es, start, from, p, x);
        asks, processed := asked + if fired then 1 else 0, done + if fired then 1 else 0;
      }
    }

    /** The loop of a pass. */
    method Walk(w: World) returns (processed: nat, ghost p: Pass)
      requires Valid()
      modifies this, events
      ensures Valid() && lastTime == old(lastTime)
      ensures PassDone(w, old(events), old(infos), old(timeEventNextId), p, events, infos) && processed == FiredCount(p.visits)
      ensures OnlyNew()
    {
      ghost var es, start, from := events, infos, timeEventNextId;
      var te := timeEventHead;
      var maxId := timeEventNextId - 1;
      var ticks: nat, asked: nat := 0, 0;
      processed, p := 0, Pass([], [], [], []);
      PassBegin(w, es, start, from);
      HeadOf(te, es, start);
      while te != null
        invariant InPass(w, es, start, from, p) && lastTime == old(lastTime) && asked == |p.calls| && processed == FiredCount(p.visits)
        invariant te == At(es, |p.visits|)
        invariant OnlyNew()
        decreases |es| - |p.visits|
      {
        te, ticks, asked, processed, p := VisitOne(te, maxId, w, ticks, asked, processed, es, start, from, p);
      }
      PassEnd(w, es, start, from, p, events, infos);
    }

    /** The loop, and what it comes to for each timer. */
    method WholePass(w: World) returns (processed: nat, ghost p: Pass)
      requires Valid()
      modifies this, events
      ensures Valid() && lastTime == old(lastTime)
      ensures PassDone(w, old(events), old(infos), old(timeEventNextId), p, events, infos) && processed == FiredCount(p.visits)
      ensures EachFound(old(events), p) && NoneAdded(p) && forall i :: 0 <= i < |p.added| ==> fresh(p.added[i])
    {
      ghost var es, start, from := events, infos, timeEventNextId;
      ListLinked(null, timeEventHead, es, start);
      processed, p := Walk(w);
      PassCalls(w, es, start, from, p, events, infos);
      AddedFirst(w, es, start, from, p, events, infos);
    }

    /**
     One pass, at the time `now`. It visits the timers that were there, once each and in order, whatever the callbacks
     do; it calls exactly the callbacks and finalisers that the visits say; and it leaves the new timers, which it does
     not visit, in front of those that were not marked when it reached them. So each timer that was there fires exactly
     once if it is live and due when reached, and is finalised exactly once if it is marked then; those added during the
     pass are new, and are neither fired nor finalised in it.
     */
    method ProcessTimeEvents(w: World, now: int) returns (processed: nat, ghost p: Pass)
      requires Valid()
      modifies this, events
      ensures Valid() && lastTime == now
      ensures PassDone(w, old(events), if now < old(lastTime) then Forgotten(old(infos)) else old(infos), old(timeEventNextId), p, events, infos)
      ensures processed == FiredCount(p.visits)
      ensures EachFound(old(events), p) && NoneAdded(p) && forall i :: 0 <= i < |p.added| ==> fresh(p.added[i])
    {
      if now < lastTime {
        ForgetSeconds();
      }
      lastTime := now;
      processed, p := WholePass(w);
    }
  }

  lemma AddedComposed<T>(a: seq<T>, b: seq<T>, c: seq<T>)
    ensures a + (b + c) == (a + b) + c
  { }

  lemma {:induction false} NewComposed(more: seq<Info>, news: seq<Info>, base: seq<Info>, done: set<int>, d: set<int>,
                                       from: int)
    requires AllNew(news, from)
    ensures more + MarkAll(news + MarkAll(base, done), d) == (more + MarkAll(news, d)) + MarkAll(base, done + d)
    ensures AllNew(MarkAll(news, d), from)
  {
    MarkedConcat(news, MarkAll(base, done), d);
    MarkedTwice(base, done, d);
    NewMarked(news, from, d);
  }

  /** Timers created from a point on: their ids are not below it, unless they are deleted again. */
  ghost predicate AllNew(news: seq<Info>, from: int) {
    forall i :: 0 <= i < |news| ==> news[i].id >= from || news[i].id == AE_DELETED_EVENT_ID
  }

  lemma {:induction false} NewMarked(news: seq<Info>, from: int, deleted: set<int>)
    requires AllNew(news, from)
    ensures AllNew(MarkAll(news, deleted), from)
  {
    forall i | 0 <= i < |news| ensures MarkAll(news, deleted)[i] == Info(Marked(news[i].id, deleted), news[i].when) {
      MarkAllAt(news, deleted, i);
    }
  }
}
