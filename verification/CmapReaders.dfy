/** Lock-free reads of one cmap bucket (bucket.go, segment.go, cmap.go), as a state machine over atomic steps. */
module CmapReaders {
  // Writers hold the lock of the segment, so at most one Put or Delete is under way; readers take no lock while they
  // walk the chain and load an element. Only steps that touch shared memory are told apart. A writer only reads while
  // it searches, and nobody else writes meanwhile, so its search is one step with the first write that follows.
  //
  // `chain`, `hist`, `log`, `retired`, the field `rest` of a reader and the field `left` of a writer are history
  // variables: no step depends on `hist`, `log`, `retired`, `rest` or `left`, and `chain` is what a walk along the links
  // meets (the invariant says so).

  import CmapBucket

  type Key = CmapBucket.Key
  type Elem = CmapBucket.Elem
  type Id = nat

  datatype Option<T> = None | Some(value: T)

  datatype Cell = Cell(key: Key, elem: Elem, next: Option<Id>)

  type Cells = map<Id, Cell>

  type Dict = map<Key, Elem>

  datatype Writer =
    | Idle
    | Putting(p: Id)
    | PutLinked(p: Id)
    | Deleting(key: Key)
    | Copying(key: Key, todo: seq<Id>, newFirst: Option<Id>, newChain: seq<Id>, left: seq<Id>)

  datatype Reader =
    | Walking(key: Key, cur: Option<Id>, since: nat, rest: seq<Id>)
    | Found(key: Key, pair: Id, since: nat)
    | Done(key: Key, result: Option<Elem>, since: nat, until: nat)

  /** A finished Put or Delete, with the value it returned. */
  datatype Event = PutEvent(key: Key, elem: Elem, ok: bool) | DeleteEvent(key: Key, ok: bool)

  datatype State = State(
    cells: Cells, head: Option<Id>, writer: Writer, readers: map<nat, Reader>,
    chain: seq<Id>, hist: seq<Dict>, log: seq<Event>, retired: map<Id, nat>)

  datatype Action =
    | BeginPut(p: Id, key: Key, elem: Elem)
    | BeginDelete(dkey: Key)
    | WriterStep(copy: Id)
    | BeginGet(reader: nat, gkey: Key)
    | ReaderStep(reader: nat)

  // ---------- chains and what they mean ----------

  function At(xs: seq<Id>, i: nat): Option<Id> {
    if i < |xs| then Some(xs[i]) else None
  }

  ghost predicate IsPath(cells: Cells, q: Option<Id>, xs: seq<Id>) {
    q == At(xs, 0) && forall i :: 0 <= i < |xs| ==> xs[i] in cells && cells[xs[i]].next == At(xs, i + 1)
  }

  /** The dictionary a chain stands for: the first pair with a key counts. */
  function DictOf(cells: Cells, xs: seq<Id>): Dict
    requires forall x :: x in xs ==> x in cells
  {
    if xs == [] then map[] else DictOf(cells, xs[1..])[cells[xs[0]].key := cells[xs[0]].elem]
  }

  /** The index of the first pair of the chain with the key. */
  function Find(cells: Cells, xs: seq<Id>, key: Key): (i: nat)
    requires forall x :: x in xs ==> x in cells
    ensures i <= |xs|
    ensures i < |xs| ==> cells[xs[i]].key == key
    ensures forall j :: 0 <= j < i ==> cells[xs[j]].key != key
  {
    if xs == [] || cells[xs[0]].key == key then 0 else 1 + Find(cells, xs[1..], key)
  }

  function Get(d: Dict, key: Key): Option<Elem> {
    if key in d then Some(d[key]) else None
  }

  ghost predicate UniqueKeys(cells: Cells, xs: seq<Id>)
    requires forall x :: x in xs ==> x in cells
  {
    forall i, j :: 0 <= i < j < |xs| ==> cells[xs[i]].key != cells[xs[j]].key
  }

  // ---------- the steps ----------

  function Init(): State {
    State(map[], None, Idle, map[], [], [map[]], [], map[])
  }

  function Last<T>(s: seq<T>): T
    requires s != []
  {
    s[|s| - 1]
  }

  /** The end of an operation: the dictionary changes, and the pairs of the old chain that are left out retire. */
  function Commit(s: State, cells: Cells, chain: seq<Id>, event: Event): State
    requires s.hist != [] && forall x :: x in chain ==> x in cells
  {
    s.(cells := cells, head := At(chain, 0), writer := Idle, chain := chain,
       hist := s.hist + [DictOf(cells, chain)], log := s.log + [event],
       retired := s.retired + map x | x in s.chain && x !in chain :: |s.hist| - 1)
  }

  ghost predicate WellFormed(s: State) {
    && s.hist != []
    && (forall x :: x in s.chain ==> x in s.cells)
    && (s.writer.Putting? || s.writer.PutLinked? ==> s.writer.p in s.cells)
    && (s.writer.Copying? ==> (forall x :: x in s.writer.todo ==> x in s.cells) && (forall x :: x in s.writer.newChain ==> x in s.cells))
    && (forall r :: r in s.readers && s.readers[r].Walking? && s.readers[r].cur.Some? ==> s.readers[r].cur.value in s.cells)
    && (forall r :: r in s.readers && s.readers[r].Found? ==> s.readers[r].pair in s.cells)
  }

  ghost predicate Enabled(s: State, a: Action) {
    match a
    case BeginPut(p, key, elem) => s.writer.Idle? && p !in s.cells
    case BeginDelete(key) => s.writer.Idle?
    case WriterStep(copy) => !s.writer.Idle? && copy !in s.cells
    case BeginGet(r, key) => r !in s.readers
    case ReaderStep(r) => r in s.readers && !s.readers[r].Done?
  }

  ghost function Apply(s: State, a: Action): State
    requires WellFormed(s) && Enabled(s, a)
  {
    match a
    case BeginPut(p, key, elem) => s.(cells := s.cells[p := Cell(key, elem, None)], writer := Putting(p))
    case BeginDelete(key) => s.(writer := Deleting(key))
    case WriterStep(copy) => ApplyWriter(s, copy)
    case BeginGet(r, key) => s.(readers := s.readers[r := Walking(key, s.head, |s.hist| - 1, s.chain)])
    case ReaderStep(r) => s.(readers := s.readers[r := StepReader(s, s.readers[r])])
  }

  ghost function StepReader(s: State, r: Reader): Reader
    requires WellFormed(s) && !r.Done?
    requires r.Walking? && r.cur.Some? ==> r.cur.value in s.cells
    requires r.Found? ==> r.pair in s.cells
  {
    match r
    case Walking(key, cur, since, rest) =>
      if cur.None? then Done(key, None, since, |s.hist| - 1)
      else if s.cells[cur.value].key == key then Found(key, cur.value, since)
      else Walking(key, s.cells[cur.value].next, since, if rest == [] then [] else rest[1..])
    case Found(key, pair, since) => Done(key, Some(s.cells[pair].elem), since, |s.hist| - 1)
  }

  ghost function ApplyWriter(s: State, copy: Id): State
    requires WellFormed(s) && !s.writer.Idle? && copy !in s.cells
  {
    match s.writer
    case Putting(p) =>
      var c := s.cells[p];
      var i := Find(s.cells, s.chain, c.key);
      if s.head.None? then
        Commit(s, s.cells, [p], PutEvent(c.key, c.elem, true))
      else if i < |s.chain| then
        Commit(s, s.cells[s.chain[i] := s.cells[s.chain[i]].(elem := c.elem)], s.chain, PutEvent(c.key, c.elem, false))
      else
        s.(cells := s.cells[p := c.(next := s.head)], writer := PutLinked(p))
    case PutLinked(p) =>
      Commit(s, s.cells, [p] + s.chain, PutEvent(s.cells[p].key, s.cells[p].elem, true))
    case Deleting(key) =>
      var i := Find(s.cells, s.chain, key);
      if i == |s.chain| then Commit(s, s.cells, s.chain, DeleteEvent(key, false))
      else s.(writer := Copying(key, s.chain[..i], s.cells[s.chain[i]].next, s.chain[i + 1..], s.chain[i + 1..]))
    case Copying(key, todo, newFirst, newChain, left) =>
      if todo == [] then
        Commit(s, s.cells, newChain, DeleteEvent(key, true)).(head := newFirst)
      else
        var q := s.cells[Last(todo)];
        s.(cells := s.cells[copy := Cell(q.key, q.elem, newFirst)],
           writer := Copying(key, todo[..|todo| - 1], Some(copy), [copy] + newChain, [Last(todo)] + left))
  }

  // ---------- dictionaries ----------

  ghost predicate In(cells: Cells, xs: seq<Id>) {
    forall x :: x in xs ==> x in cells
  }

  lemma {:induction false} DictGet(cells: Cells, xs: seq<Id>, key: Key)
    requires In(cells, xs)
    ensures Get(DictOf(cells, xs), key) == if Find(cells, xs, key) < |xs| then Some(cells[xs[Find(cells, xs, key)]].elem) else None
  {
    if xs != [] {
      DictGet(cells, xs[1..], key);
    }
  }

  lemma DictEqual(d: Dict, e: Dict)
    requires forall key :: Get(d, key) == Get(e, key)
    ensures d == e
  {
    assert forall key :: key in d <==> Get(d, key).Some?;
    assert forall key :: key in e <==> Get(e, key).Some?;
    assert forall key :: key in d ==> Get(d, key) == Some(d[key]);
    assert forall key :: key in e ==> Get(e, key) == Some(e[key]);
  }

  ghost predicate SameEntry(cells: Cells, cells': Cells, x: Id, y: Id)
    requires x in cells && y in cells'
  {
    cells[x].key == cells'[y].key && cells[x].elem == cells'[y].elem
  }

  ghost predicate SameEntries(cells: Cells, cells': Cells, xs: seq<Id>, ys: seq<Id>)
    requires In(cells, xs) && In(cells', ys)
  {
    |xs| == |ys| && forall i :: 0 <= i < |xs| ==> SameEntry(cells, cells', xs[i], ys[i])
  }

  /** The dictionary depends on the keys and elements along the chain only. */
  lemma {:induction false} DictSame(cells: Cells, cells': Cells, xs: seq<Id>, ys: seq<Id>)
    requires In(cells, xs) && In(cells', ys) && SameEntries(cells, cells', xs, ys)
    ensures DictOf(cells, xs) == DictOf(cells', ys)
  {
    if xs != [] {
      assert SameEntry(cells, cells', xs[0], ys[0]);
      DictSame(cells, cells', xs[1..], ys[1..]);
    }
  }

  lemma {:induction false} FindUnique(cells: Cells, xs: seq<Id>, i: nat)
    requires In(cells, xs) && UniqueKeys(cells, xs) && i < |xs|
    ensures Find(cells, xs, cells[xs[i]].key) == i
  { }

  /** Storing an element in the pair that has the key. */
  lemma {:induction false} DictSet(cells: Cells, xs: seq<Id>, i: nat, elem: Elem)
    requires In(cells, xs) && UniqueKeys(cells, xs) && i < |xs|
    ensures var cells' := cells[xs[i] := cells[xs[i]].(elem := elem)];
      In(cells', xs) && UniqueKeys(cells', xs) && DictOf(cells', xs) == DictOf(cells, xs)[cells[xs[i]].key := elem]
  {
    var cells' := cells[xs[i] := cells[xs[i]].(elem := elem)];
    forall key ensures Get(DictOf(cells', xs), key) == Get(DictOf(cells, xs)[cells[xs[i]].key := elem], key) {
      DictGet(cells, xs, key);
      DictGet(cells', xs, key);
      FindSame(cells, cells', xs, key);
      FindUnique(cells, xs, i);
    }
    DictEqual(DictOf(cells', xs), DictOf(cells, xs)[cells[xs[i]].key := elem]);
  }

  lemma {:induction false} FindSame(cells: Cells, cells': Cells, xs: seq<Id>, key: Key)
    requires In(cells, xs) && In(cells', xs) && forall x :: x in xs ==> cells[x].key == cells'[x].key
    ensures Find(cells, xs, key) == Find(cells', xs, key)
  { }

  function Without(xs: seq<Id>, i: nat): seq<Id>
    requires i < |xs|
  {
    if i == 0 then xs[1..] else [xs[0]] + Without(xs[1..], i - 1)
  }

  lemma {:induction false} WithoutMember(xs: seq<Id>, i: nat, x: Id)
    requires i < |xs| && x in Without(xs, i)
    ensures x in xs
  {
    if i > 0 && x != xs[0] {
      assert x in Without(xs[1..], i - 1);
      WithoutMember(xs[1..], i - 1, x);
    }
  }

  lemma {:induction false} WithoutSplit(xs: seq<Id>, i: nat)
    requires i < |xs|
    ensures xs[..i] + xs[i + 1..] == Without(xs, i)
  {
    if i > 0 {
      WithoutSplit(xs[1..], i - 1);
      assert xs[..i] == [xs[0]] + xs[1..][..i - 1];
    }
  }

  lemma {:induction false} UniqueTail(cells: Cells, xs: seq<Id>)
    requires In(cells, xs) && UniqueKeys(cells, xs) && xs != []
    ensures In(cells, xs[1..]) && UniqueKeys(cells, xs[1..])
    ensures forall x :: x in xs[1..] ==> cells[x].key != cells[xs[0]].key
  { }

  lemma {:induction false} UniqueWithout(cells: Cells, xs: seq<Id>, i: nat)
    requires In(cells, xs) && UniqueKeys(cells, xs) && i < |xs|
    ensures In(cells, Without(xs, i)) && UniqueKeys(cells, Without(xs, i))
  {
    UniqueTail(cells, xs);
    if i > 0 {
      var ys := Without(xs[1..], i - 1);
      UniqueWithout(cells, xs[1..], i - 1);
      forall x | x in ys ensures cells[x].key != cells[xs[0]].key {
        WithoutMember(xs[1..], i - 1, x);
      }
    }
  }

  /** Leaving a pair out takes its key out. */
  lemma {:induction false} DictCut(cells: Cells, xs: seq<Id>, i: nat)
    requires In(cells, xs) && UniqueKeys(cells, xs) && i < |xs| && In(cells, Without(xs, i))
    ensures DictOf(cells, Without(xs, i)) == DictOf(cells, xs) - {cells[xs[i]].key}
  {
    UniqueTail(cells, xs);
    if i == 0 {
      DictGet(cells, xs[1..], cells[xs[0]].key);
    } else {
      UniqueWithout(cells, xs[1..], i - 1);
      DictCut(cells, xs[1..], i - 1);
      assert Without(xs, i)[1..] == Without(xs[1..], i - 1);
      assert xs[1..][i - 1] == xs[i];
    }
  }

  // ---------- the invariant ----------

  /** What a finished operation did to the dictionary, and whether it returned the right value. */
  ghost predicate Legal(before: Dict, event: Event, after: Dict) {
    match event
    case PutEvent(key, elem, ok) => after == before[key := elem] && ok == (key !in before)
    case DeleteEvent(key, ok) => after == before - {key} && ok == (key in before)
  }

  /** Starting from nothing, each operation in turn did what it should. */
  ghost predicate LegalRun(hist: seq<Dict>, log: seq<Event>) {
    && |hist| == |log| + 1 && hist[0] == map[]
    && forall i :: 0 <= i < |log| ==> Legal(hist[i], log[i], hist[i + 1])
  }

  lemma LegalMore(hist: seq<Dict>, log: seq<Event>, event: Event, d: Dict)
    requires LegalRun(hist, log) && Legal(Last(hist), event, d)
    ensures LegalRun(hist + [d], log + [event])
  { }

  ghost predicate ChainInv(s: State) {
    IsPath(s.cells, s.head, s.chain) && In(s.cells, s.chain) && UniqueKeys(s.cells, s.chain)
  }

  ghost predicate HistInv(s: State)
    requires In(s.cells, s.chain)
  {
    LegalRun(s.hist, s.log) && Last(s.hist) == DictOf(s.cells, s.chain)
  }

  /** A retired pair is out of the chain for good and keeps the element it had when it was last in it. */
  ghost predicate RetiredInv(s: State) {
    forall x :: x in s.retired ==>
      x in s.cells && x !in s.chain && s.retired[x] < |s.hist| && Get(s.hist[s.retired[x]], s.cells[x].key) == Some(s.cells[x].elem)
  }

  /** `x` was in the chain at some moment not before `since`. */
  ghost predicate Live(s: State, x: Id, since: nat) {
    x in s.chain || (x in s.retired && since <= s.retired[x])
  }

  ghost predicate Explains(hist: seq<Dict>, key: Key, result: Option<Elem>, since: nat, until: nat) {
    exists t :: since <= t <= until < |hist| && Get(hist[t], key) == result
  }

  ghost predicate ReaderOk(s: State, r: Reader) {
    match r
    case Walking(key, cur, since, rest) =>
      && since < |s.hist| && IsPath(s.cells, cur, rest)
      && (forall x :: x in rest ==> Live(s, x, since))
      && (key in s.hist[since] ==> exists x :: x in rest && x in s.cells && s.cells[x].key == key)
    case Found(key, pair, since) =>
      since < |s.hist| && pair in s.cells && s.cells[pair].key == key && Live(s, pair, since)
    case Done(key, result, since, until) =>
      Explains(s.hist, key, result, since, until)
  }

  ghost predicate Private(s: State, x: Id) {
    x in s.cells && x !in s.chain && x !in s.retired
  }

  ghost predicate WriterOk(s: State)
    requires In(s.cells, s.chain)
  {
    match s.writer
    case Idle => true
    case Putting(p) => Private(s, p) && s.cells[p].next == None
    case PutLinked(p) => Private(s, p) && s.cells[p].next == s.head && Find(s.cells, s.chain, s.cells[p].key) == |s.chain|
    case Deleting(key) => true
    case Copying(key, todo, newFirst, newChain, left) =>
      var i := Find(s.cells, s.chain, key);
      && i < |s.chain| && todo + left == Without(s.chain, i)
      && In(s.cells, todo) && IsPath(s.cells, newFirst, newChain) && In(s.cells, newChain) && In(s.cells, left)
      && (forall x :: x in newChain ==> x !in s.retired)
      && SameEntries(s.cells, s.cells, newChain, left)
  }

  ghost predicate Inv(s: State) {
    && ChainInv(s) && HistInv(s) && RetiredInv(s) && WriterOk(s)
    && forall r :: r in s.readers ==> ReaderOk(s, s.readers[r])
  }

  lemma InvWellFormed(s: State)
    requires Inv(s)
    ensures WellFormed(s)
  {
    forall r | r in s.readers && s.readers[r].Walking? && s.readers[r].cur.Some? ensures s.readers[r].cur.value in s.cells {
      assert ReaderOk(s, s.readers[r]);
    }
    forall r | r in s.readers && s.readers[r].Found? ensures s.readers[r].pair in s.cells {
      assert ReaderOk(s, s.readers[r]);
    }
  }

  lemma InitInv()
    ensures Inv(Init())
  { }

  // ---------- readers ----------

  lemma {:induction false} BeginGetInv(s: State, r: nat, key: Key)
    requires Inv(s) && WellFormed(s) && r !in s.readers
    ensures Inv(Apply(s, BeginGet(r, key)))
  {
    var s' := Apply(s, BeginGet(r, key));
    DictGet(s.cells, s.chain, key);
    assert ReaderOk(s', s'.readers[r]);
    forall q | q in s'.readers ensures ReaderOk(s', s'.readers[q]) {
      ReaderFrame(s, s', s'.readers[q], q == r);
    }
  }

  /** Steps of readers touch nothing that other readers depend on. */
  lemma {:induction false} ReaderFrame(s: State, s': State, r: Reader, given: bool)
    requires s'.cells == s.cells && s'.chain == s.chain && s'.hist == s.hist && s'.retired == s.retired
    requires given ==> ReaderOk(s', r)
    requires !given ==> ReaderOk(s, r)
    ensures ReaderOk(s', r)
  {
    if r.Walking? && !given {
      forall x | x in r.rest ensures Live(s', x, r.since) {
        assert Live(s, x, r.since);
      }
    }
  }

  lemma {:induction false} PathTail(cells: Cells, q: Option<Id>, xs: seq<Id>)
    requires IsPath(cells, q, xs) && xs != []
    ensures q == Some(xs[0]) && xs[0] in cells && IsPath(cells, cells[xs[0]].next, xs[1..])
  {
    forall i | 0 <= i < |xs[1..]| ensures xs[1..][i] in cells && cells[xs[1..][i]].next == At(xs[1..], i + 1) {
      assert cells[xs[i + 1]].next == At(xs, i + 2);
    }
  }

  /** The heart of the matter: what a reader gets is what the key had at some moment of its walk. */
  lemma {:induction false} StepReaderOk(s: State, r: Reader)
    requires Inv(s) && WellFormed(s) && !r.Done? && ReaderOk(s, r)
    requires r.Walking? && r.cur.Some? ==> r.cur.value in s.cells
    ensures ReaderOk(s, StepReader(s, r))
  {
    match r
    case Walking(key, cur, since, rest) =>
      if cur.None? {
        assert rest == [];
        assert Get(s.hist[since], key) == None;
      } else {
        PathTail(s.cells, cur, rest);
        assert Live(s, rest[0], since);
        if s.cells[cur.value].key != key && key in s.hist[since] {
          var x :| x in rest && x in s.cells && s.cells[x].key == key;
          assert x in rest[1..];
        }
      }
    case Found(key, pair, since) =>
      var now := |s.hist| - 1;
      if pair in s.chain {
        InChainNow(s, pair);
        assert Get(s.hist[now], key) == Some(s.cells[pair].elem);
      } else {
        assert Get(s.hist[s.retired[pair]], key) == Some(s.cells[pair].elem);
      }
  }

  lemma {:induction false} InChainNow(s: State, x: Id)
    requires ChainInv(s) && HistInv(s) && x in s.chain
    ensures Get(Last(s.hist), s.cells[x].key) == Some(s.cells[x].elem)
  {
    var i :| 0 <= i < |s.chain| && s.chain[i] == x;
    FindUnique(s.cells, s.chain, i);
    DictGet(s.cells, s.chain, s.cells[x].key);
  }

  lemma {:induction false} ReaderStepInv(s: State, r: nat)
    requires Inv(s) && WellFormed(s) && Enabled(s, ReaderStep(r))
    ensures Inv(Apply(s, ReaderStep(r)))
  {
    var s' := Apply(s, ReaderStep(r));
    assert ReaderOk(s, s.readers[r]);
    StepReaderOk(s, s.readers[r]);
    forall q | q in s'.readers ensures ReaderOk(s', s'.readers[q]) {
      if q == r {
        ReaderFrame(s, s', s'.readers[q], false);
      } else {
        assert s'.readers[q] == s.readers[q];
        ReaderFrame(s, s', s'.readers[q], false);
      }
    }
  }

  // ---------- writers ----------

  /**
   Next links and keys of pairs that readers can meet never change; an element changes only in a pair that is and stays
   in the chain.
   */
  ghost predicate Kept(s: State, cells: Cells, chain: seq<Id>) {
    forall x :: x in s.chain || x in s.retired ==>
      && x in s.cells && x in cells && cells[x].key == s.cells[x].key && cells[x].next == s.cells[x].next
      && (!(x in s.chain && x in chain) ==> cells[x].elem == s.cells[x].elem)
  }

  lemma {:induction false} LiveAfterCommit(s: State, s': State, x: Id, since: nat)
    requires s.hist != [] && Live(s, x, since) && since < |s.hist|
    requires s'.retired == s.retired + map y | y in s.chain && y !in s'.chain :: |s.hist| - 1
    requires x in s.retired ==> x !in s.chain
    ensures Live(s', x, since)
  { }

  lemma {:induction false} PathKept(cells: Cells, cells': Cells, q: Option<Id>, xs: seq<Id>)
    requires IsPath(cells, q, xs)
    requires forall x :: x in xs ==> x in cells && x in cells' && cells'[x].next == cells[x].next
    ensures IsPath(cells', q, xs)
  { }

  lemma {:induction false} ReaderCommit(s: State, s': State, r: Reader)
    requires Inv(s) && ReaderOk(s, r) && Kept(s, s'.cells, s'.chain)
    requires |s'.hist| == |s.hist| + 1 && s'.hist[..|s.hist|] == s.hist
    requires s'.retired == s.retired + map y | y in s.chain && y !in s'.chain :: |s.hist| - 1
    ensures ReaderOk(s', r)
  {
    assert forall t :: 0 <= t < |s.hist| ==> s'.hist[t] == s.hist[t];
    match r
    case Walking(key, cur, since, rest) =>
      forall x | x in rest ensures Live(s', x, since) && x in s.cells && x in s'.cells && s'.cells[x].next == s.cells[x].next && s'.cells[x].key == s.cells[x].key {
        assert Live(s, x, since);
        LiveAfterCommit(s, s', x, since);
      }
      PathKept(s.cells, s'.cells, cur, rest);
      if key in s'.hist[since] {
        var x :| x in rest && x in s.cells && s.cells[x].key == key;
        assert x in rest && x in s'.cells && s'.cells[x].key == key;
      }
    case Found(key, pair, since) =>
      LiveAfterCommit(s, s', pair, since);
    case Done(key, result, since, until) =>
      var t :| since <= t <= until < |s.hist| && Get(s.hist[t], key) == result;
      assert Get(s'.hist[t], key) == result;
  }

  ghost predicate CanCommit(s: State, cells: Cells, chain: seq<Id>, event: Event) {
    && In(cells, chain) && Kept(s, cells, chain)
    && IsPath(cells, At(chain, 0), chain) && UniqueKeys(cells, chain)
    && (forall x :: x in chain ==> x !in s.retired)
    && s.hist != [] && Legal(Last(s.hist), event, DictOf(cells, chain))
  }

  lemma {:induction false} CommitRetired(s: State, cells: Cells, chain: seq<Id>, event: Event)
    requires Inv(s) && CanCommit(s, cells, chain, event)
    ensures RetiredInv(Commit(s, cells, chain, event))
  {
    var s' := Commit(s, cells, chain, event);
    forall x | x in s'.retired
      ensures x in s'.cells && x !in s'.chain && s'.retired[x] < |s'.hist| && Get(s'.hist[s'.retired[x]], s'.cells[x].key) == Some(s'.cells[x].elem)
    {
      if x in s.chain {
        InChainNow(s, x);
      }
    }
  }

  /** Finishing an operation keeps the invariant if what it did to the dictionary is legal. */
  lemma {:induction false} CommitInv(s: State, cells: Cells, chain: seq<Id>, event: Event)
    requires Inv(s) && CanCommit(s, cells, chain, event)
    ensures Inv(Commit(s, cells, chain, event))
  {
    var s' := Commit(s, cells, chain, event);
    LegalMore(s.hist, s.log, event, DictOf(cells, chain));
    CommitRetired(s, cells, chain, event);
    forall r | r in s'.readers ensures ReaderOk(s', s'.readers[r]) {
      ReaderCommit(s, s', s'.readers[r]);
    }
  }

  /** Changing cells that nobody can meet yet, and the writer's own notes, keeps the rest of the invariant. */
  lemma {:induction false} PrivateInv(s: State, s': State)
    requires Inv(s) && s' == s.(cells := s'.cells, writer := s'.writer)
    requires forall x :: x in s.chain || x in s.retired ==> x in s'.cells && s'.cells[x] == s.cells[x]
    requires In(s'.cells, s.chain) && WriterOk(s')
    ensures Inv(s')
  {
    PathKept(s.cells, s'.cells, s.head, s.chain);
    DictSame(s.cells, s'.cells, s.chain, s.chain);
    forall x | x in s'.retired
      ensures Get(s'.hist[s'.retired[x]], s'.cells[x].key) == Some(s'.cells[x].elem)
    {
      assert x in s.retired;
    }
    forall r | r in s'.readers ensures ReaderOk(s', s'.readers[r]) {
      ReaderPrivate(s, s', s'.readers[r]);
    }
  }

  lemma {:induction false} ReaderPrivate(s: State, s': State, r: Reader)
    requires ReaderOk(s, r)
    requires forall x :: x in s.chain || x in s.retired ==> x in s.cells && x in s'.cells && s'.cells[x] == s.cells[x]
    requires s'.chain == s.chain && s'.hist == s.hist && s'.retired == s.retired
    ensures ReaderOk(s', r)
  {
    match r
    case Walking(key, cur, since, rest) =>
      forall x | x in rest ensures Live(s', x, since) && x in s.cells && x in s'.cells && s'.cells[x] == s.cells[x] {
        assert Live(s, x, since);
      }
      PathKept(s.cells, s'.cells, cur, rest);
      if key in s'.hist[since] {
        var x :| x in rest && x in s.cells && s.cells[x].key == key;
        assert x in rest && x in s'.cells && s'.cells[x].key == key;
      }
    case Found(key, pair, since) =>
      assert Live(s, pair, since);
    case Done(key, result, since, until) =>
  }

  lemma {:induction false} BeginPutInv(s: State, p: Id, key: Key, elem: Elem)
    requires Inv(s) && WellFormed(s) && s.writer.Idle? && p !in s.cells
    ensures Inv(Apply(s, BeginPut(p, key, elem)))
  {
    PrivateInv(s, Apply(s, BeginPut(p, key, elem)));
  }

  lemma {:induction false} BeginDeleteInv(s: State, key: Key)
    requires Inv(s) && WellFormed(s) && s.writer.Idle?
    ensures Inv(Apply(s, BeginDelete(key)))
  {
    PrivateInv(s, Apply(s, BeginDelete(key)));
  }

  lemma {:induction false} PathCons(cells: Cells, x: Id, xs: seq<Id>)
    requires x in cells && IsPath(cells, cells[x].next, xs)
    ensures IsPath(cells, Some(x), [x] + xs)
  {
    forall i | 0 < i < |[x] + xs| ensures ([x] + xs)[i] in cells && cells[([x] + xs)[i]].next == At([x] + xs, i + 1) {
      assert cells[xs[i - 1]].next == At(xs, i);
    }
  }

  lemma {:induction false} PathDrop(cells: Cells, q: Option<Id>, xs: seq<Id>, i: nat)
    requires IsPath(cells, q, xs) && i <= |xs|
    ensures IsPath(cells, At(xs, i), xs[i..])
  {
    forall j | 0 <= j < |xs[i..]| ensures xs[i..][j] in cells && cells[xs[i..][j]].next == At(xs[i..], j + 1) {
      assert cells[xs[i + j]].next == At(xs, i + j + 1);
    }
  }

  lemma {:induction false} PutStepInv(s: State, copy: Id)
    requires Inv(s) && WellFormed(s) && s.writer.Putting? && copy !in s.cells
    ensures Inv(Apply(s, WriterStep(copy)))
  {
    if s.head.None? {
      PutFirstInv(s, copy);
    } else if Find(s.cells, s.chain, s.cells[s.writer.p].key) < |s.chain| {
      PutStoredInv(s, copy);
    } else {
      PutLinkInv(s, copy);
    }
  }

  lemma {:induction false} PutFirstInv(s: State, copy: Id)
    requires Inv(s) && WellFormed(s) && s.writer.Putting? && copy !in s.cells && s.head.None?
    ensures Inv(Apply(s, WriterStep(copy)))
  {
    var p := s.writer.p;
    var c := s.cells[p];
    DictGet(s.cells, s.chain, c.key);
    assert s.chain == [];
    CommitInv(s, s.cells, [p], PutEvent(c.key, c.elem, true));
  }

  lemma {:induction false} PutStoredInv(s: State, copy: Id)
    requires Inv(s) && WellFormed(s) && s.writer.Putting? && copy !in s.cells && s.head.Some?
    requires Find(s.cells, s.chain, s.cells[s.writer.p].key) < |s.chain|
    ensures Inv(Apply(s, WriterStep(copy)))
  {
    var c := s.cells[s.writer.p];
    var i := Find(s.cells, s.chain, c.key);
    var cells := s.cells[s.chain[i] := s.cells[s.chain[i]].(elem := c.elem)];
    DictGet(s.cells, s.chain, c.key);
    DictSet(s.cells, s.chain, i, c.elem);
    PathKept(s.cells, cells, s.head, s.chain);
    CommitInv(s, cells, s.chain, PutEvent(c.key, c.elem, false));
  }

  lemma {:induction false} PutLinkInv(s: State, copy: Id)
    requires Inv(s) && WellFormed(s) && s.writer.Putting? && copy !in s.cells && s.head.Some?
    requires Find(s.cells, s.chain, s.cells[s.writer.p].key) == |s.chain|
    ensures Inv(Apply(s, WriterStep(copy)))
  {
    var c := s.cells[s.writer.p];
    FindSame(s.cells, s.cells[s.writer.p := c.(next := s.head)], s.chain, c.key);
    PrivateInv(s, Apply(s, WriterStep(copy)));
  }

  lemma {:induction false} PutLinkedInv(s: State, copy: Id)
    requires Inv(s) && WellFormed(s) && s.writer.PutLinked? && copy !in s.cells
    ensures Inv(Apply(s, WriterStep(copy)))
  {
    var p := s.writer.p;
    var c, chain := s.cells[p], [p] + s.chain;
    DictGet(s.cells, s.chain, c.key);
    PathCons(s.cells, p, s.chain);
    assert chain[1..] == s.chain;
    assert DictOf(s.cells, chain) == DictOf(s.cells, s.chain)[c.key := c.elem];
    CommitInv(s, s.cells, chain, PutEvent(c.key, c.elem, true));
  }

  lemma {:induction false} DeleteMissingInv(s: State, copy: Id)
    requires Inv(s) && WellFormed(s) && s.writer.Deleting? && copy !in s.cells
    requires Find(s.cells, s.chain, s.writer.key) == |s.chain|
    ensures Inv(Apply(s, WriterStep(copy)))
  {
    var key := s.writer.key;
    DictGet(s.cells, s.chain, key);
    assert Last(s.hist) - {key} == Last(s.hist);
    CommitInv(s, s.cells, s.chain, DeleteEvent(key, false));
  }

  lemma {:induction false} DeleteFoundInv(s: State, copy: Id)
    requires Inv(s) && WellFormed(s) && s.writer.Deleting? && copy !in s.cells
    requires Find(s.cells, s.chain, s.writer.key) < |s.chain|
    ensures Inv(Apply(s, WriterStep(copy)))
  {
    StartCopying(s, Find(s.cells, s.chain, s.writer.key));
    PrivateInv(s, Apply(s, WriterStep(copy)));
  }

  lemma {:induction false} StartCopying(s: State, i: nat)
    requires ChainInv(s) && RetiredInv(s) && i < |s.chain|
    ensures IsPath(s.cells, s.cells[s.chain[i]].next, s.chain[i + 1..])
    ensures forall x :: x in s.chain[i + 1..] ==> x in s.cells && x !in s.retired
    ensures s.chain[..i] + s.chain[i + 1..] == Without(s.chain, i)
  {
    WithoutSplit(s.chain, i);
    PathDrop(s.cells, s.head, s.chain, i + 1);
    assert s.cells[s.chain[i]].next == At(s.chain, i + 1);
    assert forall x :: x in s.chain[i + 1..] ==> x in s.chain;
  }

  lemma ShiftOne(xs: seq<Id>, ys: seq<Id>)
    requires xs != []
    ensures xs[..|xs| - 1] + ([Last(xs)] + ys) == xs + ys
  { }

  lemma {:induction false} CopyInv(s: State, copy: Id)
    requires Inv(s) && WellFormed(s) && s.writer.Copying? && s.writer.todo != [] && copy !in s.cells
    ensures Inv(Apply(s, WriterStep(copy)))
  {
    var s' := Apply(s, WriterStep(copy));
    CopyWriter(s, copy, s'.cells);
    PrivateInv(s, s');
  }

  lemma {:induction false} CopyWriter(s: State, copy: Id, cells: Cells)
    requires Inv(s) && s.writer.Copying? && s.writer.todo != [] && copy !in s.cells && In(s.cells, s.writer.todo)
    requires var q := s.cells[Last(s.writer.todo)]; cells == s.cells[copy := Cell(q.key, q.elem, s.writer.newFirst)]
    ensures In(cells, s.chain) && In(cells, [copy] + s.writer.newChain)
    ensures var Copying(key, todo, newFirst, newChain, left) := s.writer;
      WriterOk(s.(cells := cells, writer := Copying(key, todo[..|todo| - 1], Some(copy), [copy] + newChain, [Last(todo)] + left)))
  {
    var Copying(key, todo, newFirst, newChain, left) := s.writer;
    PathKept(s.cells, cells, newFirst, newChain);
    PathCons(cells, copy, newChain);
    FindSame(s.cells, cells, s.chain, key);
    CopiedEntries(s.cells, cells, copy, Last(todo), newChain, left);
    ShiftOne(todo, left);
  }

  lemma {:induction false} CopiedEntries(cells: Cells, cells': Cells, x: Id, y: Id, xs: seq<Id>, ys: seq<Id>)
    requires In(cells, xs) && In(cells, ys) && SameEntries(cells, cells, xs, ys) && x in cells' && y in cells
    requires forall z :: z in cells ==> z in cells' && cells'[z] == cells[z]
    requires SameEntry(cells', cells', x, y)
    ensures In(cells', [x] + xs) && In(cells', [y] + ys) && SameEntries(cells', cells', [x] + xs, [y] + ys)
  {
    forall j | 0 <= j < |[x] + xs| ensures SameEntry(cells', cells', ([x] + xs)[j], ([y] + ys)[j]) {
      if j > 0 {
        assert SameEntry(cells, cells, xs[j - 1], ys[j - 1]);
      }
    }
  }

  lemma AllCopied(s: State)
    requires In(s.cells, s.chain) && WriterOk(s) && s.writer.Copying? && s.writer.todo == []
    ensures var i := Find(s.cells, s.chain, s.writer.key);
      i < |s.chain| && In(s.cells, s.writer.newChain) && In(s.cells, s.writer.left) && s.writer.left == Without(s.chain, i)
      && SameEntries(s.cells, s.cells, s.writer.newChain, s.writer.left)
  { }

  lemma {:induction false} CopiedInv(s: State, copy: Id)
    requires Inv(s) && WellFormed(s) && s.writer.Copying? && s.writer.todo == [] && copy !in s.cells
    ensures Inv(Apply(s, WriterStep(copy)))
  {
    var Copying(key, todo, newFirst, newChain, left) := s.writer;
    var i := Find(s.cells, s.chain, key);
    assert left == Without(s.chain, i);
    DictGet(s.cells, s.chain, key);
    UniqueWithout(s.cells, s.chain, i);
    DictCut(s.cells, s.chain, i);
    DictSame(s.cells, s.cells, newChain, left);
    UniqueSame(s.cells, newChain, left);
    CommitInv(s, s.cells, newChain, DeleteEvent(key, true));
    assert newFirst == At(newChain, 0);
  }

  lemma {:induction false} UniqueSame(cells: Cells, xs: seq<Id>, ys: seq<Id>)
    requires In(cells, xs) && In(cells, ys) && SameEntries(cells, cells, xs, ys) && UniqueKeys(cells, ys)
    ensures UniqueKeys(cells, xs)
  {
    forall i, j | 0 <= i < j < |xs| ensures cells[xs[i]].key != cells[xs[j]].key {
      assert SameEntry(cells, cells, xs[i], ys[i]) && SameEntry(cells, cells, xs[j], ys[j]);
    }
  }

  // ---------- runs ----------

  lemma {:induction false} StepInv(s: State, a: Action)
    requires Inv(s) && WellFormed(s) && Enabled(s, a)
    ensures Inv(Apply(s, a))
  {
    match a
    case BeginPut(p, key, elem) => BeginPutInv(s, p, key, elem);
    case BeginDelete(key) => BeginDeleteInv(s, key);
    case BeginGet(r, key) => BeginGetInv(s, r, key);
    case ReaderStep(r) => ReaderStepInv(s, r);
    case WriterStep(copy) =>
      match s.writer
      case Putting(_) => PutStepInv(s, copy);
      case PutLinked(_) => PutLinkedInv(s, copy);
      case Deleting(key) => if Find(s.cells, s.chain, key) < |s.chain| { DeleteFoundInv(s, copy); } else { DeleteMissingInv(s, copy); }
      case Copying(_, todo, _, _, _) => if todo == [] { CopiedInv(s, copy); } else { CopyInv(s, copy); }
  }

  /** `states` is a run: it starts empty, and every state follows from the one before by some enabled step. */
  ghost predicate IsRun(states: seq<State>, actions: seq<Action>) {
    && |states| == |actions| + 1 && states[0] == Init()
    && forall i :: 0 <= i < |actions| ==>
      WellFormed(states[i]) && Enabled(states[i], actions[i]) && states[i + 1] == Apply(states[i], actions[i])
  }

  lemma {:induction false} RunInv(states: seq<State>, actions: seq<Action>, n: nat)
    requires IsRun(states, actions) && n < |states|
    ensures Inv(states[n]) && WellFormed(states[n])
  {
    if n == 0 {
      InitInv();
    } else {
      RunInv(states, actions, n - 1);
      StepInv(states[n - 1], actions[n - 1]);
    }
    InvWellFormed(states[n]);
  }

  /**
   Reads are linearizable. In every run, the finished operations took effect one after the other in the order of `log`
   and returned what they should; and what a finished Get returned is what its key had, or that it had nothing, after
   some operation between the moment the Get loaded the head and the moment it ended.
   */
  lemma {:induction false} Linearizable(states: seq<State>, actions: seq<Action>, n: nat, reader: nat)
    requires IsRun(states, actions) && n < |states|
    ensures var s := states[n];
      && LegalRun(s.hist, s.log)
      && (reader in s.readers && s.readers[reader].Done? ==>
        var r := s.readers[reader]; Explains(s.hist, r.key, r.result, r.since, r.until))
  {
    RunInv(states, actions, n);
    if reader in states[n].readers {
      assert ReaderOk(states[n], states[n].readers[reader]);
    }
  }

  // ---------- the same operations as on the heap ----------

  function Listing(cells: Cells, xs: seq<Id>): (l: seq<CmapBucket.Entry>)
    requires In(cells, xs)
    ensures |l| == |xs| && forall i :: 0 <= i < |xs| ==> l[i] == CmapBucket.Entry(cells[xs[i]].key, cells[xs[i]].elem)
  {
    if xs == [] then [] else [CmapBucket.Entry(cells[xs[0]].key, cells[xs[0]].elem)] + Listing(cells, xs[1..])
  }

  lemma ListingPlace(cells: Cells, xs: seq<Id>, key: Key)
    requires In(cells, xs)
    ensures CmapBucket.Place(Listing(cells, xs), key) == Find(cells, xs, key)
  {
    CmapBucket.PlaceIs(Listing(cells, xs), key, Find(cells, xs, key));
  }

  /** The chain that Delete has put together holds what is left without the key. */
  lemma {:induction false} ListingWithout(cells: Cells, xs: seq<Id>, key: Key, ys: seq<Id>)
    requires In(cells, xs) && In(cells, ys) && Find(cells, xs, key) < |xs| && In(cells, Without(xs, Find(cells, xs, key)))
    requires SameEntries(cells, cells, ys, Without(xs, Find(cells, xs, key)))
    ensures Listing(cells, ys) == CmapBucket.WithoutKey(Listing(cells, xs), key)
  {
    var i := Find(cells, xs, key);
    ListingPlace(cells, xs, key);
    ListingSame(cells, ys, Without(xs, i));
    ListingCut(cells, xs, i);
    CmapBucket.WithoutAt(Listing(cells, xs), key, i);
  }

  lemma ListingSame(cells: Cells, xs: seq<Id>, ys: seq<Id>)
    requires In(cells, xs) && In(cells, ys) && SameEntries(cells, cells, xs, ys)
    ensures Listing(cells, xs) == Listing(cells, ys)
  {
    forall i | 0 <= i < |xs| ensures Listing(cells, xs)[i] == Listing(cells, ys)[i] {
      assert SameEntry(cells, cells, xs[i], ys[i]);
    }
  }

  lemma {:induction false} ListingCut(cells: Cells, xs: seq<Id>, i: nat)
    requires In(cells, xs) && i < |xs| && In(cells, Without(xs, i))
    ensures Listing(cells, Without(xs, i)) == Listing(cells, xs)[..i] + Listing(cells, xs)[i + 1..]
  {
    if i > 0 {
      var w := Without(xs[1..], i - 1);
      assert Without(xs, i)[0] == xs[0] && Without(xs, i)[1..] == w;
      forall x | x in w ensures x in cells { assert x in Without(xs, i); }
      ListingCut(cells, xs[1..], i - 1);
      CutBehind(CmapBucket.Entry(cells[xs[0]].key, cells[xs[0]].elem), Listing(cells, xs[1..]), i - 1);
    }
  }

  lemma CutBehind<T>(x: T, l: seq<T>, i: nat)
    requires i < |l|
    ensures [x] + (l[..i] + l[i + 1..]) == ([x] + l)[..i + 1] + ([x] + l)[i + 2..]
  { }

  /** What an operation does to the entries of the chain: the same as `PutEntry` and `DeleteEntry` of `CmapBucket`. */
  ghost predicate Does(before: seq<CmapBucket.Entry>, event: Event, after: seq<CmapBucket.Entry>) {
    match event
    case PutEvent(key, elem, ok) => after == CmapBucket.WithEntry(before, key, elem) && ok == (CmapBucket.Place(before, key) == |before|)
    case DeleteEvent(key, ok) => after == CmapBucket.WithoutKey(before, key) && ok == (CmapBucket.Place(before, key) < |before|)
  }

  /** What the step of a writer has to do with the entries of the chain. */
  ghost predicate WriterDid(s: State, s': State)
    requires In(s.cells, s.chain)
  {
    && In(s'.cells, s'.chain)
    && if s'.writer.Idle? then s'.log != [] && Does(Listing(s.cells, s.chain), Last(s'.log), Listing(s'.cells, s'.chain))
       else Listing(s'.cells, s'.chain) == Listing(s.cells, s.chain)
  }

  lemma {:induction false} PutDoes(s: State, copy: Id)
    requires Inv(s) && WellFormed(s) && s.writer.Putting? && copy !in s.cells
    ensures WriterDid(s, ApplyWriter(s, copy))
  {
    var p := s.writer.p;
    var c, i := s.cells[p], Find(s.cells, s.chain, s.cells[p].key);
    ListingPlace(s.cells, s.chain, c.key);
    if s.head.None? {
      assert s.chain == [];
    } else if i < |s.chain| {
      ListingSet(s.cells, s.chain, i, c.elem);
    } else {
      ListingKept(s.cells, s.cells[p := c.(next := s.head)], s.chain);
    }
  }

  lemma ListingSet(cells: Cells, xs: seq<Id>, i: nat, elem: Elem)
    requires In(cells, xs) && UniqueKeys(cells, xs) && i < |xs|
    ensures var after := cells[xs[i] := cells[xs[i]].(elem := elem)];
      In(after, xs) && Listing(after, xs) == Listing(cells, xs)[i := CmapBucket.Entry(cells[xs[i]].key, elem)]
  { }

  lemma ListingKept(cells: Cells, after: Cells, xs: seq<Id>)
    requires In(cells, xs) && In(after, xs) && forall x :: x in xs ==> after[x].key == cells[x].key && after[x].elem == cells[x].elem
    ensures Listing(after, xs) == Listing(cells, xs)
  { }

  lemma {:induction false} PutLinkedDoes(s: State, copy: Id)
    requires Inv(s) && WellFormed(s) && s.writer.PutLinked? && copy !in s.cells
    ensures WriterDid(s, ApplyWriter(s, copy))
  {
    var p := s.writer.p;
    ListingPlace(s.cells, s.chain, s.cells[p].key);
    assert ([p] + s.chain)[1..] == s.chain;
  }

  lemma {:induction false} CopyDoes(s: State, copy: Id)
    requires Inv(s) && WellFormed(s) && s.writer.Copying? && s.writer.todo != [] && copy !in s.cells
    ensures WriterDid(s, ApplyWriter(s, copy))
  {
    ListingKept(s.cells, ApplyWriter(s, copy).cells, s.chain);
  }

  lemma {:induction false} CopiedDoes(s: State, copy: Id)
    requires In(s.cells, s.chain) && WriterOk(s) && WellFormed(s) && s.writer.Copying? && s.writer.todo == [] && copy !in s.cells
    ensures WriterDid(s, ApplyWriter(s, copy))
  {
    AllCopied(s);
    ListingPlace(s.cells, s.chain, s.writer.key);
    ListingWithout(s.cells, s.chain, s.writer.key, s.writer.newChain);
  }

  /** The step that ends an operation does to the chain what the operation does on the heap, all others do nothing. */
  lemma {:induction false} WriterDoes(s: State, copy: Id)
    requires Inv(s) && WellFormed(s) && !s.writer.Idle? && copy !in s.cells
    ensures WriterDid(s, Apply(s, WriterStep(copy)))
  {
    match s.writer
    case Putting(p) => PutDoes(s, copy);
    case PutLinked(p) => PutLinkedDoes(s, copy);
    case Deleting(key) => ListingPlace(s.cells, s.chain, key);
    case Copying(key, todo, newFirst, newChain, left) => if todo == [] { CopiedDoes(s, copy); } else { CopyDoes(s, copy); }
  }
}
