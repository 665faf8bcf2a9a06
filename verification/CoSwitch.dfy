/**
 Switching between coroutines that share one stack, as in coroutine_3/src/sched.c.

 The shared region is the memory below `co_stack_bottom`, lowest address first; a coroutine whose stack pointer is
 `used` bytes below the bottom occupies the last `used` bytes. Stacks stay small enough to be copied (COPY_STACK), so
 the mmap branches are never taken. The run queue is a ring, given from the main thread on; the registry, a red-black
 tree in the code, is a map from ids. What a running coroutine does to the region is left open.
 */
module CoSwitch {
  type Byte = b: int | 0 <= b < 256

  const PAGE: nat := 4096
  const COPY_STACK: nat := 128 * 1024

  function RoundUp(n: nat): (r: nat)
    ensures n <= r < n + PAGE
  {
    (n + PAGE - 1) / PAGE * PAGE
  }

  /** The last `n` bytes. */
  function Tail(s: seq<Byte>, n: nat): seq<Byte>
    requires n <= |s|
  {
    s[|s| - n..]
  }

  method Copy(src: array<Byte>, from: nat, dst: array<Byte>, to: nat, n: nat)
    requires src != dst && from + n <= src.Length && to + n <= dst.Length
    modifies dst
    ensures dst[to..to + n] == src[from..from + n]
    ensures dst[..to] == old(dst[..to]) && dst[to + n..] == old(dst[to + n..])
  {
    for i := 0 to n
      invariant dst[to..to + i] == src[from..from + i]
      invariant forall j :: 0 <= j < dst.Length && !(to <= j < to + i) ==> dst[j] == old(dst[j])
    {
      dst[to + i] := src[from + i];
    }
  }

  lemma TailSlice(a: array<Byte>, n: nat)
    requires n <= a.Length
    ensures Tail(a[..], n) == a[a.Length - n..a.Length - n + n]
  { }

  // ---------- the run queue ----------

  ghost predicate Distinct(s: seq<Co>) {
    forall i, j :: 0 <= i < j < |s| ==> s[i] != s[j]
  }

  function Place(s: seq<Co>, c: Co): (i: nat)
    requires c in s
    ensures i < |s| && s[i] == c
  {
    if s[0] == c then 0 else 1 + Place(s[1..], c)
  }

  /** The one behind `c` in the ring. */
  function Following(s: seq<Co>, c: Co): Co
    requires c in s
  {
    if Place(s, c) + 1 < |s| then s[Place(s, c) + 1] else s[0]
  }

  function Without(s: seq<Co>, c: Co): seq<Co> {
    if c in s then s[..Place(s, c)] + s[Place(s, c) + 1..] else s
  }

  lemma {:induction false} WithoutMember(s: seq<Co>, c: Co, x: Co)
    requires Distinct(s)
    ensures x in Without(s, c) <==> x in s && x != c
    ensures Distinct(Without(s, c)) && (s != [] && s[0] != c ==> Without(s, c) != [] && Without(s, c)[0] == s[0])
  {
    var w := Without(s, c);
    if c in s {
      var i := Place(s, c);
      assert forall k :: 0 <= k < |w| ==> w[k] == s[if k < i then k else k + 1];
      if x in s && x != c {
        var k :| 0 <= k < |s| && s[k] == x;
        assert w[if k < i then k else k - 1] == x;
      }
    }
  }

  /** In a ring of two or more, the one behind is another. */
  lemma {:induction false} FollowingOther(s: seq<Co>, c: Co)
    requires Distinct(s) && c in s
    ensures Following(s, c) in s && (Following(s, c) == c <==> |s| == 1)
  { }

  /** The one whose turn comes after `k` steps. */
  function Turn(s: seq<Co>, c: Co, k: nat): (t: Co)
    requires c in s
    ensures t in s
  {
    if k == 0 then c else Following(s, Turn(s, c, k - 1))
  }

  lemma {:induction false} TurnPlace(s: seq<Co>, c: Co, k: nat)
    requires Distinct(s) && c in s && k <= |s|
    ensures Turn(s, c, k) == var i := Place(s, c) + k; s[if i < |s| then i else i - |s|]
  {
    if k > 0 {
      TurnPlace(s, c, k - 1);
      var i := Place(s, c) + k - 1;
      PlaceOf(s, if i < |s| then i else i - |s|);
    }
  }

  lemma {:induction false} PlaceOf(s: seq<Co>, i: nat)
    requires Distinct(s) && i < |s|
    ensures Place(s, s[i]) == i
  { }

  /** Nobody starves: whoever runs, each member of the ring has its turn within one round. */
  lemma {:induction false} EachHasItsTurn(s: seq<Co>, c: Co, d: Co) returns (k: nat)
    requires Distinct(s) && c in s && d in s
    ensures 0 < k <= |s| && Turn(s, c, k) == d
  {
    var i, j := Place(s, c), Place(s, d);
    k := if j > i then j - i else j + |s| - i;
    TurnPlace(s, c, k);
  }

  // ---------- coroutines ----------

  /** A zeroed stack with the first frame at its bottom. */
  method NewStack(size: nat, frame: seq<Byte>) returns (stack: array<Byte>)
    requires |frame| <= size
    ensures fresh(stack) && stack.Length == size && Tail(stack[..], |frame|) == frame
  {
    stack := new Byte[size](_ => 0);
    var at := size - |frame|;
    forall i | 0 <= i < |frame| { stack[at + i] := frame[i]; }
  }

  class Co {
    const id: nat
    const autostack: bool
    var used: nat
    var stack: array<Byte>
    var exit: bool
    /** The bytes this coroutine owned in the shared region when it last ran, or its first frame. */
    ghost var image: seq<Byte>

    constructor (id: nat, autostack: bool, stack: array<Byte>, used: nat, ghost image: seq<Byte>)
      ensures this.id == id && this.autostack == autostack && this.stack == stack && this.used == used && !exit && this.image == image
    {
      this.id, this.autostack, this.stack, this.used, this.exit, this.image := id, autostack, stack, used, false, image;
    }
  }

  class Sched {
    const region: array<Byte>
    const init: Co
    var current: Co
    var onstack: Co?
    var queue: seq<Co>
    var registry: map<nat, Co>
    var nextId: nat
    ghost var live: set<Co>

    ghost function Buffers(): set<array<Byte>>
      reads this, live
    {
      set c | c in live :: c.stack
    }

    ghost predicate Separate()
      reads this, live
    {
      && (forall c :: c in live ==> c.stack != region)
      && (forall c, d :: c in live && d in live && c != d ==> c.stack != d.stack)
    }

    ghost predicate Fits(c: Co)
      reads c
    {
      RoundUp(c.used) <= COPY_STACK && |c.image| == c.used
    }

    /** The bytes of `c` are in its own buffer. */
    ghost predicate Saved(c: Co)
      reads c, c.stack
    {
      c.used <= c.stack.Length && Tail(c.stack[..], c.used) == c.image
    }

    /** The bytes of `c` are in the shared region. */
    ghost predicate Resident(c: Co)
      reads c, region
    {
      c.used <= region.Length && Tail(region[..], c.used) == c.image
    }

    /** The bytes of `on`, if there is one, are in the shared region, those of all other AUTOSTACK coroutines are not. */
    ghost predicate Held(on: Co?)
      reads this, live, Buffers(), region
    {
      && (on != null ==> on in live && on.autostack && Resident(on))
      && (forall c :: c in live && c.autostack && c != on ==> Saved(c))
    }

    /** With `cur` running: where the bytes of every AUTOSTACK coroutine are. */
    ghost predicate Placed(cur: Co)
      requires cur in live
      reads this, live, Buffers(), region
    {
      Held(if cur.autostack then cur else onstack)
    }

    ghost predicate Basic()
      reads this, live
    {
      && region.Length == COPY_STACK && init in live && !init.autostack && !init.exit && Separate()
      && (forall c :: c in live && c.autostack ==> Fits(c))
    }

    /** The registry has all coroutines but the main thread, by their ids; the run queue begins with the main thread. */
    ghost predicate Listed(all: set<Co>)
      reads this
    {
      && (forall c :: c in all && c != init ==> c.id in registry && registry[c.id] == c)
      && (forall id :: id in registry ==> id < nextId && registry[id].id == id && registry[id] in all && registry[id] != init)
      && Distinct(queue) && queue != [] && queue[0] == init && forall c :: c in queue ==> c in all
    }

    ghost predicate Valid()
      reads this, live, Buffers(), region
    {
      Basic() && current in live && Placed(current) && Listed(live) && current in queue
    }

    constructor ()
      ensures Valid() && live == {init} && current == init && onstack == null && fresh(region) && fresh(init)
      ensures queue == [init] && registry == map[]
    {
      region := new Byte[COPY_STACK];
      var own := new Byte[0];
      var main := new Co(0, false, own, 0, []);
      init, current, onstack, live := main, main, null, {main};
      queue, registry, nextId := [main], map[], 1;
    }

    /** What a running AUTOSTACK coroutine does: it may write anywhere in the region and move its stack pointer. */
    method Run(bytes: seq<Byte>, used: nat)
      requires Valid() && current.autostack && |bytes| == region.Length && RoundUp(used) <= COPY_STACK
      modifies region, current`used, current`image
      ensures Valid() && region[..] == bytes && current.used == used
      ensures current.image == Tail(bytes, used)
    {
      forall i | 0 <= i < region.Length { region[i] := bytes[i]; }
      assert region[..] == bytes;
      current.used := used;
      current.image := Tail(bytes, used);
    }

    /** The function of the current coroutine has returned (`__new`); it will be released by the next switch. */
    method Finish()
      requires Valid() && current != init
      modifies current`exit
      ensures Valid() && current.exit
    {
      current.exit := true;
    }

    /**
     cocreate. The first frame is written at the end of the coroutine's own buffer; an AUTOSTACK coroutine starts with
     one page and will find the frame at the bottom of the shared region. It gets the next id and the last place in the
     run queue.
     */
    method Create(auto: bool, stackSize: nat, frame: seq<Byte>) returns (co: Co)
      requires Valid() && |frame| <= PAGE && (!auto ==> |frame| <= stackSize)
      modifies this`live, `queue, `registry, `nextId
      ensures Valid() && live == old(live) + {co} && fresh(co)
      ensures co.id == old(nextId) && co.id !in old(registry) && registry == old(registry)[co.id := co]
      ensures queue == old(queue) + [co] && nextId == old(nextId) + 1
      ensures co.autostack == auto && !co.exit && (auto ==> co.image == frame && co.used == |frame|)
    {
      var stack := NewStack(if auto then PAGE else stackSize, frame);
      co := new Co(nextId, auto, stack, |frame|, frame);
      Enlist(co);
    }

    /** The new coroutine joins the others. */
    method Enlist(co: Co)
      requires Valid() && co !in live && co.stack != region && (forall c :: c in live ==> c.stack != co.stack)
      requires (co.autostack ==> Fits(co) && Saved(co)) && co.id == nextId
      modifies this`live, `queue, `registry, `nextId
      ensures Valid() && live == old(live) + {co}
      ensures queue == old(queue) + [co] && registry == old(registry)[co.id := co] && nextId == old(nextId) + 1
    {
      ghost var all := live;
      Welcome(co);
      Enter(co, all);
    }

    ghost method Welcome(co: Co)
      requires Basic() && current in live && Placed(current)
      requires co.stack != region && (forall c :: c in live ==> c.stack != co.stack) && (co.autostack ==> Fits(co) && Saved(co))
      modifies this`live
      ensures Basic() && live == old(live) + {co} && current in live && Placed(current)
    {
      live := live + {co};
    }

    method Enter(co: Co, ghost all: set<Co>)
      requires Listed(all) && co !in all && init in all && co.id == nextId
      modifies this`queue, `registry, `nextId
      ensures Listed(all + {co}) && queue == old(queue) + [co] && registry == old(registry)[co.id := co] && nextId == old(nextId) + 1
    {
      queue := queue + [co];
      registry := registry[co.id := co];
      nextId := nextId + 1;
    }

    /** cowakeup: a coroutine that is registered and not in the run queue goes to its end. */
    method WakeUp(id: nat)
      requires Valid()
      modifies this`queue
      ensures Valid() && queue == if id in registry && registry[id] !in old(queue) then old(queue) + [registry[id]] else old(queue)
    {
      if id in registry && registry[id] !in queue {
        queue := queue + [registry[id]];
      }
    }

    /** Copies the bytes of `c` from the region to its buffer, which is replaced if it is too small. */
    method SaveStack(c: Co)
      requires c.autostack && Fits(c) && c.stack != region && region.Length == COPY_STACK && Resident(c)
      modifies c`stack, c.stack
      ensures Saved(c) && (c.stack == old(c.stack) || fresh(c.stack))
    {
      var stackSize := RoundUp(c.used);
      if stackSize > c.stack.Length {
        c.stack := new Byte[stackSize](_ => 0);
      }
      Copy(region, region.Length - c.used, c.stack, c.stack.Length - c.used, c.used);
      TailSlice(c.stack, c.used);
      TailSlice(region, c.used);
    }

    /** Copies the bytes of `c` from its buffer to the region. */
    method RestoreStack(c: Co)
      requires Fits(c) && c.stack != region && region.Length == COPY_STACK && Saved(c)
      modifies region
      ensures Resident(c)
    {
      Copy(c.stack, c.stack.Length - c.used, region, region.Length - c.used, c.used);
      TailSlice(c.stack, c.used);
      TailSlice(region, c.used);
    }

    /** The first half of the switch: the previous user of the region is copied out, the next one is copied in. */
    method SwitchStack(prev: Co, next: Co)
      requires Basic() && prev == current && prev in live && Placed(prev) && next in live && next != prev
      modifies this`onstack, region, live`stack, Buffers()
      ensures Basic() && Placed(next)
      ensures prev.autostack ==> onstack == prev
      ensures !prev.autostack ==> onstack == old(onstack)
    {
      if prev.autostack {
        onstack := prev;
      }
      if next.autostack && onstack != next {
        if onstack != null {
          Release(onstack);
        }
        Occupy(next);
      }
    }

    /** Saves the stack of the coroutine that is in the shared region, which is then free. */
    method Release(c: Co)
      requires Basic() && Held(c)
      modifies c`stack, c.stack
      ensures Basic() && Held(null)
    {
      SaveStack(c);
    }

    /** Restores the stack of a coroutine into the free region. */
    method Occupy(c: Co)
      requires Basic() && Held(null) && c in live && c.autostack
      modifies region
      ensures Basic() && Held(c)
    {
      RestoreStack(c);
    }

    /** The second half: `next` is now the current coroutine, and one that has finished is released. */
    method SwitchTo(prev: Co, next: Co)
      requires Basic() && prev == current && prev in live && Listed(live) && next in queue && next != prev && Placed(next)
      requires (prev.autostack ==> onstack == prev) && (prev.exit ==> prev != init)
      modifies this
      ensures Valid() && current == next && nextId == old(nextId)
      ensures live == (if prev.exit then old(live) - {prev} else old(live))
      ensures queue == (if prev.exit then Without(old(queue), prev) else old(queue))
      ensures registry == (if prev.exit then old(registry) - {prev.id} else old(registry))
    {
      current := next;
      if prev.exit {
        Discard(prev);
      }
    }

    /** Releases a coroutine that has finished and no longer runs. */
    method Discard(co: Co)
      requires Valid() && co in live && co != current && co != init
      modifies this`onstack, `queue, `registry, `live
      ensures Valid() && live == old(live) - {co} && queue == Without(old(queue), co) && registry == old(registry) - {co.id}
    {
      Delist(co);
      Vacate(co);
    }

    /** The region is free when it was the coroutine's. */
    method Vacate(co: Co)
      requires Basic() && current in live && Placed(current) && co != current && co != init
      modifies this`onstack, `live
      ensures Basic() && live == old(live) - {co} && current in live && Placed(current)
    {
      if onstack == co {
        onstack := null;
      }
      live := live - {co};
    }

    method Delist(co: Co)
      requires Listed(live) && co in live && co != init
      modifies this`queue, `registry
      ensures Listed(live - {co})
      ensures queue == Without(old(queue), co) && registry == old(registry) - {co.id}
      ensures forall c :: c in queue <==> c in old(queue) && c != co
    {
      forall c { WithoutMember(queue, co, c); }
      queue := Without(queue, co);
      registry := registry - {co.id};
    }

    /**
     A switch to another coroutine. An AUTOSTACK coroutine that is switched in finds the bytes that were there when it
     was last switched out, or its first frame.
     */
    method Switch(next: Co)
      requires Basic() && current in live && Placed(current) && Listed(live) && next in queue && next != current
      modifies this, region, live`stack, Buffers()
      ensures Valid() && current == next && nextId == old(nextId)
      ensures live == (if old(current.exit) then old(live) - {old(current)} else old(live))
      ensures queue == (if old(current.exit) then Without(old(queue), old(current)) else old(queue))
      ensures registry == (if old(current.exit) then old(registry) - {old(current).id} else old(registry))
      ensures next.autostack ==> Tail(region[..], next.used) == next.image
      ensures forall c :: c in old(live) ==> c.image == old(c.image) && c.used == old(c.used)
    {
      var prev := current;
      SwitchStack(prev, next);
      SwitchTo(prev, next);
    }

    /** What schedule returns to a coroutine, once that runs again: whether there are others than the main thread. */
    method Resumed() returns (more: bool)
      requires Valid()
      ensures more <==> exists c :: c in queue && c != init
    {
      more := |queue| > 1;
      assert |queue| > 1 ==> queue[1] in queue && queue[1] != queue[0];
    }

    /** The current coroutine, which still runs, leaves the run queue. */
    method Dequeue()
      requires Listed(live) && current != init
      modifies this`queue
      ensures Listed(live) && queue == Without(old(queue), current)
      ensures forall c :: c in queue <==> c in old(queue) && c != current
    {
      forall c { WithoutMember(queue, current, c); }
      queue := Without(queue, current);
    }

    /**
     schedule, and with `dequeue` cowait: the next coroutine of the ring runs. Everybody keeps the bytes of its stack;
     the one that was running leaves the run queue when it waits or has finished.
     */
    method Schedule(dequeue: bool)
      requires Valid()
      modifies this, region, live`stack, Buffers()
      ensures Valid() && current == Following(old(queue), old(current)) && nextId == old(nextId)
      ensures current.autostack ==> Tail(region[..], current.used) == current.image
      ensures forall c :: c in old(live) ==> c.image == old(c.image) && c.used == old(c.used)
      ensures var leaves := old(current) != init && (dequeue || old(current.exit));
        queue == if leaves then Without(old(queue), old(current)) else old(queue)
      ensures live == (if old(current.exit) then old(live) - {old(current)} else old(live))
      ensures registry == (if old(current.exit) then old(registry) - {old(current).id} else old(registry))
    {
      var next := Following(queue, current);
      FollowingOther(queue, current);
      if dequeue && current != init {
        Dequeue();
      }
      if current != next {
        Switch(next);
      }
    }
  }
}
