/** The timers of fsm/CppWorker.cpp: arming, cancelling, and the pass that fires what is
    due. Callbacks may arm and cancel timers while the pass is under way. */
module Worker {
  import opened MinHeap

  /** What a callback does to the timers: arm one `delay` after a clock that has moved on
      by `elapsed` since the last reading, or cancel one. */
  datatype Op = Arm(elapsed: nat, delay: nat, timer: nat) | Cancel(timer: nat)

  /** Callbacks that arm no timer without delay. */
  predicate PositiveDelays(ops: seq<Op>) {
    forall i :: 0 <= i < |ops| && ops[i].Arm? ==> ops[i].delay > 0
  }

  ghost function Due(items: set<Item>, timeNow: int): set<Item> {
    set x | x in items && x.timeout <= timeNow
  }

  // ---------------------------------------------------------------- what calls do to the timers

  /** The armed timers, the pointers that clients keep to them, the clock, every timer there
      has been, and those that were cancelled. */
  datatype Timers = Timers(armed: set<Item>, handles: map<nat, Item>, clock: int, seen: set<Item>, cancelled: set<Item>)

  ghost function Without(handles: map<nat, Item>, item: Item): (r: map<nat, Item>) {
    map t | t in handles && handles[t] != item :: handles[t]
  }

  /** One call of a callback; `item` is the timer it makes. */
  ghost function Do(s: Timers, op: Op, item: Item?): (r: Timers) {
    match op
    case Arm(elapsed, delay, timer) =>
      var s' := s.(clock := s.clock + elapsed);
      if item == null then s'
      else s'.(armed := s.armed + {item}, handles := s.handles[timer := item], seen := s.seen + {item})
    case Cancel(timer) =>
      if timer !in s.handles then s
      else
        var h := s.handles[timer];
        s.(armed := s.armed - {h}, handles := Without(s.handles, h), cancelled := s.cancelled + {h})
  }

  /** A timer is made exactly by arming one on a worker that was not told to stop: a new one,
      due after the delay. */
  ghost predicate Makes(s: Timers, op: Op, item: Item?, stopping: bool) {
    && (item != null <==> op.Arm? && !stopping)
    && (item != null ==> item !in s.seen && item.timer == op.timer && item.timeout == s.clock + op.elapsed + op.delay)
  }

  /** All calls of a callback, `made` being the timers they make. */
  ghost function DoAll(s: Timers, ops: seq<Op>, made: seq<Item?>): (r: Timers)
    requires |made| == |ops|
  {
    if ops == [] then s
    else
      var n := |ops| - 1;
      Do(DoAll(s, ops[..n], made[..n]), ops[n], made[n])
  }

  ghost predicate MakesAll(s: Timers, ops: seq<Op>, made: seq<Item?>, stopping: bool)
    requires |made| == |ops|
  {
    ops != [] ==>
      var n := |ops| - 1;
      MakesAll(s, ops[..n], made[..n], stopping) && Makes(DoAll(s, ops[..n], made[..n]), ops[n], made[n], stopping)
  }

  // ---------------------------------------------------------------- what a pass does

  /** `script(k, timer)` is what the callback of `timer` does when it is the k-th to run. */
  type Script = (nat, nat) -> seq<Op>

  ghost predicate NeverCancels(script: Script) {
    forall k, t, u :: Cancel(u) !in script(k, t)
  }

  ghost function Popped(s: Timers, e: Item): (r: Timers) {
    s.(armed := s.armed - {e}, handles := Without(s.handles, e))
  }

  /** The timers after a pass that fired these, each callback run once, right after its timer
      was taken from the heap. */
  ghost function Pass(s: Timers, script: Script, fired: seq<Item>, made: seq<seq<Item?>>): (r: Timers)
    requires |made| == |fired| && forall k :: 0 <= k < |fired| ==> |made[k]| == |script(k, fired[k].timer)|
  {
    if fired == [] then s
    else
      var n := |fired| - 1;
      DoAll(Popped(Pass(s, script, fired[..n], made[..n]), fired[n]), script(n, fired[n].timer), made[n])
  }

  ghost predicate Fits(script: Script, fired: seq<Item>, made: seq<seq<Item?>>) {
    |made| == |fired| && forall k :: 0 <= k < |fired| ==> |made[k]| == |script(k, fired[k].timer)|
  }

  /** Each timer fired was armed and due, and none was due before it. */
  ghost predicate Fires(s: Timers, timeNow: int, script: Script, fired: seq<Item>, made: seq<seq<Item?>>, stopping: bool)
    requires Fits(script, fired, made)
  {
    fired != [] ==>
      var n := |fired| - 1;
      && Fires(s, timeNow, script, fired[..n], made[..n], stopping)
      && FiresNext(Pass(s, script, fired[..n], made[..n]), timeNow, script(n, fired[n].timer), fired[n], made[n], stopping)
  }

  ghost predicate FiresNext(s: Timers, timeNow: int, ops: seq<Op>, e: Item, made: seq<Item?>, stopping: bool)
    requires |made| == |ops|
  {
    && e in s.armed && e.timeout <= timeNow && (forall x :: x in s.armed ==> e.timeout <= x.timeout)
    && MakesAll(Popped(s, e), ops, made, stopping)
  }

  lemma PassSnoc(s: Timers, timeNow: int, script: Script, fired: seq<Item>, made: seq<seq<Item?>>, stopping: bool,
                 e: Item, more: seq<Item?>)
    requires Fits(script, fired, made) && Fires(s, timeNow, script, fired, made, stopping)
    requires |more| == |script(|fired|, e.timer)|
    requires FiresNext(Pass(s, script, fired, made), timeNow, script(|fired|, e.timer), e, more, stopping)
    ensures Fits(script, fired + [e], made + [more]) && Fires(s, timeNow, script, fired + [e], made + [more], stopping)
    ensures Pass(s, script, fired + [e], made + [more])
         == DoAll(Popped(Pass(s, script, fired, made), e), script(|fired|, e.timer), more)
  {
    hide DoAll, FiresNext;
    assert (fired + [e])[..|fired|] == fired && (made + [more])[..|made|] == made;
  }

  lemma AllSnoc(s: Timers, ops: seq<Op>, made: seq<Item?>, stopping: bool, op: Op, item: Item?)
    requires |made| == |ops| && MakesAll(s, ops, made, stopping) && Makes(DoAll(s, ops, made), op, item, stopping)
    ensures MakesAll(s, ops + [op], made + [item], stopping)
    ensures DoAll(s, ops + [op], made + [item]) == Do(DoAll(s, ops, made), op, item)
  {
    hide Do, Makes;
    assert (ops + [op])[..|ops|] == ops && (made + [item])[..|made|] == made;
  }

  // ---------------------------------------------------------------- what follows for every pass

  ghost predicate Sound(s: Timers) {
    && s.armed <= s.seen && s.cancelled <= s.seen && s.cancelled !! s.armed
    && forall t :: t in s.handles ==> s.handles[t] in s.armed && s.handles[t].timer == t
  }

  /** From `s` to `s'` timers were only added that are not due at `timeNow`, and only those
      went that were cancelled. */
  ghost predicate Later(s: Timers, s': Timers, timeNow: int) {
    && Sound(s') && s.seen <= s'.seen && s.clock <= s'.clock && s.cancelled <= s'.cancelled
    && (forall x :: x in s'.armed ==> x in s.armed || (x !in s.seen && x.timeout > timeNow))
    && (forall x :: x in s.armed ==> x in s'.armed || x in s'.cancelled)
    && (forall x :: x in s'.cancelled ==> x in s.cancelled || x in s.armed || x !in s.seen)
  }

  lemma DoLater(s: Timers, op: Op, item: Item?, stopping: bool, timeNow: int)
    requires Sound(s) && timeNow <= s.clock && Makes(s, op, item, stopping) && (op.Arm? ==> op.delay > 0)
    ensures Later(s, Do(s, op, item), timeNow)
  {
  }

  lemma LaterTrans(s: Timers, s': Timers, s'': Timers, timeNow: int)
    requires Later(s, s', timeNow) && Later(s', s'', timeNow)
    ensures Later(s, s'', timeNow)
  {
  }

  lemma {:induction false} AllLater(s: Timers, ops: seq<Op>, made: seq<Item?>, stopping: bool, timeNow: int)
    requires |made| == |ops| && Sound(s) && timeNow <= s.clock && MakesAll(s, ops, made, stopping) && PositiveDelays(ops)
    ensures Later(s, DoAll(s, ops, made), timeNow)
    decreases |ops|
  {
    hide Do, Makes, Later;
    if ops == [] {
      LaterSame(s, timeNow);
    } else {
      var n := |ops| - 1;
      AllLater(s, ops[..n], made[..n], stopping, timeNow);
      var s' := DoAll(s, ops[..n], made[..n]);
      LaterClock(s, s', timeNow);
      DoLater(s', ops[n], made[n], stopping, timeNow);
      LaterTrans(s, s', Do(s', ops[n], made[n]), timeNow);
    }
  }

  lemma LaterSame(s: Timers, timeNow: int)
    requires Sound(s)
    ensures Later(s, s, timeNow)
  {
  }

  lemma LaterClock(s: Timers, s': Timers, timeNow: int)
    requires Later(s, s', timeNow)
    ensures Sound(s') && s.clock <= s'.clock
  {
  }

  /** Account of a pass that began with `s` and fired these timers: each timer armed at its
      beginning was fired or cancelled or is still armed, and never two of these; due timers
      were fired in order of time, each once, and before all that is still armed. */
  ghost predicate Accounted(timeNow: int, s: Timers, s': Timers, fired: seq<Item>) {
    && Sound(s') && s.seen <= s'.seen && timeNow <= s'.clock && s.cancelled <= s'.cancelled
    && (forall i :: 0 <= i < |fired| ==> fired[i] in Due(s.armed, timeNow) && fired[i] !in s'.armed && fired[i] !in s'.cancelled)
    && (forall i, k :: 0 <= i < k < |fired| ==> fired[i].timeout <= fired[k].timeout && fired[i] != fired[k])
    && (forall i, x :: 0 <= i < |fired| && x in s'.armed ==> fired[i].timeout <= x.timeout)
    && (forall x :: x in s'.armed && x !in s.armed ==> x !in s.seen && x.timeout > timeNow)
    && (forall x :: x in s.armed && x !in s'.armed ==> x in s'.cancelled || x in fired)
  }

  /** Firing the earliest timer, whatever its callback then adds or cancels. */
  lemma AccountOne(timeNow: int, s0: Timers, s: Timers, fired: seq<Item>, e: Item, s': Timers)
    requires Sound(s0) && Accounted(timeNow, s0, s, fired) && Later(Popped(s, e), s', timeNow)
    requires e in s.armed && e.timeout <= timeNow && forall x :: x in s.armed ==> e.timeout <= x.timeout
    ensures Accounted(timeNow, s0, s', fired + [e])
  {
    var f := fired + [e];
    forall i | 0 <= i < |f| ensures f[i] in Due(s0.armed, timeNow) && f[i] !in s'.armed && f[i] !in s'.cancelled {
      if i < |fired| { assert fired[i] !in s.armed && fired[i] in s0.seen; }
    }
    forall x | x in s0.armed && x !in s'.armed ensures x in s'.cancelled || x in f {
      if x in fired { var i :| 0 <= i < |fired| && fired[i] == x; assert f[i] == x; }
      assert f[|fired|] == e;
    }
  }

  lemma PoppedSound(s: Timers, e: Item)
    requires Sound(s)
    ensures Sound(Popped(s, e)) && Popped(s, e).clock == s.clock
  {
  }

  /** Every pass is accounted for. */
  lemma {:induction false} PassAccounted(s: Timers, timeNow: int, script: Script, fired: seq<Item>, made: seq<seq<Item?>>,
                                         stopping: bool)
    requires Sound(s) && timeNow <= s.clock && s.cancelled == {} && forall k, t :: PositiveDelays(script(k, t))
    requires Fits(script, fired, made) && Fires(s, timeNow, script, fired, made, stopping)
    ensures Accounted(timeNow, s, Pass(s, script, fired, made), fired)
    decreases |fired|
  {
    hide DoAll, MakesAll, Accounted, Popped, Later;
    if fired == [] {
      AccountNone(timeNow, s);
    } else {
      var n := |fired| - 1;
      var e, s' := fired[n], Pass(s, script, fired[..n], made[..n]);
      PassAccounted(s, timeNow, script, fired[..n], made[..n], stopping);
      AccountedSound(timeNow, s, s', fired[..n]);
      PoppedSound(s', e);
      AllLater(Popped(s', e), script(n, e.timer), made[n], stopping, timeNow);
      AccountOne(timeNow, s, s', fired[..n], e, Pass(s, script, fired, made));
      assert fired[..n] + [e] == fired;
    }
  }

  lemma AccountNone(timeNow: int, s: Timers)
    requires Sound(s) && timeNow <= s.clock && s.cancelled == {}
    ensures Accounted(timeNow, s, s, [])
  {
  }

  lemma AccountedSound(timeNow: int, s: Timers, s': Timers, fired: seq<Item>)
    requires Accounted(timeNow, s, s', fired)
    ensures Sound(s') && timeNow <= s'.clock
  {
  }

  /** A callback cancels only timers that it names. */
  lemma {:induction false} AllNamed(s: Timers, ops: seq<Op>, made: seq<Item?>, stopping: bool, timeNow: int, x: Item)
    requires |made| == |ops| && Sound(s) && timeNow <= s.clock && MakesAll(s, ops, made, stopping) && PositiveDelays(ops)
    requires x in DoAll(s, ops, made).cancelled && x !in s.cancelled
    ensures Cancel(x.timer) in ops
    decreases |ops|
  {
    var n := |ops| - 1;
    var s' := DoAll(s, ops[..n], made[..n]);
    if x in s'.cancelled {
      AllNamed(s, ops[..n], made[..n], stopping, timeNow, x);
    } else {
      AllLater(s, ops[..n], made[..n], stopping, timeNow);
      assert ops[n] == Cancel(x.timer);
    }
  }

  /** A timer cancelled during a pass was named by the callback of a timer that was fired. */
  lemma {:induction false} PassNamed(s: Timers, timeNow: int, script: Script, fired: seq<Item>, made: seq<seq<Item?>>,
                                     stopping: bool, x: Item)
    requires Sound(s) && timeNow <= s.clock && s.cancelled == {} && forall k, t :: PositiveDelays(script(k, t))
    requires Fits(script, fired, made) && Fires(s, timeNow, script, fired, made, stopping)
    requires x in Pass(s, script, fired, made).cancelled
    ensures exists k :: 0 <= k < |fired| && Cancel(x.timer) in script(k, fired[k].timer)
    decreases |fired|
  {
    hide DoAll, MakesAll, Accounted;
    var n := |fired| - 1;
    var e, s' := fired[n], Pass(s, script, fired[..n], made[..n]);
    PassAccounted(s, timeNow, script, fired[..n], made[..n], stopping);
    AccountedSound(timeNow, s, s', fired[..n]);
    if x in s'.cancelled {
      PassNamed(s, timeNow, script, fired[..n], made[..n], stopping, x);
      var k :| 0 <= k < n && Cancel(x.timer) in script(k, fired[..n][k].timer);
      assert fired[k] == fired[..n][k];
    } else {
      PoppedSound(s', e);
      AllNamed(Popped(s', e), script(n, e.timer), made[n], stopping, timeNow, x);
    }
  }

  /** If no callback that runs cancels a timer, a pass that leaves no due timer behind has
      fired exactly the due ones. */
  lemma AllDueFire(s: Timers, timeNow: int, script: Script, fired: seq<Item>, made: seq<seq<Item?>>, stopping: bool)
    requires Sound(s) && timeNow <= s.clock && s.cancelled == {} && forall k, t :: PositiveDelays(script(k, t))
    requires Fits(script, fired, made) && Fires(s, timeNow, script, fired, made, stopping)
    requires Due(Pass(s, script, fired, made).armed, timeNow) == {}
    requires forall k, t :: 0 <= k < |fired| ==> Cancel(t) !in script(k, fired[k].timer)
    ensures forall x :: x in fired <==> x in Due(s.armed, timeNow)
  {
    hide DoAll, MakesAll, Fires, Pass;
    PassAccounted(s, timeNow, script, fired, made, stopping);
    var s' := Pass(s, script, fired, made);
    forall x | x in Due(s.armed, timeNow) ensures x in fired {
      assert x !in Due(s'.armed, timeNow);
      if x in s'.cancelled { PassNamed(s, timeNow, script, fired, made, stopping, x); }
    }
    forall x | x in fired ensures x in Due(s.armed, timeNow) { var i :| 0 <= i < |fired| && fired[i] == x; }
  }

  // ---------------------------------------------------------------- the worker

  class CppWorker {
    const heap: Heap
    var clock: int
    /** The pointers that clients keep to their armed timers. */
    var handles: map<nat, Item>
    var stopping: bool

    ghost predicate Valid()
      reads this, heap, heap.p, heap.items
    {
      && heap.Valid()
      && forall t :: t in handles ==> handles[t] in heap.items && handles[t].timer == t
    }

    /** The timers as they are now, nothing being cancelled yet. */
    ghost function Now(): (s: Timers)
      reads this, heap
    {
      Timers(heap.items, handles, clock, heap.items, {})
    }

    ghost predicate Is(s: Timers)
      reads this, heap
    {
      heap.items == s.armed && handles == s.handles && clock == s.clock
    }

    constructor ()
      ensures Valid() && heap.items == {} && !stopping && fresh(heap) && fresh(heap.p)
    {
      heap := new Heap();
      clock, handles, stopping := 0, map[], false;
    }

    /** addLocalTimer (fsm/CppWorker.cpp:72-103). A worker told to stop arms nothing. */
    method AddLocalTimer(elapsed: nat, delay: nat, timer: nat) returns (item: Item?)
      requires Valid()
      modifies this`clock, this`handles, heap, heap.p, heap.items`index
      ensures Valid() && clock == old(clock) + elapsed
      ensures stopping ==> item == null && heap.items == old(heap.items) && handles == old(handles)
      ensures !stopping ==> item != null && fresh(item) && item.timeout == clock + delay && item.timer == timer
      ensures !stopping ==> heap.items == old(heap.items) + {item} && handles == old(handles)[timer := item]
      ensures heap.p == old(heap.p) || fresh(heap.p)
    {
      clock := clock + elapsed;
      if stopping { return null; }
      item := new Item(clock + delay, timer);
      heap.Push(item);
      handles := handles[timer := item];
    }

    /** cancelLocalTimer (fsm/CppWorker.cpp:107-113): a null pointer is left alone, and the
        client's pointer is null afterwards. */
    method CancelLocalTimer(timer: nat)
      requires Valid()
      modifies this`handles, heap, heap.p, heap.items`index
      ensures Valid() && timer !in handles && heap.p == old(heap.p)
      ensures timer !in old(handles) ==> heap.items == old(heap.items) && handles == old(handles)
      ensures timer in old(handles) ==>
                heap.items == old(heap.items) - {old(handles)[timer]} && handles == Without(old(handles), old(handles)[timer])
    {
      if timer in handles {
        var item := handles[timer];
        handles := map t | t in handles && handles[t] != item :: handles[t];
        var _ := heap.Erase(item);
      }
    }

    /** The calls of one callback. */
    method RunCallback(ops: seq<Op>, ghost s: Timers) returns (ghost made: seq<Item?>)
      requires Valid() && Is(s) && heap.items <= s.seen
      modifies this`clock, this`handles, heap, heap.p, heap.items`index
      ensures Valid() && (heap.p == old(heap.p) || fresh(heap.p))
      ensures forall x :: x in heap.items ==> x in old(heap.items) || fresh(x)
      ensures |made| == |ops| && MakesAll(s, ops, made, stopping) && Is(DoAll(s, ops, made))
    {
      made := [];
      ghost var now := s;
      for i := 0 to |ops|
        invariant Valid() && (heap.p == old(heap.p) || fresh(heap.p)) && |made| == i
        invariant forall x :: x in heap.items ==> x in old(heap.items) || fresh(x)
        invariant MakesAll(s, ops[..i], made, stopping) && now == DoAll(s, ops[..i], made) && Is(now)
      {
        hide DoAll, MakesAll, Without;
        ghost var item: Item? := null;
        match ops[i] {
          case Arm(elapsed, delay, timer) => item := AddLocalTimer(elapsed, delay, timer);
          case Cancel(timer) => CancelLocalTimer(timer);
        }
        AllSnoc(s, ops[..i], made, stopping, ops[i], item);
        assert ops[..i + 1] == ops[..i] + [ops[i]];
        now, made := Do(now, ops[i], item), made + [item];
      }
      assert ops[..|ops|] == ops;
    }

    /** The timer that is due first leaves the heap, and its callback runs. */
    method FireTop(topEvent: Item, ops: seq<Op>, ghost s: Timers) returns (ghost made: seq<Item?>)
      requires Valid() && Is(s) && s.armed <= s.seen && heap.n > 0 && topEvent == heap.p[0]
      modifies this`clock, this`handles, heap, heap.p, heap.items`index
      ensures Valid() && (heap.p == old(heap.p) || fresh(heap.p))
      ensures forall x :: x in heap.items ==> x in old(heap.items) || fresh(x)
      ensures |made| == |ops| && MakesAll(Popped(s, topEvent), ops, made, stopping)
      ensures Is(DoAll(Popped(s, topEvent), ops, made))
    {
      hide DoAll, MakesAll, Without;
      var popped := heap.Pop();
      handles := map t | t in handles && handles[t] != popped :: handles[t];
      WithoutIs(s.handles, popped, handles);
      made := RunCallback(ops, Popped(s, topEvent));
    }

    /** handleLocalTimer (fsm/CppWorker.cpp:117-137), for callbacks that arm only positive
        delays. The pass ends, and what it did is exactly this: the timers `fired` were taken
        from the heap one after another, each armed and due and none due before it, and right
        after each its callback ran, and no other. No due timer is left behind. Hence the
        account: due timers fire in order of time, each exactly once unless cancelled first,
        and none that is not due. */
    method HandleLocalTimer(script: Script) returns (ghost fired: seq<Item>, ghost made: seq<seq<Item?>>)
      requires Valid() && forall k, t :: PositiveDelays(script(k, t))
      modifies this`clock, this`handles, heap, heap.p, heap.items`index
      ensures Valid() && Fits(script, fired, made) && Fires(old(Now()), old(clock), script, fired, made, stopping)
      ensures Is(Pass(old(Now()), script, fired, made)) && Due(heap.items, old(clock)) == {}
      ensures Accounted(old(clock), old(Now()), Pass(old(Now()), script, fired, made), fired)
      ensures NeverCancels(script) ==> forall x :: x in fired <==> x in Due(old(heap.items), old(clock))
    {
      hide DoAll, MakesAll, Without, Fires, Pass, Accounted;
      fired, made := [], [];
      var timeNow := clock;
      ghost var start, now := Now(), Now();
      var k := 0;
      NothingFired(start, timeNow, script, stopping);
      while true
        invariant Valid() && (heap.p == old(heap.p) || fresh(heap.p)) && k == |fired|
        invariant Fits(script, fired, made) && Fires(start, timeNow, script, fired, made, stopping)
        invariant now == Pass(start, script, fired, made) && Is(now)
        invariant forall x :: x in heap.items ==> x in old(heap.items) || fresh(x)
        decreases Due(heap.items, timeNow)
      {
        var topEvent := heap.Top();
        PassAccounted(start, timeNow, script, fired, made, stopping);
        AccountedSound(timeNow, start, now, fired);
        if topEvent == null || topEvent.timeout > timeNow {
          forall x | x in heap.items ensures x.timeout > timeNow { heap.TopIsLeast(x.index); }
          if NeverCancels(script) { AllDueFire(start, timeNow, script, fired, made, stopping); }
          return;
        }
        forall x | x in heap.items ensures topEvent.timeout <= x.timeout { heap.TopIsLeast(x.index); }
        ghost var before := now;
        ghost var more := FireTop(topEvent, script(k, topEvent.timer), now);
        PassSnoc(start, timeNow, script, fired, made, stopping, topEvent, more);
        now := DoAll(Popped(now, topEvent), script(k, topEvent.timer), more);
        FewerDue(start, before, fired, topEvent, script(k, topEvent.timer), more, stopping, timeNow);
        fired, made, k := fired + [topEvent], made + [more], k + 1;
      }
    }
  }

  lemma WithoutIs(handles: map<nat, Item>, item: Item, r: map<nat, Item>)
    requires r == map t | t in handles && handles[t] != item :: handles[t]
    ensures r == Without(handles, item)
  {
  }

  lemma NothingFired(s: Timers, timeNow: int, script: Script, stopping: bool)
    ensures Fits(script, [], []) && Fires(s, timeNow, script, [], [], stopping) && Pass(s, script, [], []) == s
  {
  }

  /** One due timer less. */
  lemma FewerDue(start: Timers, s: Timers, fired: seq<Item>, e: Item, ops: seq<Op>, made: seq<Item?>, stopping: bool, timeNow: int)
    requires Accounted(timeNow, start, s, fired) && PositiveDelays(ops) && |made| == |ops|
    requires e in s.armed && e.timeout <= timeNow && MakesAll(Popped(s, e), ops, made, stopping)
    ensures Due(DoAll(Popped(s, e), ops, made).armed, timeNow) < Due(s.armed, timeNow)
  {
    hide DoAll, MakesAll, Accounted;
    AccountedSound(timeNow, start, s, fired);
    PoppedSound(s, e);
    AllLater(Popped(s, e), ops, made, stopping, timeNow);
    var s' := DoAll(Popped(s, e), ops, made);
    assert e in Due(s.armed, timeNow) && e in s.seen && e !in Due(s'.armed, timeNow);
  }
}
