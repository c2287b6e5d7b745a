/** One producer and one consumer on the ring buffer at the same time. Each reads the
    other's index once, copies byte by byte, and publishes by one store of its own index;
    the steps below interleave in any order (io/KfifoBuffer.cpp:55-151). */
module KfifoConcurrent {
  import opened Bytes
  import opened Kfifo

  datatype Producer = Idle | Copying(data: seq<byte>, done: nat)

  /** `peeked` are the bytes last peeked and not yet committed. */
  datatype Consumer = Waiting(peeked: seq<byte>) | Fetching(want: nat, got: seq<byte>, keep: bool)

  /** Shared memory, the two local states, and history: every byte published so far, how
      many of them the consumer has given up, and the bytes it has handed on. */
  datatype State = State(raw: seq<byte>, size: nat, readIndex: nat, writeIndex: nat,
                         producer: Producer, consumer: Consumer,
                         log: seq<byte>, taken: nat, delivered: seq<byte>)

  datatype Action =
    | BeginPut(buffer: seq<byte>)
    | BeginPutn(buffer: seq<byte>)
    | CopyIn
    | Publish
    | BeginGet(len: nat, keep: bool)
    | BeginGetn(len: nat, keep: bool)
    | CopyOut
    | FinishGet
    | CommitRead(len: nat)

  function Init(sizePower: int): (s: State) {
    State(seq(SizeOf(sizePower), i => 0), SizeOf(sizePower), 0, 0, Idle, Waiting([]), [], 0, [])
  }

  /** unusedSize and size as the 32-bit code computes them. */
  function Room(s: State): (n: nat) { (s.size - s.writeIndex + s.readIndex) % U32 }

  function Avail(s: State): (n: nat) { (s.writeIndex - s.readIndex) % U32 }

  function Min(a: nat, b: nat): (r: nat) { if a < b then a else b }

  predicate Enabled(s: State, a: Action) {
    match a
    case BeginPut(_) => s.producer.Idle?
    case BeginPutn(_) => s.producer.Idle?
    case CopyIn => s.producer.Copying? && s.producer.done < |s.producer.data|
    case Publish => s.producer.Copying? && s.producer.done == |s.producer.data|
    case BeginGet(_, _) => s.consumer.Waiting?
    case BeginGetn(_, _) => s.consumer.Waiting?
    case CopyOut => s.consumer.Fetching? && |s.consumer.got| < s.consumer.want
    case FinishGet => s.consumer.Fetching? && |s.consumer.got| == s.consumer.want
    case CommitRead(len) => s.consumer.Waiting? && len <= |s.consumer.peeked|
  }

  /** The effect of an enabled step; a disabled one leaves the state alone. */
  function Step(s: State, a: Action): (s': State) {
    if !Enabled(s, a) || s.size == 0 || |s.raw| != s.size then s else
    match a
    case BeginPut(buffer) => s.(producer := Copying(buffer[..Min(|buffer|, Room(s))], 0))
    case BeginPutn(buffer) => if |buffer| > Room(s) then s else s.(producer := Copying(buffer, 0))
    case CopyIn =>
      var slot := SlotOf(s.writeIndex % s.size, s.producer.done, s.size);
      if 0 <= slot < s.size then
        s.(raw := s.raw[slot := s.producer.data[s.producer.done]],
           producer := s.producer.(done := s.producer.done + 1))
      else s
    case Publish =>
      s.(writeIndex := (s.writeIndex + |s.producer.data|) % U32, log := s.log + s.producer.data, producer := Idle)
    case BeginGet(len, keep) => s.(consumer := Fetching(Min(len, Avail(s)), [], keep))
    case BeginGetn(len, keep) =>
      s.(consumer := if len > Avail(s) then Waiting([]) else Fetching(len, [], keep))
    case CopyOut =>
      var slot := SlotOf(s.readIndex % s.size, |s.consumer.got|, s.size);
      if 0 <= slot < s.size then s.(consumer := s.consumer.(got := s.consumer.got + [s.raw[slot]])) else s
    case FinishGet =>
      if s.consumer.keep then s.(consumer := Waiting(s.consumer.got))
      else
        s.(readIndex := (s.readIndex + s.consumer.want) % U32, taken := s.taken + s.consumer.want,
           delivered := s.delivered + s.consumer.got, consumer := Waiting([]))
    case CommitRead(len) =>
      s.(readIndex := (s.readIndex + len) % U32, taken := s.taken + len,
         delivered := s.delivered + s.consumer.peeked[..len], consumer := Waiting(s.consumer.peeked[len..]))
  }

  function Run(s: State, actions: seq<Action>): (s': State)
    decreases |actions|
  {
    if actions == [] then s else Run(Step(s, actions[0]), actions[1..])
  }

  /** What holds between any two steps of either side. */
  ghost predicate Inv(s: State) {
    && Holds(s.raw, s.size, s.log, s.taken)
    && s.readIndex == s.taken % U32 && s.writeIndex == |s.log| % U32
    && s.delivered == s.log[..s.taken]
    && ProducerOk(s) && ConsumerOk(s)
  }

  /** The bytes copied so far lie behind the unread ones, where no reader looks yet. */
  ghost predicate ProducerOk(s: State)
    requires Holds(s.raw, s.size, s.log, s.taken)
  {
    s.producer.Copying? ==>
      && s.producer.done <= |s.producer.data| && |s.log| + |s.producer.data| <= s.taken + s.size
      && forall i :: |s.log| <= i < |s.log| + s.producer.done ==> s.raw[i % s.size] == s.producer.data[i - |s.log|]
  }

  ghost predicate ConsumerOk(s: State)
    requires Holds(s.raw, s.size, s.log, s.taken)
  {
    match s.consumer
    case Waiting(peeked) => s.taken + |peeked| <= |s.log| && peeked == s.log[s.taken..s.taken + |peeked|]
    case Fetching(want, got, _) =>
      && s.taken + want <= |s.log| && |got| <= want && got == s.log[s.taken..s.taken + |got|]
  }

  lemma InitInv(sizePower: int)
    ensures Inv(Init(sizePower))
  {
    SizesOk(sizePower);
  }

  lemma CopyInKeeps(s: State)
    requires Inv(s) && Enabled(s, CopyIn)
    ensures Inv(Step(s, CopyIn))
  {
    var n, k := |s.log|, s.producer.done;
    SlotOfPosition(n, k, s.size);
    var s' := Step(s, CopyIn);
    forall i | s.taken <= i < n + k ensures s'.raw[i % s.size] == s.raw[i % s.size] {
      SlotsDistinct(i, n + k, s.size);
    }
    forall i | n <= i < n + k + 1 ensures s'.raw[i % s.size] == s.producer.data[i - n] {
      if i < n + k { assert s.raw[i % s.size] == s.producer.data[i - n]; }
    }
    forall i | s.taken <= i < n ensures s'.raw[i % s.size] == s.log[i] {
      assert s.raw[i % s.size] == s.log[i];
    }
  }

  /** What was copied becomes part of the log. */
  lemma PublishHolds(s: State)
    requires Inv(s) && Enabled(s, Publish)
    ensures Holds(s.raw, s.size, s.log + s.producer.data, s.taken)
  {
    var d := s.producer.data;
    forall k | 0 <= k < |d| ensures s.raw[(|s.log| + k) % s.size] == d[k] {
      assert s.raw[(|s.log| + k) % s.size] == d[(|s.log| + k) - |s.log|];
    }
    StoreHolds(s.raw, s.raw, s.size, s.log, s.taken, d);
  }

  lemma PublishKeeps(s: State)
    requires Inv(s) && Enabled(s, Publish)
    ensures Inv(Step(s, Publish))
  {
    PublishHolds(s);
    hide Holds;
    var d := s.producer.data;
    WrapAdvance(|s.log|, |d|);
    var m := if s.consumer.Waiting? then |s.consumer.peeked| else |s.consumer.got|;
    assert (s.log + d)[..s.taken] == s.log[..s.taken];
    assert (s.log + d)[s.taken..s.taken + m] == s.log[s.taken..s.taken + m];
  }

  lemma CopyOutKeeps(s: State)
    requires Inv(s) && Enabled(s, CopyOut)
    ensures Inv(Step(s, CopyOut))
  {
    var k := |s.consumer.got|;
    SlotOfPosition(s.taken, k, s.size);
    assert s.raw[(s.taken + k) % s.size] == s.log[s.taken + k];
    assert s.log[s.taken..s.taken + k] + [s.log[s.taken + k]] == s.log[s.taken..s.taken + k + 1];
  }

  lemma TakeKeeps(s: State, n: nat, s': State)
    requires Inv(s) && s.taken + n <= |s.log|
    requires s' == s.(readIndex := (s.readIndex + n) % U32, taken := s.taken + n,
                      delivered := s.delivered + s.log[s.taken..s.taken + n], consumer := s'.consumer)
    requires s'.consumer.Waiting? && s'.taken + |s'.consumer.peeked| <= |s.log|
    requires s'.consumer.peeked == s.log[s'.taken..s'.taken + |s'.consumer.peeked|]
    ensures Inv(s')
  {
    WrapAdvance(s.taken, n);
    assert s.log[..s.taken] + s.log[s.taken..s.taken + n] == s.log[..s.taken + n];
  }

  /** A snapshot of the other side's index may be stale, but only errs on the safe side. */
  lemma BeginKeeps(s: State, a: Action)
    requires Inv(s) && (a.BeginPut? || a.BeginPutn? || a.BeginGet? || a.BeginGetn?) && Enabled(s, a)
    ensures Inv(Step(s, a))
  {
    WrapDifference(|s.log|, s.taken);
    Negated(s.size, s.writeIndex, s.readIndex, |s.log| - s.taken);
  }

  lemma FinishKeeps(s: State)
    requires Inv(s) && Enabled(s, FinishGet)
    ensures Inv(Step(s, FinishGet))
  {
    hide Holds;
    SizePositive(s);
    if !s.consumer.keep { TakeKeeps(s, s.consumer.want, Step(s, FinishGet)); }
  }

  lemma CommitKeeps(s: State, len: nat)
    requires Inv(s) && Enabled(s, CommitRead(len))
    ensures Inv(Step(s, CommitRead(len)))
  {
    hide Holds;
    SizePositive(s);
    var p := s.consumer.peeked;
    SlicesOfSlice(s.log, s.taken, |p|, len);
    TakeKeeps(s, len, Step(s, CommitRead(len)));
  }

  lemma SlicesOfSlice(log: seq<byte>, from: nat, n: nat, len: nat)
    requires from + n <= |log| && len <= n
    ensures log[from..from + n][..len] == log[from..from + len]
    ensures log[from..from + n][len..] == log[from + len..from + n]
  {
  }

  /** Every step of either side, whatever the other is doing, keeps the invariant. */
  lemma StepKeeps(s: State, a: Action)
    requires Inv(s)
    ensures Inv(Step(s, a))
  {
    hide Inv;
    if Enabled(s, a) {
      match a {
        case CopyIn => CopyInKeeps(s);
        case Publish => PublishKeeps(s);
        case CopyOut => CopyOutKeeps(s);
        case FinishGet => FinishKeeps(s);
        case CommitRead(len) => CommitKeeps(s, len);
        case _ => BeginKeeps(s, a);
      }
    }
  }

  lemma {:induction false} RunKeeps(s: State, actions: seq<Action>)
    requires Inv(s)
    ensures Inv(Run(s, actions))
    decreases |actions|
  {
    if actions != [] {
      StepKeeps(s, actions[0]);
      RunKeeps(Step(s, actions[0]), actions[1..]);
    }
  }

  /** What one step takes from its caller: as many bytes as there is room for, or all of them
      or none. */
  function Takes(s: State, a: Action): (data: seq<byte>) {
    if !Enabled(s, a) then []
    else
      match a
      case BeginPut(buffer) => buffer[..Min(|buffer|, Room(s))]
      case BeginPutn(buffer) => if |buffer| > Room(s) then [] else buffer
      case _ => []
  }

  /** All that put and putn took of the buffers they were called with, in order. */
  function Accepted(s: State, actions: seq<Action>): (data: seq<byte>)
    decreases |actions|
  {
    if actions == [] then [] else Takes(s, actions[0]) + Accepted(Step(s, actions[0]), actions[1..])
  }

  /** What the producer has taken, published or not. */
  function Given(s: State): (data: seq<byte>) {
    s.log + if s.producer.Copying? then s.producer.data else []
  }

  lemma StepGives(s: State, a: Action)
    requires Inv(s)
    ensures Given(Step(s, a)) == Given(s) + Takes(s, a)
  {
    hide Inv;
    SizePositive(s);
  }

  lemma SizePositive(s: State)
    requires Inv(s)
    ensures s.size > 0 && |s.raw| == s.size
  {
  }

  lemma {:induction false} RunGives(s: State, actions: seq<Action>)
    requires Inv(s)
    ensures Given(Run(s, actions)) == Given(s) + Accepted(s, actions)
    decreases |actions|
  {
    hide Inv, Step, Given, Takes;
    if actions == [] {
      assert Given(s) + [] == Given(s);
    } else {
      StepKeeps(s, actions[0]);
      StepGives(s, actions[0]);
      RunGives(Step(s, actions[0]), actions[1..]);
      assert Given(s) + Takes(s, actions[0]) + Accepted(Step(s, actions[0]), actions[1..]) == Given(s) + Accepted(s, actions);
    }
  }

  /** Under every interleaving, and across any number of index wraparounds: what the consumer
      received is a prefix of what put and putn took, in order; at most a buffer's worth is
      published and unread, and every unread byte is still in its slot. */
  lemma FifoPrefix(sizePower: int, actions: seq<Action>)
    ensures var s := Run(Init(sizePower), actions);
            && s.delivered <= s.log <= Given(s) == Accepted(Init(sizePower), actions)
            && |s.log| - |s.delivered| <= s.size == SizeOf(sizePower)
            && Holds(s.raw, s.size, s.log, |s.delivered|)
  {
    InitInv(sizePower);
    RunKeeps(Init(sizePower), actions);
    RunGives(Init(sizePower), actions);
    RunKeepsSize(Init(sizePower), actions);
  }

  lemma {:induction false} RunKeepsSize(s: State, actions: seq<Action>)
    ensures Run(s, actions).size == s.size
    decreases |actions|
  {
    if actions != [] { RunKeepsSize(Step(s, actions[0]), actions[1..]); }
  }

  // ---------------------------------------------------------------- how much is taken, and operations run alone

  /** How many bytes are published and unread. */
  function Unread(s: State): (n: int) { |s.log| - s.taken }

  /** What the two sides begin with, in terms of the history alone: put takes as many bytes as
      there are free places, putn all or none, get and getn likewise of the unread bytes. */
  lemma BeginsExactly(s: State, data: seq<byte>, len: nat, keep: bool)
    requires Inv(s)
    ensures 0 <= Unread(s) <= s.size
    ensures s.producer.Idle? ==>
              var n := if |data| < s.size - Unread(s) then |data| else s.size - Unread(s);
              && Step(s, BeginPut(data)) == s.(producer := Copying(data[..n], 0)) && Takes(s, BeginPut(data)) == data[..n]
              && (|data| <= s.size - Unread(s) ==>
                    Step(s, BeginPutn(data)) == s.(producer := Copying(data, 0)) && Takes(s, BeginPutn(data)) == data)
              && (|data| > s.size - Unread(s) ==> Step(s, BeginPutn(data)) == s && Takes(s, BeginPutn(data)) == [])
    ensures s.consumer.Waiting? ==>
              && Step(s, BeginGet(len, keep)) == s.(consumer := Fetching(if len < Unread(s) then len else Unread(s), [], keep))
              && (len <= Unread(s) ==> Step(s, BeginGetn(len, keep)) == s.(consumer := Fetching(len, [], keep)))
              && (len > Unread(s) ==> Step(s, BeginGetn(len, keep)) == s.(consumer := Waiting([])))
  {
    WrapDifference(|s.log|, s.taken);
    Negated(s.size, s.writeIndex, s.readIndex, |s.log| - s.taken);
  }

  function Times(a: Action, n: nat): (actions: seq<Action>) {
    if n == 0 then [] else [a] + Times(a, n - 1)
  }

  /** The producer copies the rest of its data and publishes it. */
  lemma {:induction false} CopyAndPublish(s: State, n: nat)
    requires Inv(s) && s.producer.Copying? && n == |s.producer.data| - s.producer.done
    ensures var s' := Run(s, Times(CopyIn, n) + [Publish]);
            && Inv(s') && s'.producer.Idle? && s'.log == s.log + s.producer.data
            && s'.consumer == s.consumer && s'.taken == s.taken && s'.delivered == s.delivered && s'.size == s.size
    decreases n
  {
    hide Inv, Holds;
    SizePositive(s);
    var rest := Times(CopyIn, n) + [Publish];
    if n == 0 {
      StepKeeps(s, Publish);
      assert rest == [Publish];
      assert rest[1..] == [];
    } else {
      CopyingIn(s);
      StepKeeps(s, CopyIn);
      assert rest[1..] == Times(CopyIn, n - 1) + [Publish];
      CopyAndPublish(Step(s, CopyIn), n - 1);
    }
  }

  lemma CopyingIn(s: State)
    requires Inv(s) && s.producer.Copying? && s.producer.done < |s.producer.data|
    ensures var s' := Step(s, CopyIn);
            s' == s.(raw := s'.raw, producer := s.producer.(done := s.producer.done + 1))
  {
    SlotOfPosition(|s.log|, s.producer.done, s.size);
  }

  /** The consumer fetches the rest of what it wants and gives it up. */
  lemma {:induction false} CopyAndFinish(s: State, n: nat)
    requires Inv(s) && s.consumer.Fetching? && n == s.consumer.want - |s.consumer.got| && !s.consumer.keep
    ensures var s' := Run(s, Times(CopyOut, n) + [FinishGet]);
            && Inv(s') && s'.consumer == Waiting([]) && s'.log == s.log && s'.producer == s.producer
            && s'.taken == s.taken + s.consumer.want && s'.size == s.size
    decreases n
  {
    hide Inv, Holds;
    SizePositive(s);
    var rest := Times(CopyOut, n) + [FinishGet];
    if n == 0 {
      StepKeeps(s, FinishGet);
      assert rest == [FinishGet];
      assert rest[1..] == [];
    } else {
      CopyingOut(s);
      StepKeeps(s, CopyOut);
      assert rest[1..] == Times(CopyOut, n - 1) + [FinishGet];
      CopyAndFinish(Step(s, CopyOut), n - 1);
    }
  }

  lemma CopyingOut(s: State)
    requires Inv(s) && s.consumer.Fetching? && |s.consumer.got| < s.consumer.want
    ensures var s' := Step(s, CopyOut);
            && s'.consumer.Fetching? && |s'.consumer.got| == |s.consumer.got| + 1
            && s' == s.(consumer := s.consumer.(got := s'.consumer.got))
  {
    SlotOfPosition(s.taken, |s.consumer.got|, s.size);
  }

  /** The bytes that a get has delivered are those that it took from the log. */
  lemma DeliveredIs(s: State, s': State)
    requires Inv(s) && Inv(s') && s'.log == s.log && s.taken <= s'.taken
    ensures s.taken <= s'.taken <= |s.log| && s'.delivered == s.delivered + s.log[s.taken..s'.taken]
  {
    assert s.log[..s'.taken] == s.log[..s.taken] + s.log[s.taken..s'.taken];
  }

  function Least(a: nat, b: int): (n: nat)
    requires b >= 0
    ensures n <= a && n <= b && (n == a || n == b)
  {
    if a < b then a else b
  }

  /** A put of which `n` bytes are taken, while the other side rests or is stopped in the
      middle of a get; and a get of `n` bytes. */
  function PutRun(data: seq<byte>, n: nat): (actions: seq<Action>) {
    [BeginPut(data)] + (Times(CopyIn, n) + [Publish])
  }

  function GetRun(len: nat, n: nat): (actions: seq<Action>) {
    [BeginGet(len, false)] + (Times(CopyOut, n) + [FinishGet])
  }

  lemma PutAlone(s: State, data: seq<byte>)
    requires Inv(s) && s.producer.Idle?
    ensures 0 <= Unread(s) <= s.size
    ensures var n := Least(|data|, s.size - Unread(s));
            var s' := Run(s, PutRun(data, n));
            && Inv(s') && s'.log == s.log + data[..n] && s'.producer.Idle? && s'.consumer == s.consumer
            && s'.taken == s.taken && s'.delivered == s.delivered && s'.size == s.size
  {
    hide Inv, Holds;
    BeginsExactly(s, data, 0, false);
    StepKeeps(s, BeginPut(data));
    var n := Least(|data|, s.size - Unread(s));
    assert PutRun(data, n)[1..] == Times(CopyIn, n) + [Publish];
    CopyAndPublish(Step(s, BeginPut(data)), n);
  }

  lemma GetAlone(s: State, len: nat)
    requires Inv(s) && s.consumer.Waiting?
    ensures 0 <= Unread(s) <= s.size && s.taken <= |s.log|
    ensures var n := Least(len, Unread(s));
            var s' := Run(s, GetRun(len, n));
            && Inv(s') && s'.consumer == Waiting([]) && s'.log == s.log && s'.producer == s.producer
            && s'.taken == s.taken + n && s'.delivered == s.delivered + s.log[s.taken..s.taken + n] && s'.size == s.size
  {
    hide Inv, Holds;
    BeginsExactly(s, [], len, false);
    StepKeeps(s, BeginGet(len, false));
    var n := Least(len, Unread(s));
    assert GetRun(len, n)[1..] == Times(CopyOut, n) + [FinishGet];
    CopyAndFinish(Step(s, BeginGet(len, false)), n);
    DeliveredIs(s, Run(s, GetRun(len, n)));
  }

  /** A put and then a get do what Put and Get of the class promise for the unread bytes: as
      many as fit are appended, and the oldest come out. */
  lemma PutThenGet(s: State, data: seq<byte>, len: nat)
    requires Inv(s) && s.producer.Idle? && s.consumer.Waiting?
    ensures 0 <= Unread(s) <= s.size && s.taken <= |s.log|
    ensures var n := Least(|data|, s.size - Unread(s));
            var unread := s.log[s.taken..] + data[..n];
            var m := Least(len, |unread|);
            var s' := Run(Run(s, PutRun(data, n)), GetRun(len, m));
            && s'.delivered == s.delivered + unread[..m] && s'.taken <= |s'.log| && s'.log[s'.taken..] == unread[m..]
            && s'.producer.Idle? && s'.consumer == Waiting([])
  {
    hide Inv, Holds, Run, PutRun, GetRun;
    PutAlone(s, data);
    var n := Least(|data|, s.size - Unread(s));
    var s1 := Run(s, PutRun(data, n));
    GetAlone(s1, len);
    assert s1.log[s.taken..] == s.log[s.taken..] + data[..n];
    TakenOff(s1.log, s.taken, Least(len, Unread(s1)));
  }

  lemma TakenOff(log: seq<byte>, from: nat, n: nat)
    requires from + n <= |log|
    ensures log[from..from + n] == log[from..][..n] && log[from + n..] == log[from..][n..]
  {
  }
}
