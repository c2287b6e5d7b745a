/** The life of one RfSession over the worker that runs it: the generic event engine of
    fsm/Session.cpp and fsm/Action.cpp, the transport's actions of osc/OscSession.cpp, and
    every order in which the worker may run its jobs and timers. */
module Session {
  import opened Fsm
  import opened Options

  datatype Timer = FsmTimer | InputTimer

  /** What one package makes parsePkg do to the session machine. */
  datatype PkgOp = PostReset | PostNext | PostSendData | PostNetworkInput | HandleReset | RestartTimer

  /** One firing of the input timer: a signal was seen, the receive buffer is too full to
      read, or this many reads returned bytes. */
  datatype Input = Signaled | Full | Reads(chunks: nat)

  /** The worker's next step: the oldest job, the session's own timer or the input timer. */
  datatype Pick = RunJob | FireFsm | FireInput(input: Input)

  function Posted(op: PkgOp): EventId
    requires !op.HandleReset? && !op.RestartTimer?
  {
    match op
    case PostReset => RESET
    case PostNext => NEXT
    case PostSendData => SEND_DATA_EVT
    case PostNetworkInput => NETWORK_INPUT
  }

  predicate FromPeer(e: EventId) {
    e == NETWORK_INPUT || e == SEND_DATA_EVT || e == NEXT || e == RESET
  }

  /** What may be queued when the peer never sends anything. */
  predicate Calm(jobs: seq<EventId>) {
    forall k :: 0 <= k < |jobs| ==> jobs[k] == RESET || jobs[k] == NETWORK_INPUT || jobs[k] == DESTROY_EVT
  }

  /** How often a schedule picks `p`. */
  function Count(schedule: seq<Pick>, p: Pick): (n: nat) {
    if schedule == [] then 0
    else Count(schedule[..|schedule| - 1], p) + if schedule[|schedule| - 1] == p then 1 else 0
  }

  /** How many jobs a step may add to the queue while no package arrives. */
  function Posts(p: Pick): (n: nat) {
    match p
    case RunJob => 0
    case FireFsm => 1
    case FireInput(input) => if input.Reads? then input.chunks else 1
  }

  function AllPosts(schedule: seq<Pick>): (n: nat) {
    if schedule == [] then 0
    else AllPosts(schedule[..|schedule| - 1]) + Posts(schedule[|schedule| - 1])
  }

  predicate Forward(visited: seq<StateId>) {
    forall i, k :: 0 <= i < k < |visited| ==>
      if visited[i] == DESTROY then visited[k] == DESTROY else Rank(visited[i]) < Rank(visited[k])
  }

  lemma ForwardSnoc(visited: seq<StateId>, next: StateId)
    requires Forward(visited) && |visited| > 0
    requires if visited[|visited| - 1] == DESTROY then next == DESTROY else Rank(visited[|visited| - 1]) < Rank(next)
    ensures Forward(visited + [next])
  {
    var v := visited + [next];
    forall i, k | 0 <= i < k < |v| 
      ensures if v[i] == DESTROY then v[k] == DESTROY else Rank(v[i]) < Rank(v[k])
    {
      if k == |visited| && i < |visited| - 1 { assert v[i] == visited[i] && v[|visited| - 1] == visited[|visited| - 1]; }
    }
  }

  /** A session visits each state at most once, DESTROY aside: at most five changes before
      it stays in DESTROY or leaves the table. */
  lemma {:induction false} ForwardBounded(visited: seq<StateId>, i: nat)
    requires Forward(visited) && i < |visited|
    ensures Rank(visited[i]) >= i || visited[i] == DESTROY
    decreases i
  {
    if i > 0 {
      ForwardBounded(visited, i - 1);
      assert visited[i - 1] == DESTROY ==> visited[i] == DESTROY;
    }
  }

  /** Every change of state in the table leads forward. */
  lemma TableForward(s: StateId, e: EventId, k: nat)
    requires k < |ActionsOf(s, e)| && ActionsOf(s, e)[k].ChangeState?
    ensures Rank(s) < Rank(ActionsOf(s, e)[k].next)
  {
  }

  /** The lists of the table change the state at most once, and last. */
  lemma GoesOn(s: StateId, e: EventId, a: Action)
    requires a in ActionsOf(s, e)
    ensures a != UnsupportNotice ==> Goes(s, e) == if a.ChangeState? then Some(a.next) else None
  {
    var actions := ActionsOf(s, e);
    if |actions| == 1 {
      assert actions[1..] == [];
    } else if |actions| == 2 {
      assert actions[1..][1..] == [];
    }
  }

  // ---------------------------------------------------------------- what events do

  /** What events can change: the state, the queue, whether the session is marked for deletion,
      its input timer, the clock of sends and packages, and how it has ended. */
  datatype Ctl = Ctl(cur: StateId, jobs: seq<EventId>, destroyed: bool, inputTimer: bool, tick: nat, exited: bool,
                     deleted: nat, visited: seq<StateId>)

  function Post(c: Ctl, e: EventId): (r: Ctl) {
    if c.destroyed then c else c.(jobs := c.jobs + [e])
  }

  /** A package is sent; if that fails, RESET is posted. */
  function Send(c: Ctl, fails: nat -> bool): (r: Ctl) {
    var c1 := c.(tick := c.tick + 1);
    if fails(c1.tick) then Post(c1, RESET) else c1
  }

  /** The entry of the current state: INIT, INIT_RECV and END send a package, DESTROY posts
      DESTROY_EVT once. */
  function Entered(c: Ctl, fails: nat -> bool): (r: Ctl) {
    match c.cur
    case INIT => Send(c, fails)
    case INIT_RECV => Send(c, fails)
    case END => Send(c, fails)
    case DESTROY => Post(c, DESTROY_EVT).(destroyed := true, inputTimer := false)
    case _ => c
  }

  function Enter(c: Ctl, next: StateId, fails: nat -> bool): (r: Ctl) {
    var c1 := c.(cur := next, visited := c.visited + [next]);
    if Declared(next) then Entered(c1, fails) else c1.(exited := true)
  }

  function Moved(c: Ctl, t: Option<StateId>, fails: nat -> bool): (r: Ctl) {
    match t
    case None => c
    case Some(next) => Enter(c, next, fails)
  }

  function Package(c: Ctl, op: PkgOp, fails: nat -> bool): (r: Ctl) {
    match op
    case HandleReset => Moved(c, Goes(c.cur, RESET), fails)
    case RestartTimer => c
    case _ => Post(c, Posted(op))
  }

  function Packages(c: Ctl, ops: seq<PkgOp>, fails: nat -> bool): (r: Ctl) {
    if ops == [] then c else Package(Packages(c, ops[..|ops| - 1], fails), ops[|ops| - 1], fails)
  }

  /** What one event does. */
  function Handle(c: Ctl, e: EventId, packages: nat -> seq<PkgOp>, fails: nat -> bool): (r: Ctl) {
    if ActionsOf(c.cur, e) == [ParsePkg] then Packages(c.(tick := c.tick + 1), packages(c.tick + 1), fails)
    else if ActionsOf(c.cur, e) == [DeleteSelf] then c.(deleted := c.deleted + 1)
    else Moved(c, Goes(c.cur, e), fails)
  }

  /** What one firing of the input timer queues. */
  function Queued(input: Input): (events: seq<EventId>)
    ensures |events| == Posts(FireInput(input))
  {
    match input
    case Signaled => [RESET]
    case Full => [NETWORK_INPUT]
    case Reads(chunks) => seq(chunks, _ => NETWORK_INPUT)
  }

  /** One step of the worker. */
  function Stepped(c: Ctl, p: Pick, packages: nat -> seq<PkgOp>, fails: nat -> bool): (r: Ctl) {
    if c.exited || c.deleted > 0 then c
    else
      match p
      case RunJob => if c.jobs == [] then c else Handle(c.(jobs := c.jobs[1..]), c.jobs[0], packages, fails)
      case FireFsm => if c.cur == DESTROY then c else Handle(c, TIMEOUT, packages, fails)
      case FireInput(input) => if c.inputTimer then c.(jobs := c.jobs + Queued(input)) else c
  }

  function Played(c: Ctl, schedule: seq<Pick>, packages: nat -> seq<PkgOp>, fails: nat -> bool): (r: Ctl) {
    if schedule == [] then c
    else Stepped(Played(c, schedule[..|schedule| - 1], packages, fails), schedule[|schedule| - 1], packages, fails)
  }

  // ---------------------------------------------------------------- what packages lead to

  /** The events that packages post, in order. */
  function PostedBy(ops: seq<PkgOp>): (events: seq<EventId>) {
    if ops == [] then []
    else
      var op := ops[|ops| - 1];
      PostedBy(ops[..|ops| - 1]) + if op.HandleReset? || op.RestartTimer? then [] else [Posted(op)]
  }

  /** As long as no package has RESET handled at once, parsing posts events and does nothing
      else; a session marked for deletion queues none. */
  lemma {:induction false} PackagesPost(c: Ctl, ops: seq<PkgOp>, fails: nat -> bool)
    requires HandleReset !in ops
    ensures Packages(c, ops, fails) == c.(jobs := c.jobs + if c.destroyed then [] else PostedBy(ops))
    decreases |ops|
  {
    if ops != [] {
      PackagesPost(c, ops[..|ops| - 1], fails);
    }
  }

  /** The first package that has it handled moves the session at once, after the events posted
      before; what comes behind it meets the new state. */
  lemma {:induction false} PackagesReset(c: Ctl, before: seq<PkgOp>, behind: seq<PkgOp>, fails: nat -> bool)
    requires HandleReset !in before
    ensures var posted := c.(jobs := c.jobs + if c.destroyed then [] else PostedBy(before));
            Packages(c, before + [HandleReset] + behind, fails) == Packages(Moved(posted, Goes(c.cur, RESET), fails), behind, fails)
    decreases |behind|
  {
    hide Moved, Goes;
    var ops := before + [HandleReset] + behind;
    var n := |ops| - 1;
    if behind == [] {
      assert ops[..n] == before;
      PackagesPost(c, before, fails);
    } else {
      assert ops[..n] == before + [HandleReset] + behind[..|behind| - 1];
      PackagesReset(c, before, behind[..|behind| - 1], fails);
    }
  }

  lemma {:induction false} PlayedAppend(c: Ctl, a: seq<Pick>, b: seq<Pick>, packages: nat -> seq<PkgOp>, fails: nat -> bool)
    ensures Played(c, a + b, packages, fails) == Played(Played(c, a, packages, fails), b, packages, fails)
    decreases |b|
  {
    hide Stepped;
    if b == [] {
      assert a + b == a;
    } else {
      assert (a + b)[..|a + b| - 1] == a + b[..|b| - 1];
      PlayedAppend(c, a, b[..|b| - 1], packages, fails);
    }
  }

  lemma PlayedThree(c: Ctl, p: Pick, q: Pick, r: Pick, packages: nat -> seq<PkgOp>, fails: nat -> bool)
    ensures Played(c, [p, q, r], packages, fails)
         == Stepped(Stepped(Stepped(c, p, packages, fails), q, packages, fails), r, packages, fails)
  {
    hide Stepped;
    PlayedNext(c, [], p, packages, fails);
    PlayedNext(c, [p], q, packages, fails);
    PlayedNext(c, [p, q], r, packages, fails);
    assert [] + [p] == [p] && [p] + [q] == [p, q] && [p, q] + [r] == [p, q, r];
    hide *;
  }

  lemma PlayedNext(c: Ctl, pre: seq<Pick>, p: Pick, packages: nat -> seq<PkgOp>, fails: nat -> bool)
    ensures Played(c, pre + [p], packages, fails) == Stepped(Played(c, pre, packages, fails), p, packages, fails)
    ensures Played(c, [], packages, fails) == c
  {
    hide Stepped;
    assert (pre + [p])[..|pre|] == pre;
  }

  /** Input arrives, and the first event that its packages post is run: a peer that answers
      moves the session where the table says. */
  lemma AnswerMoves(c: Ctl, e: EventId, next: StateId, packages: nat -> seq<PkgOp>, fails: nat -> bool)
    requires !c.exited && c.deleted == 0 && !c.destroyed && c.inputTimer && c.jobs == []
    requires c.cur == INIT || c.cur == INIT_RECV || c.cur == HANDLE_DATA || c.cur == END
    requires var ops := packages(c.tick + 1); HandleReset !in ops && PostedBy(ops) != [] && PostedBy(ops)[0] == e
    requires Goes(c.cur, e) == Some(next)
    ensures var moved := c.(tick := c.tick + 1, jobs := PostedBy(packages(c.tick + 1))[1..]);
            Played(c, [FireInput(Reads(1)), RunJob, RunJob], packages, fails) == Enter(moved, next, fails)
  {
    hide Enter, PostedBy, Goes;
    var ops := packages(c.tick + 1);
    PlayedThree(c, FireInput(Reads(1)), RunJob, RunJob, packages, fails);
    var c1 := c.(jobs := [NETWORK_INPUT]);
    assert Stepped(c, FireInput(Reads(1)), packages, fails) == c1;
    PackagesPost(c1.(jobs := [], tick := c.tick + 1), ops, fails);
    var c2 := c.(jobs := PostedBy(ops), tick := c.tick + 1);
    assert [] + PostedBy(ops) == PostedBy(ops);
    assert Stepped(c1, RunJob, packages, fails) == c2 by { ParsesInput(c1.(jobs := []), packages, fails); }
    PostedFromPeer(ops);
    MovesBy(c2.(jobs := c2.jobs[1..]), e, next, packages, fails);
  }

  lemma ParsesInput(c: Ctl, packages: nat -> seq<PkgOp>, fails: nat -> bool)
    requires c.cur == INIT || c.cur == INIT_RECV || c.cur == HANDLE_DATA || c.cur == END
    ensures Handle(c, NETWORK_INPUT, packages, fails) == Packages(c.(tick := c.tick + 1), packages(c.tick + 1), fails)
  {
    hide Packages;
  }

  lemma {:induction false} PostedFromPeer(ops: seq<PkgOp>)
    ensures forall k :: 0 <= k < |PostedBy(ops)| ==> FromPeer(PostedBy(ops)[k])
    decreases |ops|
  {
    if ops != [] { PostedFromPeer(ops[..|ops| - 1]); }
  }

  lemma MovesBy(c: Ctl, e: EventId, next: StateId, packages: nat -> seq<PkgOp>, fails: nat -> bool)
    requires FromPeer(e) && Goes(c.cur, e) == Some(next)
    ensures Handle(c, e, packages, fails) == Enter(c, next, fails)
  {
    hide Enter, Packages;
  }

  /** The same, by the action of the table that comes after any notice. */
  lemma HandlesAs(c: Ctl, e: EventId, a: Action, packages: nat -> seq<PkgOp>, fails: nat -> bool)
    requires a in ActionsOf(c.cur, e) && a != UnsupportNotice && e != ENTRY && e != EXIT
    ensures Handle(c, e, packages, fails) ==
            match a
            case ChangeState(next) => Enter(c, next, fails)
            case ParsePkg => Packages(c.(tick := c.tick + 1), packages(c.tick + 1), fails)
            case DeleteSelf => c.(deleted := c.deleted + 1)
            case _ => c
    ensures a.ChangeState? || a.ParsePkg? || a.DeleteSelf? || a.IgnoreEvent?
  {
    hide Enter, Packages, Goes;
    GoesOn(c.cur, e, a);
    assert |ActionsOf(c.cur, e)| > 1 ==> ActionsOf(c.cur, e) == [UnsupportNotice, Action.ChangeState(DESTROY)];
    assert |ActionsOf(c.cur, e)| == 1 ==> ActionsOf(c.cur, e) == [a];
  }

  lemma PackagesNext(c: Ctl, ops: seq<PkgOp>, i: nat, fails: nat -> bool)
    requires i < |ops|
    ensures Packages(c, ops[..i + 1], fails) == Package(Packages(c, ops[..i], fails), ops[i], fails)
  {
    hide Package;
    assert ops[..i + 1][..i] == ops[..i];
  }

  lemma NoPackages(c: Ctl, ops: seq<PkgOp>, fails: nat -> bool)
    ensures Packages(c, ops[..0], fails) == c
  {
  }

  lemma ResetMoves(c: Ctl, packages: nat -> seq<PkgOp>, fails: nat -> bool)
    requires Declared(c.cur)
    ensures Handle(c, RESET, packages, fails) == Moved(c, Goes(c.cur, RESET), fails)
  {
    hide Enter, Packages;
  }

  lemma Undefined(c: Ctl, e: EventId, packages: nat -> seq<PkgOp>, fails: nat -> bool)
    requires ActionsOf(c.cur, e) == []
    ensures Handle(c, e, packages, fails) == Enter(c, LAST_STATE, fails)
  {
    hide Enter, Packages;
  }

  class RfSession {
    var cur: StateId
    var isInitialized: bool
    var isDestroyed: bool
    /** fsmTimerM and inputTimerM point to an armed timer. */
    var fsmTimer: bool
    var inputTimer: bool
    var prevInterval: nat
    var byeOnReset: bool
    /** The worker: queued events of the session, its armed timers, isWaitStopM. */
    var jobs: seq<EventId>
    var timers: multiset<Timer>
    var waitStop: bool
    /** The process stopped because a state was not declared (fsm/Fsm.h:33-42). */
    var exited: bool
    /** How often the session was deleted. */
    var deleted: nat
    var tick: nat
    /** The packages parsePkg finds, and which sends fail, by the tick. */
    const packages: nat -> seq<PkgOp>
    const sendFails: nat -> bool
    ghost var visited: seq<StateId>

    ghost predicate Core()
      reads this
    {
      && !exited && deleted == 0 && Declared(cur)
      && (forall k :: 0 <= k < |jobs| ==> FromPeer(jobs[k]) || (isDestroyed && k == |jobs| - 1 && jobs[k] == DESTROY_EVT))
      && (isDestroyed ==> cur == DESTROY && waitStop && !fsmTimer && !inputTimer && timers == multiset{})
      && (!isDestroyed ==> !waitStop)
      && timers[FsmTimer] == (if fsmTimer then 1 else 0)
      && timers[InputTimer] == (if inputTimer then 1 else 0)
      && (fsmTimer ==> prevInterval > 0)
      && |visited| > 0 && visited[|visited| - 1] == cur && Forward(visited)
    }

    /** Between jobs: in DESTROY the last job, and only that, will delete the session; in
        any other state exactly one timer of the machine is armed. */
    ghost predicate Quiet()
      reads this
    {
      && Core() && isInitialized
      && (isDestroyed <==> cur == DESTROY)
      && (cur == DESTROY ==> |jobs| > 0 && jobs[|jobs| - 1] == DESTROY_EVT)
      && (cur != DESTROY ==> fsmTimer)
    }

    ghost predicate Inv()
      reads this
    {
      && deleted <= 1 && |visited| > 0 && Forward(visited) && visited[|visited| - 1] == cur
      && (deleted == 1 ==> cur == DESTROY && !exited && jobs == [] && timers == multiset{})
      && (exited ==> !Declared(cur))
      && (deleted == 0 && !exited ==> Quiet())
    }

    /** What may be handled when. A timeout comes with its timer already spent, the job of
        DESTROY_EVT with the queue already empty. */
    ghost predicate Ready(e: EventId)
      reads this
    {
      && Core()
      && if !isInitialized then e == ENTRY && cur == FIRST_STATE && !isDestroyed && !fsmTimer
         else if e == TIMEOUT then cur != DESTROY && !isDestroyed && !fsmTimer
         else if e == DESTROY_EVT then cur == DESTROY && isDestroyed && jobs == []
         else FromPeer(e) && Quiet()
    }

    ghost function Now(): (c: Ctl)
      reads this
    {
      Ctl(cur, jobs, isDestroyed, inputTimer, tick, exited, deleted, visited)
    }

    ghost predicate FsmTimerArmed()
      reads this
    {
      timers[FsmTimer] == 1
    }

    ghost predicate Silent() {
      forall k :: packages(k) == []
    }

    // ---------------------------------------------------------------- events and timers

    /** asynHandleEvent (fsm/Session.cpp:78-87) and the worker's process
        (fsm/CppWorker.cpp:51-68). */
    method AsynHandleEvent(e: EventId)
      modifies this`jobs
      ensures jobs == if isDestroyed || waitStop then old(jobs) else old(jobs) + [e]
    {
      if isDestroyed { return; }
      if waitStop { return; }
      jobs := jobs + [e];
    }

    /** newTimer (fsm/Session.cpp:186-195), for the delays of the table. */
    method NewTimer(msec: nat)
      requires Core() && msec > 0
      modifies this`prevInterval, this`timers, this`fsmTimer
      ensures Core() && prevInterval == msec && (fsmTimer <==> !waitStop)
      ensures timers[InputTimer] == old(timers)[InputTimer]
    {
      hide Forward;
      prevInterval := msec;
      CancelTimer();
      if !waitStop {
        timers, fsmTimer := timers + multiset{FsmTimer}, true;
      }
    }

    method CancelTimer()
      requires Core()
      modifies this`timers, this`fsmTimer
      ensures Core() && !fsmTimer
      ensures timers[InputTimer] == old(timers)[InputTimer]
    {
      if fsmTimer {
        timers, fsmTimer := timers - multiset{FsmTimer}, false;
      }
    }

    method ResetTimer()
      requires Core()
      modifies this`prevInterval, this`timers, this`fsmTimer
      ensures Core() && (fsmTimer <==> old(fsmTimer)) && prevInterval == old(prevInterval)
    {
      hide Forward;
      if fsmTimer {
        CancelTimer();
        NewTimer(prevInterval);
      }
    }

    // ---------------------------------------------------------------- actions

    /** sendPkg as the machine sees it: a package that cannot be encoded posts RESET. */
    method SendPkg()
      requires Core()
      modifies this`jobs, this`tick
      ensures Core() && tick == old(tick) + 1 && Now() == Send(old(Now()), sendFails)
      ensures jobs == if sendFails(tick) && !isDestroyed then old(jobs) + [RESET] else old(jobs)
    {
      hide Forward;
      tick := tick + 1;
      if sendFails(tick) { AsynHandleEvent(RESET); }
    }

    method SendBye()
      requires Core()
      modifies this`jobs, this`tick
      ensures Core() && (isDestroyed ==> jobs == old(jobs)) && |jobs| <= |old(jobs)| + 1
      ensures Calm(old(jobs)) ==> Calm(jobs)
      ensures Now() == if isDestroyed then old(Now()) else Send(old(Now()), sendFails)
    {
      hide Forward, Send;
      if isDestroyed { AsynHandleEvent(RESET); return; }
      SendPkg();
    }

    method InitState()
      requires Core()
      modifies this`jobs, this`tick, this`byeOnReset
      ensures Core() && (isDestroyed ==> jobs == old(jobs))
      ensures Calm(old(jobs)) ==> Calm(jobs)
      ensures !old(byeOnReset) ==> Now() == old(Now())
    {
      hide Forward;
      if byeOnReset {
        SendBye();
        if !isDestroyed { AsynHandleEvent(RESET); }
      }
      byeOnReset := false;
    }

    /** destroy (osc/OscSession.cpp:278-284): the first time, DESTROY_EVT becomes the last
        job; again, nothing changes. */
    method Destroy()
      requires Core() && cur == DESTROY && !fsmTimer
      modifies this`jobs, this`timers, this`inputTimer, this`isDestroyed, this`waitStop
      ensures Core() && isDestroyed && timers == multiset{}
      ensures jobs == if old(isDestroyed) then old(jobs) else old(jobs) + [DESTROY_EVT]
      ensures Now() == Entered(old(Now()), sendFails)
    {
      hide Forward;
      if inputTimer {
        timers, inputTimer := timers - multiset{InputTimer}, false;
      }
      AsynHandleEvent(DESTROY_EVT);
      isDestroyed := true;
      waitStop := true;
      assert timers == multiset{} by {
        forall t ensures timers[t] == 0 { match t { case FsmTimer => case InputTimer => } }
      }
    }

    method DeleteSelf()
      requires Core() && isDestroyed && jobs == []
      modifies this`deleted
      ensures deleted == 1
    {
      deleted := deleted + 1;
    }

    /** The actions that leave the state alone. */
    method Perform(a: Action)
      requires Core() && Simple(a)
      requires a.NewTimer? ==> a.msec > 0
      requires a == Action.Destroy ==> cur == DESTROY && !fsmTimer
      modifies this`jobs, this`tick, this`byeOnReset, this`timers, this`fsmTimer, this`prevInterval, this`inputTimer,
               this`isDestroyed, this`waitStop
      ensures Core()
      ensures !a.NewTimer? && a != Action.CancelTimer ==> fsmTimer == old(fsmTimer)
      ensures a.NewTimer? && !waitStop ==> fsmTimer
      ensures a == Action.CancelTimer ==> !fsmTimer
      ensures a != Action.Destroy ==> isDestroyed == old(isDestroyed) && inputTimer == old(inputTimer)
      ensures a == Action.Destroy ==> isDestroyed && jobs == if old(isDestroyed) then old(jobs) else old(jobs) + [DESTROY_EVT]
      ensures old(isDestroyed) || a == Action.CancelTimer || a == IgnoreEvent || a == UnsupportNotice || a.NewTimer? ==> jobs == old(jobs)
      ensures a != Action.InitState ==> |jobs| <= |old(jobs)| + 1
      ensures Calm(old(jobs)) ==> Calm(jobs)
      ensures a.InitState? && !old(byeOnReset) ==> Now() == old(Now())
      ensures a.SendInitReq? || a.SendInitRecv? || (a.SendBye? && !isDestroyed) ==> Now() == Send(old(Now()), sendFails)
      ensures a.Destroy? ==> Now() == Entered(old(Now()), sendFails)
      ensures a.NewTimer? || a.CancelTimer? ==> Now() == old(Now())
      ensures a.IgnoreEvent? || a.UnsupportNotice? ==> unchanged(this)
    {
      hide Forward, Send, Entered;
      match a {
        case InitState => InitState();
        case SendInitReq => SendPkg();
        case SendInitRecv => SendPkg();
        case SendBye => SendBye();
        case NewTimer(msec) => NewTimer(msec);
        case CancelTimer => CancelTimer();
        case Destroy => Destroy();
        case _ =>
      }
    }

    /** changeState (fsm/Action.cpp:18-60): exit actions, the new state, its entry
        actions; a state that was never declared stops the process. */
    method ChangeState(next: StateId)
      requires Core() && isInitialized && (cur == DESTROY <==> isDestroyed)
      requires if cur == DESTROY then next == DESTROY else Rank(cur) < Rank(next)
      requires cur == DESTROY ==> |jobs| > 0 && jobs[|jobs| - 1] == DESTROY_EVT
      modifies this
      ensures cur == next && exited == !Declared(next) && isInitialized && visited == old(visited) + [next]
      ensures !exited ==> Quiet()
      ensures exited ==> deleted == 0 && |visited| > 0 && Forward(visited) && visited[|visited| - 1] == cur
      ensures old(isDestroyed) ==> jobs == old(jobs)
      ensures |jobs| <= |old(jobs)| + 1
      ensures Calm(old(jobs)) ==> Calm(jobs)
      ensures Now() == Enter(old(Now()), next, sendFails)
    {
      hide Forward, Calm, Entered;
      RunExits();
      ForwardSnoc(visited, next);
      cur, visited := next, visited + [next];
      if !Declared(next) {
        exited := true;
        return;
      }
      RunEntry();
    }

    /** The exit actions of the current state: its timer is cancelled. */
    method RunExits()
      requires Core() && (cur == DESTROY <==> isDestroyed)
      modifies this`jobs, this`tick, this`byeOnReset, this`timers, this`fsmTimer, this`prevInterval, this`inputTimer,
               this`isDestroyed, this`waitStop
      ensures Core() && !fsmTimer && Now() == old(Now())
    {
      hide Forward, Calm, Entered;
      var exits := ActionsOf(cur, EXIT);
      for i := 0 to |exits|
        invariant Core() && cur == old(cur) && Now() == old(Now())
        invariant cur == DESTROY || i == 1 ==> !fsmTimer
      {
        Perform(exits[i]);
      }
    }

    /** The entry actions of the state just entered. */
    method RunEntry()
      requires Core() && !fsmTimer
      requires cur == DESTROY && isDestroyed ==> |jobs| > 0 && jobs[|jobs| - 1] == DESTROY_EVT
      modifies this`jobs, this`tick, this`byeOnReset, this`timers, this`fsmTimer, this`prevInterval, this`inputTimer,
               this`isDestroyed, this`waitStop
      ensures Core() && (isDestroyed <==> cur == DESTROY)
      ensures cur == DESTROY ==> |jobs| > 0 && jobs[|jobs| - 1] == DESTROY_EVT
      ensures cur != DESTROY ==> fsmTimer && inputTimer == old(inputTimer)
      ensures old(isDestroyed) ==> jobs == old(jobs)
      ensures cur != INIT ==> |jobs| <= |old(jobs)| + 1
      ensures Calm(old(jobs)) ==> Calm(jobs)
      ensures cur != INIT || !old(byeOnReset) ==> Now() == Entered(old(Now()), sendFails)
    {
      hide Forward, Calm, Rank, Goes, FirstChange, Send;
      var entries := ActionsOf(cur, ENTRY);
      for i := 0 to |entries|
        invariant Core()
        invariant cur != DESTROY ==> !isDestroyed && inputTimer == old(inputTimer) && (i == |entries| ==> fsmTimer)
        invariant cur == DESTROY ==> !fsmTimer && (i == 0 ==> isDestroyed == old(isDestroyed)) && (i == 1 ==> isDestroyed)
        invariant cur == DESTROY && isDestroyed ==> |jobs| > 0 && jobs[|jobs| - 1] == DESTROY_EVT
        invariant old(isDestroyed) ==> jobs == old(jobs)
        invariant cur != INIT ==> |jobs| <= |old(jobs)| + if i == 0 then 0 else 1
        invariant Calm(old(jobs)) ==> Calm(jobs)
        invariant i == 0 ==> byeOnReset == old(byeOnReset)
        invariant cur != INIT || !old(byeOnReset) ==>
                    Now() == if i == 0 || (cur == INIT && i == 1) || cur == HANDLE_DATA then old(Now()) else Entered(old(Now()), sendFails)
      {
        Perform(entries[i]);
      }
    }

    /** reset (osc/OscSession.cpp:258-261). */
    method HandleResetNow()
      requires Quiet()
      modifies this
      ensures Quiet() && Rank(cur) >= old(Rank(cur)) && old(visited) <= visited
      ensures old(isDestroyed) ==> isDestroyed && jobs == old(jobs)
      ensures Went(Goes(old(cur), RESET)) && Now() == Package(old(Now()), HandleReset, sendFails)
      decreases 0, 4
    {
      hide Forward, Calm, Enter, Handle, Goes;
      ResetMoves(Now(), packages, sendFails);
      byeOnReset := true;
      HandleEvent(RESET);
    }

    /** What one package does. */
    method HandlePkg(op: PkgOp)
      requires Quiet()
      modifies this
      ensures Quiet() && Rank(cur) >= old(Rank(cur)) && old(visited) <= visited
      ensures old(isDestroyed) ==> isDestroyed && jobs == old(jobs)
      ensures match op
              case HandleReset => Went(Goes(old(cur), RESET))
              case RestartTimer => Went(None) && jobs == old(jobs) && prevInterval == old(prevInterval)
              case _ => Went(None) && (!isDestroyed ==> jobs == old(jobs) + [Posted(op)])
      ensures Now() == Package(old(Now()), op, sendFails)
      decreases 0, 5
    {
      hide Forward, Calm, Enter, Handle;
      match op {
        case PostReset => AsynHandleEvent(RESET);
        case PostNext => AsynHandleEvent(NEXT);
        case PostSendData => AsynHandleEvent(SEND_DATA_EVT);
        case PostNetworkInput => AsynHandleEvent(NETWORK_INPUT);
        case HandleReset =>
          HandleResetNow();
        case RestartTimer => ResetTimer();
      }
    }

    /** parsePkg as the machine sees it: each package posts an event, restarts the timer
        or has RESET handled at once. */
    method ParsePkg()
      requires Quiet()
      modifies this
      ensures Quiet() && Rank(cur) >= old(Rank(cur)) && old(visited) <= visited
      ensures old(isDestroyed) || Silent() ==> jobs == old(jobs)
      ensures Silent() ==> cur == old(cur)
      ensures Now() == Packages(old(Now()).(tick := old(tick) + 1), packages(old(tick) + 1), sendFails)
      decreases 0, 6
    {
      hide Forward, Calm, Rank, Package, Packages;
      tick := tick + 1;
      var ops := packages(tick);
      ghost var c := Now();
      NoPackages(c, ops, sendFails);
      for i := 0 to |ops|
        invariant Quiet() && Rank(cur) >= old(Rank(cur)) && old(visited) <= visited
        invariant old(isDestroyed) ==> isDestroyed && jobs == old(jobs)
        invariant i == 0 ==> jobs == old(jobs) && cur == old(cur)
        invariant Now() == Packages(c, ops[..i], sendFails)
      {
        PackagesNext(c, ops, i, sendFails);
        HandlePkg(ops[i]);
      }
      assert ops[..|ops|] == ops;
    }

    /** The session is in the state an event leads to, and has been nowhere else. */
    twostate predicate Went(t: Option<StateId>)
      reads this
    {
      match t
      case None => cur == old(cur) && visited == old(visited)
      case Some(next) => cur == next && visited == old(visited) + [next]
    }

    /** Queue and state are as they were. */
    twostate predicate Untouched()
      reads this
    {
      Now() == old(Now())
    }

    /** The event `e` was handled from what `c` was. */
    ghost predicate Handled(c: Ctl, e: EventId)
      reads this
    {
      && Inv() && deleted == (if e == DESTROY_EVT then 1 else 0)
      && (e == RESET || e == TIMEOUT || e == ENTRY ==> !exited) && c.visited <= visited
      && (e == ENTRY ==> visited == c.visited && inputTimer == c.inputTimer)
      && Rank(cur) >= Rank(c.cur) && (e == TIMEOUT ==> Rank(cur) > Rank(c.cur))
      && (c.destroyed ==> isDestroyed && jobs == c.jobs && !exited)
      && (e != NETWORK_INPUT && e != ENTRY ==> WentFrom(c, Goes(c.cur, e)))
      && (e != ENTRY ==> Now() == Handle(c, e, packages, sendFails))
      && (Silent() && Rank(cur) == Rank(c.cur) && e != ENTRY ==> jobs == c.jobs)
      && (Silent() && e != ENTRY ==> |jobs| <= |c.jobs| + 1)
      && ((Silent() || e == ENTRY) && e != SEND_DATA_EVT && e != NEXT && Calm(c.jobs) ==> !exited && Calm(jobs))
    }

    ghost predicate WentFrom(c: Ctl, t: Option<StateId>)
      reads this
    {
      match t
      case None => cur == c.cur && visited == c.visited
      case Some(next) => cur == next && visited == c.visited + [next]
    }

    /** One action of the list for `e`: a notice changes nothing of the machine, any other
        action is the last of its list. */
    method Execute(e: EventId, a: Action)
      requires Ready(e) && isInitialized && a in ActionsOf(cur, e)
      modifies this
      ensures a == UnsupportNotice ==> Ready(e) && isInitialized && Untouched()
      ensures a != UnsupportNotice ==> Handled(old(Now()), e)
      ensures a.ChangeState? ==> cur == a.next && visited == old(visited) + [a.next]
      decreases if e == NETWORK_INPUT then 1 else 0, 1
    {
      HandlesOnly(e, a);
      hide Handled, Ready, ActionsOf, Now;
      if a.ChangeState? {
        ExecuteChange(e, a.next);
      } else if a.ParsePkg? {
        ExecuteParse(e);
      } else if a.DeleteSelf? {
        ExecuteDelete(e);
      } else {
        ExecuteSimple(e, a);
      }
    }

    lemma HandlesOnly(e: EventId, a: Action)
      requires Ready(e) && isInitialized && a in ActionsOf(cur, e)
      ensures a.ChangeState? || a.ParsePkg? || a.DeleteSelf? || a.IgnoreEvent? || a.UnsupportNotice?
    {
      if a != UnsupportNotice { HandlesAs(Now(), e, a, packages, sendFails); }
    }

    method ExecuteChange(e: EventId, next: StateId)
      requires Ready(e) && isInitialized && Action.ChangeState(next) in ActionsOf(cur, e)
      modifies this
      ensures Handled(old(Now()), e) && cur == next && visited == old(visited) + [next]
      decreases if e == NETWORK_INPUT then 1 else 0, 0
    {
      hide Forward, Silent, Calm, Goes, FirstChange, Handle, Enter, Packages;
      GoesOn(cur, e, Action.ChangeState(next));
      HandlesAs(Now(), e, Action.ChangeState(next), packages, sendFails);
      ChangeState(next);
    }

    method ExecuteParse(e: EventId)
      requires Ready(e) && isInitialized && Action.ParsePkg in ActionsOf(cur, e)
      modifies this
      ensures Handled(old(Now()), e)
      decreases if e == NETWORK_INPUT then 1 else 0, 0
    {
      hide Forward, Silent, Calm, Goes, FirstChange, Handle, Enter, Packages;
      HandlesAs(Now(), e, Action.ParsePkg, packages, sendFails);
      ParsePkg();
    }

    method ExecuteDelete(e: EventId)
      requires Ready(e) && isInitialized && Action.DeleteSelf in ActionsOf(cur, e)
      modifies this
      ensures Handled(old(Now()), e)
      decreases if e == NETWORK_INPUT then 1 else 0, 0
    {
      hide Forward, Silent, Calm, Handle, Enter, Packages;
      GoesOn(cur, e, Action.DeleteSelf);
      HandlesAs(Now(), e, Action.DeleteSelf, packages, sendFails);
      DeleteSelf();
    }

    method ExecuteSimple(e: EventId, a: Action)
      requires Ready(e) && isInitialized && a in ActionsOf(cur, e) && (a.IgnoreEvent? || a.UnsupportNotice?)
      modifies this
      ensures a == UnsupportNotice ==> Ready(e) && isInitialized && Untouched()
      ensures a != UnsupportNotice ==> Handled(old(Now()), e)
      decreases if e == NETWORK_INPUT then 1 else 0, 0
    {
      if a.IgnoreEvent? { IgnoredRight(e); }
      hide *;
      Perform(a);
    }

    lemma IgnoredRight(e: EventId)
      requires Ready(e) && isInitialized && Action.IgnoreEvent in ActionsOf(cur, e)
      ensures Handled(Now(), e)
    {
      hide Forward, Silent, Calm, Goes, FirstChange, Handle, Enter, Packages;
      GoesOn(cur, e, Action.IgnoreEvent);
      HandlesAs(Now(), e, Action.IgnoreEvent, packages, sendFails);
    }

    /** The action list of an event, up to the first change of state. */
    method RunActions(e: EventId)
      requires Ready(e) && isInitialized && ActionsOf(cur, e) != []
      modifies this
      ensures Handled(old(Now()), e)
      decreases if e == NETWORK_INPUT then 1 else 0, 2
    {
      var actions := ActionsOf(cur, e);
      var start := cur;
      assert |actions| > 1 ==> actions == [UnsupportNotice, Action.ChangeState(DESTROY)] && start != DESTROY;
      assert |actions| == 1 ==> actions[0] != UnsupportNotice;
      hide Handled, Ready, ActionsOf, Now;
      var i := 0;
      while i < |actions| && start == cur
        invariant 0 <= i <= |actions| && (i == 0 ==> start == cur)
        invariant i < |actions| && start == cur ==>
                    Ready(e) && isInitialized && Untouched()
        invariant i > 0 && (i == |actions| || start != cur) ==> Handled(old(Now()), e)
      {
        Execute(e, actions[i]);
        i := i + 1;
      }
    }

    /** handleEvent (fsm/Session.cpp:91-151). */
    method HandleEvent(e: EventId)
      requires Ready(e)
      modifies this
      ensures Handled(old(Now()), e)
      ensures e == ENTRY && !old(byeOnReset) ==> Now() == Entered(old(Now()), sendFails)
      decreases if e == NETWORK_INPUT then 1 else 0, 3
    {
      hide Forward, Silent, Calm, Handle, Enter, Entered;
      if !isInitialized {
        RunEntry();
        isInitialized := true;
        assert Quiet();
        if e == ENTRY { return; }
      }
      var actions := ActionsOf(cur, e);
      if actions == [] {
        Undefined(Now(), e, packages, sendFails);
        ChangeState(LAST_STATE);
        return;
      }
      RunActions(e);
    }

    // ---------------------------------------------------------------- runs

    /** The session is created with its first entry actions already run
        (osc/RfSession.cpp:85-89). */
    constructor (packages: nat -> seq<PkgOp>, sendFails: nat -> bool)
      ensures Inv() && deleted == 0 && !exited && cur == FIRST_STATE && visited == [FIRST_STATE] && !inputTimer && Calm(jobs)
      ensures this.packages == packages && this.sendFails == sendFails
      ensures Now() == Ctl(INIT, if sendFails(1) then [RESET] else [], false, false, 1, false, 0, [INIT])
    {
      cur, visited := FIRST_STATE, [FIRST_STATE];
      isInitialized, isDestroyed, fsmTimer, inputTimer, byeOnReset := false, false, false, false, false;
      prevInterval, jobs, timers, waitStop, exited, deleted, tick := 0, [], multiset{}, false, false, 0, 0;
      this.packages, this.sendFails := packages, sendFails;
      new;
      HandleEvent(ENTRY);
    }

    /** startInputTimer (osc/OscSession.cpp:229-241): a worker told to stop arms nothing. */
    method StartInputTimer()
      requires Inv() && deleted == 0 && !exited
      modifies this`timers, this`inputTimer
      ensures Inv() && (inputTimer <==> !waitStop) && Now() == old(Now()).(inputTimer := !waitStop)
    {
      hide Forward, ActionsOf;
      if inputTimer { timers, inputTimer := timers - multiset{InputTimer}, false; }
      if !waitStop { timers, inputTimer := timers + multiset{InputTimer}, true; }
    }

    /** The worker takes the oldest job (fsm/CppWorker.cpp:142-168). */
    method TakeJob()
      requires Inv() && jobs != [] && !exited
      modifies this
      ensures Inv() && Rank(cur) >= old(Rank(cur)) && old(visited) <= visited
      ensures deleted == 1 <==> old(jobs) == [DESTROY_EVT]
      ensures old(jobs)[0] != NETWORK_INPUT ==> Went(Goes(old(cur), old(jobs)[0]))
      ensures old(isDestroyed) || (Silent() && Rank(cur) == old(Rank(cur))) ==> jobs == old(jobs)[1..]
      ensures old(isDestroyed) ==> !exited
      ensures Silent() ==> |jobs| <= |old(jobs)|
      ensures Silent() && Calm(old(jobs)) ==> Calm(jobs) && !exited
      ensures Now() == Handle(old(Now()).(jobs := old(jobs)[1..]), old(jobs)[0], packages, sendFails)
    {
      hide Forward, ActionsOf, Handle;
      var e := jobs[0];
      assert e == DESTROY_EVT <==> jobs == [DESTROY_EVT];
      jobs := jobs[1..];
      HandleEvent(e);
    }

    /** handleTimeout (fsm/Session.cpp:170-176), from a timer that the worker has popped. */
    method FireFsmTimer()
      requires Inv() && FsmTimer in timers && !exited
      modifies this
      ensures Inv() && !exited && deleted == 0 && Rank(cur) > old(Rank(cur)) && Went(Goes(old(cur), TIMEOUT))
      ensures Silent() ==> |jobs| <= |old(jobs)| + 1
      ensures Silent() && Calm(old(jobs)) ==> Calm(jobs)
      ensures Now() == Handle(old(Now()), TIMEOUT, packages, sendFails)
    {
      hide Forward, ActionsOf, Handle;
      timers, fsmTimer := timers - multiset{FsmTimer}, false;
      HandleEvent(TIMEOUT);
    }

    /** processNetworkInput (osc/OscSession.cpp:245-254) as the machine sees it. */
    method ProcessNetworkInput(read: bool)
      requires Quiet() && !isDestroyed
      modifies this`jobs, this`timers, this`fsmTimer, this`prevInterval
      ensures Quiet() && jobs == old(jobs) + [NETWORK_INPUT]
    {
      hide Forward, ActionsOf;
      if read { ResetTimer(); }
      AsynHandleEvent(NETWORK_INPUT);
    }

    /** The reading loop (osc/OscSession.cpp:220-224). */
    method ReadChunks(chunks: nat)
      requires Quiet() && !isDestroyed
      modifies this`jobs, this`timers, this`fsmTimer, this`prevInterval
      ensures Quiet() && jobs == old(jobs) + Queued(Reads(chunks)) && (Calm(old(jobs)) ==> Calm(jobs))
    {
      hide Calm;
      for i := 0 to chunks
        invariant Quiet() && !isDestroyed && jobs == old(jobs) + Queued(Reads(i))
      {
        hide Quiet;
        ProcessNetworkInput(true);
      }
      assert Calm(old(jobs)) ==> Calm(jobs) by { CalmReads(old(jobs), chunks); }
    }

    lemma CalmReads(jobs: seq<EventId>, chunks: nat)
      ensures Calm(jobs) ==> Calm(jobs + Queued(Reads(chunks)))
    {
    }

    /** onInputTimerout (osc/OscSession.cpp:201-227). */
    method FireInputTimer(input: Input)
      requires Inv() && InputTimer in timers && !exited
      modifies this`jobs, this`timers, this`inputTimer, this`fsmTimer, this`prevInterval
      ensures Inv() && deleted == 0 && inputTimer
      ensures |jobs| == |old(jobs)| + Posts(FireInput(input))
      ensures Calm(old(jobs)) ==> Calm(jobs)
      ensures Now() == old(Now()).(jobs := old(jobs) + Queued(input))
    {
      hide Forward, ActionsOf, Queued, Calm;
      timers, inputTimer := timers - multiset{InputTimer}, false;
      QueueInput(input);
      StartInputTimer();
    }

    method QueueInput(input: Input)
      requires Quiet() && !isDestroyed
      modifies this`jobs, this`timers, this`fsmTimer, this`prevInterval
      ensures Quiet() && jobs == old(jobs) + Queued(input) && (Calm(old(jobs)) ==> Calm(jobs))
    {
      hide Forward, ActionsOf;
      match input {
        case Signaled => AsynHandleEvent(RESET);
        case Full => ProcessNetworkInput(false);
        case Reads(chunks) => ReadChunks(chunks);
      }
    }

    /** From DESTROY, `n` jobs were run: they left the queue, or the session is deleted. */
    twostate predicate Drained(n: nat)
      reads this
    {
      old(cur) == DESTROY && old(deleted) == 0 ==>
        && cur == DESTROY && !exited
        && (n < |old(jobs)| ==> deleted == 0 && jobs == old(jobs)[n..])
        && (n >= |old(jobs)| ==> deleted == 1)
    }

    /** One step of the worker; a timer that is not armed does not fire. */
    method Step(p: Pick)
      requires Inv()
      modifies this
      ensures Inv() && old(visited) <= visited && Rank(cur) >= old(Rank(cur))
      ensures p == FireFsm ==> Rank(cur) >= if old(Rank(cur)) >= 3 then 4 else 3
      ensures (old(deleted) == 1 ==> deleted == 1) && (old(exited) ==> exited)
      ensures Rank(cur) >= 4 ==> exited || cur == DESTROY
      ensures Drained(if p == RunJob then 1 else 0)
      ensures Silent() ==> |jobs| <= |old(jobs)| + Posts(p)
      ensures Silent() && old(Calm(jobs) && !exited) ==> Calm(jobs) && !exited
      ensures Now() == Stepped(old(Now()), p, packages, sendFails)
    {
      hide Forward, Calm, Silent, Handle, Queued;
      if exited { return; }
      assert |jobs| == 1 && cur == DESTROY && deleted == 0 ==> jobs == [DESTROY_EVT];
      match p {
        case RunJob => if jobs != [] { TakeJob(); }
        case FireFsm => if FsmTimer in timers { FireFsmTimer(); }
        case FireInput(input) => if InputTimer in timers { FireInputTimer(input); }
      }
    }

    /** Every run of the worker, in every order of jobs and timers, against every peer. What
        Inv says holds throughout: the session is deleted at most once, and from then on no
        job and no timer is left that could reach it; before that, DESTROY_EVT is queued
        exactly from the moment the session is in DESTROY, always as the last job; each
        other state has exactly one timer armed; and states only ever lead forward.

        Progress: after two timeouts the session is in DESTROY or the process has stopped,
        and in DESTROY every job that is run shortens the queue until the session is
        deleted.

        What happens is Played: the packages, the queue and the table decide it. */
    method Run(schedule: seq<Pick>)
      requires Inv()
      modifies this
      ensures Inv() && old(visited) <= visited
      ensures Count(schedule, FireFsm) >= 2 ==> exited || cur == DESTROY
      ensures Drained(Count(schedule, RunJob))
      ensures (old(deleted) == 1 ==> deleted == 1) && (old(exited) ==> exited)
      ensures Silent() ==> |jobs| <= |old(jobs)| + AllPosts(schedule)
      ensures Silent() && old(Calm(jobs) && !exited) ==> Calm(jobs) && !exited
      ensures Now() == Played(old(Now()), schedule, packages, sendFails)
    {
      hide Forward, Calm, Silent, Stepped;
      for i := 0 to |schedule|
        invariant Inv() && old(visited) <= visited
        invariant Count(schedule[..i], FireFsm) >= 1 ==> Rank(cur) >= 3
        invariant Count(schedule[..i], FireFsm) >= 2 ==> Rank(cur) >= 4
        invariant Drained(Count(schedule[..i], RunJob))
        invariant (old(deleted) == 1 ==> deleted == 1) && (old(exited) ==> exited)
        invariant Rank(cur) >= 4 ==> exited || cur == DESTROY
        invariant Silent() ==> |jobs| <= |old(jobs)| + AllPosts(schedule[..i])
        invariant Silent() && old(Calm(jobs) && !exited) ==> Calm(jobs) && !exited
        invariant Now() == Played(old(Now()), schedule[..i], packages, sendFails)
      {
        assert schedule[..i + 1][..i] == schedule[..i];
        Step(schedule[i]);
      }
      assert schedule[..|schedule|] == schedule;
    }

    /** A peer that sends no package, under every schedule: two timeouts lead to DESTROY, and
        once as many jobs are run as can be queued by then, the session is deleted. Only
        what was queued before can make the process stop instead. */
    method RunSilent(schedule: seq<Pick>, rest: seq<Pick>)
      requires Inv() && Silent() && Count(schedule, FireFsm) >= 2
      modifies this
      ensures Inv() && (exited || cur == DESTROY)
      ensures Count(rest, RunJob) >= |old(jobs)| + AllPosts(schedule) ==> exited || deleted == 1
      ensures old(Calm(jobs) && !exited) ==> !exited
    {
      hide Forward, Calm, Silent, Count, AllPosts;
      Run(schedule);
      Run(rest);
    }
  }

  /** A peer that answers the first package and then offers its data: whatever else it sends
      later, the session is ready to handle data after six steps. */
  method Handshake(packages: nat -> seq<PkgOp>, sendFails: nat -> bool) returns (session: RfSession)
    requires !sendFails(1) && !sendFails(3) && packages(2) == [PostNext] && packages(4) == [PostSendData]
    ensures session.Inv() && session.cur == HANDLE_DATA && session.visited == [INIT, INIT_RECV, HANDLE_DATA]
    ensures session.jobs == [] && session.FsmTimerArmed()
  {
    session := new RfSession(packages, sendFails);
    hide Forward, ActionsOf, Stepped;
    session.StartInputTimer();
    ghost var c := session.Now();
    var half := [FireInput(Reads(1)), RunJob, RunJob];
    HandshakePlays(c, packages, sendFails);
    session.Run(half + half);
  }

  lemma HandshakePlays(c: Ctl, packages: nat -> seq<PkgOp>, fails: nat -> bool)
    requires c == Ctl(INIT, [], false, true, 1, false, 0, [INIT])
    requires !fails(1) && !fails(3) && packages(2) == [PostNext] && packages(4) == [PostSendData]
    ensures var half := [FireInput(Reads(1)), RunJob, RunJob];
            Played(c, half + half, packages, fails) == Ctl(HANDLE_DATA, [], false, true, 4, false, 0, [INIT, INIT_RECV, HANDLE_DATA])
  {
    hide Stepped, Played;
    var half := [FireInput(Reads(1)), RunJob, RunJob];
    OnePosted(PostNext);
    OnePosted(PostSendData);
    AnswerMoves(c, NEXT, INIT_RECV, packages, fails);
    var c1 := Ctl(INIT_RECV, [], false, true, 3, false, 0, [INIT, INIT_RECV]);
    assert Played(c, half, packages, fails) == c1;
    AnswerMoves(c1, SEND_DATA_EVT, HANDLE_DATA, packages, fails);
    PlayedAppend(c, half, half, packages, fails);
  }

  lemma OnePosted(op: PkgOp)
    requires !op.HandleReset? && !op.RestartTimer?
    ensures PostedBy([op]) == [Posted(op)]
  {
    assert [op][..0] == [];
  }
}
