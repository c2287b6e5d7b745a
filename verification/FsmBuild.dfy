/** How fsm/Fsm.cpp and fsm/State.h build a machine out of declarations, and that those of
    osc/RfSession.cpp give the table of that session. */
module FsmBuild {
  import opened Fsm
  import opened Options

  /** The two forms of `fsm += ...`. */
  datatype Decl = DeclState(id: StateId) | DeclEvent(e: EventId, action: Action)

  predicate AllEvents(decls: seq<Decl>) {
    forall i :: 0 <= i < |decls| ==> decls[i].DeclEvent?
  }

  /** What the events of a list do on `e`, in order. */
  function Filter(decls: seq<Decl>, e: EventId): (r: seq<Action>) {
    if decls == [] then []
    else
      var d := decls[0];
      (if d.DeclEvent? && d.e == e then [d.action] else []) + Filter(decls[1..], e)
  }

  function LastState(decls: seq<Decl>): (s: Option<StateId>) {
    if decls == [] then None
    else
      match decls[|decls| - 1]
      case DeclState(id) => Some(id)
      case DeclEvent(_, _) => LastState(decls[..|decls| - 1])
  }

  function FirstState(decls: seq<Decl>): (s: Option<StateId>) {
    if decls == [] then None
    else if FirstState(decls[..|decls| - 1]).Some? then FirstState(decls[..|decls| - 1])
    else LastState(decls)
  }

  /** What state `s` does on `e`: the events declared after it and before the next state.
      Events declared before any state belong to `None`. */
  function Listed(decls: seq<Decl>, s: Option<StateId>, e: EventId): (r: seq<Action>) {
    if decls == [] then []
    else
      var d, prev := decls[|decls| - 1], decls[..|decls| - 1];
      Listed(prev, s, e) + if d.DeclEvent? && d.e == e && LastState(prev) == s then [d.action] else []
  }

  predicate DeclaredIn(decls: seq<Decl>, s: StateId) {
    exists i :: 0 <= i < |decls| && decls[i] == DeclState(s)
  }

  /** No state is declared twice. */
  predicate WellDeclared(decls: seq<Decl>) {
    forall i, j :: 0 <= i < j < |decls| && decls[i].DeclState? ==> decls[i] != decls[j]
  }

  /** What a map of states says `s` does on `e`. */
  function Rules(states: map<Option<StateId>, map<EventId, seq<Action>>>, s: Option<StateId>, e: EventId): (r: seq<Action>) {
    if s in states && e in states[s] then states[s][e] else []
  }

  lemma FreshState(states: map<Option<StateId>, map<EventId, seq<Action>>>, s: StateId, s': Option<StateId>, e: EventId)
    requires Some(s) !in states
    ensures Rules(states[Some(s) := map[]], s', e) == Rules(states, s', e)
  {
  }

  class FiniteStateMachine {
    /** The states by their id, `None` being STATE_NONE (fsm/Fsm.h:20). */
    var states: map<Option<StateId>, map<EventId, seq<Action>>>
    var initStateId: Option<StateId>
    var endStateId: Option<StateId>

    constructor ()
      ensures states == map[] && initStateId == None && endStateId == None
    {
      states, initStateId, endStateId := map[], None, None;
    }

    /** getActionList (fsm/State.h:41-52). */
    function ActionList(s: Option<StateId>, e: EventId): (r: seq<Action>)
      reads this
    {
      Rules(states, s, e)
    }

    /** `operator+=` for a state (fsm/Fsm.cpp:13-30): the first is where sessions start, the
        last where undefined events lead; a state declared twice stops the process. */
    method AddState(s: StateId) returns (ok: bool)
      modifies this
      ensures ok == (Some(s) !in old(states))
      ensures initStateId == if old(initStateId) == None then Some(s) else old(initStateId)
      ensures ok ==> endStateId == Some(s) && states == old(states)[Some(s) := map[]]
      ensures !ok ==> endStateId == old(endStateId) && states == old(states)
    {
      if initStateId == None { initStateId := Some(s); }
      if Some(s) in states { return false; }
      endStateId := Some(s);
      states := states[Some(s) := map[]];
      return true;
    }

    /** `operator+=` for an event (fsm/Fsm.cpp:34-40): one more action of the state declared
        last, which is made if there is none yet. */
    method AddEvent(e: EventId, a: Action)
      modifies this`states
      ensures states.Keys == old(states).Keys + {endStateId}
      ensures forall s, e' ::
        ActionList(s, e') == Rules(old(states), s, e') + if s == endStateId && e' == e then [a] else []
    {
      var rules := if endStateId in states then states[endStateId] else map[];
      states := states[endStateId := rules[e := (if e in rules then rules[e] else []) + [a]]];
    }

    /** The machine is what the declarations say. */
    ghost predicate Built(decls: seq<Decl>)
      reads this
    {
      && (forall s :: Some(s) in states <==> DeclaredIn(decls, s))
      && (forall s, e :: ActionList(s, e) == Listed(decls, s, e))
      && initStateId == FirstState(decls) && endStateId == LastState(decls)
      && (endStateId.Some? ==> endStateId in states) && (initStateId == None <==> endStateId == None)
    }

    method BuildState(ghost decls: seq<Decl>, s: StateId) returns (ok: bool)
      requires Built(decls)
      modifies this
      ensures ok == !DeclaredIn(decls, s)
      ensures ok ==> Built(decls + [DeclState(s)])
    {
      hide DeclaredIn, Listed, FirstState, LastState, Rules;
      ok := AddState(s);
      Snoc(decls, DeclState(s));
      if ok {
        forall s', e ensures Rules(states, s', e) == Rules(old(states), s', e) { FreshState(old(states), s, s', e); }
        assert forall s', e :: ActionList(s', e) == Listed(decls + [DeclState(s)], s', e);
      }
    }

    method BuildEvent(ghost decls: seq<Decl>, e: EventId, a: Action)
      requires Built(decls)
      modifies this
      ensures Built(decls + [DeclEvent(e, a)])
    {
      hide DeclaredIn, Listed, FirstState, LastState, Rules;
      AddEvent(e, a);
      Snoc(decls, DeclEvent(e, a));
      assert forall s', e' :: ActionList(s', e') == Listed(decls + [DeclEvent(e, a)], s', e');
    }

    /** A whole machine, one declaration after the other. The process stops exactly when a
        state is declared twice; otherwise each state answers each event with the actions
        declared under it, in order. */
    method Build(decls: seq<Decl>) returns (ok: bool)
      requires states == map[] && initStateId == None && endStateId == None
      modifies this
      ensures ok <==> WellDeclared(decls)
      ensures ok ==> Built(decls)
    {
      for i := 0 to |decls|
        invariant Built(decls[..i]) && WellDeclared(decls[..i])
      {
        hide Built;
        assert decls[..i + 1] == decls[..i] + [decls[i]];
        WellSnoc(decls[..i], decls[i]);
        ok := true;
        match decls[i] {
          case DeclState(s) => ok := BuildState(decls[..i], s);
          case DeclEvent(e, a) => BuildEvent(decls[..i], e, a);
        }
        if !ok {
          NotWell(decls, i + 1);
          return;
        }
      }
      assert decls[..|decls|] == decls;
      return true;
    }
  }

  lemma WellSnoc(decls: seq<Decl>, d: Decl)
    requires WellDeclared(decls)
    ensures WellDeclared(decls + [d]) <==> (d.DeclState? ==> !DeclaredIn(decls, d.id))
  {
    var all := decls + [d];
    if d.DeclState? && DeclaredIn(decls, d.id) {
      var k :| 0 <= k < |decls| && decls[k] == d;
      assert all[k] == all[|decls|];
    }
  }

  lemma NotWell(decls: seq<Decl>, n: nat)
    requires n <= |decls| && !WellDeclared(decls[..n])
    ensures !WellDeclared(decls)
  {
    var i, j :| 0 <= i < j < n && decls[..n][i].DeclState? && decls[..n][i] == decls[..n][j];
    assert decls[i] == decls[j];
  }

  /** What one more declaration changes. */
  lemma Snoc(decls: seq<Decl>, d: Decl)
    ensures forall s :: DeclaredIn(decls + [d], s) <==> DeclaredIn(decls, s) || d == DeclState(s)
    ensures LastState(decls + [d]) == if d.DeclState? then Some(d.id) else LastState(decls)
    ensures FirstState(decls + [d]) == if FirstState(decls).Some? then FirstState(decls) else LastState(decls + [d])
    ensures forall s, e :: Listed(decls + [d], s, e)
                        == Listed(decls, s, e) + if d.DeclEvent? && d.e == e && LastState(decls) == s then [d.action] else []
    ensures d.DeclState? ==> forall s, e :: Listed(decls + [d], s, e) == Listed(decls, s, e)
  {
    var all := decls + [d];
    assert all[..|all| - 1] == decls;
    forall s ensures DeclaredIn(all, s) <==> DeclaredIn(decls, s) || d == DeclState(s) {
      if d == DeclState(s) { assert all[|decls|] == DeclState(s); }
      if DeclaredIn(decls, s) {
        var k :| 0 <= k < |decls| && decls[k] == DeclState(s);
        assert all[k] == DeclState(s);
      }
    }
  }

  // ---------------------------------------------------------------- a state and its events

  lemma {:induction false} FilterSnoc(decls: seq<Decl>, d: Decl, e: EventId)
    ensures Filter(decls + [d], e) == Filter(decls, e) + if d.DeclEvent? && d.e == e then [d.action] else []
    decreases |decls|
  {
    if decls == [] {
      assert Filter([d][1..], e) == [];
    } else {
      assert (decls + [d])[1..] == decls[1..] + [d];
      FilterSnoc(decls[1..], d, e);
    }
  }

  /** A state and its events, behind other declarations. */
  lemma {:induction false} ListedState(before: seq<Decl>, s: StateId, body: seq<Decl>, s': StateId, e: EventId)
    requires AllEvents(body)
    ensures LastState(before + [DeclState(s)] + body) == Some(s)
    ensures FirstState(before + [DeclState(s)] + body) == if FirstState(before).Some? then FirstState(before) else Some(s)
    ensures Listed(before + [DeclState(s)] + body, Some(s'), e)
         == Listed(before, Some(s'), e) + if s == s' then Filter(body, e) else []
    decreases |body|
  {
    hide Listed, Filter, FirstState, LastState, DeclaredIn;
    var all := before + [DeclState(s)] + body;
    if body == [] {
      assert all == before + [DeclState(s)];
      Snoc(before, DeclState(s));
      NothingFiltered(e);
    } else {
      var prev, last := body[..|body| - 1], body[|body| - 1];
      ListedState(before, s, prev, s', e);
      assert all == before + [DeclState(s)] + prev + [last];
      Snoc(before + [DeclState(s)] + prev, last);
      assert body == prev + [last];
      FilterSnoc(prev, last, e);
    }
  }

  lemma NothingFiltered(e: EventId)
    ensures Filter([], e) == []
  {
  }

  lemma DeclaredAppend(before: seq<Decl>, s0: StateId, body: seq<Decl>, s: StateId)
    requires AllEvents(body)
    ensures DeclaredIn(before + [DeclState(s0)] + body, s) <==> DeclaredIn(before, s) || s == s0
  {
    var all := before + [DeclState(s0)] + body;
    if s == s0 { assert all[|before|] == DeclState(s); }
    if DeclaredIn(before, s) {
      var k :| 0 <= k < |before| && before[k] == DeclState(s);
      assert all[k] == DeclState(s);
    }
    if DeclaredIn(all, s) {
      var k :| 0 <= k < |all| && all[k] == DeclState(s);
      assert k < |before| ==> before[k] == DeclState(s);
      assert k > |before| ==> all[k] == body[k - |before| - 1];
    }
  }

  lemma WellAppend(before: seq<Decl>, s: StateId, body: seq<Decl>)
    requires WellDeclared(before) && AllEvents(body) && !DeclaredIn(before, s)
    ensures WellDeclared(before + [DeclState(s)] + body)
  {
    var all := before + [DeclState(s)] + body;
    forall k | |before| < k < |all| ensures all[k].DeclEvent? { assert all[k] == body[k - |before| - 1]; }
    forall i, j | 0 <= i < j < |all| && all[i].DeclState? ensures all[i] != all[j] {
      assert all[i] == if i < |before| then before[i] else DeclState(s);
      assert j < |before| ==> all[j] == before[j];
    }
  }

  // ---------------------------------------------------------------- the declarations of RfSession

  // osc/RfSession.cpp:30-39
  const INIT_EVENTS: seq<Decl> := [
    DeclEvent(ENTRY, InitState),
    DeclEvent(ENTRY, SendInitReq),
    DeclEvent(ENTRY, NewTimer(1500)),
    DeclEvent(TIMEOUT, UnsupportNotice),
    DeclEvent(TIMEOUT, ChangeState(DESTROY)),
    DeclEvent(RESET, ChangeState(END)),
    DeclEvent(NETWORK_INPUT, ParsePkg),
    DeclEvent(NEXT, ChangeState(INIT_RECV)),
    DeclEvent(DESTROY_EVT, ChangeState(DESTROY)),
    DeclEvent(EXIT, CancelTimer)]

  // osc/RfSession.cpp:42-50
  const INIT_RECV_EVENTS: seq<Decl> := [
    DeclEvent(ENTRY, SendInitRecv),
    DeclEvent(ENTRY, NewTimer(60000)),
    DeclEvent(TIMEOUT, ChangeState(END)),
    DeclEvent(OK, ChangeState(END)),
    DeclEvent(RESET, ChangeState(END)),
    DeclEvent(NETWORK_INPUT, ParsePkg),
    DeclEvent(DESTROY_EVT, ChangeState(DESTROY)),
    DeclEvent(SEND_DATA_EVT, ChangeState(HANDLE_DATA)),
    DeclEvent(EXIT, CancelTimer)]

  // osc/RfSession.cpp:53-60
  const HANDLE_DATA_EVENTS: seq<Decl> := [
    DeclEvent(ENTRY, NewTimer(30000)),
    DeclEvent(TIMEOUT, ChangeState(END)),
    DeclEvent(SEND_DATA_EVT, ChangeState(SEND_DATA)),
    DeclEvent(NETWORK_INPUT, ParsePkg),
    DeclEvent(DESTROY_EVT, ChangeState(DESTROY)),
    DeclEvent(RESET, ChangeState(END)),
    DeclEvent(NEXT, ChangeState(SEND_FILE_INFO)),
    DeclEvent(EXIT, CancelTimer)]

  // osc/RfSession.cpp:63-70
  const END_EVENTS: seq<Decl> := [
    DeclEvent(ENTRY, SendBye),
    DeclEvent(ENTRY, NewTimer(60000)),
    DeclEvent(TIMEOUT, ChangeState(DESTROY)),
    DeclEvent(NETWORK_INPUT, ParsePkg),
    DeclEvent(DESTROY_EVT, ChangeState(DESTROY)),
    DeclEvent(RESET, ChangeState(DESTROY)),
    DeclEvent(NEXT, IgnoreEvent),
    DeclEvent(EXIT, CancelTimer)]

  // osc/RfSession.cpp:73-75
  const DESTROY_EVENTS: seq<Decl> := [
    DeclEvent(ENTRY, Action.Destroy),
    DeclEvent(RESET, IgnoreEvent),
    DeclEvent(DESTROY_EVT, DeleteSelf)]

  /** The states of RfSession with their events, as the source lists them. */
  const RF_1: seq<Decl> := [] + [DeclState(INIT)] + INIT_EVENTS
  const RF_2: seq<Decl> := RF_1 + [DeclState(INIT_RECV)] + INIT_RECV_EVENTS
  const RF_3: seq<Decl> := RF_2 + [DeclState(HANDLE_DATA)] + HANDLE_DATA_EVENTS
  const RF_4: seq<Decl> := RF_3 + [DeclState(END)] + END_EVENTS
  const RF_DECLS: seq<Decl> := RF_4 + [DeclState(DESTROY)] + DESTROY_EVENTS

  /** A list's events from `lo` to `hi`, one after the other. */
  lemma Peel(decls: seq<Decl>, lo: nat, hi: nat, e: EventId)
    requires AllEvents(decls) && lo <= hi <= |decls|
    ensures decls[0..] == decls && Filter(decls[|decls|..], e) == []
    ensures forall k {:trigger decls[k..]} :: lo <= k < hi ==>
      Filter(decls[k..], e) == (if decls[k].e == e then [decls[k].action] else []) + Filter(decls[k + 1..], e)
  {
    forall k {:trigger decls[k..]} | lo <= k < hi
      ensures Filter(decls[k..], e) == (if decls[k].e == e then [decls[k].action] else []) + Filter(decls[k + 1..], e)
    {
      assert decls[k..][1..] == decls[k + 1..];
    }
  }

  lemma FilterInitTail(e: EventId)
    ensures Filter(INIT_EVENTS[3..], e) == if e == ENTRY then [] else InitRules(e)
  {
    hide Filter;
    Peel(INIT_EVENTS, 3, 10, e);
  }

  lemma FilterInit(e: EventId)
    ensures Filter(INIT_EVENTS, e) == InitRules(e)
  {
    hide Filter;
    FilterInitTail(e);
    Peel(INIT_EVENTS, 0, 3, e);
  }

  lemma FilterInitRecv(e: EventId)
    ensures Filter(INIT_RECV_EVENTS, e) == InitRecvRules(e)
  {
    hide Filter;
    Peel(INIT_RECV_EVENTS, 0, |INIT_RECV_EVENTS|, e);
  }

  lemma FilterHandleData(e: EventId)
    ensures Filter(HANDLE_DATA_EVENTS, e) == HandleDataRules(e)
  {
    hide Filter;
    Peel(HANDLE_DATA_EVENTS, 0, |HANDLE_DATA_EVENTS|, e);
  }

  lemma FilterEnd(e: EventId)
    ensures Filter(END_EVENTS, e) == EndRules(e)
  {
    hide Filter;
    Peel(END_EVENTS, 0, |END_EVENTS|, e);
  }

  lemma FilterDestroy(e: EventId)
    ensures Filter(DESTROY_EVENTS, e) == DestroyRules(e)
  {
    hide Filter;
    Peel(DESTROY_EVENTS, 0, |DESTROY_EVENTS|, e);
  }

  function EventsOf(s: StateId): (r: seq<Decl>)
    ensures AllEvents(r)
  {
    match s
    case INIT => INIT_EVENTS
    case INIT_RECV => INIT_RECV_EVENTS
    case HANDLE_DATA => HANDLE_DATA_EVENTS
    case END => END_EVENTS
    case DESTROY => DESTROY_EVENTS
    case _ => []
  }

  lemma FilterEvents(s: StateId, e: EventId)
    ensures Filter(EventsOf(s), e) == ActionsOf(s, e)
  {
    hide Filter, InitRules, InitRecvRules, HandleDataRules, EndRules, DestroyRules;
    match s {
      case INIT => FilterInit(e);
      case INIT_RECV => FilterInitRecv(e);
      case HANDLE_DATA => FilterHandleData(e);
      case END => FilterEnd(e);
      case DESTROY => FilterDestroy(e);
      case _ => NothingFiltered(e);
    }
  }

  lemma RfParts()
    ensures RF_1 == [] + [DeclState(INIT)] + EventsOf(INIT)
    ensures RF_2 == RF_1 + [DeclState(INIT_RECV)] + EventsOf(INIT_RECV)
    ensures RF_3 == RF_2 + [DeclState(HANDLE_DATA)] + EventsOf(HANDLE_DATA)
    ensures RF_4 == RF_3 + [DeclState(END)] + EventsOf(END)
    ensures RF_DECLS == RF_4 + [DeclState(DESTROY)] + EventsOf(DESTROY)
  {
  }

  /** The machine of RfSession: it starts in INIT, an undefined event leads to DESTROY, and
      each state answers each event as the table says. */
  lemma RfListed(s: StateId, e: EventId)
    ensures FirstState(RF_DECLS) == Some(FIRST_STATE) && LastState(RF_DECLS) == Some(LAST_STATE)
    ensures Listed(RF_DECLS, Some(s), e) == ActionsOf(s, e)
  {
    hide Filter, Listed, FirstState, LastState, EventsOf, ActionsOf;
    NothingDeclared(s, e);
    RfParts();
    ListedState([], INIT, EventsOf(INIT), s, e);
    ListedState(RF_1, INIT_RECV, EventsOf(INIT_RECV), s, e);
    ListedState(RF_2, HANDLE_DATA, EventsOf(HANDLE_DATA), s, e);
    ListedState(RF_3, END, EventsOf(END), s, e);
    ListedState(RF_4, DESTROY, EventsOf(DESTROY), s, e);
    FilterEvents(s, e);
  }

  lemma NothingDeclared(s: StateId, e: EventId)
    ensures FirstState([]) == None && Listed([], Some(s), e) == [] && !DeclaredIn([], s)
    ensures !Declared(s) ==> ActionsOf(s, e) == []
  {
  }

  /** Its states are the five of the table. */
  lemma RfDeclares(s: StateId)
    ensures DeclaredIn(RF_1, s) <==> s == INIT
    ensures DeclaredIn(RF_2, s) <==> s == INIT || s == INIT_RECV
    ensures DeclaredIn(RF_3, s) <==> s == INIT || s == INIT_RECV || s == HANDLE_DATA
    ensures DeclaredIn(RF_4, s) <==> Declared(s) && s != DESTROY
    ensures DeclaredIn(RF_DECLS, s) <==> Declared(s)
  {
    hide DeclaredIn, WellDeclared, EventsOf;
    RfParts();
    NothingDeclared(s, ENTRY);
    DeclaredAppend([], INIT, EventsOf(INIT), s);
    DeclaredAppend(RF_1, INIT_RECV, EventsOf(INIT_RECV), s);
    DeclaredAppend(RF_2, HANDLE_DATA, EventsOf(HANDLE_DATA), s);
    DeclaredAppend(RF_3, END, EventsOf(END), s);
    DeclaredAppend(RF_4, DESTROY, EventsOf(DESTROY), s);
  }

  /** Each state is declared once, so the machine is built to the end. */
  lemma RfWellDeclared()
    ensures WellDeclared(RF_DECLS)
  {
    hide DeclaredIn, EventsOf;
    RfParts();
    NothingDeclared(INIT, ENTRY);
    RfDeclares(INIT);
    RfDeclares(INIT_RECV);
    RfDeclares(HANDLE_DATA);
    RfDeclares(END);
    RfDeclares(DESTROY);
    WellAppend([], INIT, EventsOf(INIT));
    WellAppend(RF_1, INIT_RECV, EventsOf(INIT_RECV));
    WellAppend(RF_2, HANDLE_DATA, EventsOf(HANDLE_DATA));
    WellAppend(RF_3, END, EventsOf(END));
    WellAppend(RF_4, DESTROY, EventsOf(DESTROY));
  }

  /** getZmodemFsm (osc/RfSession.cpp:24-81). */
  method BuildRf() returns (fsm: FiniteStateMachine)
    ensures fresh(fsm) && fsm.initStateId == Some(FIRST_STATE) && fsm.endStateId == Some(LAST_STATE)
    ensures forall s :: Some(s) in fsm.states <==> Declared(s)
    ensures forall s, e :: fsm.ActionList(Some(s), e) == ActionsOf(s, e)
  {
    hide Listed, FirstState, LastState, WellDeclared, DeclaredIn, ActionsOf;
    fsm := new FiniteStateMachine();
    RfWellDeclared();
    var ok := fsm.Build(RF_DECLS);
    RfListed(INIT, ENTRY);
    forall s, e ensures Listed(RF_DECLS, Some(s), e) == ActionsOf(s, e) { RfListed(s, e); }
    forall s ensures DeclaredIn(RF_DECLS, s) <==> Declared(s) { RfDeclares(s); }
  }
}
