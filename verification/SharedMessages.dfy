/** The threaded router's shared messages: the main loop fills in a reference count and queues one pointer per
    port; each port thread takes pointers off its queue, sends the data, and gives its reference back under a lock;
    whoever brings the count to zero frees the message. All interleavings. */
module SharedMessages {
  import opened Bacnet

  /** Where a recipient stands with a message: still to be queued, holding the pointer (queued or being sent), done
      with it, or never to get it. */
  datatype Place = Pending | Holding | Done | Lost

  /** One MSG_DATA with its uint8_t ref_count; `place` is history, over the ports that the count was made for. */
  datatype Message = Message(refCount: Octet, live: bool, frees: nat, place: map<nat, Place>)

  predicate At(m: Message, i: nat, p: Place) { i in m.place && m.place[i] == p }

  function Move(m: Message, i: nat, p: Place): Message { m.(place := m.place[i := p]) }

  /** A port thread: its message box, and the message it is sending right now. */
  datatype PortThread = PortThread(queue: seq<nat>, sending: seq<nat>, running: bool)

  /** The main loop is idle, or walks the port list for message `id` and is about to look at port `next`; the walks
      over all ports skip those that have finished, the send to a single port does not look. */
  datatype MainLoop = Idle | FanOut(id: nat, next: nat, skipFinished: bool)

  datatype State = State(messages: seq<Message>, ports: seq<PortThread>, main: MainLoop)

  /** How the main loop chooses recipients: the port that a table lookup or the message's origin selects, all ports
      but the origin (global broadcast), or all ports (network message). */
  datatype Plan = One(port: nat) | AllBut(origin: nat) | All

  predicate PlanFits(ports: nat, p: Plan) {
    match p
    case One(port) => port < ports
    case AllBut(origin) => origin < ports
    case All => true
  }

  predicate InPlan(p: Plan, i: nat) {
    match p
    case One(port) => i == port
    case AllBut(origin) => i != origin
    case All => true
  }

  function PlanPorts(ports: nat, p: Plan): set<nat> {
    set i: nat | i < ports && InPlan(p, i)
  }

  /** The count that the main loop writes: 1, port_count - 1, or port_count, narrowed to uint8_t. */
  function PlanCount(ports: nat, p: Plan): Octet
    requires PlanFits(ports, p)
  {
    match p
    case One(_) => 1
    case AllBut(_) => (ports - 1) % 256
    case All => ports % 256
  }

  datatype Event =
    | Begin(plan: Plan)
    | Queue(succeeds: bool)
    | Receive(port: nat)
    | GiveBack(port: nat)
    | Finish(port: nat)

  predicate Enabled(s: State, e: Event) {
    match e
    case Begin(plan) => s.main.Idle? && PlanFits(|s.ports|, plan)
    case Queue(_) => s.main.FanOut?
    case Receive(i) => i < |s.ports| && s.ports[i].running && s.ports[i].sending == [] && s.ports[i].queue != []
    case GiveBack(i) => i < |s.ports| && s.ports[i].sending != []
    case Finish(i) => i < |s.ports| && s.ports[i].running && s.ports[i].sending == []
  }

  /** The pointers that a port holds, in the order in which it will give them back. */
  function Held(p: PortThread): seq<nat> { p.sending + p.queue }

  ghost predicate Shape(s: State) {
    && (s.main.FanOut? ==> s.main.id < |s.messages| && s.main.next <= |s.ports|)
    && (forall i :: 0 <= i < |s.ports| ==>
          |s.ports[i].sending| <= 1 && forall id :: id in Held(s.ports[i]) ==> id < |s.messages|)
  }

  /** One step of the main loop's walk: a port that is not a recipient or has finished is skipped, a send may fail. */
  function QueueNext(s: State, succeeds: bool): State
    requires s.main.FanOut? && s.main.id < |s.messages|
  {
    var id, i := s.main.id, s.main.next;
    if i >= |s.ports| then s.(main := Idle)
    else
      var m := s.messages[id];
      var s' := s.(main := s.main.(next := i + 1));
      if !At(m, i, Pending) then s'
      else if (s.ports[i].running || !s.main.skipFinished) && succeeds then
        s'.(messages := s.messages[id := Move(m, i, Holding)],
            ports := s.ports[i := s.ports[i].(queue := s.ports[i].queue + [id])])
      else
        s'.(messages := s.messages[id := Move(m, i, Lost)])
  }

  /** check_data: decrement under the lock, and free at zero. */
  function CheckData(m: Message, i: nat): Message {
    var count := (m.refCount + 255) % 256;
    var m' := Move(m, i, Done).(refCount := count);
    if count == 0 then m'.(live := false, frees := m.frees + 1) else m'
  }

  ghost function Do(s: State, e: Event): State
    requires Enabled(s, e) && Shape(s)
  {
    match e
    case Begin(plan) =>
      var m := Message(PlanCount(|s.ports|, plan), true, 0, map i | i in PlanPorts(|s.ports|, plan) :: Pending);
      s.(messages := s.messages + [m], main := FanOut(|s.messages|, 0, !plan.One?))
    case Queue(succeeds) => QueueNext(s, succeeds)
    case Receive(i) =>
      var p := s.ports[i];
      s.(ports := s.ports[i := p.(queue := p.queue[1..], sending := [p.queue[0]])])
    case GiveBack(i) =>
      var p := s.ports[i];
      var id := Held(p)[0];
      assert id in Held(p);
      s.(messages := s.messages[id := CheckData(s.messages[id], i)], ports := s.ports[i := p.(sending := [])])
    case Finish(i) => s.(ports := s.ports[i := s.ports[i].(running := false)])
  }

  function Start(ports: nat): State {
    State([], seq(ports, _ => PortThread([], [], true)), Idle)
  }

  // ---------------------------------------------------------------------------------
  // The invariant
  // ---------------------------------------------------------------------------------

  /** The recipients that are done. */
  ghost function Returned(m: Message): set<nat> { set i | i in m.place && m.place[i] == Done }

  /** The count is what is left to give back, modulo 256; the message is freed exactly when everyone has. */
  ghost predicate CountIsRight(m: Message) {
    && |m.place.Keys| <= 256
    && m.refCount == (|m.place.Keys| - |Returned(m)|) % 256
    && (m.live <==> Returned(m) == {} || |Returned(m)| < |m.place.Keys|)
    && m.frees == (if m.live then 0 else 1)
  }

  /** (An equation, so that the verifier passes it on as a whole.) */
  ghost predicate Counted(m: Message) { CountIsRight(m) == true }

  ghost predicate HoldersMatch(s: State) {
    && (forall i :: 0 <= i < |s.ports| ==> NoRepeats(Held(s.ports[i])))
    && (forall i, id :: 0 <= i < |s.ports| && 0 <= id < |s.messages| ==>
          (id in Held(s.ports[i]) <==> At(s.messages[id], i, Holding)))
  }

  /** Only the message that the main loop is working on has ports still to be queued, and those lie ahead. */
  ghost predicate PendingAhead(s: State) {
    && (forall id, i :: 0 <= id < |s.messages| && At(s.messages[id], i, Pending) ==>
          s.main.FanOut? && s.main.id == id && s.main.next <= i)
    && (forall id, i :: 0 <= id < |s.messages| && i in s.messages[id].place ==> i < |s.ports|)
  }

  ghost predicate AllCounted(s: State) {
    forall id :: 0 <= id < |s.messages| ==> Counted(s.messages[id])
  }

  ghost predicate Inv(s: State) {
    Shape(s) && HoldersMatch(s) && PendingAhead(s) && AllCounted(s)
  }

  lemma {:induction false} PlanSize(ports: nat, p: Plan)
    requires PlanFits(ports, p)
    ensures |PlanPorts(ports, p)| == match p case One(_) => 1 case AllBut(_) => ports - 1 case All => ports
    decreases ports, p.AllBut?
  {
    match p {
      case One(q) =>
        assert PlanPorts(ports, p) == {q};
      case AllBut(q) =>
        PlanSize(ports, All);
        assert PlanPorts(ports, p) == PlanPorts(ports, All) - {q};
      case All =>
        if ports == 0 {
          assert PlanPorts(ports, p) == {};
        } else {
          PlanSize(ports - 1, All);
          assert PlanPorts(ports, p) == PlanPorts(ports - 1, p) + {ports - 1};
        }
    }
  }

  /** Giving back one reference: with at most 256 recipients the count reaches zero exactly at the last one. */
  lemma CheckDataCounted(m: Message, i: nat)
    requires Counted(m) && At(m, i, Holding)
    ensures m.live && Counted(CheckData(m, i))
  {
    var m' := CheckData(m, i);
    OneMoreReturned(m, m', i);
    var n, d := |m.place.Keys|, |Returned(m)|;
    assert |Returned(m')| == d + 1;
    Decrement(n, d);
    assert m.refCount == (n - d) % 256;
    assert m'.refCount == (n - (d + 1)) % 256;
    assert m.live;
    assert m'.live <==> d + 1 < n;
  }

  lemma OneMoreReturned(m: Message, m': Message, i: nat)
    requires At(m, i, Holding) && m'.place == m.place[i := Done]
    ensures m'.place.Keys == m.place.Keys && Returned(m') != {}
    ensures |Returned(m')| == |Returned(m)| + 1 <= |m.place.Keys|
  {
    assert Returned(m') == Returned(m) + {i} && i !in Returned(m);
    SubsetSize(Returned(m'), m.place.Keys);
  }

  lemma Decrement(n: nat, d: nat)
    requires d < n <= 256
    ensures ((n - d) % 256 + 255) % 256 == (n - (d + 1)) % 256
    ensures (n - (d + 1)) % 256 == 0 <==> n == d + 1
  {
  }

  lemma BeginInv(s: State, plan: Plan)
    requires Inv(s) && Enabled(s, Begin(plan)) && |PlanPorts(|s.ports|, plan)| <= 256
    ensures Inv(Do(s, Begin(plan)))
  {
    PlanSize(|s.ports|, plan);
    var s' := Do(s, Begin(plan));
    var m := s'.messages[|s.messages|];
    assert m.place.Keys == PlanPorts(|s.ports|, plan) && Returned(m) == {};
    assert forall id :: 0 <= id < |s.messages| ==> s'.messages[id] == s.messages[id];
  }

  /** Moving one port from "still to be queued" to "holds it" or "never gets it" leaves the count right. */
  lemma MoveCounted(m: Message, i: nat, p: Place)
    requires Counted(m) && At(m, i, Pending) && (p == Holding || p == Lost)
    ensures Counted(Move(m, i, p))
  {
    assert Returned(Move(m, i, p)) == Returned(m);
    assert Move(m, i, p).place.Keys == m.place.Keys;
  }

  /** Moving one port's place in one message, and its pointers alike, keeps them in step. */
  lemma UpdateHolders(s: State, s': State, i: nat, p: PortThread, id: nat, m: Message, to: Place)
    requires HoldersMatch(s) && i < |s.ports| && id < |s.messages|
    requires s'.ports == s.ports[i := p] && s'.messages == s.messages[id := m] && NoRepeats(Held(p))
    requires forall x :: x != id ==> (x in Held(p) <==> x in Held(s.ports[i]))
    requires m.place == s.messages[id].place[i := to] && (id in Held(p) <==> to == Holding)
    ensures HoldersMatch(s')
  {
    forall j, x | 0 <= j < |s'.ports| && 0 <= x < |s'.messages|
      ensures x in Held(s'.ports[j]) <==> At(s'.messages[x], j, Holding)
    {
      assert x in Held(s.ports[j]) <==> At(s.messages[x], j, Holding);
    }
  }

  lemma UpdateInv(s: State, s': State, i: nat, p: PortThread, id: nat, m: Message, to: Place)
    requires Inv(s) && i < |s.ports| && id < |s.messages| && Counted(m) && to != Pending
    requires s'.ports == s.ports[i := p] && s'.messages == s.messages[id := m]
    requires s'.main == s.main || (s.main.FanOut? && s.main.id == id && s.main.next == i &&
      s'.main == s.main.(next := i + 1))
    requires |p.sending| <= 1 && NoRepeats(Held(p))
    requires forall x :: x != id ==> (x in Held(p) <==> x in Held(s.ports[i]))
    requires m.place == s.messages[id].place[i := to] && (id in Held(p) <==> to == Holding)
    ensures Inv(s')
  {
    UpdateHolders(s, s', i, p, id, m, to);
    assert Shape(s');
    forall x, j | 0 <= x < |s'.messages| && At(s'.messages[x], j, Pending)
      ensures s'.main.FanOut? && s'.main.id == x && s'.main.next <= j
    {
      assert At(s.messages[x], j, Pending);
    }
  }

  lemma QueueInv(s: State, succeeds: bool)
    requires Inv(s) && Enabled(s, Queue(succeeds))
    ensures Inv(Do(s, Queue(succeeds)))
  {
    var id, i := s.main.id, s.main.next;
    if i < |s.ports| && At(s.messages[id], i, Pending) {
      assert !At(s.messages[id], i, Holding);
      if (s.ports[i].running || !s.main.skipFinished) && succeeds {
        EnqueueInv(s, i, id);
      } else {
        LoseInv(s, i, id);
      }
    }
  }

  lemma EnqueueInv(s: State, i: nat, id: nat)
    requires Inv(s) && s.main.FanOut? && s.main.id == id && s.main.next == i < |s.ports|
    requires At(s.messages[id], i, Pending) && id !in Held(s.ports[i])
    ensures Inv(State(s.messages[id := Move(s.messages[id], i, Holding)],
      s.ports[i := s.ports[i].(queue := s.ports[i].queue + [id])], s.main.(next := i + 1)))
  {
    var m, p := Move(s.messages[id], i, Holding), s.ports[i].(queue := s.ports[i].queue + [id]);
    MoveCounted(s.messages[id], i, Holding);
    assert Held(p) == Held(s.ports[i]) + [id];
    UpdateInv(s, State(s.messages[id := m], s.ports[i := p], s.main.(next := i + 1)), i, p, id, m, Holding);
  }

  lemma LoseInv(s: State, i: nat, id: nat)
    requires Inv(s) && s.main.FanOut? && s.main.id == id && s.main.next == i < |s.ports|
    requires At(s.messages[id], i, Pending) && id !in Held(s.ports[i])
    ensures Inv(State(s.messages[id := Move(s.messages[id], i, Lost)], s.ports, s.main.(next := i + 1)))
  {
    var m := Move(s.messages[id], i, Lost);
    MoveCounted(s.messages[id], i, Lost);
    assert s.ports[i := s.ports[i]] == s.ports;
    UpdateInv(s, State(s.messages[id := m], s.ports, s.main.(next := i + 1)), i, s.ports[i], id, m, Lost);
  }

  lemma ReceiveInv(s: State, i: nat)
    requires Inv(s) && Enabled(s, Receive(i))
    ensures Inv(Do(s, Receive(i)))
  {
    assert Held(Do(s, Receive(i)).ports[i]) == Held(s.ports[i]);
  }

  lemma DropFirst(s: seq<nat>)
    requires s != [] && NoRepeats(s)
    ensures NoRepeats(s[1..]) && forall x :: x in s[1..] <==> x in s && x != s[0]
  {
    assert s == [s[0]] + s[1..];
  }

  lemma GiveBackInv(s: State, i: nat)
    requires Inv(s) && Enabled(s, GiveBack(i))
    ensures Inv(Do(s, GiveBack(i)))
  {
    var s' := Do(s, GiveBack(i));
    var id := Held(s.ports[i])[0];
    var held := Held(s.ports[i]);
    assert held[0] == id && id in held && Held(s'.ports[i]) == held[1..];
    DropFirst(held);
    CheckDataCounted(s.messages[id], i);
    UpdateInv(s, s', i, s'.ports[i], id, s'.messages[id], Done);
  }

  lemma StepInv(s: State, e: Event)
    requires Inv(s) && Enabled(s, e)
    requires e.Begin? ==> |PlanPorts(|s.ports|, e.plan)| <= 256
    ensures Inv(Do(s, e)) && |Do(s, e).ports| == |s.ports|
  {
    match e {
      case Begin(plan) => BeginInv(s, plan);
      case Queue(succeeds) => QueueInv(s, succeeds);
      case Receive(i) => ReceiveInv(s, i);
      case GiveBack(i) => GiveBackInv(s, i);
      case Finish(i) => assert Held(Do(s, e).ports[i]) == Held(s.ports[i]);
    }
  }

  // ---------------------------------------------------------------------------------
  // Whole runs
  // ---------------------------------------------------------------------------------

  /** Some interleaving of these events leads from start-up with n ports to s. */
  ghost predicate Reaches(n: nat, s: State, events: seq<Event>)
    decreases |events|
  {
    if events == [] then s == Start(n)
    else
      var e := events[|events| - 1];
      exists p :: Reaches(n, p, events[..|events| - 1]) && Shape(p) && Enabled(p, e) && s == Do(p, e)
  }

  /** Every fan-out has at most 256 recipients, which is so whenever there are at most 256 ports. */
  ghost predicate Bounded(n: nat, events: seq<Event>) {
    forall k :: 0 <= k < |events| && events[k].Begin? ==> |PlanPorts(n, events[k].plan)| <= 256
  }

  lemma {:induction false} ReachableInv(n: nat, s: State, events: seq<Event>)
    requires Reaches(n, s, events) && Bounded(n, events)
    ensures Inv(s) && |s.ports| == n
    decreases |events|
  {
    if events != [] {
      var e := events[|events| - 1];
      var p :| Reaches(n, p, events[..|events| - 1]) && Shape(p) && Enabled(p, e) && s == Do(p, e);
      ReachableInv(n, p, events[..|events| - 1]);
      StepInv(p, e);
    }
  }

  /** In every interleaving: a message that a port has queued or is sending, or that the main loop has yet to queue,
      has not been freed; no message is freed twice; and a message is freed exactly when there are recipients and all
      of them have given it back. */
  lemma NeverFreedInUse(n: nat, s: State, events: seq<Event>, id: nat)
    requires Reaches(n, s, events) && Bounded(n, events) && id < |s.messages|
    ensures var m := s.messages[id];
            && (forall i :: 0 <= i < |s.ports| && (id in s.ports[i].queue || id in s.ports[i].sending) ==> m.live)
            && (forall i :: At(m, i, Pending) ==> m.live)
            && m.frees <= 1 && (m.frees == 1 <==> !m.live)
            && (m.frees == 1 <==> m.place.Keys != {} && forall i :: i in m.place ==> m.place[i] == Done)
  {
    ReachableInv(n, s, events);
    var m := s.messages[id];
    AllDone(m);
    forall i | 0 <= i < |s.ports| && (id in s.ports[i].queue || id in s.ports[i].sending) ensures m.live {
      assert id in Held(s.ports[i]);
      assert At(m, i, Holding);
    }
  }

  /** A counted message is freed exactly when it has recipients and they are all done. */
  lemma AllDone(m: Message)
    requires Counted(m)
    ensures m.frees == 1 <==> m.place.Keys != {} && forall i :: i in m.place ==> m.place[i] == Done
  {
    SubsetSize(Returned(m), m.place.Keys);
    if forall i :: i in m.place ==> m.place[i] == Done {
      assert Returned(m) == m.place.Keys;
    } else {
      var i :| i in m.place && m.place[i] != Done;
      assert i !in Returned(m);
    }
  }

  predicate Orderly(e: Event) { !e.Finish? && (e.Queue? ==> e.succeeds) }

  ghost predicate NoneLost(m: Message) { forall i :: !At(m, i, Lost) }

  ghost predicate Tidy(s: State) {
    && (forall i :: 0 <= i < |s.ports| ==> s.ports[i].running)
    && (forall id :: 0 <= id < |s.messages| ==> NoneLost(s.messages[id]))
  }

  lemma MoveNoneLost(m: Message, i: nat, m': Message, to: Place)
    requires m'.place == m.place[i := to] && to != Lost && NoneLost(m)
    ensures NoneLost(m')
  {
    forall j ensures !At(m', j, Lost) {
      assert !At(m, j, Lost);
    }
  }

  lemma StepTidy(s: State, e: Event)
    requires Shape(s) && Enabled(s, e) && Tidy(s) && Orderly(e)
    ensures Tidy(Do(s, e))
  {
    var s' := Do(s, e);
    match e {
      case Begin(plan) =>
        assert NoneLost(s'.messages[|s.messages|]);
      case Queue(_) =>
        var id, i := s.main.id, s.main.next;
        if i < |s.ports| && At(s.messages[id], i, Pending) {
          MoveNoneLost(s.messages[id], i, s'.messages[id], Holding);
        }
      case Receive(_) =>
      case GiveBack(i) =>
        var id := Held(s.ports[i])[0];
        assert id in Held(s.ports[i]);
        MoveNoneLost(s.messages[id], i, s'.messages[id], Done);
      case Finish(_) =>
    }
  }

  lemma {:induction false} NothingLost(n: nat, s: State, events: seq<Event>)
    requires Reaches(n, s, events) && forall k :: 0 <= k < |events| ==> Orderly(events[k])
    ensures Tidy(s)
    decreases |events|
  {
    if events != [] {
      var front, e := events[..|events| - 1], events[|events| - 1];
      var p :| Reaches(n, p, front) && Shape(p) && Enabled(p, e) && s == Do(p, e);
      NothingLost(n, p, front);
      StepTidy(p, e);
    }
  }

  /** When all ports run and all sends succeed, a message with recipients is freed exactly once, and that is as soon as
      nobody holds it or has yet to get it. */
  lemma FreedExactlyOnce(n: nat, s: State, events: seq<Event>, id: nat)
    requires Reaches(n, s, events) && Bounded(n, events)
    requires forall k :: 0 <= k < |events| ==> Orderly(events[k])
    requires id < |s.messages| && s.messages[id].place.Keys != {}
    ensures var m := s.messages[id];
            m.frees == 1 <==> forall i :: 0 <= i < |s.ports| ==> !At(m, i, Pending) && id !in Held(s.ports[i])
  {
    ReachableInv(n, s, events);
    NothingLost(n, s, events);
    var m := s.messages[id];
    AllDone(m);
    forall i | i in m.place ensures m.place[i] == Done <==> !At(m, i, Pending) && id !in Held(s.ports[i]) {
      assert !At(m, i, Lost);
      assert id in Held(s.ports[i]) <==> At(m, i, Holding);
    }
  }

  // ---------------------------------------------------------------------------------
  // Who gets a message, and in which order
  // ---------------------------------------------------------------------------------

  /** The plans of the messages that a run has begun, in order. */
  function Plans(events: seq<Event>): seq<Plan>
    decreases |events|
  {
    if events == [] then []
    else
      var e := events[|events| - 1];
      Plans(events[..|events| - 1]) + if e.Begin? then [e.plan] else []
  }

  /** A message to one port is for that port alone, one to all but the origin for all others, one to all for all. */
  predicate MeantFor(n: nat, plan: Plan, i: nat) {
    i < n && (plan.One? ==> i == plan.port) && (plan.AllBut? ==> i != plan.origin)
  }

  ghost predicate GoesTo(m: Message, n: nat, plan: Plan) {
    forall i: nat :: i in m.place <==> MeantFor(n, plan, i)
  }

  ghost predicate AllGoTo(s: State, n: nat, plans: seq<Plan>) {
    |s.messages| == |plans| && forall id :: 0 <= id < |plans| ==> GoesTo(s.messages[id], n, plans[id])
  }

  lemma {:induction false} PlansFollowed(n: nat, s: State, events: seq<Event>)
    requires Reaches(n, s, events) && Bounded(n, events)
    ensures AllGoTo(s, n, Plans(events))
    decreases |events|
  {
    if events != [] {
      var front, e := events[..|events| - 1], events[|events| - 1];
      var p :| Reaches(n, p, front) && Shape(p) && Enabled(p, e) && s == Do(p, e);
      assert Bounded(n, front);
      PlansFollowed(n, p, front);
      ReachableInv(n, p, front);
      PlansStep(n, p, e, Plans(front));
    }
  }

  lemma PlansStep(n: nat, s: State, e: Event, plans: seq<Plan>)
    requires Inv(s) && |s.ports| == n && Enabled(s, e) && AllGoTo(s, n, plans)
    ensures AllGoTo(Do(s, e), n, plans + if e.Begin? then [e.plan] else [])
  {
    var s' := Do(s, e);
    MessagesKept(s, e);
    forall id | 0 <= id < |plans| ensures GoesTo(s'.messages[id], n, plans[id]) {
      PlacesKept(s, e, id);
      assert GoesTo(s.messages[id], n, plans[id]);
      assert forall i: nat :: i in s'.messages[id].place.Keys <==> i in s.messages[id].place.Keys;
    }
    if e.Begin? {
      assert s'.messages[|plans|].place.Keys == PlanPorts(n, e.plan);
      assert GoesTo(s'.messages[|plans|], n, e.plan);
    }
  }

  /** In every run, the ports that a message is for are exactly those, and no other port ever has it. */
  lemma RecipientsExact(n: nat, s: State, events: seq<Event>, id: nat, i: nat)
    requires Reaches(n, s, events) && Bounded(n, events) && id < |s.messages|
    ensures |s.messages| == |Plans(events)|
    ensures i in s.messages[id].place <==> MeantFor(n, Plans(events)[id], i)
    ensures i < |s.ports| && id in Held(s.ports[i]) ==> MeantFor(n, Plans(events)[id], i)
  {
    ReachableInv(n, s, events);
    PlansFollowed(n, s, events);
    assert GoesTo(s.messages[id], n, Plans(events)[id]);
    assert i < |s.ports| ==> (id in Held(s.ports[i]) <==> At(s.messages[id], i, Holding));
  }

  lemma MessagesKept(s: State, e: Event)
    requires Inv(s) && Enabled(s, e)
    ensures |Do(s, e).messages| == |s.messages| + (if e.Begin? then 1 else 0) && |Do(s, e).ports| == |s.ports|
  {
    match e {
      case GiveBack(i) => assert Held(s.ports[i])[0] in Held(s.ports[i]);
      case _ =>
    }
  }

  lemma PlacesKept(s: State, e: Event, id: nat)
    requires Inv(s) && Enabled(s, e) && id < |s.messages|
    ensures |Do(s, e).messages| >= |s.messages|
    ensures Do(s, e).messages[id].place.Keys == s.messages[id].place.Keys
  {
    if e.GiveBack? {
      var held := Held(s.ports[e.port])[0];
      assert held in Held(s.ports[e.port]);
      assert At(s.messages[held], e.port, Holding);
    }
  }

  /** When all ports run and all sends succeed, then once the main loop is done with a message every port that it is for
      has it or has given it back. */
  lemma EveryRecipientServed(n: nat, s: State, events: seq<Event>, id: nat, i: nat)
    requires Reaches(n, s, events) && Bounded(n, events) && forall k :: 0 <= k < |events| ==> Orderly(events[k])
    requires id < |s.messages| && id < |Plans(events)| && MeantFor(n, Plans(events)[id], i)
    requires s.main.FanOut? && s.main.id == id ==> i < s.main.next
    ensures At(s.messages[id], i, Holding) || At(s.messages[id], i, Done)
  {
    ReachableInv(n, s, events);
    NothingLost(n, s, events);
    RecipientsExact(n, s, events, id, i);
    assert NoneLost(s.messages[id]);
    assert i in s.messages[id].place && !At(s.messages[id], i, Lost) && !At(s.messages[id], i, Pending);
  }

  /** Why a recipient may not get a message although all sends succeed: it has finished, and the message was not for it
      alone; a message to a single port is queued there even when that has finished. */
  ghost predicate LostToFinished(s: State, plans: seq<Plan>) {
    && |s.messages| == |plans|
    && (s.main.FanOut? ==> s.main.id == |s.messages| - 1 && s.main.skipFinished == !plans[s.main.id].One?)
    && (forall id :: 0 <= id < |s.messages| ==> LostFinished(s, s.messages[id], plans[id]))
  }

  ghost predicate LostFinished(s: State, m: Message, plan: Plan) {
    forall i: nat :: At(m, i, Lost) ==> i < |s.ports| && !s.ports[i].running && !plan.One?
  }

  lemma {:induction false} LostOnlyIfFinished(n: nat, s: State, events: seq<Event>)
    requires Reaches(n, s, events) && Bounded(n, events)
    requires forall k :: 0 <= k < |events| && events[k].Queue? ==> events[k].succeeds
    ensures LostToFinished(s, Plans(events))
    decreases |events|
  {
    if events != [] {
      var front, e := events[..|events| - 1], events[|events| - 1];
      var p :| Reaches(n, p, front) && Shape(p) && Enabled(p, e) && s == Do(p, e);
      assert Bounded(n, front);
      LostOnlyIfFinished(n, p, front);
      ReachableInv(n, p, front);
      LostStep(p, e, Plans(front), Plans(events));
    }
  }

  lemma LostStep(s: State, e: Event, plans: seq<Plan>, plans': seq<Plan>)
    requires Inv(s) && Enabled(s, e) && LostToFinished(s, plans) && (e.Queue? ==> e.succeeds)
    requires plans' == plans + if e.Begin? then [e.plan] else []
    requires e.Begin? ==> |PlanPorts(|s.ports|, e.plan)| <= 256
    ensures LostToFinished(Do(s, e), plans')
  {
    var s' := Do(s, e);
    MessagesKept(s, e);
    StepInv(s, e);
    assert |s'.messages| == |plans'|;
    forall id | 0 <= id < |s'.messages| ensures LostFinished(s', s'.messages[id], plans'[id]) {
      if id < |s.messages| {
        LostInOne(s, e, plans, id);
      } else {
        assert forall i: nat :: !At(s'.messages[id], i, Lost);
      }
    }
  }

  lemma LostInOne(s: State, e: Event, plans: seq<Plan>, id: nat)
    requires Inv(s) && Enabled(s, e) && LostToFinished(s, plans) && (e.Queue? ==> e.succeeds) && id < |s.messages|
    ensures |Do(s, e).messages| >= |s.messages| && LostFinished(Do(s, e), Do(s, e).messages[id], plans[id])
  {
    MessagesKept(s, e);
    var s', m := Do(s, e), s.messages[id];
    assert LostFinished(s, m, plans[id]);
    forall i: nat | At(s'.messages[id], i, Lost) ensures i < |s'.ports| && !s'.ports[i].running && !plans[id].One? {
      if !At(m, i, Lost) {
        assert s'.messages[id] != m && !e.GiveBack?;
        assert e.Queue? && id == s.main.id && i == s.main.next;
      }
    }
  }

  /** A port that has finished is queued nothing more but messages for it alone. */
  lemma FinishedIsSkipped(n: nat, s: State, events: seq<Event>, e: Event, i: nat, id: nat)
    requires Reaches(n, s, events) && Bounded(n, events) && Shape(s) && Enabled(s, e)
    requires forall k :: 0 <= k < |events| && events[k].Queue? ==> events[k].succeeds
    requires i < |s.ports| && !s.ports[i].running && id !in Held(s.ports[i])
    requires i < |Do(s, e).ports| && id in Held(Do(s, e).ports[i])
    ensures id < |Plans(events)| && Plans(events)[id] == One(i)
  {
    ReachableInv(n, s, events);
    LostOnlyIfFinished(n, s, events);
    QueueAloneAdds(s, e, i);
    assert e.Queue? && id == s.main.id && !s.main.skipFinished;
    RecipientsExact(n, s, events, id, i);
  }

  /** What a port holds grows by the main loop's queueing alone. */
  lemma QueueAloneAdds(s: State, e: Event, i: nat)
    requires Inv(s) && Enabled(s, e) && i < |s.ports|
    ensures i < |Do(s, e).ports|
    ensures forall id :: id in Held(Do(s, e).ports[i]) ==>
              || id in Held(s.ports[i])
              || (e.Queue? && id == s.main.id && (s.ports[i].running || !s.main.skipFinished) &&
                  id < |s.messages| && At(s.messages[id], i, Pending))
  {
    MessagesKept(s, e);
    var p, p' := s.ports[i], Do(s, e).ports[i];
    match e {
      case Receive(j) => assert Held(p') == Held(p);
      case GiveBack(j) => assert p' == p || Held(p') == Held(p)[1..];
      case Finish(j) => assert Held(p') == Held(p);
      case Queue(_) => assert p' == p || Held(p') == Held(p) + [s.main.id];
      case Begin(_) => assert p' == p;
    }
  }

  ghost predicate Ascending(s: seq<nat>) {
    forall a, b :: 0 <= a < b < |s| ==> s[a] < s[b]
  }

  /** Port i has given back every message that it ever gave back before any that it still holds. */
  ghost predicate DoneBefore(s: State, i: nat)
    requires i < |s.ports|
  {
    forall id: nat, later :: id < |s.messages| && At(s.messages[id], i, Done) && later in Held(s.ports[i]) ==>
      id < later
  }

  ghost predicate PortInOrder(s: State, i: nat)
    requires i < |s.ports|
  {
    Ascending(Held(s.ports[i])) && DoneBefore(s, i)
  }

  ghost predicate InOrder(s: State) {
    && (s.main.FanOut? ==> s.main.id == |s.messages| - 1)
    && (forall i :: 0 <= i < |s.ports| ==> PortInOrder(s, i))
  }

  /** A step that changes neither what port i holds nor what it has given back. */
  lemma SameOrder(s: State, s': State, i: nat)
    requires i < |s.ports| == |s'.ports| && PortInOrder(s, i) && Held(s'.ports[i]) == Held(s.ports[i])
    requires forall id: nat :: id < |s'.messages| && At(s'.messages[id], i, Done) ==>
               id < |s.messages| && At(s.messages[id], i, Done)
    ensures PortInOrder(s', i)
  {
  }

  lemma OrderStep(s: State, e: Event)
    requires Inv(s) && Enabled(s, e) && InOrder(s)
    ensures InOrder(Do(s, e))
  {
    var s' := Do(s, e);
    MessagesKept(s, e);
    forall i | 0 <= i < |s'.ports| ensures PortInOrder(s', i) {
      assert PortInOrder(s, i);
      match e {
        case Begin(_) => SameOrder(s, s', i);
        case Queue(_) => QueueOrder(s, e, i);
        case Receive(j) =>
          assert i == j ==> Held(s'.ports[i]) == Held(s.ports[i]);
          SameOrder(s, s', i);
        case GiveBack(j) => GiveBackOrder(s, j, i);
        case Finish(j) =>
          assert i == j ==> Held(s'.ports[i]) == Held(s.ports[i]);
          SameOrder(s, s', i);
      }
    }
  }

  lemma AscendingAppend(s: seq<nat>, x: nat)
    requires Ascending(s) && forall y :: y in s ==> y < x
    ensures Ascending(s + [x])
  {
    forall a, b | 0 <= a < b < |s| + 1 ensures (s + [x])[a] < (s + [x])[b] {
      assert (s + [x])[a] == s[a] && s[a] in s;
    }
  }

  lemma QueueOrder(s: State, e: Event, i: nat)
    requires Inv(s) && e.Queue? && Enabled(s, e) && InOrder(s) && i < |s.ports| && PortInOrder(s, i)
    ensures PortInOrder(Do(s, e), i)
  {
    var s', id := Do(s, e), s.main.id;
    if i == s.main.next && At(s.messages[id], i, Pending) && s'.ports != s.ports {
      var held := Held(s.ports[i]);
      assert Held(s'.ports[i]) == held + [id] && id !in held;
      AscendingAppend(held, id);
    } else {
      SameOrder(s, s', i);
    }
  }

  lemma GiveBackOrder(s: State, i: nat, j: nat)
    requires Inv(s) && Enabled(s, GiveBack(i)) && InOrder(s) && j < |s.ports| && PortInOrder(s, j)
    ensures PortInOrder(Do(s, GiveBack(i)), j)
  {
    var s', held := Do(s, GiveBack(i)), Held(s.ports[i]);
    assert held[0] in held;
    if i == j {
      assert Held(s'.ports[i]) == held[1..];
      TailOrder(s, s', i);
    } else {
      SameOrder(s, s', j);
    }
  }

  lemma TailOrder(s: State, s': State, i: nat)
    requires i < |s.ports| == |s'.ports| && |s.messages| == |s'.messages| && PortInOrder(s, i)
    requires Held(s.ports[i]) != [] && Held(s'.ports[i]) == Held(s.ports[i])[1..]
    requires forall id: nat :: id < |s'.messages| && At(s'.messages[id], i, Done) ==>
               id == Held(s.ports[i])[0] || At(s.messages[id], i, Done)
    ensures PortInOrder(s', i)
  {
    var held := Held(s.ports[i]);
    forall later | later in held[1..] ensures held[0] < later && later in held {
      FirstIsLeast(held, later);
    }
  }

  lemma FirstIsLeast(s: seq<nat>, x: nat)
    requires Ascending(s) && s != [] && x in s[1..]
    ensures s[0] < x && x in s && Ascending(s[1..])
  {
    var b :| 0 <= b < |s[1..]| && s[1..][b] == x;
    assert s[b + 1] == x;
  }

  /** In every interleaving each port sends its messages in the order in which the main loop formed them. */
  lemma {:induction false} FirstInFirstOut(n: nat, s: State, events: seq<Event>)
    requires Reaches(n, s, events) && Bounded(n, events)
    ensures InOrder(s)
    decreases |events|
  {
    if events != [] {
      var front, e := events[..|events| - 1], events[|events| - 1];
      var p :| Reaches(n, p, front) && Shape(p) && Enabled(p, e) && s == Do(p, e);
      assert Bounded(n, front);
      FirstInFirstOut(n, p, front);
      ReachableInv(n, p, front);
      OrderStep(p, e);
    }
  }

  // ---------------------------------------------------------------------------------
  // The bound of 256 recipients is exact
  // ---------------------------------------------------------------------------------

  /** How many references may be given back before the narrowed count of n reaches zero. */
  function UntilZero(n: nat): nat { if n % 256 == 0 then 256 else n % 256 }

  function Partly(n: nat, k: nat): Message
    requires k <= UntilZero(n) <= n
  {
    var freed := k == UntilZero(n);
    Message((n - k) % 256, !freed, if freed then 1 else 0,
            map i: nat | i in PlanPorts(n, All) :: if i < k then Done else Pending)
  }

  /** The state in which the first k of n ports have received and given back a network message that the rest has yet
      to get. */
  function HalfWay(n: nat, k: nat): State
    requires k <= UntilZero(n) <= n
  {
    State([Partly(n, k)], Start(n).ports, FanOut(0, k, true))
  }

  function Rounds(k: nat): seq<Event> {
    if k == 0 then [Begin(All)] else Rounds(k - 1) + [Queue(true)] + [Receive(k - 1)] + [GiveBack(k - 1)]
  }

  lemma ThenStep(n: nat, p: State, events: seq<Event>, e: Event, s: State)
    requires Reaches(n, p, events) && Shape(p) && Enabled(p, e) && s == Do(p, e)
    ensures Reaches(n, s, events + [e])
  {
    assert (events + [e])[..|events|] == events;
  }

  function AfterTurn(m: Message, i: nat): Message {
    CheckData(Move(m, i, Holding), i)
  }

  /** One port's turn: it is sent the message, receives it, and gives it back. */
  lemma OneTurn(n: nat, events: seq<Event>, s: State, i: nat, m: Message)
    requires Reaches(n, s, events)
    requires s.main == FanOut(0, i, true) && i < |s.ports| && |s.messages| == 1 && Shape(s)
    requires s.messages[0] == m && At(m, i, Pending) && s.ports[i] == PortThread([], [], true)
    ensures Reaches(n, State([AfterTurn(m, i)], s.ports, FanOut(0, i + 1, true)),
                    events + [Queue(true)] + [Receive(i)] + [GiveBack(i)])
  {
    var s1 := State([Move(m, i, Holding)], s.ports[i := PortThread([0], [], true)], FanOut(0, i + 1, true));
    var s2 := s1.(ports := s.ports[i := PortThread([], [0], true)]);
    var s3 := State([AfterTurn(m, i)], s.ports, FanOut(0, i + 1, true));
    TurnStates(s, i, m, s1, s2, s3);
    ThenStep(n, s, events, Queue(true), s1);
    ThenStep(n, s1, events + [Queue(true)], Receive(i), s2);
    ThenStep(n, s2, events + [Queue(true)] + [Receive(i)], GiveBack(i), s3);
  }

  lemma TurnStates(s: State, i: nat, m: Message, s1: State, s2: State, s3: State)
    requires s.main == FanOut(0, i, true) && i < |s.ports| && |s.messages| == 1 && Shape(s)
    requires s.messages[0] == m && At(m, i, Pending) && s.ports[i] == PortThread([], [], true)
    requires s1 == State([Move(m, i, Holding)], s.ports[i := PortThread([0], [], true)], FanOut(0, i + 1, true))
    requires s2 == s1.(ports := s.ports[i := PortThread([], [0], true)])
    requires s3 == State([AfterTurn(m, i)], s.ports, FanOut(0, i + 1, true))
    ensures Enabled(s, Queue(true)) && Do(s, Queue(true)) == s1
    ensures Shape(s1) && Enabled(s1, Receive(i)) && Do(s1, Receive(i)) == s2
    ensures Shape(s2) && Enabled(s2, GiveBack(i)) && Do(s2, GiveBack(i)) == s3
  {
    assert s.messages[0 := s1.messages[0]] == s1.messages && s.ports[i].queue + [0] == [0];
    assert Held(s1.ports[i]) == [0] && Held(s2.ports[i]) == [0];
    assert s1.ports[i := PortThread([], [0], true)] == s2.ports;
    assert s2.ports[i := PortThread([], [], true)] == s3.ports;
    assert s2.messages[0 := AfterTurn(m, i)] == s3.messages;
  }

  lemma PartlyNext(n: nat, i: nat)
    requires i < UntilZero(n) <= n
    ensures At(Partly(n, i), i, Pending)
    ensures AfterTurn(Partly(n, i), i) == Partly(n, i + 1)
  {
    CountDown(n, i);
    assert AfterTurn(Partly(n, i), i).place == Partly(n, i + 1).place;
  }

  lemma CountDown(n: nat, i: nat)
    requires i < UntilZero(n) <= n
    ensures ((n - i) % 256 + 255) % 256 == (n - (i + 1)) % 256
    ensures (n - (i + 1)) % 256 == 0 <==> i + 1 == UntilZero(n)
  {
  }

  lemma {:induction false} HalfWayReached(n: nat, k: nat)
    requires k <= UntilZero(n) <= n && n > 0
    ensures Reaches(n, HalfWay(n, k), Rounds(k))
  {
    if k == 0 {
      FirstReached(n);
    } else {
      var i := k - 1;
      HalfWayReached(n, i);
      PartlyNext(n, i);
      assert Shape(HalfWay(n, i));
      OneTurn(n, Rounds(i), HalfWay(n, i), i, Partly(n, i));
      assert HalfWay(n, k) == State([AfterTurn(Partly(n, i), i)], HalfWay(n, i).ports, FanOut(0, i + 1, true));
    }
  }

  lemma FirstReached(n: nat)
    requires 0 < UntilZero(n) <= n
    ensures Reaches(n, HalfWay(n, 0), Rounds(0))
  {
    var place := map i | i in PlanPorts(n, All) :: Pending;
    assert place == Partly(n, 0).place;
    ThenStep(n, Start(n), [], Begin(All), HalfWay(n, 0));
    assert [] + [Begin(All)] == Rounds(0);
  }

  /** With more than 256 ports there is a run in which a network message is freed although ports have yet to get it. */
  lemma TooManyRecipients(n: nat)
    requires n > 256
    ensures exists s, events ::
              Reaches(n, s, events) && |s.messages| == 1 && !s.messages[0].live && At(s.messages[0], n - 1, Pending)
  {
    var k := UntilZero(n);
    HalfWayReached(n, k);
    var s, events := HalfWay(n, k), Rounds(k);
    assert n - 1 in PlanPorts(n, All);
    assert Reaches(n, s, events) && |s.messages| == 1 && !s.messages[0].live && At(s.messages[0], n - 1, Pending);
  }

  predicate InUse(m: Message, i: nat) { At(m, i, Pending) || At(m, i, Holding) }

  ghost predicate SafeIn(s: State) {
    forall id, i :: 0 <= id < |s.messages| && InUse(s.messages[id], i) ==> s.messages[id].live
  }

  ghost predicate AlwaysSafe(n: nat) {
    forall s, events :: Reaches(n, s, events) ==> SafeIn(s)
  }

  /** No run with n ports ever frees a message in use, if and only if n is at most 256. */
  lemma SafeExactlyUpTo256(n: nat)
    ensures AlwaysSafe(n) <==> n <= 256
  {
    if n <= 256 {
      forall s, events | Reaches(n, s, events) ensures SafeIn(s) {
        SafeUpTo256(n, s, events);
      }
    } else {
      TooManyRecipients(n);
      var s, events :| Reaches(n, s, events) && |s.messages| == 1 && !s.messages[0].live &&
        At(s.messages[0], n - 1, Pending);
      assert InUse(s.messages[0], n - 1);
      assert !SafeIn(s);
    }
  }

  lemma SafeUpTo256(n: nat, s: State, events: seq<Event>)
    requires n <= 256 && Reaches(n, s, events)
    ensures SafeIn(s)
  {
    forall k | 0 <= k < |events| && events[k].Begin? ensures |PlanPorts(n, events[k].plan)| <= 256 {
      PlanSize(n, All);
      SubsetSize(PlanPorts(n, events[k].plan), PlanPorts(n, All));
    }
    ReachableInv(n, s, events);
    forall id, i | 0 <= id < |s.messages| && InUse(s.messages[id], i) ensures s.messages[id].live {
      AllDone(s.messages[id]);
    }
  }
}
