/**
 That the proxy gets its work done: a measure of what is left to do, which no step raises
 unless it receives something, and which every step of a thread with work to do lowers.
 Hence every schedule in which threads with work keep stepping delivers what was received.
 */
module ProxyProgress {
  import opened Bytes
  import V = Vector
  import opened Proxy

  // ----- what is left to do -----

  /** An entry in the queue of `c`: NULL, a handle for the own network, one to pass on. */
  function Load(e: Option<Handle>, c: Side): nat {
    if e == None then 20 else if e.value.to == c then 40 else 70
  }

  function QueueLoad(items: seq<Option<Handle>>, c: Side): nat {
    if items == [] then 0 else QueueLoad(items[..|items| - 1], c) + Load(items[|items| - 1], c)
  }

  /** What the client is busy with, by how far it has got. */
  function HandLoad(me: Client, c: Side): nat {
    match me.pc
    case Make => 83
    case AppLock => 82
    case AppQ => 81
    case App => 80
    case Unlock => if me.hd == None then 0 else if me.hd.value.to == c then 22 else 64
    case Work => if me.hd == None then 0 else if me.hd.value.to == c then 21 else 63
    case FwdLock => 62
    case FwdQ => 61
    case Fwd => 60
    case _ => 0
  }

  /** How far a client with nothing in hand is from the next entry, if one waits in its queue or in `rmsgq`. */
  function Approach(me: Client, waiting: bool): (r: nat)
    ensures r <= 8
  {
    if me.queue.items == [] && !waiting then 0
    else match me.pc
      case Unlock => if me.hd.Some? then 0 else if me.queue.items != [] then 8 else 4
      case Take => if me.queue.items != [] then 7 else 3
      case AppUnlock => 7
      case FwdUnlock => 7
      case Top => 6
      case Len => 5
      case PopQ => 4
      case Pop => 3
      case RecvQ => 2
      case RecvPop => 1
      case _ => 0
  }

  function ClientLoad(me: Client, c: Side, waiting: bool): nat {
    QueueLoad(me.queue.items, c) + HandLoad(me, c) + Approach(me, waiting)
  }

  function InboxLoad(inbox: Inbox): nat {
    90 * |inbox.queue.items| + match inbox.pc case Recv => 0 case RecvAppQ => 101 case RecvApp => 100
  }

  /** Messages wait in `rmsgq`, which is the business of the MQTT loop. */
  predicate Waiting(inbox: Inbox, c: Side) {
    c == Mqtt && inbox.queue.items != []
  }

  /** What is left to do in the whole proxy. */
  function Left(s: State): nat {
    ClientLoad(s.dds, Dds, Waiting(s.inbox, Dds)) + ClientLoad(s.mqtt, Mqtt, Waiting(s.inbox, Mqtt)) +
    InboxLoad(s.inbox)
  }

  predicate ClientWorks(me: Client, c: Side, waiting: bool) {
    HandLoad(me, c) > 0 || me.queue.items != [] || waiting
  }

  /** The thread has something to do other than to look for the next message. */
  predicate HasWork(s: State, thread: Thread) {
    match thread
    case Receiver => s.inbox.pc != Recv
    case Loop(c) => ClientWorks(Me(s, c), c, Waiting(s.inbox, c))
  }

  // ----- one step -----

  lemma {:induction false} LoadSnoc(items: seq<Option<Handle>>, e: Option<Handle>, c: Side)
    ensures QueueLoad(items + [e], c) == QueueLoad(items, c) + Load(e, c)
  {
    assert (items + [e])[..|items|] == items;
  }

  lemma {:induction false} LoadHead(items: seq<Option<Handle>>, c: Side)
    requires items != []
    ensures QueueLoad(items, c) == Load(items[0], c) + QueueLoad(items[1..], c)
  {
    hide Load;
    if |items| > 1 {
      LoadHead(items[..|items| - 1], c);
      assert items[..|items| - 1][1..] == items[1..][..|items| - 2];
    }
  }

  lemma {:induction false} LoadPop(me: Client, c: Side, w: bool)
    requires Sane(me, c) && Popping(me.pc)
    ensures PopStep(me, c).Some? ==>
              var m := PopStep(me, c).value;
              && ClientLoad(m, c, w) <= ClientLoad(me, c, w)
              && (ClientWorks(me, c, w) ==> ClientLoad(m, c, w) < ClientLoad(me, c, w))
  {
    hide QueueLoad, Owns, Honest, Single, Bounded;
    if me.pc == Pop {
      LoadHead(me.queue.items, c);
    }
  }

  lemma {:induction false} LoadTake(me: Client, c: Side, inbox: Inbox, sample: bool, memory: bool)
    requires Sane(me, c) && Taking(me.pc)
    requires c == Mqtt ==> InboxTidy(inbox, me)
    requires c == Dds ==> me.pc != RecvQ && me.pc != RecvPop
    ensures TakeStep(me, c, inbox, sample, memory).Some? ==>
              var (m, i) := TakeStep(me, c, inbox, sample, memory).value;
              var before := ClientLoad(me, c, Waiting(inbox, c)) + InboxLoad(inbox);
              var after := ClientLoad(m, c, Waiting(i, c)) + InboxLoad(i);
              && m.received >= me.received
              && (m.received == me.received ==>
                    after <= before && (ClientWorks(me, c, Waiting(inbox, c)) ==> after < before))
  {
    hide QueueLoad, Owns, Honest, Single, Bounded;
  }

  lemma {:induction false} LoadAppend(me: Client, c: Side, w: bool)
    requires Sane(me, c) && Appending(me.pc)
    ensures AppendStep(me, c).Some? ==>
              var m := AppendStep(me, c).value;
              && ClientLoad(m, c, w) <= ClientLoad(me, c, w)
              && (ClientWorks(me, c, w) ==> ClientLoad(m, c, w) < ClientLoad(me, c, w))
  {
    hide QueueLoad, Owns, Honest, Single, Bounded;
    LoadSnoc(me.queue.items, me.hd, c);
  }

  lemma {:induction false} LoadWork(me: Client, peer: Client, c: Side, w: bool, v: bool)
    requires Sane(me, c) && !Popping(me.pc) && !Taking(me.pc) && !Appending(me.pc)
    ensures WorkStep(me, peer, c).Some? ==>
              var (m, p) := WorkStep(me, peer, c).value;
              var before := ClientLoad(me, c, w) + ClientLoad(peer, Peer(c), v);
              var after := ClientLoad(m, c, w) + ClientLoad(p, Peer(c), v);
              after <= before && (ClientWorks(me, c, w) ==> after < before)
  {
    hide ClientLoad, ClientWorks, Sane, V.Pushed;
    if me.pc == Fwd {
      LoadForward(me, peer, c, w, v);
    } else if WorkStep(me, peer, c).Some? {
      LoadWorker(me, peer, c, w);
      SameLoad(peer, WorkStep(me, peer, c).value.1, Peer(c), v);
    }
  }

  /** Locks do not matter to the load. */
  lemma {:induction false} SameLoad(me: Client, m: Client, c: Side, w: bool)
    requires m.pc == me.pc && m.hd == me.hd && m.queue == me.queue
    ensures ClientLoad(m, c, w) == ClientLoad(me, c, w)
  {
  }

  lemma {:induction false} LoadWorker(me: Client, peer: Client, c: Side, w: bool)
    requires Sane(me, c) && !Popping(me.pc) && !Taking(me.pc) && !Appending(me.pc) && me.pc != Fwd
    ensures WorkStep(me, peer, c).Some? ==>
              var m := WorkStep(me, peer, c).value.0;
              && ClientLoad(m, c, w) <= ClientLoad(me, c, w)
              && (ClientWorks(me, c, w) ==> ClientLoad(m, c, w) < ClientLoad(me, c, w))
  {
    hide QueueLoad, Owns, Honest, Single, Bounded;
  }

  /** A handle goes into the other client's queue, or is lost there. */
  lemma {:induction false} LoadForward(me: Client, peer: Client, c: Side, w: bool, v: bool)
    requires Sane(me, c) && me.pc == Fwd
    ensures var (m, p) := WorkStep(me, peer, c).value;
            ClientLoad(m, c, w) + ClientLoad(p, Peer(c), v) < ClientLoad(me, c, w) + ClientLoad(peer, Peer(c), v)
  {
    hide QueueLoad, Owns, Honest, Single, Bounded, Approach;
    LoadSnoc(peer.queue.items, me.hd, Peer(c));
  }

  /** A step that receives nothing leaves no more to do, and less if the thread had work. */
  lemma {:induction false} LeftStep(s: State, a: Action)
    requires Inv(s) && Exec(s, a).Some?
    ensures var t := Exec(s, a).value;
            && Total(t) >= Total(s)
            && (Total(t) == Total(s) ==> Left(t) <= Left(s) && (HasWork(s, a.thread) ==> Left(t) < Left(s)))
  {
    hide Inv, ExecLoop, ExecReceiver, Left, ClientWorks;
    match a.thread {
      case Receiver => LeftReceiver(s);
      case Loop(c) => LeftLoop(s, c, a.sample, a.memory);
    }
  }

  lemma {:induction false} LeftReceiver(s: State)
    requires ExecReceiver(s).Some?
    ensures var t := ExecReceiver(s).value;
            && Total(t) >= Total(s)
            && (Total(t) == Total(s) ==> s.inbox.pc != Recv && Left(t) < Left(s))
  {
    hide QueueLoad, HandLoad, Load;
  }

  lemma {:induction false} LeftOf(s: State, c: Side)
    ensures Left(s) ==
            ClientLoad(Me(s, c), c, Waiting(s.inbox, c)) +
            ClientLoad(Me(s, Peer(c)), Peer(c), Waiting(s.inbox, Peer(c))) + InboxLoad(s.inbox)
    ensures Total(s) == Me(s, c).received + Me(s, Peer(c)).received
  {
    hide ClientLoad, InboxLoad, Waiting;
  }

  lemma {:induction false} LeftLoop(s: State, c: Side, sample: bool, memory: bool)
    requires Inv(s) && ExecLoop(s, c, sample, memory).Some?
    ensures var t := ExecLoop(s, c, sample, memory).value;
            && Total(t) >= Total(s)
            && (Total(t) == Total(s) ==>
                  && Left(t) <= Left(s)
                  && (ClientWorks(Me(s, c), c, Waiting(s.inbox, c)) ==> Left(t) < Left(s)))
  {
    hide Inv, Sane, Locks, Flows, InboxTidy, PopStep, TakeStep, AppendStep, WorkStep, TakeLoses, AppendLoses,
      WorkLoses, Left, Total, ClientLoad, InboxLoad, ClientWorks, Waiting;
    InvParts(s, c);
    var me, peer, t := Me(s, c), Me(s, Peer(c)), ExecLoop(s, c, sample, memory).value;
    LeftOf(s, c);
    LeftOf(t, c);
    var w, v := Waiting(s.inbox, c), Waiting(s.inbox, Peer(c));
    if Popping(me.pc) {
      LoadPop(me, c, w);
      FlowPop(me, c);
    } else if Taking(me.pc) {
      LoadTake(me, c, s.inbox, sample, memory);
      TakeKeepsInbox(me, c, s.inbox, sample, memory);
      OnlyMqttWaits(s.inbox, t.inbox, c);
    } else if Appending(me.pc) {
      LoadAppend(me, c, w);
      FlowAppend(me, c);
    } else {
      LoadWork(me, peer, c, w, v);
      FlowWork(me, peer, c);
    }
  }

  lemma {:induction false} OnlyMqttWaits(i: Inbox, k: Inbox, c: Side)
    ensures c == Mqtt ==> Waiting(i, Peer(c)) == Waiting(k, Peer(c))
  {
  }

  // ----- when nothing is left -----

  lemma {:induction false} LoadIs(items: seq<Option<Handle>>, c: Side)
    ensures 20 * |items| <= QueueLoad(items, c) <= 70 * |items|
  {
    if items != [] {
      LoadIs(items[..|items| - 1], c);
    }
  }

  /** Nothing is left to do exactly when no thread has work. */
  lemma {:induction false} LeftIff(s: State)
    ensures Left(s) == 0 <==> !HasWork(s, Loop(Dds)) && !HasWork(s, Loop(Mqtt)) && !HasWork(s, Receiver)
  {
    hide QueueLoad, HandLoad, Load;
    LoadIs(s.dds.queue.items, Dds);
    LoadIs(s.mqtt.queue.items, Mqtt);
  }

  lemma {:induction false} Bare(me: Client, c: Side, w: bool)
    requires Sane(me, c) && !ClientWorks(me, c, w)
    ensures Incoming(me, c) == me.sent && Outgoing(me, c) == [] && !w
  {
    hide Owns, Honest, Single, Bounded;
    assert me.hd == None && me.msg == None;
    assert me.sent + [] + [] == me.sent;
  }

  lemma {:induction false} SettledIsQuiet(s: State)
    requires Inv(s) && Left(s) == 0
    ensures Quiet(s)
  {
    hide Inv, Left, Sane, Incoming, Outgoing, ClientWorks, Locks, Flows;
    LeftIff(s);
    InvParts(s, Mqtt);
    Bare(s.dds, Dds, Waiting(s.inbox, Dds));
    Bare(s.mqtt, Mqtt, Waiting(s.inbox, Mqtt));
    EmptyInbox(s.inbox, s.mqtt);
    assert s.mqtt.sent + [] + [] == s.mqtt.sent && s.dds.sent + [] + [] == s.dds.sent;
  }

  lemma {:induction false} EmptyInbox(inbox: Inbox, mqtt: Client)
    requires InboxTidy(inbox, mqtt) && inbox.pc == Recv && inbox.queue.items == []
    ensures Inboxed(inbox) == []
  {
  }

  /** However full the queues are. */
  lemma {:induction false} LeftBound(s: State)
    requires Inv(s)
    ensures Left(s) <= 8000
  {
    hide QueueLoad, HandLoad, Load, Flows, Locks, Tidy, Single, Approach;
    LoadIs(s.dds.queue.items, Dds);
    LoadIs(s.mqtt.queue.items, Mqtt);
    HandBound(s.dds, Dds);
    HandBound(s.mqtt, Mqtt);
  }

  lemma {:induction false} HandBound(me: Client, c: Side)
    ensures HandLoad(me, c) <= 83
  {
  }

  // ----- continuing a run -----

  /** What becomes of a state, if every action is possible. */
  function After(s: State, actions: seq<Action>): Option<State> {
    if actions == [] then Some(s)
    else match After(s, actions[..|actions| - 1])
      case None => None
      case Some(t) => Exec(t, actions[|actions| - 1])
  }

  lemma {:induction false} RunOn(before: seq<Action>, actions: seq<Action>)
    requires Run(before).Some?
    ensures Run(before + actions) == After(Run(before).value, actions)
  {
    hide Run, Exec;
    if actions == [] {
      assert before + [] == before;
    } else {
      var init, last := actions[..|actions| - 1], actions[|actions| - 1];
      RunOn(before, init);
      assert before + actions == before + init + [last];
      RunSnoc(before + init, last);
    }
  }

  lemma {:induction false} AfterSnoc(s: State, actions: seq<Action>, a: Action)
    ensures After(s, actions + [a]) == match After(s, actions) case None => None case Some(t) => Exec(t, a)
  {
    assert (actions + [a])[..|actions|] == actions;
  }

  lemma {:induction false} AfterBoth(s: State, a: seq<Action>, b: seq<Action>)
    ensures After(s, a + b) == match After(s, a) case None => None case Some(t) => After(t, b)
  {
    hide Exec;
    if b == [] {
      assert a + b == a;
    } else {
      var init, last := b[..|b| - 1], b[|b| - 1];
      AfterBoth(s, a, init);
      assert a + b == a + init + [last];
      AfterSnoc(s, a + init, last);
    }
  }

  /** A thread steps. */
  predicate Steps(actions: seq<Action>, thread: Thread) {
    exists k | 0 <= k < |actions| :: actions[k].thread == thread
  }

  lemma {:induction false} InvAfter(s: State, actions: seq<Action>)
    requires Inv(s) && After(s, actions).Some?
    ensures Inv(After(s, actions).value) && Total(After(s, actions).value) >= Total(s)
  {
    hide Inv, Exec, Total, Left, HasWork;
    if actions != [] {
      InvAfter(s, actions[..|actions| - 1]);
      var u := After(s, actions[..|actions| - 1]).value;
      InvStep(u, actions[|actions| - 1]);
      LeftStep(u, actions[|actions| - 1]);
    }
  }

  /** Only a thread's own steps can do its work. */
  lemma {:induction false} WorkWaits(s: State, a: Action, thread: Thread)
    requires Inv(s) && Exec(s, a).Some? && HasWork(s, thread) && a.thread != thread
    ensures HasWork(Exec(s, a).value, thread)
  {
    hide Inv, ExecReceiver, PopStep, TakeStep, AppendStep, WorkStep, TakeLoses, AppendLoses, WorkLoses, ClientWorks,
      Waiting;
    var t := Exec(s, a).value;
    match a.thread {
      case Receiver => ReceiverLeaves(s);
      case Loop(d) => LoopLeaves(s, d, a.sample, a.memory);
    }
    match thread {
      case Receiver =>
      case Loop(c) => StillWorks(Me(s, c), Me(t, c), c, s.inbox, t.inbox);
    }
  }

  lemma {:induction false} StillWorks(me: Client, m: Client, c: Side, i: Inbox, k: Inbox)
    requires ClientWorks(me, c, Waiting(i, c)) && m.pc == me.pc && m.hd == me.hd
    requires me.queue.items <= m.queue.items && (c == Mqtt ==> i.queue.items <= k.queue.items)
    ensures ClientWorks(m, c, Waiting(k, c))
  {
  }

  lemma {:induction false} ReceiverLeaves(s: State)
    requires ExecReceiver(s).Some?
    ensures var t := ExecReceiver(s).value;
            && t.dds == s.dds && t.mqtt == s.mqtt.(received := t.mqtt.received)
            && s.inbox.queue.items <= t.inbox.queue.items
  {
  }

  lemma {:induction false} LoopLeaves(s: State, c: Side, sample: bool, memory: bool)
    requires Inv(s) && ExecLoop(s, c, sample, memory).Some?
    ensures var t := ExecLoop(s, c, sample, memory).value;
            var peer, p := Me(s, Peer(c)), Me(t, Peer(c));
            && p.pc == peer.pc && p.hd == peer.hd && peer.queue.items <= p.queue.items
            && t.inbox.pc == s.inbox.pc && (c == Dds ==> t.inbox == s.inbox)
  {
    hide Inv, PopStep, TakeStep, AppendStep, WorkStep, TakeLoses, AppendLoses, WorkLoses;
    var me, peer := Me(s, c), Me(s, Peer(c));
    if Popping(me.pc) || Appending(me.pc) {
    } else if Taking(me.pc) {
      InvParts(s, c);
      TakeLeaves(me, c, s.inbox, sample, memory);
    } else {
      WorkLeaves(me, peer, c);
    }
  }

  lemma {:induction false} TakeLeaves(me: Client, c: Side, inbox: Inbox, sample: bool, memory: bool)
    requires TakeStep(me, c, inbox, sample, memory).Some? && (c == Dds ==> me.pc != RecvQ && me.pc != RecvPop)
    ensures var i := TakeStep(me, c, inbox, sample, memory).value.1; i.pc == inbox.pc && (c == Dds ==> i == inbox)
  {
    hide V.Popped;
  }

  lemma {:induction false} WorkLeaves(me: Client, peer: Client, c: Side)
    requires WorkStep(me, peer, c).Some?
    ensures var p := WorkStep(me, peer, c).value.1;
            p.pc == peer.pc && p.hd == peer.hd && peer.queue.items <= p.queue.items
  {
  }

  /** Work that is there at the start is there until the thread steps. */
  lemma {:induction false} WorkWaitsOn(s: State, actions: seq<Action>, thread: Thread)
    requires Inv(s) && After(s, actions).Some? && HasWork(s, thread) && !Steps(actions, thread)
    ensures HasWork(After(s, actions).value, thread)
  {
    hide Inv, Exec, HasWork;
    if actions != [] {
      var init, last := actions[..|actions| - 1], actions[|actions| - 1];
      NoStep(actions, thread);
      WorkWaitsOn(s, init, thread);
      InvAfter(s, init);
      WorkWaits(After(s, init).value, last, thread);
    }
  }

  lemma {:induction false} NoStep(actions: seq<Action>, thread: Thread)
    requires actions != []
    ensures var init, last := actions[..|actions| - 1], actions[|actions| - 1];
            Steps(actions, thread) <==> Steps(init, thread) || last.thread == thread
  {
    var init := actions[..|actions| - 1];
    if Steps(init, thread) {
      var k :| 0 <= k < |init| && init[k].thread == thread;
      assert actions[k].thread == thread;
    }
    if Steps(actions, thread) {
      var k :| 0 <= k < |actions| && actions[k].thread == thread;
      assert k < |init| ==> init[k].thread == thread;
    }
  }

  /**
   Of a continuation that receives nothing: what is left to do never grows, and it shrinks as
   soon as any thread that had work takes a step.
   */
  lemma {:induction false} LeftFalls(s: State, actions: seq<Action>, thread: Thread)
    requires Inv(s) && After(s, actions).Some? && Total(After(s, actions).value) == Total(s)
    ensures var t := After(s, actions).value;
            Left(t) <= Left(s) && (HasWork(s, thread) && Steps(actions, thread) ==> Left(t) < Left(s))
  {
    hide Inv, Exec, HasWork, Left, Total, Steps;
    if actions != [] {
      var init, last := actions[..|actions| - 1], actions[|actions| - 1];
      var u := After(s, init).value;
      InvAfter(s, init);
      LeftStep(u, last);
      LeftFalls(s, init, thread);
      NoStep(actions, thread);
      if HasWork(s, thread) && !Steps(init, thread) {
        WorkWaitsOn(s, init, thread);
      }
    } else {
      NobodySteps(thread);
    }
  }

  lemma {:induction false} NobodySteps(thread: Thread)
    ensures !Steps([], thread)
  {
  }

  // ----- fair schedules -----

  /** Every thread that has work in `s` takes a step. */
  ghost predicate Fair(s: State, round: seq<Action>) {
    forall thread: Thread | HasWork(s, thread) :: Steps(round, thread)
  }

  function Joined(rounds: seq<seq<Action>>): seq<Action> {
    if rounds == [] then [] else Joined(rounds[..|rounds| - 1]) + rounds[|rounds| - 1]
  }

  /** Each round is fair in the state the rounds before it lead to. */
  ghost predicate AllFair(s: State, rounds: seq<seq<Action>>) {
    rounds == [] ||
    var init := rounds[..|rounds| - 1];
    AllFair(s, init) && After(s, Joined(init)).Some? && Fair(After(s, Joined(init)).value, rounds[|rounds| - 1])
  }

  /** A fair round without receives leaves less to do, unless nothing was left. */
  lemma {:induction false} FairRound(s: State, round: seq<Action>)
    requires Inv(s) && After(s, round).Some? && Total(After(s, round).value) == Total(s) && Fair(s, round)
    ensures Left(After(s, round).value) <= (if Left(s) == 0 then 0 else Left(s) - 1)
  {
    hide Inv, After, HasWork, Left, Total, Steps;
    LeftIff(s);
    LeftFalls(s, round, Loop(Dds));
    LeftFalls(s, round, Loop(Mqtt));
    LeftFalls(s, round, Receiver);
  }

  lemma {:induction false} FairRounds(s: State, rounds: seq<seq<Action>>)
    requires Inv(s) && AllFair(s, rounds) && After(s, Joined(rounds)).Some?
    requires Total(After(s, Joined(rounds)).value) == Total(s)
    ensures Left(After(s, Joined(rounds)).value) <= (if Left(s) <= |rounds| then 0 else Left(s) - |rounds|)
  {
    hide Inv, HasWork, Left, Total, Fair, Exec;
    if rounds != [] {
      var init, last := rounds[..|rounds| - 1], rounds[|rounds| - 1];
      AfterBoth(s, Joined(init), last);
      var u := After(s, Joined(init)).value;
      InvAfter(s, Joined(init));
      InvAfter(u, last);
      FairRounds(s, init);
      FairRound(u, last);
    }
  }

  // ----- there is always a way on -----

  /** How many steps a thread is from releasing the mutexes it holds. */
  function Holding(s: State, thread: Thread): nat {
    match thread
    case Receiver => if s.inbox.pc == RecvApp then 1 else 0
    case Loop(c) =>
      match Me(s, c).pc
      case Len => 4
      case PopQ => 3
      case Pop => 2
      case Unlock => 1
      case RecvPop => 1
      case AppQ => 3
      case App => 2
      case AppUnlock => 1
      case FwdQ => 3
      case Fwd => 2
      case FwdUnlock => 1
      case _ => 0
  }

  /** The step a thread takes when nothing is there to receive. */
  function Plain(thread: Thread): Action {
    Action(thread, false, true)
  }

  lemma {:induction false} PlainSteps(s: State, thread: Thread)
    requires Inv(s) && WaitsFor(s, thread) == None && (thread == Receiver ==> s.inbox.pc != Recv)
    ensures Exec(s, Plain(thread)).Some? && Total(Exec(s, Plain(thread)).value) == Total(s)
  {
    hide Inv, WaitsFor, PopStep, TakeStep, AppendStep, WorkStep, TakeLoses, AppendLoses, WorkLoses, ExecReceiver;
    StepsUnlessWaiting(s, thread);
    match thread {
      case Receiver => ReceivesNothing(s);
      case Loop(c) =>
        InvParts(s, c);
        var me, peer := Me(s, c), Me(s, Peer(c));
        if Popping(me.pc) {
          FlowPop(me, c);
        } else if Taking(me.pc) {
          TakesNothing(me, c, s.inbox);
        } else if Appending(me.pc) {
          FlowAppend(me, c);
        } else {
          FlowWork(me, peer, c);
        }
    }
  }

  lemma {:induction false} ReceivesNothing(s: State)
    requires s.inbox.pc != Recv && ExecReceiver(s).Some?
    ensures var t := ExecReceiver(s).value; t.dds == s.dds && t.mqtt == s.mqtt
  {
  }

  lemma {:induction false} TakesNothing(me: Client, c: Side, inbox: Inbox)
    ensures TakeStep(me, c, inbox, true, true).Some? <==> TakeStep(me, c, inbox, false, true).Some?
    ensures TakeStep(me, c, inbox, false, true).Some? ==>
              TakeStep(me, c, inbox, false, true).value.0.received == me.received
  {
  }

  /** Who waits for whom: for a client's mutex, or for that of `rmsgq`. */
  lemma {:induction false} WaitKinds(s: State, thread: Thread)
    requires Locks(s) && WaitsFor(s, thread).Some?
    ensures var h := WaitsFor(s, thread).value;
            match thread
            case Receiver => s.inbox.pc == RecvAppQ && h == Loop(Mqtt) && s.mqtt.pc == RecvPop
            case Loop(c) =>
              var me, peer := Me(s, c), Me(s, Peer(c));
              || (me.pc == RecvQ && c == Mqtt && h == Receiver && s.inbox.pc == RecvApp)
              || ((me.pc == Top || me.pc == AppLock) && h == Loop(Peer(c)) && InPeer(peer.pc))
              || (me.pc == FwdLock && h == Loop(Peer(c)) && InOwn(peer.pc))
    ensures match thread
            case Receiver => true
            case Loop(c) =>
              var me, peer := Me(s, c), Me(s, Peer(c));
              && (me.pc == Top || me.pc == AppLock ==> me.lock == Some(Loop(Peer(c))))
              && (me.pc == FwdLock ==> peer.lock == Some(Loop(Peer(c))))
  {
  }

  /** A client that holds the other's mutex goes on to release it. */
  lemma {:induction false} ReleasesPeer(me: Client, peer: Client, c: Side)
    requires InPeer(me.pc) && WorkStep(me, peer, c).Some?
    ensures var (m, p) := WorkStep(me, peer, c).value;
            && p.pc == peer.pc && (me.pc == FwdUnlock ==> p.lock == None)
            && (me.pc != FwdUnlock ==> p.lock == peer.lock && m.pc == if me.pc == FwdQ then Fwd else FwdUnlock)
  {
  }

  /** And so does one that holds its own. */
  lemma {:induction false} ReleasesOwn(me: Client, c: Side)
    requires InOwn(me.pc)
    ensures Popping(me.pc) && PopStep(me, c).Some? ==>
              var m := PopStep(me, c).value;
              if me.pc == Unlock then m.lock == None
              else m.lock == me.lock && (m.pc == Unlock || (me.pc != Pop && m.pc == if me.pc == Len then PopQ else Pop))
    ensures Appending(me.pc) && AppendStep(me, c).Some? ==>
              var m := AppendStep(me, c).value;
              if me.pc == AppUnlock then m.lock == None
              else m.lock == me.lock && m.pc == if me.pc == AppQ then App else AppUnlock
  {
  }

  /** From `s` to `t` the thread `h` has released what `thread` waits for, or is closer to doing so. */
  predicate Closer(s: State, t: State, thread: Thread, h: Thread) {
    WaitsFor(t, thread) == None || (WaitsFor(t, thread) == Some(h) && Holding(t, h) < Holding(s, h))
  }

  lemma {:induction false} HolderSteps(s: State, thread: Thread)
    requires Inv(s) && WaitsFor(s, thread).Some?
    ensures var h := WaitsFor(s, thread).value;
            && WaitsFor(s, h) == None && (h == Receiver ==> s.inbox.pc != Recv)
            && Exec(s, Plain(h)).Some? && Total(Exec(s, Plain(h)).value) == Total(s)
  {
    hide Inv, Locks, HoldsAny, ExecLoop, ExecReceiver, Total, InOwn, InPeer;
    InvParts(s, Dds);
    WaitKinds(s, thread);
    WaitsForHolder(s, thread);
    HolderNeverWaits(s, WaitsFor(s, thread).value);
    PlainSteps(s, WaitsFor(s, thread).value);
  }

  /** The holder's next step either releases the mutex or brings it closer to doing so. */
  lemma {:induction false} HolderMoves(s: State, thread: Thread, h: Thread, t: State)
    requires Locks(s) && WaitsFor(s, thread) == Some(h) && Exec(s, Plain(h)) == Some(t)
    ensures Closer(s, t, thread, h)
  {
    hide Locks, ExecLoop, ExecReceiver, WaitsFor, Holding, InOwn, InPeer, Closer;
    WaitKinds(s, thread);
    match thread {
      case Receiver => LeavesInbox(s, t);
      case Loop(c) =>
        if h == Receiver {
          LeavesQueue(s, t);
        } else if Me(s, c).pc == FwdLock {
          LeavesOwn(s, t, c);
        } else {
          LeavesPeer(s, t, c);
        }
    }
  }

  lemma {:induction false} LeavesInbox(s: State, t: State)
    requires s.mqtt.pc == RecvPop && s.inbox.pc == RecvAppQ && ExecLoop(s, Mqtt, false, true) == Some(t)
    ensures Closer(s, t, Receiver, Loop(Mqtt))
  {
    TakenFromInbox(s.mqtt, s.inbox);
  }

  lemma {:induction false} LeavesQueue(s: State, t: State)
    requires s.mqtt.pc == RecvQ && s.inbox.pc == RecvApp && ExecReceiver(s) == Some(t)
    ensures Closer(s, t, Loop(Mqtt), Receiver)
  {
  }

  lemma {:induction false} LeavesPeer(s: State, t: State, c: Side)
    requires (Me(s, c).pc == Top || Me(s, c).pc == AppLock) && InPeer(Me(s, Peer(c)).pc)
    requires Me(s, c).lock == Some(Loop(Peer(c))) && ExecLoop(s, Peer(c), false, true) == Some(t)
    ensures Closer(s, t, Loop(c), Loop(Peer(c)))
  {
    hide WorkStep, WorkLoses;
    ReleasesPeer(Me(s, Peer(c)), Me(s, c), Peer(c));
  }

  lemma {:induction false} LeavesOwn(s: State, t: State, c: Side)
    requires Me(s, c).pc == FwdLock && InOwn(Me(s, Peer(c)).pc)
    requires Me(s, Peer(c)).lock == Some(Loop(Peer(c))) && ExecLoop(s, Peer(c), false, true) == Some(t)
    ensures Closer(s, t, Loop(c), Loop(Peer(c)))
  {
    hide PopStep, AppendStep, AppendLoses;
    ReleasesOwn(Me(s, Peer(c)), Peer(c));
  }

  lemma {:induction false} TakenFromInbox(me: Client, inbox: Inbox)
    requires me.pc == RecvPop
    ensures var i := TakeStep(me, Mqtt, inbox, false, true);
            i.Some? && i.value.1.pc == inbox.pc && i.value.1.qlock == None
  {
  }

  /** A thread can be brought to take a step without anything being received. */
  lemma {:induction false} Reaches(s: State, thread: Thread) returns (actions: seq<Action>)
    requires Inv(s) && (thread == Receiver ==> s.inbox.pc != Recv)
    ensures After(s, actions).Some? && Total(After(s, actions).value) == Total(s) && Steps(actions, thread)
    ensures forall a | a in actions :: a.memory
    decreases if WaitsFor(s, thread).Some? then 1 + Holding(s, WaitsFor(s, thread).value) else 0
  {
    hide Inv, Exec, Total, WaitsFor, Holding, After;
    if WaitsFor(s, thread) == None {
      PlainSteps(s, thread);
      actions := [Plain(thread)];
      JustOne(s, Plain(thread));
      assert actions[0].thread == thread;
    } else {
      var h := WaitsFor(s, thread).value;
      HolderSteps(s, thread);
      var t := Exec(s, Plain(h)).value;
      InvParts(s, Dds);
      HolderMoves(s, thread, h, t);
      InvStep(s, Plain(h));
      InboxWaits(s, Plain(h), thread);
      var rest := Reaches(t, thread);
      JustOne(s, Plain(h));
      AfterBoth(s, [Plain(h)], rest);
      actions := [Plain(h)] + rest;
      StepsLater([Plain(h)], rest, thread);
    }
  }

  lemma {:induction false} JustOne(s: State, a: Action)
    ensures After(s, [a]) == Exec(s, a)
  {
    hide Exec;
    AfterSnoc(s, [], a);
    assert [] + [a] == [a];
  }

  lemma {:induction false} InboxWaits(s: State, a: Action, thread: Thread)
    requires Exec(s, a).Some? && (thread == Receiver ==> a.thread != Receiver && s.inbox.pc != Recv)
    ensures thread == Receiver ==> Exec(s, a).value.inbox.pc != Recv
  {
    hide PopStep, AppendStep, WorkStep;
  }

  lemma {:induction false} StepsLater(a: seq<Action>, b: seq<Action>, thread: Thread)
    ensures Steps(a, thread) || Steps(b, thread) ==> Steps(a + b, thread)
  {
    if Steps(a, thread) {
      var k :| 0 <= k < |a| && a[k].thread == thread;
      assert (a + b)[k].thread == thread;
    } else if Steps(b, thread) {
      var k :| 0 <= k < |b| && b[k].thread == thread;
      assert (a + b)[|a| + k].thread == thread;
    }
  }

  /** From every state the work can be brought to an end without anything being received. */
  lemma {:induction false} Settles(s: State) returns (actions: seq<Action>)
    requires Inv(s)
    ensures After(s, actions).Some? && Total(After(s, actions).value) == Total(s)
    ensures Left(After(s, actions).value) == 0 && Inv(After(s, actions).value)
    ensures forall a | a in actions :: a.memory
    decreases Left(s)
  {
    hide Inv, Exec, Total, Left, ClientWorks, Steps;
    LeftIff(s);
    if Left(s) == 0 {
      actions := [];
    } else {
      var thread := if HasWork(s, Receiver) then Receiver else if HasWork(s, Loop(Dds)) then Loop(Dds) else Loop(Mqtt);
      var first := Reaches(s, thread);
      LeftFalls(s, first, thread);
      InvAfter(s, first);
      var rest := Settles(After(s, first).value);
      AfterBoth(s, first, rest);
      actions := first + rest;
    }
  }

  /** A fair round without receives is always possible. */
  lemma {:induction false} FairRoundExists(s: State) returns (round: seq<Action>)
    requires Inv(s)
    ensures After(s, round).Some? && Total(After(s, round).value) == Total(s) && Fair(s, round)
    ensures forall a | a in round :: a.memory
  {
    hide Inv, Exec, Total, ClientWorks, Steps, After;
    round := [];
    NothingAfter(s);
    round := Include(s, round, Receiver);
    var second := Include(s, round, Loop(Dds));
    StepsKept(round, second);
    round := Include(s, second, Loop(Mqtt));
    StepsKept(second, round);
  }

  lemma {:induction false} NothingAfter(s: State)
    ensures After(s, []) == Some(s)
  {
  }

  lemma {:induction false} StepsKept(a: seq<Action>, b: seq<Action>)
    requires a <= b
    ensures forall thread :: Steps(a, thread) ==> Steps(b, thread)
  {
    forall thread | Steps(a, thread) ensures Steps(b, thread) {
      StepsLater(a, b[|a|..], thread);
      assert a + b[|a|..] == b;
    }
  }

  /** One more thread, if it has work, takes a step in the round. */
  lemma {:induction false} Include(s: State, round: seq<Action>, thread: Thread) returns (longer: seq<Action>)
    requires Inv(s) && After(s, round).Some? && Total(After(s, round).value) == Total(s)
    requires forall a | a in round :: a.memory
    ensures After(s, longer).Some? && Total(After(s, longer).value) == Total(s) && round <= longer
    ensures forall a | a in longer :: a.memory
    ensures HasWork(s, thread) ==> Steps(longer, thread)
  {
    hide Inv, Exec, Total, ClientWorks, Steps, After;
    longer := round;
    if HasWork(s, thread) && !Steps(round, thread) {
      WorkWaitsOn(s, round, thread);
      InvAfter(s, round);
      var more := Reaches(After(s, round).value, thread);
      AfterBoth(s, round, more);
      longer := round + more;
      StepsLater(round, more, thread);
    }
  }

  // ----- the main results -----

  /** After a run that ends quiet and within the budget, each network was sent exactly what came from the other. */
  predicate Exchanged(s: State) {
    && |s.mqtt.sent| == s.dds.received && (forall n | 0 <= n < s.dds.received :: s.mqtt.sent[n] == Msg(Dds, n))
    && |s.dds.sent| == s.mqtt.received && (forall n | 0 <= n < s.mqtt.received :: s.dds.sent[n] == Msg(Mqtt, n))
  }

  lemma {:induction false} QuietExchanges(actions: seq<Action>)
    requires Run(actions).Some? && (forall a | a in actions :: a.memory)
    requires Quiet(Run(actions).value) && Total(Run(actions).value) <= 24
    ensures Exchanged(Run(actions).value)
  {
    hide Run, Path, Total;
    NothingLostWithinBudget(actions, Dds);
    NothingLostWithinBudget(actions, Mqtt);
  }

  /**
   Progress under every fair schedule: after any run, whatever was lost in it, 8000 rounds that
   receive nothing, in each of which every thread that has work takes a step, leave nothing on
   the way.  If at most 24 messages were received and `malloc` did not fail, each network has
   then been sent exactly the messages of the other, in order.
   */
  lemma {:induction false} EveryFairScheduleDelivers(actions: seq<Action>, rounds: seq<seq<Action>>)
    requires Run(actions).Some? && AllFair(Run(actions).value, rounds) && |rounds| >= 8000
    requires Run(actions + Joined(rounds)).Some?
    requires Total(Run(actions + Joined(rounds)).value) == Total(Run(actions).value)
    ensures var s := Run(actions + Joined(rounds)).value;
            && Quiet(s)
            && ((forall a | a in actions + Joined(rounds) :: a.memory) && Total(s) <= 24 ==> Exchanged(s))
  {
    hide Inv, Run, After, Total, Left, AllFair, Joined, Exchanged, Quiet;
    Safe(actions);
    var s := Run(actions).value;
    RunOn(actions, Joined(rounds));
    LeftBound(s);
    FairRounds(s, rounds);
    Safe(actions + Joined(rounds));
    SettledIsQuiet(Run(actions + Joined(rounds)).value);
    if (forall a | a in actions + Joined(rounds) :: a.memory) && Total(s) <= 24 {
      QuietExchanges(actions + Joined(rounds));
    }
  }

  /** Such a round exists after every run, so that the schedule need never stop. */
  lemma {:induction false} EveryRunGoesOn(actions: seq<Action>) returns (round: seq<Action>)
    requires Run(actions).Some?
    ensures Run(actions + round).Some? && Total(Run(actions + round).value) == Total(Run(actions).value)
    ensures Fair(Run(actions).value, round) && forall a | a in round :: a.memory
  {
    hide Inv, Run, After, Total, Fair;
    Safe(actions);
    round := FairRoundExists(Run(actions).value);
    RunOn(actions, round);
  }

  /** From every run some continuation delivers everything that is on the way. */
  lemma {:induction false} EveryRunCanDeliver(actions: seq<Action>) returns (more: seq<Action>)
    requires Run(actions).Some?
    ensures var r := Run(actions + more);
            r.Some? && Total(r.value) == Total(Run(actions).value) && Left(r.value) == 0 && Quiet(r.value)
    ensures forall a | a in more :: a.memory
  {
    hide Inv, Run, After, Total, Left, Quiet;
    Safe(actions);
    more := Settles(Run(actions).value);
    RunOn(actions, more);
    SettledIsQuiet(Run(actions + more).value);
  }

  /**
   Scheduling alone would not do: a loop with nothing to do may go round for ever, and be found
   holding its mutex each time the other one, which wants to pass a handle on, is tried.
   */
  lemma {:induction false} CanBeKeptOut(s: State, c: Side)
    requires Me(s, c).pc == Top && Me(s, c).lock == None && Me(s, c).queue.items == [] && Me(s, c).hd == None
    requires !Waiting(s.inbox, c) && Me(s, Peer(c)).pc == FwdLock
    ensures var p := Plain(Loop(c));
            && After(s, [p]).Some? && !CanStep(After(s, [p]).value, Loop(Peer(c)))
            && After(s, [p] + [p] + [p] + [p]) == Some(s)
  {
    hide After, Exec;
    var p := Plain(Loop(c));
    var me := Me(s, c);
    JustOne(s, p);
    AfterSnoc(s, [p], p);
    AfterSnoc(s, [p] + [p], p);
    AfterSnoc(s, [p] + [p] + [p], p);
    IdleSteps(s, c);
  }

  lemma {:induction false} IdleSteps(s: State, c: Side)
    requires Me(s, c).pc == Top && Me(s, c).lock == None && Me(s, c).queue.items == [] && Me(s, c).hd == None
    requires !Waiting(s.inbox, c) && Me(s, Peer(c)).pc == FwdLock
    ensures var p, me := Plain(Loop(c)), Me(s, c);
            var s1 := With(s, c, me.(pc := Len, lock := Some(Loop(c))));
            var s2 := With(s, c, me.(pc := Unlock, lock := Some(Loop(c))));
            var s3 := With(s, c, me.(pc := Take));
            && Exec(s, p) == Some(s1) && Exec(s1, p) == Some(s2) && Exec(s2, p) == Some(s3) && Exec(s3, p) == Some(s)
            && !CanStep(s1, Loop(Peer(c)))
  {
    IdleTake(s, c);
  }

  lemma {:induction false} IdleTake(s: State, c: Side)
    requires Me(s, c).pc == Top && !Waiting(s.inbox, c)
    ensures Exec(With(s, c, Me(s, c).(pc := Take)), Plain(Loop(c))) == Some(s)
  {
    assert s.lost + {} == s.lost;
  }

  // ----- receiving -----

  /** How far the DDS loop, with an empty queue, is from `dds_take`. */
  function ToTake(pc: Pc): nat {
    if pc == AppUnlock || pc == FwdUnlock then 4 else if pc == Top then 3 else if pc == Len then 2
    else if pc == Unlock then 1 else 0
  }

  lemma {:induction false} SettledDds(s: State)
    requires Inv(s) && Left(s) == 0
    ensures var pc := s.dds.pc;
            pc == AppUnlock || pc == FwdUnlock || pc == Top || pc == Len || pc == Unlock || pc == Take
    ensures s.dds.hd == None && s.dds.queue.items == [] && s.inbox.pc == Recv
  {
    hide Inv, Left, Locks, Flows, Owns, Honest, Single, Bounded;
    LeftIff(s);
    InvParts(s, Dds);
  }

  /** The DDS loop waits, if at all, for the MQTT loop to release its mutex. */
  lemma {:induction false} DdsWaits(s: State)
    requires Inv(s) && Left(s) == 0 && WaitsFor(s, Loop(Dds)).Some?
    ensures WaitsFor(s, Loop(Dds)) == Some(Loop(Mqtt))
    ensures var r := Exec(s, Plain(Loop(Mqtt)));
            && r.Some? && Total(r.value) == Total(s) && r.value.dds.pc == s.dds.pc
            && Closer(s, r.value, Loop(Dds), Loop(Mqtt))
  {
    hide Inv, Exec, Left, WaitsFor, Closer, Locks, Total;
    InvParts(s, Dds);
    SettledDds(s);
    WaitKinds(s, Loop(Dds));
    HolderSteps(s, Loop(Dds));
    HolderMoves(s, Loop(Dds), Loop(Mqtt), Exec(s, Plain(Loop(Mqtt))).value);
    DdsStays(s);
  }

  lemma {:induction false} DdsStays(s: State)
    requires Inv(s)
    ensures Exec(s, Plain(Loop(Mqtt))).Some? ==> Exec(s, Plain(Loop(Mqtt))).value.dds.pc == s.dds.pc
  {
    hide Inv, ExecLoop;
    if Exec(s, Plain(Loop(Mqtt))).Some? {
      LoopLeaves(s, Mqtt, false, true);
    }
  }

  lemma {:induction false} MovesOn(s: State)
    requires s.dds.hd == None && s.dds.queue.items == []
    requires var pc := s.dds.pc; pc == AppUnlock || pc == FwdUnlock || pc == Top || pc == Len || pc == Unlock
    requires Exec(s, Plain(Loop(Dds))).Some?
    ensures ToTake(Exec(s, Plain(Loop(Dds))).value.dds.pc) < ToTake(s.dds.pc)
  {
  }

  /** A settled proxy can be brought to `dds_take` and stays settled. */
  lemma {:induction false} ReachesTake(s: State) returns (actions: seq<Action>)
    requires Inv(s) && Left(s) == 0
    ensures After(s, actions).Some? && Total(After(s, actions).value) == Total(s)
    ensures After(s, actions).value.dds.pc == Take
    ensures forall a | a in actions :: a.memory
    decreases ToTake(s.dds.pc), if WaitsFor(s, Loop(Dds)).Some? then 1 + Holding(s, Loop(Mqtt)) else 0
  {
    hide Inv, Exec, Total, Left, HasWork, WaitsFor, Holding, ToTake;
    if s.dds.pc == Take {
      actions := [];
    } else {
      var a := Plain(if WaitsFor(s, Loop(Dds)) == None then Loop(Dds) else Loop(Mqtt));
      if WaitsFor(s, Loop(Dds)) == None {
        SettledDds(s);
        PlainSteps(s, Loop(Dds));
        MovesOn(s);
      } else {
        DdsWaits(s);
      }
      InvStep(s, a);
      LeftStep(s, a);
      var rest := ReachesTake(Exec(s, a).value);
      JustOne(s, a);
      AfterBoth(s, [a], rest);
      actions := [a] + rest;
    }
  }

  function Received(s: State, c: Side): nat {
    Me(s, c).received
  }

  /** After every run the next message from either network can be received, and nothing else. */
  lemma {:induction false} EveryRunCanReceive(actions: seq<Action>, c: Side) returns (more: seq<Action>)
    requires Run(actions).Some?
    ensures var r := Run(actions + more);
            && r.Some? && Received(r.value, c) == Received(Run(actions).value, c) + 1
            && Received(r.value, Peer(c)) == Received(Run(actions).value, Peer(c))
    ensures forall a | a in more :: a.memory
  {
    hide Inv, Run, After, Total, Left, Quiet, Exec;
    var settle := EveryRunCanDeliver(actions);
    var before := actions + settle;
    Safe(before);
    var s := Run(before).value;
    SettledDds(s);
    var a := Action(if c == Dds then Loop(Dds) else Receiver, true, true);
    var reach := [];
    if c == Dds {
      reach := ReachesTake(s);
    } else {
      NothingAfter(s);
    }
    RunOn(before, reach);
    assert actions + (settle + reach) == before + reach;
    RunSnoc(before + reach, a);
    OneArrives(After(s, reach).value, c);
    more := settle + reach + [a];
    assert actions + more == before + reach + [a];
    SameReceived(actions, settle);
    SameReceived(before, reach);
  }

  /** The two counts never fall, so they stay when their sum does. */
  lemma {:induction false} SameReceived(before: seq<Action>, actions: seq<Action>)
    requires Run(before).Some? && Run(before + actions).Some?
    ensures var s, t := Run(before).value, Run(before + actions).value;
            && Received(t, Dds) >= Received(s, Dds) && Received(t, Mqtt) >= Received(s, Mqtt)
            && Total(s) == Received(s, Dds) + Received(s, Mqtt) && Total(t) == Received(t, Dds) + Received(t, Mqtt)
  {
    hide Run, Exec, Inv;
    if actions == [] {
      assert before + [] == before;
    } else {
      var init, last := actions[..|actions| - 1], actions[|actions| - 1];
      assert before + actions == before + init + [last];
      RunSnoc(before + init, last);
      SameReceived(before, init);
      Safe(before + init);
      CountsGrow(Run(before + init).value, last);
    }
  }

  lemma {:induction false} CountsGrow(s: State, a: Action)
    requires Inv(s) && Exec(s, a).Some?
    ensures var t := Exec(s, a).value;
            Received(t, Dds) >= Received(s, Dds) && Received(t, Mqtt) >= Received(s, Mqtt)
  {
    hide Inv, ExecLoop, V.Pushed;
    match a.thread {
      case Receiver =>
      case Loop(c) => LoopReceives(s, c, a.sample, a.memory);
    }
  }

  lemma {:induction false} LoopReceives(s: State, c: Side, sample: bool, memory: bool)
    requires Inv(s) && ExecLoop(s, c, sample, memory).Some?
    ensures var t := ExecLoop(s, c, sample, memory).value;
            Me(t, c).received >= Me(s, c).received && Me(t, Peer(c)).received == Me(s, Peer(c)).received
  {
    hide Inv, Sane, Locks, Flows, InboxTidy, PopStep, TakeStep, AppendStep, WorkStep, TakeLoses, AppendLoses, WorkLoses;
    InvParts(s, c);
    var me, peer := Me(s, c), Me(s, Peer(c));
    if Popping(me.pc) {
      FlowPop(me, c);
    } else if Taking(me.pc) {
      LoadTake(me, c, s.inbox, sample, memory);
    } else if Appending(me.pc) {
      FlowAppend(me, c);
    } else {
      FlowWork(me, peer, c);
    }
  }

  lemma {:induction false} OneArrives(s: State, c: Side)
    requires if c == Dds then s.dds.pc == Take else s.inbox.pc == Recv
    ensures var r := Exec(s, Action(if c == Dds then Loop(Dds) else Receiver, true, true));
            && r.Some? && Received(r.value, c) == Received(s, c) + 1
            && Received(r.value, Peer(c)) == Received(s, Peer(c))
  {
  }

  function Count(arrivals: seq<Side>, c: Side): nat {
    if arrivals == [] then 0
    else Count(arrivals[..|arrivals| - 1], c) + if arrivals[|arrivals| - 1] == c then 1 else 0
  }

  lemma {:induction false} Arrive(arrivals: seq<Side>) returns (actions: seq<Action>)
    ensures Run(actions).Some? && forall a | a in actions :: a.memory
    ensures Received(Run(actions).value, Dds) == Count(arrivals, Dds)
    ensures Received(Run(actions).value, Mqtt) == Count(arrivals, Mqtt)
    ensures Count(arrivals, Dds) + Count(arrivals, Mqtt) == |arrivals|
  {
    hide Run, Exec, Inv;
    if arrivals == [] {
      actions := [];
      RunNothing();
    } else {
      var init, last := arrivals[..|arrivals| - 1], arrivals[|arrivals| - 1];
      var before := Arrive(init);
      var more := EveryRunCanReceive(before, last);
      actions := before + more;
    }
  }

  /** Any 24 messages from the two networks, in any order of arrival, can be exchanged in full. */
  lemma {:induction false} AnyTwentyFour(arrivals: seq<Side>) returns (actions: seq<Action>)
    requires |arrivals| <= 24
    ensures Run(actions).Some?
    ensures var s := Run(actions).value;
            s.dds.received == Count(arrivals, Dds) && s.mqtt.received == Count(arrivals, Mqtt) && Exchanged(s)
  {
    hide Run, Exec, Inv, Count, Exchanged, Quiet, Left;
    var before := Arrive(arrivals);
    var more := EveryRunCanDeliver(before);
    actions := before + more;
    SameReceived(before, more);
    QuietExchanges(actions);
  }
}
