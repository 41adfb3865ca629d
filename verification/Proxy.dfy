/**
 The proxy as three threads over three queues: the DDS loop, the MQTT loop and the MQTT
 receive loop.  A step is a lock operation, a read of a shared length or a change of a queue,
 with two kinds of operations taken together: `nftp_vec_pop` tests the length and takes the
 mutex of the queue in one step (PopQ, RecvQ), and a queue is changed and its mutex released
 in one step (Pop, App, Fwd, RecvPop, RecvApp).  Received samples and messages are numbered
 as they arrive; a receive that fails hands on NULL and counts as a message.
 */
module Proxy {
  import opened Bytes
  import opened Vector

  /** The two networks, and the two client loops with their queues. */
  datatype Side = Dds | Mqtt

  function Peer(c: Side): Side {
    if c == Dds then Mqtt else Dds
  }

  /** The `n`th message received from a network. */
  datatype Msg = Msg(origin: Side, n: nat)

  /** struct handle: HANDLE_TO_DDS or HANDLE_TO_MQTT, and the message. */
  datatype Handle = Handle(to: Side, msg: Msg)

  datatype Thread = Loop(c: Side) | Receiver

  /** Where a client loop is. */
  datatype Pc =
    | Top | Len | PopQ | Pop | Unlock
    | Take | RecvQ | RecvPop | Make
    | AppLock | AppQ | App | AppUnlock
    | Work | FwdLock | FwdQ | Fwd | FwdUnlock

  /**
   A client: its thread's position and variables, its queue, the holders of its mutex and of
   its queue's mutex; what it has sent to its network and how much was received from there.
   */
  datatype Client = Client(pc: Pc, hd: Option<Handle>, msg: Option<Msg>, queue: View<Handle>,
                           lock: Option<Thread>, qlock: Option<Thread>, sent: seq<Msg>, received: nat)

  datatype RecvPc = Recv | RecvAppQ | RecvApp

  /** The receive loop, and `rmsgq` with the holder of its mutex. */
  datatype Inbox = Inbox(pc: RecvPc, msg: Option<Msg>, queue: View<Msg>, qlock: Option<Thread>)

  /** `lost` are the messages whose append overflowed or whose handle could not be allocated. */
  datatype State = State(dds: Client, mqtt: Client, inbox: Inbox, lost: set<Msg>)

  function Me(s: State, c: Side): Client {
    if c == Dds then s.dds else s.mqtt
  }

  function With(s: State, c: Side, me: Client): State {
    if c == Dds then s.(dds := me) else s.(mqtt := me)
  }

  function Idle(): Client {
    Client(Top, None, None, Fresh(), None, None, [], 0)
  }

  /** After `mqtt_connect`. */
  function Init(): State {
    State(Idle(), Idle(), Inbox(Recv, None, Fresh(), None), {})
  }

  // ----- steps -----

  /** A thread steps; `sample` says whether a message is there, `memory` whether `malloc` succeeds. */
  datatype Action = Action(thread: Thread, sample: bool, memory: bool)

  function Exec(s: State, a: Action): Option<State> {
    match a.thread
    case Loop(c) => ExecLoop(s, c, a.sample, a.memory)
    case Receiver => ExecReceiver(s)
  }

  /** `mqtt_recv_loop`. */
  function ExecReceiver(s: State): Option<State> {
    var r := s.inbox;
    match r.pc
    case Recv =>
      var msg := Msg(Mqtt, s.mqtt.received);
      Some(s.(inbox := r.(pc := RecvAppQ, msg := Some(msg)), mqtt := s.mqtt.(received := s.mqtt.received + 1)))
    case RecvAppQ =>
      if r.qlock.Some? then None else Some(s.(inbox := r.(pc := RecvApp, qlock := Some(Receiver))))
    case RecvApp =>
      var (rc, queue) := Pushed(r.queue, r.msg, NFTP_TAIL);
      Some(s.(inbox := Inbox(Recv, None, queue, None), lost := s.lost + Dropped(rc, r.msg)))
  }

  /** What an append that reports `rc` loses. */
  function Dropped(rc: Rc, msg: Option<Msg>): set<Msg> {
    if rc == Ok || msg == None then {} else {msg.value}
  }

  function MsgOf(hd: Option<Handle>): Option<Msg> {
    if hd == None then None else Some(hd.value.msg)
  }

  /** The loops of `dds_client` and `mqtt_loop`: one program with the roles exchanged. */
  function ExecLoop(s: State, c: Side, sample: bool, memory: bool): Option<State> {
    var me, peer := Me(s, c), Me(s, Peer(c));
    if Popping(me.pc) then
      match PopStep(me, c)
      case None => None
      case Some(me') => Some(With(s, c, me'))
    else if Taking(me.pc) then
      match TakeStep(me, c, s.inbox, sample, memory)
      case None => None
      case Some((me', inbox)) => Some(With(s.(inbox := inbox, lost := s.lost + TakeLoses(me, memory)), c, me'))
    else if Appending(me.pc) then
      match AppendStep(me, c)
      case None => None
      case Some(me') => Some(With(s.(lost := s.lost + AppendLoses(me)), c, me'))
    else
      match WorkStep(me, peer, c)
      case None => None
      case Some((me', peer')) => Some(With(With(s.(lost := s.lost + WorkLoses(me, peer)), c, me'), Peer(c), peer'))
  }

  predicate Popping(pc: Pc) {
    pc == Top || pc == Len || pc == PopQ || pc == Pop || pc == Unlock
  }

  predicate Taking(pc: Pc) {
    pc == Take || pc == RecvQ || pc == RecvPop || pc == Make
  }

  predicate Appending(pc: Pc) {
    pc == AppLock || pc == AppQ || pc == App || pc == AppUnlock
  }

  /** Taking a handle from the own queue, under the own mutex. */
  function PopStep(me: Client, c: Side): Option<Client> {
    match me.pc
    case Top => if me.lock.Some? then None else Some(me.(pc := Len, hd := None, lock := Some(Loop(c))))
    case Len => Some(me.(pc := if me.queue.items != [] then PopQ else Unlock))
    case PopQ =>
      if me.queue.items == [] then Some(me.(pc := Unlock))
      else if me.qlock.Some? then None
      else Some(me.(pc := Pop, qlock := Some(Loop(c))))
    case Pop =>
      var (rc, queue, hd) := Popped(me.queue, NFTP_HEAD);
      Some(me.(pc := Unlock, queue := queue, hd := hd, qlock := None))
    case _ => Some(me.(pc := if me.hd.Some? then Work else Take, lock := None))
  }

  /** `dds_take`, or `client_recv` on `rmsgq`, whose length is read unlocked; then `mk_handle`. */
  function TakeStep(me: Client, c: Side, inbox: Inbox, sample: bool, memory: bool): Option<(Client, Inbox)> {
    match me.pc
    case Take =>
      if c == Mqtt then Some((me.(pc := if inbox.queue.items != [] then RecvQ else Top), inbox))
      else if !sample then Some((me.(pc := Top), inbox))
      else Some((me.(pc := Make, msg := Some(Msg(Dds, me.received)), received := me.received + 1), inbox))
    case RecvQ =>
      if inbox.queue.items == [] then Some((me.(pc := Make), inbox))
      else if inbox.qlock.Some? then None
      else Some((me.(pc := RecvPop), inbox.(qlock := Some(Loop(c)))))
    case RecvPop =>
      var (rc, queue, msg) := Popped(inbox.queue, NFTP_HEAD);
      Some((me.(pc := Make, msg := msg), inbox.(queue := queue, qlock := None)))
    case _ =>
      var hd := if memory && me.msg.Some? then Some(Handle(Peer(c), me.msg.value)) else None;
      Some((me.(pc := AppLock, hd := hd, msg := None), inbox))
  }

  /** A message whose handle cannot be allocated is lost. */
  function TakeLoses(me: Client, memory: bool): set<Msg> {
    if me.pc == Make && !memory && me.msg.Some? then {me.msg.value} else {}
  }

  /** Putting the new handle, or NULL, into the own queue. */
  function AppendStep(me: Client, c: Side): Option<Client> {
    match me.pc
    case AppLock => if me.lock.Some? then None else Some(me.(pc := AppQ, lock := Some(Loop(c))))
    case AppQ => if me.qlock.Some? then None else Some(me.(pc := App, qlock := Some(Loop(c))))
    case App =>
      var (rc, queue) := Pushed(me.queue, me.hd, NFTP_TAIL);
      Some(me.(pc := AppUnlock, queue := queue, hd := None, qlock := None))
    case _ => Some(me.(pc := Top, lock := None))
  }

  function AppendLoses(me: Client): set<Msg> {
    if me.pc == App then Dropped(Pushed(me.queue, me.hd, NFTP_TAIL).0, MsgOf(me.hd)) else {}
  }

  /** Handling a handle: it goes to the own network, or into the queue of the other client. */
  function WorkStep(me: Client, peer: Client, c: Side): Option<(Client, Client)> {
    match me.pc
    case Work =>
      if me.hd == None then None
      else if me.hd.value.to == c then Some((me.(pc := Top, hd := None, sent := me.sent + [me.hd.value.msg]), peer))
      else Some((me.(pc := FwdLock), peer))
    case FwdLock =>
      if peer.lock.Some? then None else Some((me.(pc := FwdQ), peer.(lock := Some(Loop(c)))))
    case FwdQ =>
      if peer.qlock.Some? then None else Some((me.(pc := Fwd), peer.(qlock := Some(Loop(c)))))
    case Fwd =>
      var (rc, queue) := Pushed(peer.queue, me.hd, NFTP_TAIL);
      Some((me.(pc := FwdUnlock, hd := None), peer.(queue := queue, qlock := None)))
    case _ => Some((me.(pc := Top), peer.(lock := None)))
  }

  function WorkLoses(me: Client, peer: Client): set<Msg> {
    if me.pc == Fwd then Dropped(Pushed(peer.queue, me.hd, NFTP_TAIL).0, MsgOf(me.hd)) else {}
  }

  /** The state after a run, if every action in it was possible. */
  function Run(actions: seq<Action>): Option<State> {
    if actions == [] then Some(Init())
    else match Run(actions[..|actions| - 1])
      case None => None
      case Some(s) => Exec(s, actions[|actions| - 1])
  }

  // ----- who holds which mutex -----

  /** The client holds its own mutex. */
  predicate InOwn(pc: Pc) {
    pc == Len || pc == PopQ || pc == Pop || pc == Unlock || pc == AppQ || pc == App || pc == AppUnlock
  }

  /** The client holds the other's mutex. */
  predicate InPeer(pc: Pc) {
    pc == FwdQ || pc == Fwd || pc == FwdUnlock
  }

  predicate ClientLocks(me: Client, peer: Client, c: Side) {
    && me.lock == (if InOwn(me.pc) then Some(Loop(c)) else if InPeer(peer.pc) then Some(Loop(Peer(c))) else None)
    && !(InOwn(me.pc) && InPeer(peer.pc))
    && me.qlock == (if me.pc == Pop || me.pc == App then Some(Loop(c))
                    else if peer.pc == Fwd then Some(Loop(Peer(c))) else None)
  }

  /** Every mutex is held by exactly the thread that is in a section it guards. */
  predicate Locks(s: State) {
    && ClientLocks(s.dds, s.mqtt, Dds) && ClientLocks(s.mqtt, s.dds, Mqtt)
    && InboxLock(s.inbox, s.mqtt)
    && s.dds.pc != RecvQ && s.dds.pc != RecvPop
  }

  lemma {:induction false} LocksStep(s: State, a: Action)
    requires Locks(s) && Exec(s, a).Some?
    ensures Locks(Exec(s, a).value)
  {
    hide ClientLocks, PopStep, TakeStep, AppendStep, WorkStep, TakeLoses, AppendLoses, WorkLoses, Pushed, Dropped;
    match a.thread {
      case Receiver =>
        ReceivedLocks(s.mqtt, s.dds);
      case Loop(c) =>
        var me, peer := Me(s, c), Me(s, Peer(c));
        if Popping(me.pc) {
          LocksPop(me, peer, c);
        } else if Taking(me.pc) {
          LocksTake(me, peer, c, s.inbox, a.sample, a.memory);
        } else if Appending(me.pc) {
          LocksAppend(me, peer, c);
        } else {
          LocksWork(me, peer, c);
        }
    }
  }

  /** The mutexes of the two clients, and where they wait for messages. */
  predicate BothLocks(me: Client, peer: Client, c: Side) {
    && ClientLocks(me, peer, c) && ClientLocks(peer, me, Peer(c))
    && (c == Dds ==> me.pc != RecvQ && me.pc != RecvPop)
    && (c == Mqtt ==> peer.pc != RecvQ && peer.pc != RecvPop)
  }

  lemma {:induction false} ReceivedLocks(mqtt: Client, dds: Client)
    requires ClientLocks(mqtt, dds, Mqtt) && ClientLocks(dds, mqtt, Dds)
    ensures forall n :: var m := mqtt.(received := n); ClientLocks(m, dds, Mqtt) && ClientLocks(dds, m, Dds)
  {
  }

  lemma {:induction false} LocksPop(me: Client, peer: Client, c: Side)
    requires BothLocks(me, peer, c) && Popping(me.pc)
    ensures PopStep(me, c).Some? ==>
              var m := PopStep(me, c).value;
              BothLocks(m, peer, c) && m.pc != RecvPop
  {
    hide Popped;
  }

  predicate InboxLock(inbox: Inbox, mqtt: Client) {
    && inbox.qlock == (if inbox.pc == RecvApp then Some(Receiver)
                       else if mqtt.pc == RecvPop then Some(Loop(Mqtt)) else None)
    && !(inbox.pc == RecvApp && mqtt.pc == RecvPop)
  }

  lemma {:induction false} LocksTake(me: Client, peer: Client, c: Side, inbox: Inbox, sample: bool, memory: bool)
    requires BothLocks(me, peer, c) && Taking(me.pc) && (c == Mqtt ==> InboxLock(inbox, me))
    ensures TakeStep(me, c, inbox, sample, memory).Some? ==>
              var (m, i) := TakeStep(me, c, inbox, sample, memory).value;
              && BothLocks(m, peer, c) && (c == Dds ==> i == inbox) && (c == Mqtt ==> InboxLock(i, m))
  {
    hide Popped, ClientLocks, BothLocks;
    NoOwnLocks(me, peer, c);
  }

  /** While a client holds nothing its position and variables do not matter to the mutexes. */
  lemma {:induction false} NoOwnLocks(me: Client, peer: Client, c: Side)
    requires BothLocks(me, peer, c) && Taking(me.pc)
    ensures c == Dds ==> me.pc != RecvQ && me.pc != RecvPop
    ensures forall m: Client ::
              (m.lock == me.lock && m.qlock == me.qlock && (Taking(m.pc) || m.pc == Top || m.pc == AppLock) &&
               (c == Dds ==> m.pc != RecvQ && m.pc != RecvPop)) ==> BothLocks(m, peer, c)
  {
  }

  lemma {:induction false} LocksAppend(me: Client, peer: Client, c: Side)
    requires BothLocks(me, peer, c) && Appending(me.pc)
    ensures AppendStep(me, c).Some? ==>
              var m := AppendStep(me, c).value;
              BothLocks(m, peer, c) && m.pc != RecvPop
  {
    hide Pushed;
  }

  lemma {:induction false} LocksWork(me: Client, peer: Client, c: Side)
    requires BothLocks(me, peer, c) && !Popping(me.pc) && !Taking(me.pc) && !Appending(me.pc)
    ensures WorkStep(me, peer, c).Some? ==>
              var (m, p) := WorkStep(me, peer, c).value;
              BothLocks(m, p, c) && m.pc != RecvPop && p.pc == peer.pc
  {
    hide Pushed, BothLocks, ClientLocks;
    match me.pc {
      case FwdLock =>
        if peer.lock == None {
          LocksPeer(me, peer, c, FwdQ, Some(Loop(c)), peer.qlock);
        }
      case FwdQ =>
        if peer.qlock == None {
          LocksPeer(me, peer, c, Fwd, peer.lock, Some(Loop(c)));
        }
      case Fwd => LocksPeer(me, peer, c, FwdUnlock, peer.lock, None);
      case FwdUnlock => LocksPeer(me, peer, c, Top, None, peer.qlock);
      case _ => LocksIdle(me, peer, c);
    }
  }

  /** The four steps around the other client's queue, whatever else changes. */
  lemma {:induction false} LocksPeer(me: Client, peer: Client, c: Side, pc: Pc, lock: Option<Thread>,
                                     qlock: Option<Thread>)
    requires BothLocks(me, peer, c)
    requires || (me.pc == FwdLock && peer.lock == None && pc == FwdQ && lock == Some(Loop(c)) && qlock == peer.qlock)
             || (me.pc == FwdQ && peer.qlock == None && pc == Fwd && lock == peer.lock && qlock == Some(Loop(c)))
             || (me.pc == Fwd && pc == FwdUnlock && lock == peer.lock && qlock == None)
             || (me.pc == FwdUnlock && pc == Top && lock == None && qlock == peer.qlock)
    ensures forall m: Client, p: Client ::
              m.pc == pc && m.lock == me.lock && m.qlock == me.qlock &&
              p.pc == peer.pc && p.lock == lock && p.qlock == qlock
              ==> BothLocks(m, p, c)
  {
  }

  lemma {:induction false} LocksIdle(me: Client, peer: Client, c: Side)
    requires BothLocks(me, peer, c) && me.pc == Work
    ensures forall m: Client ::
              m.lock == me.lock && m.qlock == me.qlock && (m.pc == Top || m.pc == FwdLock) ==> BothLocks(m, peer, c)
  {
  }

  // ----- what the threads have in hand and the queues hold -----

  /** A handle carries a message of the network it is not for. */
  predicate Honest(h: Handle) {
    h.msg.origin == Peer(h.to)
  }

  /** An entry that the client put into its own queue: a handle for the other network, or NULL. */
  predicate Own(e: Option<Handle>, c: Side) {
    e == None || e.value.to == Peer(c)
  }

  function Owns(items: seq<Option<Handle>>, c: Side): nat {
    if items == [] then 0 else Owns(items[..|items| - 1], c) + (if Own(items[|items| - 1], c) then 1 else 0)
  }

  /** The client is busy with an entry of its own: one it popped, or one it is about to append. */
  predicate Busy(me: Client, c: Side) {
    || Taking(me.pc) || me.pc == AppLock || me.pc == AppQ || me.pc == App
    || ((me.pc == Unlock || me.pc == Work || me.pc == FwdLock || me.pc == FwdQ || me.pc == Fwd) && Own(me.hd, c))
  }

  predicate Tidy(me: Client, c: Side) {
    && (me.pc == Work ==> me.hd.Some?)
    && (me.pc == FwdLock || me.pc == FwdQ || me.pc == Fwd ==> me.hd.Some? && me.hd.value.to == Peer(c))
    && (me.pc == AppLock || me.pc == AppQ || me.pc == App ==> Own(me.hd, c))
    && (me.hd.Some? ==>
          me.pc == Unlock || me.pc == AppLock || me.pc == AppQ || me.pc == App || me.pc == Work || me.pc == FwdLock ||
          me.pc == FwdQ || me.pc == Fwd)
    && (me.msg.Some? <==> me.pc == Make) && (me.msg.Some? ==> me.msg.value.origin == c)
    && (me.hd.Some? ==> Honest(me.hd.value))
    && (forall k | 0 <= k < |me.queue.items| :: me.queue.items[k].Some? ==> Honest(me.queue.items[k].value))
    && (me.pc == PopQ || me.pc == Pop ==> me.queue.items != [])
  }

  /** At most one entry of the own queue is the client's own, and none while it is busy with one. */
  predicate Single(me: Client, c: Side) {
    Owns(me.queue.items, c) + (if Busy(me, c) then 1 else 0) <= 1
  }

  /** Entries stay inside the array. */
  predicate Bounded(me: Client, c: Side) {
    me.queue.low + |me.queue.items| <= NFTP_SIZE
  }

  predicate InboxTidy(inbox: Inbox, mqtt: Client) {
    && (inbox.msg.Some? <==> inbox.pc != Recv) && (inbox.msg.Some? ==> inbox.msg.value.origin == Mqtt)
    && (forall k | 0 <= k < |inbox.queue.items| ::
          inbox.queue.items[k].Some? && inbox.queue.items[k].value.origin == Mqtt)
    && (mqtt.pc == RecvQ || mqtt.pc == RecvPop ==> inbox.queue.items != [])
    && inbox.queue.low + |inbox.queue.items| <= NFTP_SIZE
  }

  predicate Sane(me: Client, c: Side) {
    Tidy(me, c) && Single(me, c) && Bounded(me, c)
  }

  lemma {:induction false} OwnsSnoc(items: seq<Option<Handle>>, e: Option<Handle>, c: Side)
    ensures Owns(items + [e], c) == Owns(items, c) + (if Own(e, c) then 1 else 0)
  {
    assert (items + [e])[..|items|] == items;
  }

  lemma {:induction false} OwnsHead(items: seq<Option<Handle>>, c: Side)
    requires items != []
    ensures Owns(items, c) == (if Own(items[0], c) then 1 else 0) + Owns(items[1..], c)
  {
    if |items| > 1 {
      OwnsHead(items[..|items| - 1], c);
      assert items[..|items| - 1][1..] == items[1..][..|items| - 2];
    }
  }

  lemma {:induction false} SanePop(me: Client, c: Side)
    requires Sane(me, c) && Popping(me.pc)
    ensures PopStep(me, c).Some? ==> Sane(PopStep(me, c).value, c)
  {
    hide Sane, Popped;
    if me.pc == Pop {
      SanePopped(me, c);
    } else {
      SaneAround(me, c);
    }
  }

  lemma {:induction false} SanePopped(me: Client, c: Side)
    requires Sane(me, c) && me.pc == Pop
    ensures var (rc, queue, hd) := Popped(me.queue, NFTP_HEAD);
            Sane(me.(pc := Unlock, queue := queue, hd := hd, qlock := None), c)
  {
    hide Honest, Owns;
    OwnsHead(me.queue.items, c);
  }

  /** The steps around the pop. */
  lemma {:induction false} SaneAround(me: Client, c: Side)
    requires Sane(me, c) && Popping(me.pc) && me.pc != Pop
    ensures PopStep(me, c).Some? ==> Sane(PopStep(me, c).value, c)
  {
    hide Honest, Owns, Popped;
    NoOwns(c);
  }

  lemma {:induction false} NoOwns(c: Side)
    ensures Owns([], c) == 0
  {
  }

  lemma {:induction false} SaneTake(me: Client, c: Side, inbox: Inbox, sample: bool, memory: bool)
    requires Sane(me, c) && Taking(me.pc)
    requires c == Mqtt ==> InboxTidy(inbox, me)
    requires c == Dds ==> me.pc != RecvQ && me.pc != RecvPop
    ensures TakeStep(me, c, inbox, sample, memory).Some? ==>
              var (m, i) := TakeStep(me, c, inbox, sample, memory).value;
              Sane(m, c) && (c == Mqtt ==> InboxTidy(i, m))
  {
    hide Sane, InboxTidy, Popped;
    if me.pc == Make {
      SaneMake(me, c, memory);
    } else if me.pc == RecvPop {
      SaneRecvPop(me, c, inbox);
    } else {
      SaneWaiting(me, c);
      QueueWaits(me, c, inbox);
    }
    if c == Mqtt {
      InboxTake(inbox, me, sample, memory);
    }
  }

  lemma {:induction false} SaneMake(me: Client, c: Side, memory: bool)
    requires Sane(me, c) && me.pc == Make
    ensures me.msg.Some?
    ensures Sane(me.(pc := AppLock, hd := if memory then Some(Handle(Peer(c), me.msg.value)) else None, msg := None), c)
  {
    hide Owns;
  }

  lemma {:induction false} SaneRecvPop(me: Client, c: Side, inbox: Inbox)
    requires Sane(me, c) && me.pc == RecvPop && c == Mqtt && InboxTidy(inbox, me)
    ensures Sane(me.(pc := Make, msg := Popped(inbox.queue, NFTP_HEAD).2), c)
  {
    hide Owns;
  }

  /** Between handles: a message arrives, or the position moves on. */
  lemma {:induction false} SaneWaiting(me: Client, c: Side)
    requires Sane(me, c) && Taking(me.pc) && me.pc != Make
    ensures Sane(me.(pc := Top), c) && Sane(me.(pc := RecvQ), c) && Sane(me.(pc := RecvPop), c) && me.msg == None
    ensures Sane(me.(pc := Make, msg := Some(Msg(c, me.received)), received := me.received + 1), c)
  {
    hide Owns, Honest;
  }

  /** What the inbox keeps while the MQTT loop takes a message. */
  lemma {:induction false} InboxTake(inbox: Inbox, me: Client, sample: bool, memory: bool)
    requires InboxTidy(inbox, me) && Taking(me.pc)
    ensures TakeStep(me, Mqtt, inbox, sample, memory).Some? ==>
              var (m, i) := TakeStep(me, Mqtt, inbox, sample, memory).value;
              InboxTidy(i, m)
  {
  }

  lemma {:induction false} SaneAppend(me: Client, c: Side)
    requires Sane(me, c) && Appending(me.pc)
    ensures AppendStep(me, c).Some? ==> Sane(AppendStep(me, c).value, c)
  {
    hide Owns;
    OwnsSnoc(me.queue.items, me.hd, c);
  }

  lemma {:induction false} SaneWork(me: Client, peer: Client, c: Side)
    requires Sane(me, c) && Sane(peer, Peer(c)) && !Popping(me.pc) && !Taking(me.pc) && !Appending(me.pc)
    ensures WorkStep(me, peer, c).Some? ==>
              var (m, p) := WorkStep(me, peer, c).value;
              Sane(m, c) && Sane(p, Peer(c))
  {
    hide Sane, Pushed;
    SaneWorker(me, peer, c);
    if me.pc == Fwd {
      SaneForward(peer, me.hd, Peer(c), me, c);
    }
    SaneLock(peer, Peer(c));
  }

  lemma {:induction false} SaneLock(me: Client, c: Side)
    requires Sane(me, c)
    ensures forall l, q :: Sane(me.(lock := l), c) && Sane(me.(qlock := q), c)
  {
    hide Owns;
  }

  lemma {:induction false} SaneWorker(me: Client, peer: Client, c: Side)
    requires Sane(me, c) && !Popping(me.pc) && !Taking(me.pc) && !Appending(me.pc)
    ensures WorkStep(me, peer, c).Some? ==> Sane(WorkStep(me, peer, c).value.0, c)
  {
    hide Sane, Owns, Pushed;
    if me.pc == Work {
      SaneAtWork(me, c);
    } else {
      SaneForwarding(me, c);
    }
  }

  lemma {:induction false} SaneAtWork(me: Client, c: Side)
    requires Sane(me, c) && me.pc == Work
    ensures me.hd.Some?
    ensures me.hd.value.to == c ==> Sane(me.(pc := Top, hd := None, sent := me.sent + [me.hd.value.msg]), c)
    ensures me.hd.value.to != c ==> Sane(me.(pc := FwdLock), c)
  {
    hide Owns, Honest;
  }

  lemma {:induction false} SaneForwarding(me: Client, c: Side)
    requires Sane(me, c)
    ensures me.pc == FwdLock ==> Sane(me.(pc := FwdQ), c)
    ensures me.pc == FwdQ ==> Sane(me.(pc := Fwd), c)
    ensures me.pc == Fwd ==> Sane(me.(pc := FwdUnlock, hd := None), c)
    ensures me.pc == FwdUnlock ==> Sane(me.(pc := Top), c)
  {
    hide Sane;
    if me.pc == FwdLock {
      SaneMove(me, c, FwdQ, me.hd);
    } else if me.pc == FwdQ {
      SaneMove(me, c, Fwd, me.hd);
    } else if me.pc == Fwd {
      SaneMove(me, c, FwdUnlock, None);
    } else if me.pc == FwdUnlock {
      SaneMove(me, c, Top, me.hd);
    }
  }

  /** One step of forwarding, as far as the client's own variables go. */
  lemma {:induction false} SaneMove(me: Client, c: Side, pc: Pc, hd: Option<Handle>)
    requires Sane(me, c)
    requires || (me.pc == FwdLock && pc == FwdQ && hd == me.hd) || (me.pc == FwdQ && pc == Fwd && hd == me.hd)
             || (me.pc == Fwd && pc == FwdUnlock && hd == None) || (me.pc == FwdUnlock && pc == Top && hd == me.hd)
    ensures Sane(me.(pc := pc, hd := hd), c)
  {
    hide Owns, Honest;
  }

  /** A handle for this client arrives in its queue. */
  lemma {:induction false} SaneForward(me: Client, hd: Option<Handle>, c: Side, from: Client, d: Side)
    requires Sane(me, c) && c == Peer(d) && Sane(from, d) && from.pc == Fwd && from.hd == hd
    ensures Sane(me.(queue := Pushed(me.queue, hd, NFTP_TAIL).1, qlock := None), c)
  {
    hide Owns;
    OwnsSnoc(me.queue.items, hd, c);
  }

  // ----- where the messages are -----

  /** The messages of the handles for `t`, in order. */
  function For(items: seq<Option<Handle>>, t: Side): seq<Msg> {
    if items == [] then [] else For(items[..|items| - 1], t) + InHand(items[|items| - 1], t)
  }

  function InHand(hd: Option<Handle>, t: Side): seq<Msg> {
    if hd.Some? && hd.value.to == t then [hd.value.msg] else []
  }

  function Pending(msg: Option<Msg>): seq<Msg> {
    if msg.Some? then [msg.value] else []
  }

  function Messages(items: seq<Option<Msg>>): seq<Msg> {
    if items == [] then [] else Messages(items[..|items| - 1]) + Pending(items[|items| - 1])
  }

  /** In `rmsgq` and in the hand of the receive loop. */
  function Inboxed(inbox: Inbox): seq<Msg> {
    Messages(inbox.queue.items) + Pending(inbox.msg)
  }

  /** What a client has sent to its network and still has for it, oldest first. */
  function Incoming(me: Client, c: Side): seq<Msg> {
    me.sent + InHand(me.hd, c) + For(me.queue.items, c)
  }

  /** What a client has that came from its network. */
  function Outgoing(me: Client, c: Side): seq<Msg> {
    InHand(me.hd, Peer(c)) + For(me.queue.items, Peer(c)) + Pending(me.msg)
  }

  /** Every message received from `o` that is not lost, oldest first: delivered, then along the way. */
  function Path(s: State, o: Side): seq<Msg> {
    Incoming(Me(s, Peer(o)), Peer(o)) + Outgoing(Me(s, o), o) + (if o == Mqtt then Inboxed(s.inbox) else [])
  }

  /** The first `n` messages from `o` without the lost ones. */
  function Survivors(o: Side, n: nat, lost: set<Msg>): seq<Msg> {
    if n == 0 then []
    else Survivors(o, n - 1, lost) + (if Msg(o, n - 1) in lost then [] else [Msg(o, n - 1)])
  }

  lemma {:induction false} SurvivorsAre(o: Side, n: nat, lost: set<Msg>)
    ensures forall m | m in Survivors(o, n, lost) :: m.origin == o && m.n < n && m !in lost
  {
    if n > 0 {
      SurvivorsAre(o, n - 1, lost);
    }
  }

  lemma {:induction false} LostElsewhere(o: Side, n: nat, lost: set<Msg>, more: set<Msg>)
    requires forall m | m in more :: m.origin != o || m.n >= n
    ensures Survivors(o, n, lost + more) == Survivors(o, n, lost)
  {
    if n > 0 {
      LostElsewhere(o, n - 1, lost, more);
    }
  }

  /** Losing a message takes it out of the sequence and leaves the others in order. */
  lemma {:induction false} LoseOne(o: Side, n: nat, lost: set<Msg>, a: seq<Msg>, x: Msg, b: seq<Msg>)
    requires Survivors(o, n, lost) == a + [x] + b
    ensures Survivors(o, n, lost + {x}) == a + b
  {
    var m := Msg(o, n - 1);
    var before := Survivors(o, n - 1, lost);
    if m in lost {
      LoseOne(o, n - 1, lost, a, x, b);
    } else if b == [] {
      assert (a + [x])[..|a|] == a && (before + [m])[..|before|] == before;
      assert a + [x] + b == a + [x];
      assert (before + [m])[|before|] == (a + [x])[|a|];
      LostElsewhere(o, n - 1, lost, {x});
      assert a + b == a;
    } else {
      var b' := b[..|b| - 1];
      assert b == b' + [b[|b| - 1]];
      assert (a + [x] + b)[|before|] == b[|b| - 1] == m;
      assert (a + [x] + b)[..|before|] == a + [x] + b' == before;
      LoseOne(o, n - 1, lost, a, x, b');
      SurvivorsAre(o, n - 1, lost);
      assert before[|a|] == x;
      assert a + b' + [m] == a + b;
    }
  }

  lemma {:induction false} ForSnoc(items: seq<Option<Handle>>, e: Option<Handle>, t: Side)
    ensures For(items + [e], t) == For(items, t) + InHand(e, t)
  {
    assert (items + [e])[..|items|] == items;
  }

  lemma {:induction false} ForHead(items: seq<Option<Handle>>, t: Side)
    requires items != []
    ensures For(items, t) == InHand(items[0], t) + For(items[1..], t)
  {
    if |items| > 1 {
      ForHead(items[..|items| - 1], t);
      assert items[..|items| - 1][1..] == items[1..][..|items| - 2];
    } else {
      assert items[..0] == [] && items[1..] == [];
    }
  }

  /** Without own entries there is nothing for the other network. */
  lemma {:induction false} NothingOwn(items: seq<Option<Handle>>, c: Side)
    requires Owns(items, c) == 0
    ensures For(items, Peer(c)) == []
  {
    if items != [] {
      NothingOwn(items[..|items| - 1], c);
    }
  }

  lemma {:induction false} MessagesSnoc(items: seq<Option<Msg>>, e: Option<Msg>)
    ensures Messages(items + [e]) == Messages(items) + Pending(e)
  {
    assert (items + [e])[..|items|] == items;
  }

  lemma {:induction false} MessagesHead(items: seq<Option<Msg>>)
    requires items != []
    ensures Messages(items) == Pending(items[0]) + Messages(items[1..])
  {
    if |items| > 1 {
      MessagesHead(items[..|items| - 1]);
      assert items[..|items| - 1][1..] == items[1..][..|items| - 2];
    } else {
      assert items[..0] == [] && items[1..] == [];
    }
  }

  // ----- each step moves messages along the path -----

  lemma {:induction false} FlowPop(me: Client, c: Side)
    requires Sane(me, c) && Popping(me.pc)
    ensures PopStep(me, c).Some? ==>
              var m := PopStep(me, c).value;
              Incoming(m, c) == Incoming(me, c) && Outgoing(m, c) == Outgoing(me, c) && m.received == me.received
  {
    hide Owns, For, Single, Bounded, Honest, InHand;
    NoHand(c);
    if me.pc == Pop {
      ForHead(me.queue.items, c);
      ForHead(me.queue.items, Peer(c));
      TakenUp(me.sent, InHand(me.queue.items[0], c), For(me.queue.items[1..], c));
      TakenUp([], InHand(me.queue.items[0], Peer(c)), For(me.queue.items[1..], Peer(c)));
    }
  }

  lemma {:induction false} NoHand(c: Side)
    ensures InHand(None, c) == [] && InHand(None, Peer(c)) == []
  {
  }

  lemma {:induction false} TakenUp(sent: seq<Msg>, first: seq<Msg>, rest: seq<Msg>)
    ensures sent + [] + (first + rest) == sent + first + rest
    ensures [] + (first + rest) == first + rest
  {
  }

  lemma {:induction false} FlowTake(me: Client, c: Side, inbox: Inbox, sample: bool, memory: bool)
    requires Sane(me, c) && Taking(me.pc)
    requires c == Mqtt ==> InboxTidy(inbox, me)
    requires c == Dds ==> me.pc != RecvQ && me.pc != RecvPop
    ensures TakeStep(me, c, inbox, sample, memory).Some? ==>
              var (m, i) := TakeStep(me, c, inbox, sample, memory).value;
              && Incoming(m, c) == Incoming(me, c)
              && (if m.received != me.received then
                    m.received == me.received + 1 && i == inbox && c == Dds && TakeLoses(me, memory) == {} &&
                    Outgoing(m, c) == Outgoing(me, c) + [Msg(c, me.received)]
                  else if me.pc == Make && !memory then
                    Outgoing(me, c) == [me.msg.value] && Outgoing(m, c) == [] && i == inbox
                  else TakeLoses(me, memory) == {} && Outgoing(m, c) + Inboxed(i) == Outgoing(me, c) + Inboxed(inbox) &&
                       (c == Dds ==> Outgoing(m, c) == Outgoing(me, c)))
  {
    hide Owns, For, Sane, Incoming, Outgoing, InHand, Popped, Messages, InboxTidy;
    if me.pc == Make {
      FlowMake(me, c);
    } else if me.pc == RecvPop {
      FlowRecvPop(me, c, inbox);
    } else if TakeStep(me, c, inbox, sample, memory).Some? {
      var m := TakeStep(me, c, inbox, sample, memory).value.0;
      QueueWaits(me, c, inbox);
      NoMessage(me, c);
      if m.received == me.received {
        SameHoldings(me, m, c);
      } else {
        FlowSample(me, c);
      }
    }
  }

  /** While the loop is between handles it has no message in hand but in `mk_handle`. */
  lemma {:induction false} NoMessage(me: Client, c: Side)
    requires Sane(me, c) && Taking(me.pc)
    ensures me.hd == None && (me.pc != Make ==> me.msg == None)
  {
    hide Owns;
  }

  lemma {:induction false} QueueWaits(me: Client, c: Side, inbox: Inbox)
    requires c == Mqtt ==> InboxTidy(inbox, me)
    ensures c == Mqtt && (me.pc == RecvQ || me.pc == RecvPop) ==> inbox.queue.items != []
  {
  }

  /** `dds_take` returns a sample. */
  lemma {:induction false} FlowSample(me: Client, c: Side)
    requires Sane(me, c) && me.pc == Take
    ensures var m := me.(pc := Make, msg := Some(Msg(c, me.received)), received := me.received + 1);
            Incoming(m, c) == Incoming(me, c) && Outgoing(m, c) == Outgoing(me, c) + [Msg(c, me.received)]
  {
    hide For, InHand;
    NoMessage(me, c);
  }

  /** The message leaves `rmsgq`. */
  lemma {:induction false} FlowRecvPop(me: Client, c: Side, inbox: Inbox)
    requires Sane(me, c) && me.pc == RecvPop && c == Mqtt && InboxTidy(inbox, me)
    ensures var (rc, queue, msg) := Popped(inbox.queue, NFTP_HEAD);
            var m, i := me.(pc := Make, msg := msg), inbox.(queue := queue, qlock := None);
            Incoming(m, c) == Incoming(me, c) && Outgoing(m, c) + Inboxed(i) == Outgoing(me, c) + Inboxed(inbox)
  {
    hide For, InHand, Messages, Sane, Pending;
    NoMessage(me, c);
    NothingPending();
    MessagesHead(inbox.queue.items);
  }

  lemma {:induction false} NothingPending()
    ensures Pending(None) == []
  {
  }

  /** `mk_handle` wraps the message, or fails. */
  lemma {:induction false} FlowMake(me: Client, c: Side)
    requires Sane(me, c) && me.pc == Make
    ensures me.msg.Some? && Outgoing(me, c) == [me.msg.value]
    ensures var hd := Some(Handle(Peer(c), me.msg.value));
            var m, lost := me.(pc := AppLock, hd := hd, msg := None), me.(pc := AppLock, hd := None, msg := None);
            && Incoming(m, c) == Incoming(me, c) && Outgoing(m, c) == Outgoing(me, c)
            && Incoming(lost, c) == Incoming(me, c) && Outgoing(lost, c) == []
  {
    hide Owns, For, Bounded, Honest;
    NothingOwn(me.queue.items, c);
  }

  lemma {:induction false} FlowAppend(me: Client, c: Side)
    requires Sane(me, c) && Appending(me.pc)
    ensures AppendStep(me, c).Some? ==>
              var m := AppendStep(me, c).value;
              && Incoming(m, c) == Incoming(me, c) && m.received == me.received
              && (if AppendLoses(me) == {} then Outgoing(m, c) == Outgoing(me, c)
                  else Outgoing(m, c) == [] && me.hd.Some? && Outgoing(me, c) == [me.hd.value.msg] &&
                       AppendLoses(me) == {me.hd.value.msg})
  {
    hide Owns, For, Sane, Incoming, Outgoing, InHand, Pushed;
    if me.pc == App {
      FlowAppended(me, c);
    } else if AppendStep(me, c).Some? {
      SameHoldings(me, AppendStep(me, c).value, c);
    }
  }

  lemma {:induction false} FlowAppended(me: Client, c: Side)
    requires Sane(me, c) && me.pc == App
    ensures var (rc, queue) := Pushed(me.queue, me.hd, NFTP_TAIL);
            var m := me.(pc := AppUnlock, queue := queue, hd := None, qlock := None);
            && Incoming(m, c) == Incoming(me, c)
            && (if rc == Ok || me.hd == None then Outgoing(m, c) == Outgoing(me, c)
                else Outgoing(m, c) == [] && Outgoing(me, c) == [me.hd.value.msg])
  {
    hide Owns, For, Bounded, Honest;
    NothingOwn(me.queue.items, c);
    ForSnoc(me.queue.items, me.hd, c);
    ForSnoc(me.queue.items, me.hd, Peer(c));
  }

  lemma {:induction false} FlowWork(me: Client, peer: Client, c: Side)
    requires Sane(me, c) && !Popping(me.pc) && !Taking(me.pc) && !Appending(me.pc)
    ensures WorkStep(me, peer, c).Some? ==>
              var (m, p) := WorkStep(me, peer, c).value;
              && Incoming(m, c) == Incoming(me, c) && Outgoing(p, Peer(c)) == Outgoing(peer, Peer(c))
              && m.received == me.received && p.received == peer.received
              && (if WorkLoses(me, peer) == {} then
                    Incoming(p, Peer(c)) + Outgoing(m, c) == Incoming(peer, Peer(c)) + Outgoing(me, c)
                  else
                    && Incoming(p, Peer(c)) == Incoming(peer, Peer(c)) && Outgoing(m, c) == []
                    && me.hd.Some? && Outgoing(me, c) == [me.hd.value.msg] && WorkLoses(me, peer) == {me.hd.value.msg})
  {
    hide Owns, For, Sane, Incoming, Outgoing, InHand, Pushed;
    if me.pc == Fwd {
      FlowForward(me, peer, c);
    } else if WorkStep(me, peer, c).Some? {
      var (m, p) := WorkStep(me, peer, c).value;
      FlowDeliver(me, c);
      SameHoldings(peer, p, Peer(c));
      if m.pc != Top || me.pc == FwdUnlock {
        SameHoldings(me, m, c);
      }
    }
    Regroup(Incoming(peer, Peer(c)), Outgoing(me, c), []);
  }

  /** Positions and mutexes do not matter to what a client holds. */
  lemma {:induction false} SameHoldings(me: Client, m: Client, d: Side)
    requires m.hd == me.hd && m.queue == me.queue && m.msg == me.msg && m.sent == me.sent
    ensures Incoming(m, d) == Incoming(me, d) && Outgoing(m, d) == Outgoing(me, d)
  {
    hide For, InHand;
  }

  lemma {:induction false} FlowDeliver(me: Client, c: Side)
    requires Sane(me, c)
    ensures me.pc == Work ==> me.hd.Some?
    ensures me.pc == Work && me.hd.value.to == c ==>
              var m := me.(pc := Top, hd := None, sent := me.sent + [me.hd.value.msg]);
              Incoming(m, c) == Incoming(me, c) && Outgoing(m, c) == Outgoing(me, c)
  {
    hide Owns, For, Bounded, Honest, Single;
  }

  lemma {:induction false} FlowForward(me: Client, peer: Client, c: Side)
    requires Sane(me, c) && me.pc == Fwd
    ensures var (rc, queue) := Pushed(peer.queue, me.hd, NFTP_TAIL);
            var m, p := me.(pc := FwdUnlock, hd := None), peer.(queue := queue, qlock := None);
            && Incoming(m, c) == Incoming(me, c) && Outgoing(p, Peer(c)) == Outgoing(peer, Peer(c))
            && me.hd.Some? && Outgoing(m, c) == [] && Outgoing(me, c) == [me.hd.value.msg]
            && Incoming(p, Peer(c)) == Incoming(peer, Peer(c)) + (if rc == Ok then [me.hd.value.msg] else [])
  {
    hide Owns, For, Bounded, Honest;
    NothingOwn(me.queue.items, c);
    ForSnoc(peer.queue.items, me.hd, c);
    ForSnoc(peer.queue.items, me.hd, Peer(c));
  }

  // ----- the invariant of every run -----

  /** Along each path are exactly the received messages that are not lost, in the order of their receipt. */
  predicate Flows(s: State) {
    && (forall m | m in s.lost :: m.n < Me(s, m.origin).received)
    && Path(s, Dds) == Survivors(Dds, s.dds.received, s.lost)
    && Path(s, Mqtt) == Survivors(Mqtt, s.mqtt.received, s.lost)
  }

  predicate Inv(s: State) {
    && Locks(s) && Sane(s.dds, Dds) && Sane(s.mqtt, Mqtt) && InboxTidy(s.inbox, s.mqtt) && Flows(s)
  }

  lemma {:induction false} FlowsOf(s: State, c: Side)
    ensures Flows(s) <==>
            && (forall m | m in s.lost :: m.n < Me(s, m.origin).received)
            && Path(s, c) == Survivors(c, Me(s, c).received, s.lost)
            && Path(s, Peer(c)) == Survivors(Peer(c), Me(s, Peer(c)).received, s.lost)
  {
  }

  /** Nothing received, nothing lost. */
  lemma {:induction false} FlowsKept(s: State, t: State, c: Side)
    requires Flows(s) && t.lost == s.lost
    requires Me(t, c).received == Me(s, c).received && Me(t, Peer(c)).received == Me(s, Peer(c)).received
    requires Path(t, c) == Path(s, c) && Path(t, Peer(c)) == Path(s, Peer(c))
    ensures Flows(t)
  {
    hide Path, Survivors;
    FlowsOf(s, c);
    FlowsOf(t, c);
  }

  /** One message received. */
  lemma {:induction false} FlowsArrived(s: State, t: State, c: Side)
    requires Flows(s) && t.lost == s.lost
    requires Me(t, c).received == Me(s, c).received + 1 && Me(t, Peer(c)).received == Me(s, Peer(c)).received
    requires Path(t, c) == Path(s, c) + [Msg(c, Me(s, c).received)] && Path(t, Peer(c)) == Path(s, Peer(c))
    ensures Flows(t)
  {
    hide Path;
    FlowsOf(s, c);
    FlowsOf(t, c);
    assert Msg(c, Me(s, c).received) !in s.lost;
  }

  /** One message lost. */
  lemma {:induction false} FlowsLost(s: State, t: State, c: Side, a: seq<Msg>, x: Msg, b: seq<Msg>)
    requires Flows(s) && t.lost == s.lost + {x}
    requires Me(t, c).received == Me(s, c).received && Me(t, Peer(c)).received == Me(s, Peer(c)).received
    requires Path(s, c) == a + [x] + b && Path(t, c) == a + b && Path(t, Peer(c)) == Path(s, Peer(c))
    ensures Flows(t)
  {
    hide Path, Survivors;
    FlowsOf(s, c);
    FlowsOf(t, c);
    SurvivorsAre(c, Me(s, c).received, s.lost);
    assert (a + [x] + b)[|a|] == x;
    LoseOne(c, Me(s, c).received, s.lost, a, x, b);
    LostElsewhere(Peer(c), Me(s, Peer(c)).received, s.lost, {x});
  }

  /** The rest of the path from `c`: `rmsgq`, if it is the MQTT side. */
  function Rest(inbox: Inbox, c: Side): seq<Msg> {
    if c == Mqtt then Inboxed(inbox) else []
  }

  lemma {:induction false} PathOf(s: State, c: Side)
    ensures Path(s, c) == Incoming(Me(s, Peer(c)), Peer(c)) + Outgoing(Me(s, c), c) + Rest(s.inbox, c)
    ensures Path(s, Peer(c)) == Incoming(Me(s, c), c) + Outgoing(Me(s, Peer(c)), Peer(c)) + Rest(s.inbox, Peer(c))
  {
  }

  lemma {:induction false} FlowsTake(s: State, t: State, c: Side, sample: bool, memory: bool)
    requires Inv(s) && Taking(Me(s, c).pc) && ExecLoop(s, c, sample, memory) == Some(t)
    ensures Flows(t)
  {
    hide Sane, Incoming, Outgoing, Inboxed, TakeStep, TakeLoses, Flows, Path, Locks, InboxTidy;
    var me := Me(s, c);
    InvParts(s, c);
    PathOf(s, c);
    PathOf(t, c);
    FlowTake(me, c, s.inbox, sample, memory);
    if Me(t, c).received != me.received {
      FlowsArrived(s, t, c);
    } else if me.pc == Make && !memory {
      MakeLoses(me, memory, c);
      FlowsLost(s, t, c, Incoming(Me(s, Peer(c)), Peer(c)), me.msg.value, Rest(s.inbox, c));
    } else {
      Regroup(Incoming(Me(s, Peer(c)), Peer(c)), Outgoing(me, c), Inboxed(s.inbox));
      Regroup(Incoming(Me(s, Peer(c)), Peer(c)), Outgoing(Me(t, c), c), Inboxed(t.inbox));
      TakeKeepsInbox(me, c, s.inbox, sample, memory);
      FlowsKept(s, t, c);
    }
  }

  lemma {:induction false} Regroup(a: seq<Msg>, b: seq<Msg>, c: seq<Msg>)
    ensures a + b + c == a + (b + c)
  {
  }

  lemma {:induction false} TakeKeepsInbox(me: Client, c: Side, inbox: Inbox, sample: bool, memory: bool)
    requires c == Dds ==> me.pc != RecvQ && me.pc != RecvPop
    requires Taking(me.pc)
    ensures c == Dds && TakeStep(me, c, inbox, sample, memory).Some? ==>
              TakeStep(me, c, inbox, sample, memory).value.1 == inbox
  {
  }

  lemma {:induction false} MakeLoses(me: Client, memory: bool, c: Side)
    requires Sane(me, c) && me.pc == Make && !memory
    ensures me.msg.Some? && TakeLoses(me, memory) == {me.msg.value}
  {
  }

  /** What the invariant says of the side that steps. */
  lemma {:induction false} InvParts(s: State, c: Side)
    requires Inv(s)
    ensures Sane(Me(s, c), c) && Sane(Me(s, Peer(c)), Peer(c)) && Flows(s) && Locks(s)
    ensures c == Mqtt ==> InboxTidy(s.inbox, Me(s, c))
    ensures c == Dds ==> Me(s, c).pc != RecvQ && Me(s, c).pc != RecvPop
  {
    hide Sane, Flows, InboxTidy, ClientLocks;
  }

  lemma {:induction false} FlowsAppend(s: State, t: State, c: Side)
    requires Inv(s) && Appending(Me(s, c).pc) && ExecLoop(s, c, false, false) == Some(t)
    ensures Flows(t)
  {
    hide Sane, Incoming, Outgoing, Inboxed, AppendStep, AppendLoses, Flows, Path, Locks, InboxTidy;
    var me := Me(s, c);
    InvParts(s, c);
    PathOf(s, c);
    PathOf(t, c);
    FlowAppend(me, c);
    if AppendLoses(me) == {} {
      FlowsKept(s, t, c);
    } else {
      FlowsLost(s, t, c, Incoming(Me(s, Peer(c)), Peer(c)), me.hd.value.msg, Rest(s.inbox, c));
    }
  }

  lemma {:induction false} FlowsWork(s: State, t: State, c: Side)
    requires Inv(s) && !Popping(Me(s, c).pc) && !Taking(Me(s, c).pc) && !Appending(Me(s, c).pc)
    requires ExecLoop(s, c, false, false) == Some(t)
    ensures Flows(t)
  {
    hide Sane, Incoming, Outgoing, Inboxed, WorkStep, WorkLoses, Flows, Path, Locks, InboxTidy;
    var me, peer := Me(s, c), Me(s, Peer(c));
    InvParts(s, c);
    PathOf(s, c);
    PathOf(t, c);
    FlowWork(me, peer, c);
    if WorkLoses(me, peer) == {} {
      FlowsKept(s, t, c);
    } else {
      FlowsLost(s, t, c, Incoming(peer, Peer(c)), me.hd.value.msg, Rest(s.inbox, c));
    }
  }

  lemma {:induction false} FlowsPop(s: State, t: State, c: Side)
    requires Inv(s) && Popping(Me(s, c).pc) && ExecLoop(s, c, false, false) == Some(t)
    ensures Flows(t)
  {
    hide Sane, Incoming, Outgoing, Inboxed, PopStep, Flows, Path, Locks, InboxTidy;
    InvParts(s, c);
    PathOf(s, c);
    PathOf(t, c);
    FlowPop(Me(s, c), c);
    FlowsKept(s, t, c);
  }

  lemma {:induction false} FlowsReceiver(s: State, t: State)
    requires Inv(s) && ExecReceiver(s) == Some(t)
    ensures Flows(t)
  {
    hide Sane, Incoming, Outgoing, Flows, Path, Locks;
    InvParts(s, Mqtt);
    PathOf(s, Mqtt);
    PathOf(t, Mqtt);
    ReceivedOnly(s.mqtt, t.mqtt.received);
    FlowReceiver(s, t);
    if s.inbox.pc == Recv {
      FlowsArrived(s, t, Mqtt);
    } else if s.inbox.pc == RecvAppQ || TailFree(s.inbox.queue) {
      FlowsKept(s, t, Mqtt);
    } else {
      var a := Incoming(s.dds, Dds) + Outgoing(s.mqtt, Mqtt);
      FlowsLost(s, t, Mqtt, a + Messages(s.inbox.queue.items), s.inbox.msg.value, []);
    }
  }

  lemma {:induction false} ReceivedOnly(me: Client, n: nat)
    ensures var m := me.(received := n);
            Incoming(m, Mqtt) == Incoming(me, Mqtt) && Outgoing(m, Mqtt) == Outgoing(me, Mqtt)
  {
  }

  lemma {:induction false} FlowReceiver(s: State, t: State)
    requires InboxTidy(s.inbox, s.mqtt) && ExecReceiver(s) == Some(t)
    ensures t.dds == s.dds && t.mqtt == s.mqtt.(received := t.mqtt.received)
    ensures s.inbox.pc == Recv ==>
              && t.lost == s.lost && t.mqtt.received == s.mqtt.received + 1
              && Inboxed(t.inbox) == Inboxed(s.inbox) + [Msg(Mqtt, s.mqtt.received)]
    ensures s.inbox.pc == RecvAppQ ==> t.mqtt == s.mqtt && t.lost == s.lost && Inboxed(t.inbox) == Inboxed(s.inbox)
    ensures s.inbox.pc == RecvApp ==>
              && t.mqtt == s.mqtt && s.inbox.msg.Some?
              && Inboxed(s.inbox) == Messages(s.inbox.queue.items) + [s.inbox.msg.value]
              && (if TailFree(s.inbox.queue) then t.lost == s.lost && Inboxed(t.inbox) == Inboxed(s.inbox)
                  else t.lost == s.lost + {s.inbox.msg.value} && Inboxed(t.inbox) == Messages(s.inbox.queue.items))
  {
    hide Messages;
    MessagesSnoc(s.inbox.queue.items, s.inbox.msg);
  }

  // ----- all runs -----

  lemma {:induction false} InvStep(s: State, a: Action)
    requires Inv(s) && Exec(s, a).Some?
    ensures Inv(Exec(s, a).value)
  {
    hide Sane, Flows, Locks, InboxTidy, ExecLoop, ExecReceiver;
    LocksStep(s, a);
    var t := Exec(s, a).value;
    match a.thread {
      case Receiver =>
        FlowsReceiver(s, t);
        SaneReceiver(s);
      case Loop(c) =>
        LoopSane(s, c, a.sample, a.memory);
        LoopFlows(s, t, c, a.sample, a.memory);
    }
  }

  lemma {:induction false} LoopFlows(s: State, t: State, c: Side, sample: bool, memory: bool)
    requires Inv(s) && ExecLoop(s, c, sample, memory) == Some(t)
    ensures Flows(t)
  {
    hide Inv, Flows, PopStep, TakeStep, AppendStep, WorkStep, TakeLoses, AppendLoses, WorkLoses;
    var me := Me(s, c);
    if Popping(me.pc) {
      FlowsPop(s, t, c);
    } else if Taking(me.pc) {
      FlowsTake(s, t, c, sample, memory);
    } else if Appending(me.pc) {
      FlowsAppend(s, t, c);
    } else {
      FlowsWork(s, t, c);
    }
  }

  lemma {:induction false} SaneReceiver(s: State)
    requires Inv(s)
    ensures ExecReceiver(s).Some? ==>
              var t := ExecReceiver(s).value;
              t.dds == s.dds && Sane(t.mqtt, Mqtt) && InboxTidy(t.inbox, t.mqtt)
  {
    hide Flows, Locks, Sane, InboxTidy;
    InboxReceives(s.inbox, s.mqtt, s.mqtt.received);
    SaneReceived(s.mqtt);
  }

  lemma {:induction false} SaneReceived(me: Client)
    requires Sane(me, Mqtt)
    ensures Sane(me.(received := me.received + 1), Mqtt)
  {
    hide Owns, Honest;
  }

  /** The inbox after a step of the receive loop. */
  lemma {:induction false} InboxReceives(inbox: Inbox, me: Client, n: nat)
    requires InboxTidy(inbox, me)
    ensures inbox.pc == Recv ==>
              InboxTidy(inbox.(pc := RecvAppQ, msg := Some(Msg(Mqtt, n))), me.(received := n + 1))
    ensures inbox.pc == RecvAppQ ==> InboxTidy(inbox.(pc := RecvApp, qlock := Some(Receiver)), me)
    ensures inbox.pc == RecvApp ==> InboxTidy(Inbox(Recv, None, Pushed(inbox.queue, inbox.msg, NFTP_TAIL).1, None), me)
  {
  }

  lemma {:induction false} LoopSane(s: State, c: Side, sample: bool, memory: bool)
    requires Inv(s) && ExecLoop(s, c, sample, memory).Some?
    ensures var t := ExecLoop(s, c, sample, memory).value;
            Sane(t.dds, Dds) && Sane(t.mqtt, Mqtt) && InboxTidy(t.inbox, t.mqtt)
  {
    hide Sane, Flows, Locks, PopStep, TakeStep, AppendStep, WorkStep, TakeLoses, AppendLoses, WorkLoses, InboxTidy;
    InvParts(s, c);
    var me, peer := Me(s, c), Me(s, Peer(c));
    if Popping(me.pc) {
      SanePop(me, c);
      InboxKept(s.inbox, s.mqtt);
      PopPc(me, c);
    } else if Taking(me.pc) {
      SaneTake(me, c, s.inbox, sample, memory);
      TakeKeepsInbox(me, c, s.inbox, sample, memory);
    } else if Appending(me.pc) {
      SaneAppend(me, c);
      InboxKept(s.inbox, s.mqtt);
      AppendPc(me, c);
    } else {
      SaneWork(me, peer, c);
      InboxKept(s.inbox, s.mqtt);
      WorkPc(me, peer, c);
    }
  }

  /** What the inbox demands of the MQTT loop depends on its position alone. */
  lemma {:induction false} InboxKept(inbox: Inbox, me: Client)
    requires InboxTidy(inbox, me)
    ensures forall m: Client :: (m.pc == me.pc || (m.pc != RecvQ && m.pc != RecvPop)) ==> InboxTidy(inbox, m)
  {
  }

  lemma {:induction false} PopPc(me: Client, c: Side)
    requires Popping(me.pc) && PopStep(me, c).Some?
    ensures var pc := PopStep(me, c).value.pc; pc != RecvQ && pc != RecvPop
  {
  }

  lemma {:induction false} AppendPc(me: Client, c: Side)
    requires Appending(me.pc) && AppendStep(me, c).Some?
    ensures var pc := AppendStep(me, c).value.pc; pc != RecvQ && pc != RecvPop
  {
  }

  lemma {:induction false} WorkPc(me: Client, peer: Client, c: Side)
    requires !Popping(me.pc) && !Taking(me.pc) && !Appending(me.pc) && WorkStep(me, peer, c).Some?
    ensures var (m, p) := WorkStep(me, peer, c).value; m.pc != RecvQ && m.pc != RecvPop && p.pc == peer.pc
  {
  }

  lemma {:induction false} InvInit()
    ensures Inv(Init())
  {
  }

  /** The invariant holds after every run, whatever the interleaving and the environment. */
  lemma {:induction false} Safe(actions: seq<Action>)
    requires Run(actions).Some?
    ensures Inv(Run(actions).value)
  {
    hide Inv, Exec;
    if actions == [] {
      InvInit();
    } else {
      Safe(actions[..|actions| - 1]);
      InvStep(Run(actions[..|actions| - 1]).value, actions[|actions| - 1]);
    }
  }

  // ----- what every run keeps -----

  predicate Increasing(ms: seq<Msg>) {
    forall i, k | 0 <= i < k < |ms| :: ms[i].n < ms[k].n
  }

  lemma {:induction false} SurvivorsIncrease(o: Side, n: nat, lost: set<Msg>)
    ensures Increasing(Survivors(o, n, lost))
  {
    if n > 0 {
      SurvivorsIncrease(o, n - 1, lost);
      SurvivorsAre(o, n - 1, lost);
      var before := Survivors(o, n - 1, lost);
      assert forall k | 0 <= k < |before| :: before[k] in before;
    }
  }

  /**
   First in, first out, end to end: what a client has sent to its network are the first of the
   messages received from the other network that are not lost, each once and in order, and
   the others are still on the way.
   */
  lemma {:induction false} Delivered(actions: seq<Action>, c: Side)
    requires Run(actions).Some?
    ensures var s := Run(actions).value;
            var o := Peer(c);
            var all := Survivors(o, Me(s, o).received, s.lost);
            && Path(s, o) == all && Me(s, c).sent <= all
            && (forall m | m in Me(s, c).sent :: m.origin == o) && Increasing(Me(s, c).sent)
  {
    hide Inv, Sane, Locks, Flows, InboxTidy, Run, Survivors, Outgoing, Inboxed, For;
    Safe(actions);
    var s := Run(actions).value;
    var o := Peer(c);
    InvParts(s, c);
    FlowsOf(s, o);
    SurvivorsAre(o, Me(s, o).received, s.lost);
    SurvivorsIncrease(o, Me(s, o).received, s.lost);
    var all := Path(s, o);
    assert Me(s, c).sent <= all;
    assert forall k | 0 <= k < |Me(s, c).sent| :: Me(s, c).sent[k] == all[k] && all[k] in all;
  }

  // ----- how much a run can deliver -----

  predicate NewInHand(me: Client) {
    me.pc == AppLock || me.pc == AppQ || me.pc == App
  }

  /**
   Whatever is delivered to either network was popped from this client's queue: it was sent
   here, is in hand, or went on to the other client; and no slot is popped twice.
   */
  predicate Spent(me: Client, peer: Client, c: Side) {
    |me.sent| + (if me.hd.Some? && !NewInHand(me) then 1 else 0) + |Incoming(peer, Peer(c))| + NFTP_SIZE / 4 <=
    me.queue.low
  }

  lemma {:induction false} SpentPop(me: Client, peer: Client, c: Side)
    requires Sane(me, c) && Popping(me.pc) && Spent(me, peer, c)
    ensures PopStep(me, c).Some? ==> Spent(PopStep(me, c).value, peer, c)
  {
    hide Incoming, Owns, Honest, Single;
  }

  lemma {:induction false} SpentTake(me: Client, peer: Client, c: Side, inbox: Inbox, sample: bool, memory: bool)
    requires Taking(me.pc) && Spent(me, peer, c)
    ensures TakeStep(me, c, inbox, sample, memory).Some? ==>
              Spent(TakeStep(me, c, inbox, sample, memory).value.0, peer, c)
  {
    hide Incoming, Popped;
  }

  lemma {:induction false} SpentAppend(me: Client, peer: Client, c: Side)
    requires Appending(me.pc) && Spent(me, peer, c)
    ensures AppendStep(me, c).Some? ==> Spent(AppendStep(me, c).value, peer, c)
  {
    hide Incoming;
  }

  lemma {:induction false} SpentWork(me: Client, peer: Client, c: Side)
    requires Sane(me, c) && !Popping(me.pc) && !Taking(me.pc) && !Appending(me.pc) && Spent(me, peer, c)
    ensures WorkStep(me, peer, c).Some? ==>
              var (m, p) := WorkStep(me, peer, c).value;
              Spent(m, p, c)
  {
    hide Incoming, Outgoing, Sane, Pushed;
    if me.pc == Fwd {
      FlowForward(me, peer, c);
    } else if WorkStep(me, peer, c).Some? {
      SameHoldings(peer, WorkStep(me, peer, c).value.1, Peer(c));
    }
  }

  /** What the other client does changes neither what it was handed nor where the own queue starts. */
  lemma {:induction false} SpentByPeer(me: Client, peer: Client, c: Side, m: Client, p: Client)
    requires Spent(me, peer, c) && Incoming(p, Peer(c)) == Incoming(peer, Peer(c))
    requires m.sent == me.sent && m.hd == me.hd && m.pc == me.pc && m.queue.low == me.queue.low
    ensures Spent(m, p, c)
  {
    hide Incoming;
  }

  lemma {:induction false} WorkLeavesPeer(me: Client, peer: Client, c: Side)
    requires !Popping(me.pc) && !Taking(me.pc) && !Appending(me.pc) && WorkStep(me, peer, c).Some?
    ensures var p := WorkStep(me, peer, c).value.1;
            p.sent == peer.sent && p.hd == peer.hd && p.pc == peer.pc && p.queue.low == peer.queue.low
  {
  }

  /** The client that steps, for both queues. */
  lemma {:induction false} SpentLoop(s: State, c: Side, sample: bool, memory: bool)
    requires Inv(s) && ExecLoop(s, c, sample, memory).Some?
    requires Spent(Me(s, c), Me(s, Peer(c)), c) && Spent(Me(s, Peer(c)), Me(s, c), Peer(c))
    ensures var t := ExecLoop(s, c, sample, memory).value;
            Spent(Me(t, c), Me(t, Peer(c)), c) && Spent(Me(t, Peer(c)), Me(t, c), Peer(c))
  {
    hide Inv, Sane, Spent, Incoming, Outgoing, Inboxed, PopStep, TakeStep, AppendStep, WorkStep, TakeLoses, AppendLoses,
      WorkLoses, InboxTidy, Flows, Locks;
    InvParts(s, c);
    var me, peer, t := Me(s, c), Me(s, Peer(c)), ExecLoop(s, c, sample, memory).value;
    if Popping(me.pc) {
      SpentPop(me, peer, c);
      FlowPop(me, c);
    } else if Taking(me.pc) {
      SpentTake(me, peer, c, s.inbox, sample, memory);
      FlowTake(me, c, s.inbox, sample, memory);
    } else if Appending(me.pc) {
      SpentAppend(me, peer, c);
      FlowAppend(me, c);
    } else {
      SpentWork(me, peer, c);
      FlowWork(me, peer, c);
      WorkLeavesPeer(me, peer, c);
    }
    SpentByPeer(peer, me, Peer(c), Me(t, Peer(c)), Me(t, c));
  }

  lemma {:induction false} SpentReceiver(s: State)
    requires ExecReceiver(s).Some? && Spent(s.dds, s.mqtt, Dds) && Spent(s.mqtt, s.dds, Mqtt)
    ensures var t := ExecReceiver(s).value; Spent(t.dds, t.mqtt, Dds) && Spent(t.mqtt, t.dds, Mqtt)
  {
    hide Pushed, Spent, Incoming;
    var t := ExecReceiver(s).value;
    ReceivedOnly(s.mqtt, t.mqtt.received);
    SpentByPeer(s.dds, s.mqtt, Dds, t.dds, t.mqtt);
    SpentByPeer(s.mqtt, s.dds, Mqtt, t.mqtt, t.dds);
  }

  lemma {:induction false} SpentInit()
    ensures Spent(Idle(), Idle(), Dds) && Spent(Idle(), Idle(), Mqtt)
  {
  }

  lemma {:induction false} SpentRun(actions: seq<Action>)
    requires Run(actions).Some?
    ensures var s := Run(actions).value; Spent(s.dds, s.mqtt, Dds) && Spent(s.mqtt, s.dds, Mqtt)
  {
    hide Inv, Spent, ExecLoop, ExecReceiver, Idle;
    if actions == [] {
      SpentInit();
    } else {
      var before, a := actions[..|actions| - 1], actions[|actions| - 1];
      SpentRun(before);
      Safe(before);
      match a.thread {
        case Receiver => SpentReceiver(Run(before).value);
        case Loop(c) => SpentLoop(Run(before).value, c, a.sample, a.memory);
      }
    }
  }

  /** A run delivers at most three quarters of a queue to both networks together, however long it is. */
  lemma {:induction false} DeliveryBudget(actions: seq<Action>)
    requires Run(actions).Some?
    ensures var s := Run(actions).value; |s.dds.sent| + |s.mqtt.sent| <= 24
  {
    hide Inv, Locks, Flows, InboxTidy, Run, Tidy, Single, For, InHand;
    Safe(actions);
    SpentRun(actions);
    InvParts(Run(actions).value, Dds);
  }

  /** A thread can step; the environment decides what the step does, not whether there is one. */
  predicate CanStep(s: State, thread: Thread) {
    Exec(s, Action(thread, true, true)).Some?
  }

  /** A thread holds some mutex. */
  predicate HoldsAny(s: State, thread: Thread) {
    var h := Some(thread);
    s.dds.lock == h || s.dds.qlock == h || s.mqtt.lock == h || s.mqtt.qlock == h || s.inbox.qlock == h
  }

  /** The holder of the mutex a thread is about to take. */
  function WaitsFor(s: State, thread: Thread): Option<Thread> {
    match thread
    case Receiver => if s.inbox.pc == RecvAppQ then s.inbox.qlock else None
    case Loop(c) =>
      var me, peer := Me(s, c), Me(s, Peer(c));
      if me.pc == Top || me.pc == AppLock then me.lock
      else if me.pc == PopQ || me.pc == AppQ then me.qlock
      else if me.pc == RecvQ then s.inbox.qlock
      else if me.pc == FwdLock then peer.lock
      else if me.pc == FwdQ then peer.qlock
      else None
  }

  /** A thread can step unless it waits. */
  lemma {:induction false} StepsUnlessWaiting(s: State, thread: Thread)
    requires Inv(s)
    ensures CanStep(s, thread) <==> WaitsFor(s, thread) == None
  {
    hide Inv, Sane, Locks, InboxTidy, Flows, PopStep, TakeStep, AppendStep, WorkStep, TakeLoses, AppendLoses, WorkLoses,
      ExecReceiver;
    match thread {
      case Receiver => ReceiverSteps(s);
      case Loop(c) =>
        InvParts(s, c);
        LoopSteps(Me(s, c), Me(s, Peer(c)), c, s.inbox);
    }
  }

  lemma {:induction false} ReceiverSteps(s: State)
    ensures ExecReceiver(s) == None <==> s.inbox.pc == RecvAppQ && s.inbox.qlock.Some?
  {
    hide Pushed;
  }

  lemma {:induction false} LoopSteps(me: Client, peer: Client, c: Side, inbox: Inbox)
    requires Sane(me, c) && (c == Mqtt ==> InboxTidy(inbox, me)) && (c == Dds ==> me.pc != RecvQ && me.pc != RecvPop)
    ensures Popping(me.pc) ==>
              (PopStep(me, c) == None <==> (me.pc == Top && me.lock.Some?) || (me.pc == PopQ && me.qlock.Some?))
    ensures Taking(me.pc) ==> (TakeStep(me, c, inbox, true, true) == None <==> me.pc == RecvQ && inbox.qlock.Some?)
    ensures Appending(me.pc) ==>
              (AppendStep(me, c) == None <==> (me.pc == AppLock && me.lock.Some?) || (me.pc == AppQ && me.qlock.Some?))
    ensures !Popping(me.pc) && !Taking(me.pc) && !Appending(me.pc) ==>
              (WorkStep(me, peer, c) == None <==>
                 (me.pc == FwdLock && peer.lock.Some?) || (me.pc == FwdQ && peer.qlock.Some?))
  {
    hide Pushed, Popped, Single, Bounded, Honest, Owns;
  }

  /** The holder of a mutex waits for none: the queue mutex under a client mutex is always free. */
  lemma {:induction false} HolderNeverWaits(s: State, thread: Thread)
    requires Locks(s) && HoldsAny(s, thread)
    ensures WaitsFor(s, thread) == None
  {
    hide ClientLocks;
    match thread {
      case Receiver =>
        NotReceivers(s.dds, s.mqtt, Dds);
        NotReceivers(s.mqtt, s.dds, Mqtt);
      case Loop(c) =>
        var me, peer := Me(s, c), Me(s, Peer(c));
        assert ClientLocks(me, peer, c) && ClientLocks(peer, me, Peer(c));
        LoopHolds(me, peer, c);
        NotReceivers(me, peer, c);
    }
  }

  /** The receive loop never holds a mutex of a client. */
  lemma {:induction false} NotReceivers(me: Client, peer: Client, c: Side)
    requires ClientLocks(me, peer, c)
    ensures me.lock != Some(Receiver) && me.qlock != Some(Receiver)
  {
  }

  /** A client loop that holds a client mutex, its own or the other's, waits for no mutex that is taken. */
  lemma {:induction false} LoopHolds(me: Client, peer: Client, c: Side)
    requires ClientLocks(me, peer, c) && ClientLocks(peer, me, Peer(c))
    ensures var h := Some(Loop(c));
            me.lock == h || me.qlock == h || peer.lock == h || peer.qlock == h ==>
              && me.pc != Top && me.pc != AppLock && me.pc != RecvQ && me.pc != RecvPop && me.pc != FwdLock
              && (me.pc == PopQ || me.pc == AppQ ==> me.qlock == None) && (me.pc == FwdQ ==> peer.qlock == None)
    ensures me.pc == RecvPop ==> me.lock != Some(Loop(c)) && peer.lock != Some(Loop(c))
  {
  }

  lemma {:induction false} WaitsForHolder(s: State, thread: Thread)
    requires WaitsFor(s, thread).Some?
    ensures HoldsAny(s, WaitsFor(s, thread).value)
  {
  }

  /**
   No deadlock in any run: a thread that cannot step holds no mutex, and waits for a mutex
   whose holder can step.
   */
  lemma {:induction false} NoDeadlock(actions: seq<Action>, thread: Thread)
    requires Run(actions).Some? && !CanStep(Run(actions).value, thread)
    ensures var s := Run(actions).value;
            !HoldsAny(s, thread) && WaitsFor(s, thread).Some? && CanStep(s, WaitsFor(s, thread).value)
  {
    hide Inv, Run, CanStep, HoldsAny, WaitsFor, Locks;
    Safe(actions);
    var s := Run(actions).value;
    InvParts(s, Dds);
    StepsUnlessWaiting(s, thread);
    if HoldsAny(s, thread) {
      HolderNeverWaits(s, thread);
    }
    WaitsForHolder(s, thread);
    var holder := WaitsFor(s, thread).value;
    HolderNeverWaits(s, holder);
    StepsUnlessWaiting(s, holder);
  }

  /**
   In every run: no pop meets an empty queue, although the length of `rmsgq` is read without
   its mutex; and a client's queue holds at most one entry the client put there itself.
   */
  lemma {:induction false} QueuesAreFair(actions: seq<Action>, c: Side)
    requires Run(actions).Some?
    ensures var s := Run(actions).value;
            && (Me(s, c).pc == PopQ || Me(s, c).pc == Pop ==> Me(s, c).queue.items != [])
            && (Me(s, c).pc == RecvQ || Me(s, c).pc == RecvPop ==> c == Mqtt && s.inbox.queue.items != [])
            && Owns(Me(s, c).queue.items, c) <= 1
  {
    hide Inv, Locks, Flows, Run, Bounded, Owns;
    Safe(actions);
    InvParts(Run(actions).value, c);
  }

  // ----- nothing is lost within the budget -----

  function Total(s: State): nat {
    s.dds.received + s.mqtt.received
  }

  /**
   Every message enters a client's queue at most once: the appends accepted so far and the
   messages that may still come are no more than the messages received.
   */
  predicate Room(me: Client, peer: Client, c: Side, waiting: nat, total: nat) {
    && me.queue.low + |me.queue.items| + (if NewInHand(me) then 1 else 0) + |Pending(me.msg)| +
       |Outgoing(peer, Peer(c))| + waiting <= NFTP_SIZE / 4 + total
    && (NewInHand(me) ==> me.hd.Some?)
  }

  predicate InboxRoom(inbox: Inbox, received: nat) {
    inbox.queue.low + |inbox.queue.items| + |Pending(inbox.msg)| <= NFTP_SIZE / 4 + received
  }

  predicate Roomy(s: State) {
    && Room(s.dds, s.mqtt, Dds, |Inboxed(s.inbox)|, Total(s)) && Room(s.mqtt, s.dds, Mqtt, |Inboxed(s.inbox)|, Total(s))
    && InboxRoom(s.inbox, s.mqtt.received)
  }

  lemma {:induction false} RoomyOf(s: State, c: Side)
    ensures Roomy(s) <==>
              && Room(Me(s, c), Me(s, Peer(c)), c, |Inboxed(s.inbox)|, Total(s))
              && Room(Me(s, Peer(c)), Me(s, c), Peer(c), |Inboxed(s.inbox)|, Total(s))
              && InboxRoom(s.inbox, s.mqtt.received)
    ensures Total(s) == Me(s, c).received + Me(s, Peer(c)).received
  {
    hide Room, InboxRoom, Inboxed;
  }

  lemma {:induction false} RoomPop(me: Client, peer: Client, c: Side, w: nat, n: nat)
    requires Sane(me, c) && Popping(me.pc) && Room(me, peer, c, w, n) && Room(peer, me, Peer(c), w, n)
    ensures PopStep(me, c).Some? ==>
              var m := PopStep(me, c).value;
              Room(m, peer, c, w, n) && Room(peer, m, Peer(c), w, n)
  {
    hide Outgoing;
    FlowPop(me, c);
  }

  lemma {:induction false} RoomTake(me: Client, peer: Client, c: Side, inbox: Inbox, sample: bool, n: nat)
    requires Sane(me, c) && Taking(me.pc)
    requires c == Mqtt ==> InboxTidy(inbox, me)
    requires c == Dds ==> me.pc != RecvQ && me.pc != RecvPop
    requires Room(me, peer, c, |Inboxed(inbox)|, n) && Room(peer, me, Peer(c), |Inboxed(inbox)|, n)
    ensures TakeStep(me, c, inbox, sample, true).Some? ==>
              var (m, i) := TakeStep(me, c, inbox, sample, true).value;
              && Room(m, peer, c, |Inboxed(i)|, n + m.received - me.received)
              && Room(peer, m, Peer(c), |Inboxed(i)|, n + m.received - me.received)
              && TakeLoses(me, true) == {} && m.received >= me.received && i.msg == inbox.msg
              && i.queue.low + |i.queue.items| <= inbox.queue.low + |inbox.queue.items|
              && (m.received != me.received ==> c == Dds)
  {
    hide Owns, For, Messages;
    FlowTake(me, c, inbox, sample, true);
    if me.pc == RecvPop {
      MessagesHead(inbox.queue.items);
    }
  }

  lemma {:induction false} RoomAppend(me: Client, peer: Client, c: Side, w: nat, n: nat)
    requires Sane(me, c) && Appending(me.pc) && Room(me, peer, c, w, n) && Room(peer, me, Peer(c), w, n)
    ensures AppendStep(me, c).Some? ==>
              var m := AppendStep(me, c).value;
              && Room(m, peer, c, w, n) && Room(peer, m, Peer(c), w, n)
              && (AppendLoses(me) != {} ==> n > NFTP_SIZE - NFTP_SIZE / 4)
  {
    hide Outgoing;
    FlowAppend(me, c);
  }

  lemma {:induction false} RoomWork(me: Client, peer: Client, c: Side, w: nat, n: nat)
    requires Sane(me, c) && !Popping(me.pc) && !Taking(me.pc) && !Appending(me.pc)
    requires Room(me, peer, c, w, n) && Room(peer, me, Peer(c), w, n)
    ensures WorkStep(me, peer, c).Some? ==>
              var (m, p) := WorkStep(me, peer, c).value;
              && Room(m, p, c, w, n) && Room(p, m, Peer(c), w, n)
              && (WorkLoses(me, peer) != {} ==> n > NFTP_SIZE - NFTP_SIZE / 4)
  {
    hide Sane, Incoming, Outgoing, InHand, Pushed, Room;
    if me.pc == Fwd {
      RoomForward(me, peer, c, w, n);
    } else if WorkStep(me, peer, c).Some? {
      var (m, p) := WorkStep(me, peer, c).value;
      FlowWork(me, peer, c);
      WorkKeeps(me, peer, c);
      SameRoom(me, peer, m, p, c, w, n);
      SameRoom(peer, me, p, m, Peer(c), w, n);
    }
  }

  /** Off the queue, working moves no entry and appends nothing new. */
  lemma {:induction false} WorkKeeps(me: Client, peer: Client, c: Side)
    requires Sane(me, c) && me.pc != Fwd && !Popping(me.pc) && !Taking(me.pc) && !Appending(me.pc)
    ensures WorkStep(me, peer, c).Some? ==>
              var (m, p) := WorkStep(me, peer, c).value;
              && m.queue == me.queue && m.msg == me.msg && p.queue == peer.queue && p.msg == peer.msg
              && !NewInHand(m) && p.pc == peer.pc && p.hd == peer.hd && Outgoing(m, c) == Outgoing(me, c)
              && Outgoing(p, Peer(c)) == Outgoing(peer, Peer(c)) && WorkLoses(me, peer) == {}
  {
    hide Sane, Incoming, Outgoing, InHand, Pushed, WorkStep;
    WorkMoves(me, peer, c);
    if WorkStep(me, peer, c).Some? {
      var (m, p) := WorkStep(me, peer, c).value;
      FlowDeliver(me, c);
      SameHoldings(peer, p, Peer(c));
      if m.hd == me.hd {
        SameOutgoing(me, m, c);
      }
    }
  }

  lemma {:induction false} WorkMoves(me: Client, peer: Client, c: Side)
    requires me.pc != Fwd && !Popping(me.pc) && !Taking(me.pc) && !Appending(me.pc)
    ensures WorkStep(me, peer, c).Some? ==>
              var (m, p) := WorkStep(me, peer, c).value;
              && m.queue == me.queue && m.msg == me.msg && !NewInHand(m)
              && p.queue == peer.queue && p.msg == peer.msg && p.pc == peer.pc && p.hd == peer.hd && p.sent == peer.sent
              && (m.hd == me.hd ||
                  (me.pc == Work && me.hd.Some? && me.hd.value.to == c &&
                   m == me.(pc := Top, hd := None, sent := me.sent + [me.hd.value.msg])))
    ensures WorkLoses(me, peer) == {}
  {
    hide Pushed;
  }

  lemma {:induction false} SameOutgoing(me: Client, m: Client, c: Side)
    requires m.hd == me.hd && m.queue == me.queue && m.msg == me.msg
    ensures Outgoing(m, c) == Outgoing(me, c)
  {
  }

  lemma {:induction false} SameRoom(me: Client, peer: Client, m: Client, p: Client, c: Side, w: nat, n: nat)
    requires Room(me, peer, c, w, n) && m.queue == me.queue && m.msg == me.msg
    requires Outgoing(p, Peer(c)) == Outgoing(peer, Peer(c))
    requires !NewInHand(m) || (m.pc == me.pc && m.hd == me.hd)
    ensures Room(m, p, c, w, n)
  {
    hide Outgoing;
  }

  lemma {:induction false} RoomForward(me: Client, peer: Client, c: Side, w: nat, n: nat)
    requires Sane(me, c) && me.pc == Fwd && Room(me, peer, c, w, n) && Room(peer, me, Peer(c), w, n)
    ensures var (rc, queue) := Pushed(peer.queue, me.hd, NFTP_TAIL);
            var m, p := me.(pc := FwdUnlock, hd := None), peer.(queue := queue, qlock := None);
            && Room(m, p, c, w, n) && Room(p, m, Peer(c), w, n)
            && (Dropped(rc, MsgOf(me.hd)) != {} ==> n > NFTP_SIZE - NFTP_SIZE / 4)
  {
    hide Sane, Incoming, Outgoing;
    FlowForward(me, peer, c);
  }

  /** No step loses a message before more than the budget has been received, unless `malloc` fails. */
  lemma {:induction false} RoomyLoop(s: State, c: Side, sample: bool)
    requires Inv(s) && Roomy(s) && ExecLoop(s, c, sample, true).Some?
    ensures var t := ExecLoop(s, c, sample, true).value;
            Roomy(t) && Total(t) >= Total(s) && (t.lost == s.lost || Total(t) > NFTP_SIZE - NFTP_SIZE / 4)
  {
    hide Inv, Sane, Locks, Flows, InboxTidy, Room, Inboxed, PopStep, TakeStep, AppendStep, WorkStep, TakeLoses,
      AppendLoses, WorkLoses, Roomy, Total;
    InvParts(s, c);
    RoomyOf(s, c);
    var t := ExecLoop(s, c, sample, true).value;
    RoomyOf(t, c);
    var me, peer, w, n := Me(s, c), Me(s, Peer(c)), |Inboxed(s.inbox)|, Total(s);
    if Popping(me.pc) {
      RoomPop(me, peer, c, w, n);
      FlowPop(me, c);
    } else if Taking(me.pc) {
      RoomTake(me, peer, c, s.inbox, sample, n);
      TakeKeepsInbox(me, c, s.inbox, sample, true);
    } else if Appending(me.pc) {
      RoomAppend(me, peer, c, w, n);
      FlowAppend(me, c);
    } else {
      RoomWork(me, peer, c, w, n);
      FlowWork(me, peer, c);
    }
  }

  lemma {:induction false} RoomyReceiver(s: State)
    requires Inv(s) && Roomy(s) && ExecReceiver(s).Some?
    ensures var t := ExecReceiver(s).value;
            Roomy(t) && Total(t) >= Total(s) && (t.lost == s.lost || Total(t) > NFTP_SIZE - NFTP_SIZE / 4)
  {
    hide Sane, Locks, Flows, Outgoing, Messages;
    FlowReceiver(s, ExecReceiver(s).value);
    SameOutgoing(s.mqtt, ExecReceiver(s).value.mqtt, Mqtt);
  }

  lemma {:induction false} RoomyInit()
    ensures Roomy(Init())
  {
  }

  lemma {:induction false} RoomyRun(actions: seq<Action>)
    requires Run(actions).Some? && forall a | a in actions :: a.memory
    ensures var s := Run(actions).value; Roomy(s) && (s.lost == {} || Total(s) > NFTP_SIZE - NFTP_SIZE / 4)
  {
    hide Inv, Roomy, Total, ExecLoop, ExecReceiver;
    if actions == [] {
      RoomyInit();
    } else {
      var before, a := actions[..|actions| - 1], actions[|actions| - 1];
      RoomyRun(before);
      Safe(before);
      match a.thread {
        case Receiver => RoomyReceiver(Run(before).value);
        case Loop(c) =>
          assert a in actions;
          RoomyLoop(Run(before).value, c, a.sample);
      }
    }
  }

  /**
   As long as no more than 24 messages were received from the two networks together, and
   `malloc` does not fail, no message is lost: every one is delivered or on the way.
   */
  lemma {:induction false} NothingLostWithinBudget(actions: seq<Action>, c: Side)
    requires Run(actions).Some? && forall a | a in actions :: a.memory
    requires Total(Run(actions).value) <= 24
    ensures var s := Run(actions).value;
            s.lost == {} && |Path(s, c)| == Me(s, c).received &&
            forall n | 0 <= n < Me(s, c).received :: Path(s, c)[n] == Msg(c, n)
  {
    hide Inv, Run, Path, Roomy, Total;
    RoomyRun(actions);
    Safe(actions);
    var s := Run(actions).value;
    InvParts(s, c);
    FlowsOf(s, c);
    NoneLost(c, Me(s, c).received);
  }

  lemma {:induction false} NoneLost(o: Side, n: nat)
    ensures |Survivors(o, n, {})| == n && forall k | 0 <= k < n :: Survivors(o, n, {})[k] == Msg(o, k)
  {
    if n > 0 {
      NoneLost(o, n - 1);
    }
  }

  /** Nothing is on the way: what was received and not lost has been sent. */
  predicate Quiet(s: State) {
    Path(s, Dds) == s.mqtt.sent && Path(s, Mqtt) == s.dds.sent
  }

  /**
   The budget is exact: of a run that ends with nothing on the way, and without `malloc`
   failing, no message was lost if and only if at most 24 were received in all.
   */
  lemma {:induction false} LosesNothingIffWithinBudget(actions: seq<Action>)
    requires Run(actions).Some? && (forall a | a in actions :: a.memory) && Quiet(Run(actions).value)
    ensures var s := Run(actions).value; s.lost == {} <==> Total(s) <= 24
  {
    hide Inv, Run, Path, Survivors;
    var s := Run(actions).value;
    if Total(s) <= NFTP_SIZE - NFTP_SIZE / 4 {
      NothingLostWithinBudget(actions, Dds);
    }
    if s.lost == {} {
      AllDelivered(actions);
    }
  }

  /** Whatever `malloc` does: a run that lost nothing and delivered everything received at most 24. */
  lemma {:induction false} AllDelivered(actions: seq<Action>)
    requires Run(actions).Some? && Quiet(Run(actions).value) && Run(actions).value.lost == {}
    ensures Total(Run(actions).value) <= 24
  {
    hide Inv, Run, Path, Survivors, Locks, Sane, InboxTidy;
    var s := Run(actions).value;
    Safe(actions);
    InvParts(s, Dds);
    NoneLost(Dds, s.dds.received);
    NoneLost(Mqtt, s.mqtt.received);
    DeliveryBudget(actions);
  }

  // ----- a run that loses a message -----

  const RECEIVE: Action := Action(Receiver, true, true)

  /** The receive loop on its own, three steps a message. */
  function Receives(n: nat): (r: seq<Action>)
    ensures |r| == 3 * n
    ensures forall a | a in r :: a == RECEIVE
  {
    if n == 0 then [] else Receives(n - 1) + [RECEIVE] + [RECEIVE] + [RECEIVE]
  }

  function FirstMessages(n: nat): (r: seq<Option<Msg>>)
    ensures |r| == n
  {
    if n == 0 then [] else FirstMessages(n - 1) + [Some(Msg(Mqtt, n - 1))]
  }

  /** `n` messages received and none of them taken from `rmsgq`. */
  function Flooded(n: nat): State {
    Init().(mqtt := Idle().(received := n), inbox := Inbox(Recv, None, View(NFTP_SIZE / 4, FirstMessages(n)), None))
  }

  lemma {:induction false} RunSnoc(actions: seq<Action>, a: Action)
    ensures Run(actions + [a]) == match Run(actions) case None => None case Some(s) => Exec(s, a)
  {
    assert (actions + [a])[..|actions|] == actions;
  }

  lemma {:induction false} ReceiveOne(actions: seq<Action>, s: State)
    requires Run(actions) == Some(s) && s.inbox.pc == Recv && s.inbox.qlock == None
    ensures var msg := Some(Msg(Mqtt, s.mqtt.received));
            var (rc, queue) := Pushed(s.inbox.queue, msg, NFTP_TAIL);
            Run(actions + [RECEIVE] + [RECEIVE] + [RECEIVE]) ==
            Some(s.(mqtt := s.mqtt.(received := s.mqtt.received + 1), inbox := Inbox(Recv, None, queue, None),
                    lost := s.lost + Dropped(rc, msg)))
  {
    hide Run, Pushed, Dropped, ExecLoop;
    RunSnoc(actions, RECEIVE);
    RunSnoc(actions + [RECEIVE], RECEIVE);
    RunSnoc(actions + [RECEIVE] + [RECEIVE], RECEIVE);
  }

  lemma {:induction false} Floods(n: nat)
    requires n <= NFTP_SIZE - NFTP_SIZE / 4
    ensures Run(Receives(n)) == Some(Flooded(n))
  {
    hide Run, Exec;
    if n > 0 {
      Floods(n - 1);
      ReceiveOne(Receives(n - 1), Flooded(n - 1));
      assert Flooded(n - 1).lost + {} == {};
    } else {
      RunNothing();
    }
  }

  lemma {:induction false} RunNothing()
    ensures Run([]) == Some(Flooded(0))
  {
  }

  /** The budget is reached: the 25th of 25 messages that arrive before the MQTT loop runs is lost. */
  lemma {:induction false} TwentyFifthIsLost()
    ensures var r := Run(Receives(25));
            && r.Some? && Total(r.value) == 25 && r.value.lost == {Msg(Mqtt, 24)}
            && (forall a | a in Receives(25) :: a.memory)
  {
    hide Run, Exec, FirstMessages;
    Floods(24);
    ReceiveOne(Receives(24), Flooded(24));
  }
}
