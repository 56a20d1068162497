/**
  The DHT request engine (crates/librtbit-dht/src/dht.rs): outstanding requests are found by
  (transaction id, address), transaction ids are 16 bits wide and wrap around, and requests,
  announces, responses, timeouts, send errors and cancelled tasks interleave freely. The
  engine is a state machine whose steps are the source's atomic actions.
 */
module RequestEngine {
  import opened Octets
  import opened Net

  const TRANSACTION_IDS: nat := 65536

  type Key = (nat, SocketAddr)

  /** What the sender half of a request's channel delivers. */
  datatype Reply = Received(tid: Bytes, from: SocketAddr, body: Bytes) | SendFailed(draw: nat)

  datatype Outcome = Replied(reply: Reply) | TimedOut | DhtDead

  /**
    Where the task of a request stands: it has drawn its id, put its sender into the map,
    handed the message to the worker and waits, has seen the timeout but not yet cleaned up,
    has returned, or was dropped while it waited.
   */
  datatype Phase = Drawn | Inserted | Waiting | Expired | Finished(outcome: Outcome) | Cancelled

  datatype Req = Req(addr: SocketAddr, phase: Phase, slot: Option<Reply>)

  /** A request is named by its draw: how many ids were drawn before its own. */
  datatype State = State(
    draws: nat,
    reqs: map<nat, Req>,
    inflight: map<Key, nat>,
    sends: set<(nat, SocketAddr)>,
    log: seq<(nat, Outcome)>)

  const INIT: State := State(0, map[], map[], {}, [])

  datatype Event =
    | Draw(addr: SocketAddr)
    | Insert(r: nat)
    | Enqueue(r: nat, workerAlive: bool)
    | Announce(addr: SocketAddr)
    | Receive(tid: Bytes, from: SocketAddr, body: Bytes)
    | SendDone(draw: nat, addr: SocketAddr, ok: bool)
    | Complete(r: nat)
    | Expire(r: nat)
    | CleanUp(r: nat)
    | SenderDropped(r: nat)
    | Cancel(r: nat)

  // ---------- Transaction ids on the wire ----------

  function EncodeTid(tid: nat): Bytes
    requires tid < TRANSACTION_IDS
  {
    [tid / 256, tid % 256]
  }

  /** get_our_transaction_id: anything that is not two bytes long is not ours. */
  function OurTid(b: Bytes): Option<nat> {
    if |b| != 2 then None else Some(256 * (b[0] as int) + b[1] as int)
  }

  function Tid(draw: nat): nat {
    draw % TRANSACTION_IDS
  }

  /** The id put on the wire reads back as the id drawn, and nothing else reads as that id. */
  lemma TidOnTheWire(draw: nat, b: Bytes)
    ensures OurTid(b) == Some(Tid(draw)) <==> b == EncodeTid(Tid(draw))
    ensures Tid(draw) == draw % 0x1_0000
  {
    if OurTid(b) == Some(Tid(draw)) {
      assert b == [b[0], b[1]];
    }
  }

  // ---------- Steps ----------

  function KeyOf(s: State, r: nat): Key
    requires r in s.reqs
  {
    (Tid(r), s.reqs[r].addr)
  }

  predicate InPhase(s: State, r: nat, p: Phase) {
    r in s.reqs && s.reqs[r].phase == p
  }

  predicate Enabled(s: State, e: Event) {
    match e
    case Draw(_) => true
    case Insert(r) => InPhase(s, r, Drawn)
    case Enqueue(r, _) => InPhase(s, r, Inserted)
    case Announce(_) => true
    case Receive(_, _, _) => true
    case SendDone(draw, addr, _) => (draw, addr) in s.sends
    case Complete(r) => InPhase(s, r, Waiting) && s.reqs[r].slot.Some?
    case Expire(r) => InPhase(s, r, Waiting) && s.reqs[r].slot.None?
    case CleanUp(r) => InPhase(s, r, Expired)
    case SenderDropped(r) =>
      InPhase(s, r, Waiting) && s.reqs[r].slot.None?
      && !(KeyOf(s, r) in s.inflight && s.inflight[KeyOf(s, r)] == r)
    case Cancel(r) => InPhase(s, r, Waiting)
  }

  function SetPhase(s: State, r: nat, p: Phase): State
    requires r in s.reqs
  {
    s.(reqs := s.reqs[r := s.reqs[r].(phase := p)])
  }

  function Finish(s: State, r: nat, o: Outcome): State
    requires r in s.reqs
  {
    SetPhase(s, r, Finished(o)).(log := s.log + [(r, o)])
  }

  /** Takes the sender for a key out of the map and sends on it; a closed receiver ignores it. */
  function Deliver(s: State, k: Key, reply: Reply): State {
    if k !in s.inflight then s
    else
      var r := s.inflight[k];
      var s' := s.(inflight := s.inflight - {k});
      if r in s.reqs && (s.reqs[r].phase.Inserted? || s.reqs[r].phase.Waiting?)
      then s'.(reqs := s.reqs[r := s.reqs[r].(slot := Some(reply))])
      else s'
  }

  function Step(s: State, e: Event): State
    requires Enabled(s, e)
  {
    match e
    case Draw(addr) => s.(draws := s.draws + 1, reqs := s.reqs[s.draws := Req(addr, Drawn, None)])
    case Insert(r) => SetPhase(s.(inflight := s.inflight[KeyOf(s, r) := r]), r, Inserted)
    case Enqueue(r, true) => SetPhase(s.(sends := s.sends + {(r, s.reqs[r].addr)}), r, Waiting)
    case Enqueue(r, false) => Finish(s.(inflight := s.inflight - {KeyOf(s, r)}), r, DhtDead)
    case Announce(addr) => s.(draws := s.draws + 1, sends := s.sends + {(s.draws, addr)})
    case Receive(tid, from, body) =>
      (match OurTid(tid)
       case None => s
       case Some(t) => Deliver(s, (t, from), Received(tid, from, body)))
    case SendDone(draw, addr, ok) =>
      var s' := s.(sends := s.sends - {(draw, addr)});
      if ok then s' else Deliver(s', (Tid(draw), addr), SendFailed(draw))
    case Complete(r) => Finish(s, r, Replied(s.reqs[r].slot.value))
    case Expire(r) => SetPhase(s, r, Expired)
    case CleanUp(r) => Finish(s.(inflight := s.inflight - {KeyOf(s, r)}), r, TimedOut)
    case SenderDropped(r) => Finish(s.(inflight := s.inflight - {KeyOf(s, r)}), r, DhtDead)
    case Cancel(r) => SetPhase(s, r, Cancelled)
  }

  // ---------- The window and the invariant ----------

  predicate Live(p: Phase) {
    p.Drawn? || p.Inserted? || p.Waiting? || p.Expired?
  }

  /** Fewer than 65,536 further ids were drawn since any live request or unsent message drew its own. */
  ghost predicate Window(s: State) {
    && (forall r :: r in s.reqs && Live(s.reqs[r].phase) ==> s.draws - r <= TRANSACTION_IDS)
    && (forall m :: m in s.sends ==> s.draws - m.0 <= TRANSACTION_IDS)
  }

  /** A request that still expects an answer. */
  predicate Pending(q: Req) {
    (q.phase.Inserted? || q.phase.Waiting?) && q.slot.None?
  }

  /** An answer belongs to a request: it came from its address under its id, or its own send failed. */
  predicate Answers(reply: Reply, r: nat, q: Req) {
    match reply
    case Received(tid, from, _) => OurTid(tid) == Some(Tid(r)) && from == q.addr
    case SendFailed(draw) => draw == r
  }

  ghost predicate NamesOk(s: State) {
    && (forall r :: r in s.reqs ==> r < s.draws)
    && (forall m :: m in s.sends ==> m.0 < s.draws && (m.0 in s.reqs ==> s.reqs[m.0].addr == m.1))
  }

  /** Each entry of the map is the sender of a request that owns its key and has had no answer. */
  ghost predicate EntriesOk(s: State) {
    forall k :: k in s.inflight ==>
      var r := s.inflight[k];
      && r in s.reqs && KeyOf(s, r) == k && s.reqs[r].slot.None?
      && (Pending(s.reqs[r]) || s.reqs[r].phase.Expired? || s.reqs[r].phase.Cancelled?)
  }

  /** Every request that still expects an answer can be found under its key. */
  ghost predicate PendingFindable(s: State) {
    forall r :: r in s.reqs && Pending(s.reqs[r]) ==>
      KeyOf(s, r) in s.inflight && s.inflight[KeyOf(s, r)] == r
  }

  ghost predicate SlotsOk(s: State) {
    forall r :: r in s.reqs ==>
      && (s.reqs[r].slot.Some? ==> Answers(s.reqs[r].slot.value, r, s.reqs[r]))
      && (s.reqs[r].phase.Drawn? || s.reqs[r].phase.Expired? ==> s.reqs[r].slot.None?)
  }

  /** The log holds each finished request once, with its outcome, and nothing else. */
  ghost predicate LoggedOnce(s: State) {
    && (forall i, j :: 0 <= i < j < |s.log| ==> s.log[i].0 != s.log[j].0)
    && (forall i :: 0 <= i < |s.log| ==> InPhase(s, s.log[i].0, Finished(s.log[i].1)))
    && (forall r :: r in s.reqs && s.reqs[r].phase.Finished? ==> (r, s.reqs[r].phase.outcome) in s.log)
  }

  ghost predicate LogOk(s: State) {
    && LoggedOnce(s)
    && (forall i :: 0 <= i < |s.log| && s.log[i].1.Replied? ==>
          s.log[i].0 in s.reqs && Answers(s.log[i].1.reply, s.log[i].0, s.reqs[s.log[i].0]))
  }

  ghost predicate Inv(s: State) {
    NamesOk(s) && EntriesOk(s) && PendingFindable(s) && SlotsOk(s) && LogOk(s)
  }

  lemma SameTid(s: State, a: nat, b: nat)
    requires a < s.draws && b < s.draws && s.draws - a <= TRANSACTION_IDS && s.draws - b <= TRANSACTION_IDS
    requires Tid(a) == Tid(b)
    ensures a == b
  {
  }

  /** In the window, two live things with the same key are the same request. */
  lemma EntryIsOwn(s: State, k: Key, r: nat)
    requires Inv(s) && Window(s) && r < s.draws && s.draws - r <= TRANSACTION_IDS
    requires k in s.inflight && k.0 == Tid(r)
    ensures s.inflight[k] == r || s.reqs[s.inflight[k]].phase.Cancelled?
  {
    var q := s.inflight[k];
    assert KeyOf(s, q) == k;
    if !s.reqs[q].phase.Cancelled? {
      SameTid(s, q, r);
    }
  }

  // ---------- Every step keeps the invariant ----------

  lemma DrawKeeps(s: State, addr: SocketAddr)
    requires Inv(s)
    ensures Inv(Step(s, Draw(addr)))
  {
  }

  /** Another request still waits for an answer under the key of r. */
  ghost predicate Conflict(s: State, r: nat)
    requires r in s.reqs
  {
    exists q :: q in s.reqs && Pending(s.reqs[q]) && KeyOf(s, q) == KeyOf(s, r)
  }

  lemma InsertPreserves(s: State, r: nat)
    requires Inv(s) && Enabled(s, Insert(r)) && !Conflict(s, r)
    ensures Inv(Step(s, Insert(r)))
  {
    var s' := Step(s, Insert(r));
    LogFrame(s, s');
    InsertEntries(s, r);
  }

  lemma InsertEntries(s: State, r: nat)
    requires EntriesOk(s) && PendingFindable(s) && SlotsOk(s) && Enabled(s, Insert(r)) && !Conflict(s, r)
    ensures EntriesOk(Step(s, Insert(r))) && PendingFindable(Step(s, Insert(r)))
  {
    var s' := Step(s, Insert(r));
    assert forall q :: q in s.reqs && q != r ==> s'.reqs[q] == s.reqs[q];
  }

  /** Putting a sender into the map overwrites at most the leftover of a cancelled request. */
  lemma InsertKeeps(s: State, r: nat)
    requires Inv(s) && Window(s) && Enabled(s, Insert(r))
    ensures Inv(Step(s, Insert(r)))
    ensures KeyOf(s, r) in s.inflight ==> s.reqs[s.inflight[KeyOf(s, r)]].phase.Cancelled?
  {
    if KeyOf(s, r) in s.inflight { EntryIsOwn(s, KeyOf(s, r), r); }
    InsertPreserves(s, r);
  }

  lemma EnqueueKeeps(s: State, r: nat)
    requires Inv(s) && Enabled(s, Enqueue(r, true))
    ensures Inv(Step(s, Enqueue(r, true)))
  {
    LogFrame(s, Step(s, Enqueue(r, true)));
  }

  lemma AnnounceKeeps(s: State, addr: SocketAddr)
    requires Inv(s)
    ensures Inv(Step(s, Announce(addr)))
  {
  }

  /** The log depends only on finished requests. */
  lemma LoggedFrame(s: State, s': State)
    requires LoggedOnce(s) && s'.log == s.log
    requires forall q :: q in s.reqs && s.reqs[q].phase.Finished? ==>
               q in s'.reqs && s'.reqs[q].phase == s.reqs[q].phase
    requires forall q :: q in s'.reqs && s'.reqs[q].phase.Finished? ==>
               q in s.reqs && s'.reqs[q].phase == s.reqs[q].phase
    ensures LoggedOnce(s')
  {
  }

  lemma LogFrame(s: State, s': State)
    requires LogOk(s) && s'.log == s.log
    requires forall q :: q in s.reqs ==> q in s'.reqs && s'.reqs[q].addr == s.reqs[q].addr
    requires forall q :: q in s.reqs && s.reqs[q].phase.Finished? ==> s'.reqs[q].phase == s.reqs[q].phase
    requires forall q :: q in s'.reqs && s'.reqs[q].phase.Finished? ==>
               q in s.reqs && s'.reqs[q].phase == s.reqs[q].phase
    ensures LogOk(s')
  {
  }

  lemma DeliverEntries(s: State, k: Key, reply: Reply)
    requires EntriesOk(s) && PendingFindable(s) && k in s.inflight
    ensures EntriesOk(Deliver(s, k, reply)) && PendingFindable(Deliver(s, k, reply))
  {
    var r, s' := s.inflight[k], Deliver(s, k, reply);
    assert KeyOf(s, r) == k;
    assert forall q :: q in s.reqs && q != r ==> s'.reqs[q] == s.reqs[q];
  }

  lemma DeliverKeeps(s: State, k: Key, reply: Reply)
    requires Inv(s)
    requires k in s.inflight && Pending(s.reqs[s.inflight[k]]) ==> Answers(reply, s.inflight[k], s.reqs[s.inflight[k]])
    ensures Inv(Deliver(s, k, reply))
  {
    if k in s.inflight {
      var s' := Deliver(s, k, reply);
      LogFrame(s, s');
      DeliverEntries(s, k, reply);
    }
  }

  /** The entry under a key belongs to a request other than r that still expects an answer. */
  ghost predicate TakenByOther(s: State, k: Key, r: nat) {
    k in s.inflight && s.inflight[k] != r && s.inflight[k] in s.reqs && Pending(s.reqs[s.inflight[k]])
  }

  /** A failed send, of a request or of an announce, answers a request exactly if its key is its own. */
  lemma SendDoneKeeps(s: State, draw: nat, addr: SocketAddr, ok: bool)
    requires Inv(s) && Enabled(s, SendDone(draw, addr, ok))
    ensures Inv(Step(s, SendDone(draw, addr, ok))) <==> ok || !TakenByOther(s, (Tid(draw), addr), draw)
  {
    var s', k := s.(sends := s.sends - {(draw, addr)}), (Tid(draw), addr);
    assert Inv(s');
    if !ok && TakenByOther(s, k, draw) {
      var q := s.inflight[k];
      assert Step(s, SendDone(draw, addr, ok)).reqs[q].slot == Some(SendFailed(draw));
    } else if !ok {
      DeliverKeeps(s', k, SendFailed(draw));
    }
  }

  lemma FinishLogs(s: State, s': State, r: nat, o: Outcome)
    requires LogOk(s) && r in s.reqs && !s.reqs[r].phase.Finished?
    requires o.Replied? ==> Answers(o.reply, r, s.reqs[r])
    requires s' == Finish(s, r, o).(inflight := s'.inflight)
    ensures LogOk(s')
  {
    assert forall i :: 0 <= i < |s.log| ==> s'.log[i] == s.log[i];
    assert s'.log[|s.log|] == (r, o);
    FinishLogged(s, s', r, o);
  }

  lemma FinishLogged(s: State, s': State, r: nat, o: Outcome)
    requires LoggedOnce(s) && r in s.reqs && !s.reqs[r].phase.Finished?
    requires s' == Finish(s, r, o).(inflight := s'.inflight)
    ensures LoggedOnce(s')
  {
    assert forall i :: 0 <= i < |s.log| ==> s'.log[i] == s.log[i];
    assert s'.log[|s.log|] == (r, o);
    forall q | q in s'.reqs && s'.reqs[q].phase.Finished? ensures (q, s'.reqs[q].phase.outcome) in s'.log {
      if q != r { assert (q, s.reqs[q].phase.outcome) in s.log; }
    }
  }

  lemma CompleteKeeps(s: State, r: nat)
    requires Inv(s) && Enabled(s, Complete(r))
    ensures Inv(Step(s, Complete(r)))
  {
    var s' := Step(s, Complete(r));
    FinishLogs(s, s', r, Replied(s.reqs[r].slot.value));
    assert forall q :: q in s.reqs && q != r ==> s'.reqs[q] == s.reqs[q];
  }

  lemma ExpireKeeps(s: State, r: nat)
    requires Inv(s) && Enabled(s, Expire(r))
    ensures Inv(Step(s, Expire(r)))
  {
    LogFrame(s, Step(s, Expire(r)));
  }

  /** The state after a request has removed its key and returned an error. */
  function Leave(s: State, r: nat, o: Outcome): State
    requires r in s.reqs
  {
    Finish(s.(inflight := s.inflight - {KeyOf(s, r)}), r, o)
  }

  lemma LeaveEntries(s: State, r: nat, o: Outcome)
    requires EntriesOk(s) && PendingFindable(s) && r in s.reqs && !TakenByOther(s, KeyOf(s, r), r)
    requires s.reqs[r].phase.Inserted? || s.reqs[r].phase.Expired?
    ensures EntriesOk(Leave(s, r, o)) && PendingFindable(Leave(s, r, o))
  {
    var s' := Leave(s, r, o);
    assert forall q :: q in s.reqs && q != r ==> s'.reqs[q] == s.reqs[q];
    assert forall q :: q in s.reqs ==> KeyOf(s', q) == KeyOf(s, q);
  }

  /** Removing a key and returning an error disturbs another request exactly if the key is its own. */
  lemma LeaveKeeps(s: State, r: nat, o: Outcome)
    requires Inv(s) && r in s.reqs && !o.Replied?
    requires s.reqs[r].phase.Inserted? || s.reqs[r].phase.Expired?
    ensures Inv(Leave(s, r, o)) <==> !TakenByOther(s, KeyOf(s, r), r)
  {
    var k := KeyOf(s, r);
    if TakenByOther(s, k, r) {
      var q := s.inflight[k];
      assert KeyOf(s, q) == k && Pending(Leave(s, r, o).reqs[q]);
    } else {
      LeaveEntries(s, r, o);
      FinishLogs(s, Leave(s, r, o), r, o);
    }
  }

  lemma CancelKeeps(s: State, r: nat)
    requires Inv(s) && Enabled(s, Cancel(r))
    ensures Inv(Step(s, Cancel(r)))
  {
    LogFrame(s, Step(s, Cancel(r)));
  }

  /** In the window no sender is ever dropped unanswered. */
  lemma NoSenderDropped(s: State, r: nat)
    requires Inv(s)
    ensures !Enabled(s, SenderDropped(r))
  {
  }

  /** Whatever the window, an insertion does harm exactly when another request waits under the same key. */
  lemma InsertHarmIff(s: State, r: nat)
    requires Inv(s) && Enabled(s, Insert(r))
    ensures Inv(Step(s, Insert(r))) <==> !Conflict(s, r)
  {
    var s' := Step(s, Insert(r));
    if Conflict(s, r) {
      var q :| q in s.reqs && Pending(s.reqs[q]) && KeyOf(s, q) == KeyOf(s, r);
      assert Pending(s'.reqs[q]) && s'.inflight[KeyOf(s', q)] == r != q;
    } else {
      InsertPreserves(s, r);
    }
  }

  /**
    The steps that do harm: a request is registered, cleans up or gives up, or a send fails, while
    another request that still expects an answer has the same key. Replies are looked at below.
   */
  ghost predicate Harm(s: State, e: Event)
    requires Enabled(s, e)
  {
    match e
    case Insert(r) => Conflict(s, r)
    case Enqueue(r, alive) => !alive && TakenByOther(s, KeyOf(s, r), r)
    case CleanUp(r) => TakenByOther(s, KeyOf(s, r), r)
    case SendDone(draw, addr, ok) => !ok && TakenByOther(s, (Tid(draw), addr), draw)
    case _ => false
  }

  /** Window or not, a step keeps the invariant exactly when it does no harm. */
  lemma StepHarmIff(s: State, e: Event)
    requires Inv(s) && Enabled(s, e)
    ensures Inv(Step(s, e)) <==> !Harm(s, e)
  {
    match e {
      case Draw(addr) => DrawKeeps(s, addr);
      case Insert(r) => InsertHarmIff(s, r);
      case Enqueue(r, alive) => if alive { EnqueueKeeps(s, r); } else { LeaveKeeps(s, r, DhtDead); }
      case Announce(addr) => AnnounceKeeps(s, addr);
      case Receive(tid, from, body) =>
        if OurTid(tid).Some? { DeliverKeeps(s, (OurTid(tid).value, from), Received(tid, from, body)); }
      case SendDone(draw, addr, ok) => SendDoneKeeps(s, draw, addr, ok);
      case Complete(r) => CompleteKeeps(s, r);
      case Expire(r) => ExpireKeeps(s, r);
      case CleanUp(r) => LeaveKeeps(s, r, TimedOut);
      case SenderDropped(r) => NoSenderDropped(s, r);
      case Cancel(r) => CancelKeeps(s, r);
    }
  }

  /** In the window no step does harm. */
  lemma WindowIsSafe(s: State, e: Event)
    requires Inv(s) && Window(s) && Enabled(s, e)
    ensures !Harm(s, e)
  {
    match e {
      case Insert(r) =>
        if KeyOf(s, r) in s.inflight { EntryIsOwn(s, KeyOf(s, r), r); }
      case Enqueue(r, _) =>
        if KeyOf(s, r) in s.inflight { EntryIsOwn(s, KeyOf(s, r), r); }
      case CleanUp(r) =>
        if KeyOf(s, r) in s.inflight { EntryIsOwn(s, KeyOf(s, r), r); }
      case SendDone(draw, addr, _) =>
        if (Tid(draw), addr) in s.inflight { EntryIsOwn(s, (Tid(draw), addr), draw); }
      case _ =>
    }
  }

  lemma StepKeeps(s: State, e: Event)
    requires Inv(s) && Window(s) && Enabled(s, e)
    ensures Inv(Step(s, e))
  {
    WindowIsSafe(s, e);
    StepHarmIff(s, e);
  }

  // ---------- Runs ----------

  ghost predicate IsRun(states: seq<State>, events: seq<Event>) {
    && |states| == |events| + 1 && states[0] == INIT
    && forall i :: 0 <= i < |events| ==> Enabled(states[i], events[i]) && states[i + 1] == Step(states[i], events[i])
  }

  ghost predicate InWindow(states: seq<State>) {
    forall i :: 0 <= i < |states| ==> Window(states[i])
  }

  /** Every state of every run that stays in the window satisfies the invariant. */
  lemma {:induction false} RunKeeps(states: seq<State>, events: seq<Event>, n: nat)
    requires IsRun(states, events) && InWindow(states) && n < |states|
    ensures Inv(states[n])
  {
    if n > 0 {
      RunKeeps(states, events, n - 1);
      StepKeeps(states[n - 1], events[n - 1]);
    }
  }

  // ---------- Every run, in the window or not ----------

  ghost predicate SlotsEmpty(s: State) {
    forall r :: r in s.reqs && (s.reqs[r].phase.Drawn? || s.reqs[r].phase.Expired?) ==> s.reqs[r].slot.None?
  }

  /** What no step ever breaks. */
  ghost predicate Basic(s: State) {
    NamesOk(s) && SlotsEmpty(s) && EntriesOk(s) && LoggedOnce(s)
  }

  lemma {:induction false} RunBasic(states: seq<State>, events: seq<Event>, n: nat)
    requires IsRun(states, events) && n < |states|
    ensures Basic(states[n])
  {
    if n > 0 {
      RunBasic(states, events, n - 1);
      assert states[n - 1 + 1] == Step(states[n - 1], events[n - 1]);
      StepBasic(states[n - 1], events[n - 1]);
    }
  }

  lemma StepBasic(s: State, e: Event)
    requires Basic(s) && Enabled(s, e)
    ensures Basic(Step(s, e))
  {
    StepNames(s, e);
    StepSlots(s, e);
    StepEntries(s, e);
    StepLogs(s, e);
  }

  lemma StepNames(s: State, e: Event)
    requires NamesOk(s) && Enabled(s, e)
    ensures NamesOk(Step(s, e))
  {
  }

  lemma StepSlots(s: State, e: Event)
    requires SlotsEmpty(s) && Enabled(s, e)
    ensures SlotsEmpty(Step(s, e))
  {
  }

  lemma StepEntries(s: State, e: Event)
    requires EntriesOk(s) && SlotsEmpty(s) && NamesOk(s) && Enabled(s, e)
    ensures EntriesOk(Step(s, e))
  {
    match e {
      case Enqueue(r, alive) => if !alive { LeftEntries(s, r, DhtDead); }
      case Receive(tid, from, body) =>
        if OurTid(tid).Some? { DeliveredEntries(s, (OurTid(tid).value, from), Received(tid, from, body)); }
      case SendDone(draw, addr, ok) =>
        DeliveredEntries(s.(sends := s.sends - {(draw, addr)}), (Tid(draw), addr), SendFailed(draw));
      case CleanUp(r) => LeftEntries(s, r, TimedOut);
      case SenderDropped(r) => LeftEntries(s, r, DhtDead);
      case _ =>
    }
  }

  lemma LeftEntries(s: State, r: nat, o: Outcome)
    requires EntriesOk(s) && r in s.reqs
    ensures EntriesOk(Leave(s, r, o))
  {
    var s' := Leave(s, r, o);
    assert forall q :: q in s.reqs ==> KeyOf(s', q) == KeyOf(s, q);
  }

  lemma DeliveredEntries(s: State, k: Key, reply: Reply)
    requires EntriesOk(s)
    ensures EntriesOk(Deliver(s, k, reply))
  {
    var s' := Deliver(s, k, reply);
    assert forall q :: q in s.reqs ==> KeyOf(s', q) == KeyOf(s, q);
  }

  lemma StepLogs(s: State, e: Event)
    requires LoggedOnce(s) && NamesOk(s) && Enabled(s, e)
    ensures LoggedOnce(Step(s, e))
  {
    var s' := Step(s, e);
    match e {
      case Enqueue(r, alive) => if alive { LoggedFrame(s, s'); } else { FinishLogged(s, s', r, DhtDead); }
      case Complete(r) => FinishLogged(s, s', r, Replied(s.reqs[r].slot.value));
      case CleanUp(r) => FinishLogged(s, s', r, TimedOut);
      case SenderDropped(r) => FinishLogged(s, s', r, DhtDead);
      case Receive(tid, from, body) =>
        if OurTid(tid).Some? { DeliveredLogs(s, (OurTid(tid).value, from), Received(tid, from, body)); }
      case SendDone(draw, addr, ok) =>
        DeliveredLogs(s.(sends := s.sends - {(draw, addr)}), (Tid(draw), addr), SendFailed(draw));
      case _ => LoggedFrame(s, s');
    }
  }

  lemma DeliveredLogs(s: State, k: Key, reply: Reply)
    requires LoggedOnce(s)
    ensures LoggedOnce(Deliver(s, k, reply))
  {
    LoggedFrame(s, Deliver(s, k, reply));
  }

  lemma StepIsFinal(s: State, e: Event, r: nat)
    requires NamesOk(s) && Enabled(s, e) && r in s.reqs
    ensures var s' := Step(s, e);
            && r in s'.reqs && s'.reqs[r].addr == s.reqs[r].addr
            && (s.reqs[r].phase.Finished? ==> s'.reqs[r].phase == s.reqs[r].phase)
  {
  }

  /** A request's address and, once it has one, its outcome never change. */
  lemma {:induction false} OutcomeIsFinal(states: seq<State>, events: seq<Event>, m: nat, n: nat, r: nat)
    requires IsRun(states, events) && m <= n < |states| && r in states[m].reqs
    ensures r in states[n].reqs && states[n].reqs[r].addr == states[m].reqs[r].addr
    ensures states[m].reqs[r].phase.Finished? ==> states[n].reqs[r].phase == states[m].reqs[r].phase
  {
    if m < n {
      OutcomeIsFinal(states, events, m, n - 1, r);
      NextIsFinal(states, events, n - 1, r);
    }
  }

  lemma NextIsFinal(states: seq<State>, events: seq<Event>, n: nat, r: nat)
    requires IsRun(states, events) && n < |events| && r in states[n].reqs
    ensures r in states[n + 1].reqs && states[n + 1].reqs[r].addr == states[n].reqs[r].addr
    ensures states[n].reqs[r].phase.Finished? ==> states[n + 1].reqs[r].phase == states[n].reqs[r].phase
  {
    RunBasic(states, events, n);
    StepIsFinal(states[n], events[n], r);
  }

  // ---------- Which outcome a request gets ----------

  /** Some step before the n-th is this one. */
  ghost predicate Happened(events: seq<Event>, n: nat, e: Event)
    requires n <= |events|
  {
    exists j :: 0 <= j < n && events[j] == e
  }

  /** How a request ends, read off the one step that ends it. */
  ghost predicate EndsAs(e: Event, r: nat, p: Phase) {
    match p
    case Finished(TimedOut) => e == CleanUp(r)
    case Finished(DhtDead) => e == Enqueue(r, false) || e == SenderDropped(r)
    case Finished(Replied(_)) => e == Complete(r)
    case Cancelled => e == Cancel(r)
    case Expired => e == Expire(r)
    case _ => false
  }

  ghost predicate Ended(p: Phase) {
    p.Finished? || p.Cancelled?
  }

  /** A step changes a phase to one of these only if it is the step for that, and then does. */
  lemma StepEnds(s: State, e: Event, r: nat, p: Phase)
    requires NamesOk(s) && Enabled(s, e) && (Ended(p) || p.Expired?)
    ensures InPhase(Step(s, e), r, p) && !InPhase(s, r, p) ==> EndsAs(e, r, p)
    ensures InPhase(Step(s, e), r, p) && !InPhase(s, r, p) && p == Finished(TimedOut) ==> InPhase(s, r, Expired)
    ensures InPhase(s, r, p) && Ended(p) ==> InPhase(Step(s, e), r, p)
  {
  }

  lemma StepEndsSo(s: State, e: Event, r: nat)
    requires NamesOk(s) && Enabled(s, e)
    ensures e == CleanUp(r) ==> InPhase(Step(s, e), r, Finished(TimedOut))
    ensures e == Enqueue(r, false) || e == SenderDropped(r) ==> InPhase(Step(s, e), r, Finished(DhtDead))
    ensures e == Cancel(r) ==> InPhase(Step(s, e), r, Cancelled)
    ensures e == Complete(r) ==> r in Step(s, e).reqs && Step(s, e).reqs[r].phase.Finished?
                                 && Step(s, e).reqs[r].phase.outcome.Replied?
  {
  }

  /** The step at which a request came to a phase that it is in. */
  lemma {:induction false} EndedIn(states: seq<State>, events: seq<Event>, n: nat, r: nat, p: Phase) returns (j: nat)
    requires IsRun(states, events) && n < |states| && (Ended(p) || p.Expired?) && InPhase(states[n], r, p)
    ensures j < n && EndsAs(events[j], r, p) && (p == Finished(TimedOut) ==> InPhase(states[j], r, Expired))
  {
    RunBasic(states, events, n - 1);
    assert states[n - 1 + 1] == Step(states[n - 1], events[n - 1]);
    StepEnds(states[n - 1], events[n - 1], r, p);
    if InPhase(states[n - 1], r, p) { j := EndedIn(states, events, n - 1, r, p); } else { j := n - 1; }
  }

  /** Once there, it stays. */
  lemma {:induction false} EndedStays(states: seq<State>, events: seq<Event>, m: nat, n: nat, r: nat, p: Phase)
    requires IsRun(states, events) && m <= n < |states| && Ended(p) && InPhase(states[m], r, p)
    ensures InPhase(states[n], r, p)
  {
    if m < n {
      EndedStays(states, events, m, n - 1, r, p);
      RunBasic(states, events, n - 1);
      assert states[n - 1 + 1] == Step(states[n - 1], events[n - 1]);
      StepEnds(states[n - 1], events[n - 1], r, p);
    }
  }

  /** A request timed out exactly if it saw its timeout and then cleaned up. */
  lemma TimedOutIff(states: seq<State>, events: seq<Event>, n: nat, r: nat)
    requires IsRun(states, events) && n < |states|
    ensures InPhase(states[n], r, Finished(TimedOut)) <==>
              exists i, j :: 0 <= i < j < n && events[i] == Expire(r) && events[j] == CleanUp(r)
  {
    if InPhase(states[n], r, Finished(TimedOut)) {
      var j := EndedIn(states, events, n, r, Finished(TimedOut));
      var i := EndedIn(states, events, j, r, Expired);
    }
    if i, j :| 0 <= i < j < n && events[i] == Expire(r) && events[j] == CleanUp(r) {
      EndsSo(states, events, j, n, r);
    }
  }

  lemma EndsSo(states: seq<State>, events: seq<Event>, j: nat, n: nat, r: nat)
    requires IsRun(states, events) && j < n < |states|
    ensures events[j] == CleanUp(r) ==> InPhase(states[n], r, Finished(TimedOut))
    ensures events[j] == Enqueue(r, false) || events[j] == SenderDropped(r) ==> InPhase(states[n], r, Finished(DhtDead))
    ensures events[j] == Cancel(r) ==> InPhase(states[n], r, Cancelled)
    ensures events[j] == Complete(r) ==> r in states[n].reqs && states[n].reqs[r].phase.Finished?
                                         && states[n].reqs[r].phase.outcome.Replied?
  {
    RunBasic(states, events, j);
    assert states[j + 1] == Step(states[j], events[j]);
    StepEndsSo(states[j], events[j], r);
    if r in states[j + 1].reqs && Ended(states[j + 1].reqs[r].phase) {
      EndedStays(states, events, j + 1, n, r, states[j + 1].reqs[r].phase);
    }
  }

  /** It found the engine dead exactly if its message could not be handed over or its sender was dropped. */
  lemma DhtDeadIff(states: seq<State>, events: seq<Event>, n: nat, r: nat)
    requires IsRun(states, events) && n < |states|
    ensures InPhase(states[n], r, Finished(DhtDead)) <==>
              Happened(events, n, Enqueue(r, false)) || Happened(events, n, SenderDropped(r))
  {
    if InPhase(states[n], r, Finished(DhtDead)) {
      var j := EndedIn(states, events, n, r, Finished(DhtDead));
    }
    if j :| 0 <= j < n && (events[j] == Enqueue(r, false) || events[j] == SenderDropped(r)) {
      EndsSo(states, events, j, n, r);
    }
  }

  /** It got a reply exactly if it took one from its channel, and it was cancelled exactly if it was dropped. */
  lemma RepliedIff(states: seq<State>, events: seq<Event>, n: nat, r: nat)
    requires IsRun(states, events) && n < |states|
    ensures (exists reply :: InPhase(states[n], r, Finished(Replied(reply)))) <==> Happened(events, n, Complete(r))
    ensures InPhase(states[n], r, Cancelled) <==> Happened(events, n, Cancel(r))
  {
    if reply :| InPhase(states[n], r, Finished(Replied(reply))) {
      var j := EndedIn(states, events, n, r, Finished(Replied(reply)));
    }
    if InPhase(states[n], r, Cancelled) {
      var j := EndedIn(states, events, n, r, Cancelled);
    }
    if j :| 0 <= j < n && events[j] == Complete(r) {
      EndsSo(states, events, j, n, r);
      assert InPhase(states[n], r, Finished(Replied(states[n].reqs[r].phase.outcome.reply)));
    }
    if j :| 0 <= j < n && events[j] == Cancel(r) {
      EndsSo(states, events, j, n, r);
    }
  }

  ghost function KeysOf(s: State, p: Req -> bool): set<Key> {
    set r | r in s.reqs && p(s.reqs[r]) :: KeyOf(s, r)
  }

  /**
    The map's keys are those of requests that still expect an answer, of requests about to clean up
    after a timeout and of cancelled requests. If no step so far did harm, all of the first are there.
   */
  lemma InflightKeys(states: seq<State>, events: seq<Event>, n: nat)
    requires IsRun(states, events) && n < |states|
    ensures var s := states[n];
            && s.inflight.Keys <= KeysOf(s, (q: Req) => Pending(q) || q.phase.Expired? || q.phase.Cancelled?)
            && (NoHarmBefore(states, events, n) ==> KeysOf(s, Pending) <= s.inflight.Keys)
  {
    RunBasic(states, events, n);
    var s := states[n];
    forall k | k in s.inflight.Keys
      ensures k in KeysOf(s, (q: Req) => Pending(q) || q.phase.Expired? || q.phase.Cancelled?)
    {
      assert KeyOf(s, s.inflight[k]) == k;
    }
    if NoHarmBefore(states, events, n) {
      RunHarmIff(states, events, n);
      assert Inv(states[n]);
    }
  }

  // ---------- Outside the window ----------

  ghost predicate InvUpTo(states: seq<State>, n: nat)
    requires n < |states|
  {
    forall i :: 0 <= i <= n ==> Inv(states[i])
  }

  ghost predicate NoHarmBefore(states: seq<State>, events: seq<Event>, n: nat)
    requires IsRun(states, events) && n < |states|
  {
    forall i :: 0 <= i < n ==> !Harm(states[i], events[i])
  }

  /** The states of a run satisfy the invariant up to any point exactly when no step before it does harm. */
  lemma {:induction false} RunHarmIff(states: seq<State>, events: seq<Event>, n: nat)
    requires IsRun(states, events) && n < |states|
    ensures InvUpTo(states, n) <==> NoHarmBefore(states, events, n)
  {
    if n > 0 {
      RunHarmIff(states, events, n - 1);
      LastStepHarmIff(states, events, n);
    }
  }

  lemma LastStepHarmIff(states: seq<State>, events: seq<Event>, n: nat)
    requires IsRun(states, events) && 0 < n < |states|
    ensures InvUpTo(states, n) <==> InvUpTo(states, n - 1) && !Harm(states[n - 1], events[n - 1])
  {
    assert states[n - 1 + 1] == Step(states[n - 1], events[n - 1]);
    if Inv(states[n - 1]) { StepHarmIff(states[n - 1], events[n - 1]); }
  }

  ghost function Last(states: seq<State>): State
    requires states != []
  {
    states[|states| - 1]
  }

  /** A run, one step longer. */
  lemma Then(states: seq<State>, events: seq<Event>, e: Event) returns (states': seq<State>, events': seq<Event>)
    requires IsRun(states, events) && Enabled(Last(states), e)
    ensures IsRun(states', events') && Last(states') == Step(Last(states), e)
    ensures Inv(Last(states)) && !Harm(Last(states), e) ==> Inv(Last(states'))
  {
    var s := Last(states);
    states', events' := states + [Step(s, e)], events + [e];
    Extend(states, events, e);
    if Inv(s) && !Harm(s, e) { StepHarmIff(s, e); }
  }

  lemma Extend(states: seq<State>, events: seq<Event>, e: Event)
    requires IsRun(states, events) && Enabled(Last(states), e)
    ensures IsRun(states + [Step(Last(states), e)], events + [e])
  {
  }

  lemma {:induction false} ManyAnnounces(states: seq<State>, events: seq<Event>, addr: SocketAddr, n: nat)
    returns (states': seq<State>, events': seq<Event>)
    requires IsRun(states, events)
    ensures IsRun(states', events')
    ensures var s, s' := Last(states), Last(states');
            && s'.draws == s.draws + n && s'.reqs == s.reqs && s'.inflight == s.inflight
            && (Inv(s) ==> Inv(s'))
  {
    if n == 0 {
      states', events' := states, events;
    } else {
      states', events' := ManyAnnounces(states, events, addr, n - 1);
      states', events' := Then(states', events', Announce(addr));
    }
  }

  /** One more request, under the id that the first draw got. */
  lemma Reuse(states: seq<State>, events: seq<Event>, addr: SocketAddr)
    returns (states': seq<State>, events': seq<Event>)
    requires IsRun(states, events) && Last(states).draws == TRANSACTION_IDS
    ensures IsRun(states', events')
    ensures Last(states') == Reused(Last(states), addr)
  {
    states', events' := Then(states, events, Draw(addr));
    states', events' := Then(states', events', Insert(TRANSACTION_IDS));
  }

  function Reused(s: State, addr: SocketAddr): State
    requires s.draws == TRANSACTION_IDS
  {
    Step(Step(s, Draw(addr)), Insert(TRANSACTION_IDS))
  }

  /** A run of one request, which has been sent. */
  lemma OneRequest(addr: SocketAddr) returns (states: seq<State>, events: seq<Event>)
    ensures IsRun(states, events) && Inv(Last(states))
    ensures Last(states) == State(1, map[0 := Req(addr, Waiting, None)], map[(0, addr) := 0], {(0, addr)}, [])
  {
    states, events := Then([INIT], [], Draw(addr));
    assert Last(states) == State(1, map[0 := Req(addr, Drawn, None)], map[], {}, []);
    states, events := Then(states, events, Insert(0));
    assert Last(states) == State(1, map[0 := Req(addr, Inserted, None)], map[(0, addr) := 0], {}, []);
    states, events := Then(states, events, Enqueue(0, true));
  }

  /** A run of one request, still waiting or timed out, and then of announces until the ids come round. */
  lemma AroundOnce(addr: SocketAddr, expired: bool) returns (states: seq<State>, events: seq<Event>)
    ensures IsRun(states, events) && Inv(Last(states))
    ensures var s := Last(states);
            && s.draws == TRANSACTION_IDS && s.inflight == map[(0, addr) := 0]
            && s.reqs == map[0 := Req(addr, if expired then Expired else Waiting, None)]
  {
    states, events := OneRequest(addr);
    if expired {
      states, events := Then(states, events, Expire(0));
    }
    states, events := ManyAnnounces(states, events, addr, TRANSACTION_IDS - 1);
  }

  /**
    The window is needed: a run that draws 65,536 ids while one request waits ends with that
    request's sender dropped unanswered, and cleaning up then takes the newer request's entry.
   */
  lemma WrapAround(addr: SocketAddr) returns (states: seq<State>, events: seq<Event>)
    ensures IsRun(states, events) && Enabled(Last(states), SenderDropped(0))
    ensures var s := Step(Last(states), SenderDropped(0));
            TRANSACTION_IDS in s.reqs && Pending(s.reqs[TRANSACTION_IDS]) && KeyOf(s, TRANSACTION_IDS) !in s.inflight
  {
    states, events := AroundOnce(addr, false);
    states, events := Reuse(states, events, addr);
  }

  /**
    No insertion need be to blame: when a request has timed out but not cleaned up yet, one that
    draws the same id is registered without harm, and the clean-up then takes its entry.
   */
  lemma LateCleanUp(addr: SocketAddr) returns (states: seq<State>, events: seq<Event>)
    ensures IsRun(states, events) && Inv(Last(states))
    ensures Enabled(Last(states), CleanUp(0)) && Harm(Last(states), CleanUp(0))
  {
    states, events := AroundOnce(addr, true);
    var s := Last(states);
    DrawKeeps(s, addr);
    InsertHarmIff(Step(s, Draw(addr)), TRANSACTION_IDS);
    states, events := Reuse(states, events, addr);
  }

  // ---------- Whose reply it is ----------

  /** No request but that of draw a, if it is one, is changed. */
  ghost predicate OthersAlone(s: State, s': State, a: nat) {
    forall q :: q in s.reqs && q != a ==> q in s'.reqs && s'.reqs[q] == s.reqs[q]
  }

  /**
    A reply names a transaction id, not a draw. Window or not, the reply to the message of draw a,
    a request or an announce, leaves all other requests alone exactly unless one waits under its key.
   */
  lemma ReplyHarmIff(s: State, a: nat, tid: Bytes, from: SocketAddr, body: Bytes)
    requires EntriesOk(s) && OurTid(tid) == Some(Tid(a))
    ensures OthersAlone(s, Step(s, Receive(tid, from, body)), a) <==> !TakenByOther(s, (Tid(a), from), a)
  {
    var k := (Tid(a), from);
    if TakenByOther(s, k, a) {
      var q := s.inflight[k];
      assert Step(s, Receive(tid, from, body)).reqs[q].slot == Some(Received(tid, from, body));
    }
  }

  /** In the window a reply does no such harm if fewer than 65,536 ids were drawn since its message's. */
  lemma PromptReplyIsSafe(s: State, a: nat, from: SocketAddr)
    requires Inv(s) && Window(s) && a < s.draws && s.draws - a <= TRANSACTION_IDS
    ensures !TakenByOther(s, (Tid(a), from), a)
  {
    if (Tid(a), from) in s.inflight { EntryIsOwn(s, (Tid(a), from), a); }
  }

  /** A reply in a request's channel came to it in some step, when it was the one under that key. */
  lemma {:induction false} ReplyOrigin(states: seq<State>, events: seq<Event>, n: nat, r: nat, reply: Reply)
    returns (i: nat)
    requires IsRun(states, events) && n < |states| && reply.Received?
    requires r in states[n].reqs && states[n].reqs[r].slot == Some(reply)
    ensures i < n && events[i] == Receive(reply.tid, reply.from, reply.body) && OurTid(reply.tid).Some?
    ensures var s, k := states[i], (OurTid(reply.tid).value, reply.from);
            k in s.inflight && s.inflight[k] == r && r in s.reqs && Pending(s.reqs[r])
  {
    var s := states[n - 1];
    assert states[n - 1 + 1] == Step(s, events[n - 1]);
    if r in s.reqs && s.reqs[r].slot == Some(reply) {
      i := ReplyOrigin(states, events, n - 1, r, reply);
    } else {
      i := n - 1;
      RunBasic(states, events, i);
      SlotFilled(s, events[i], r, reply);
    }
  }

  lemma SlotFilled(s: State, e: Event, r: nat, reply: Reply)
    requires EntriesOk(s) && Enabled(s, e) && reply.Received?
    requires r in Step(s, e).reqs && Step(s, e).reqs[r].slot == Some(reply)
    requires r in s.reqs ==> s.reqs[r].slot != Some(reply)
    ensures e == Receive(reply.tid, reply.from, reply.body) && OurTid(reply.tid).Some?
    ensures var k := (OurTid(reply.tid).value, reply.from);
            k in s.inflight && s.inflight[k] == r && r in s.reqs && Pending(s.reqs[r])
  {
  }

  /** A request that finished with a reply has it in its channel. */
  lemma {:induction false} OutcomeInSlot(states: seq<State>, events: seq<Event>, n: nat, r: nat)
    requires IsRun(states, events) && n < |states| && r in states[n].reqs
    requires states[n].reqs[r].phase.Finished? && states[n].reqs[r].phase.outcome.Replied?
    ensures states[n].reqs[r].slot == Some(states[n].reqs[r].phase.outcome.reply)
  {
    var s := states[n - 1];
    assert states[n - 1 + 1] == Step(s, events[n - 1]);
    if r in s.reqs && s.reqs[r].phase.Finished? && s.reqs[r].phase.outcome.Replied? {
      OutcomeInSlot(states, events, n - 1, r);
    }
  }

  /** Which draw each received message answers: one with the id it names. */
  ghost predicate Labelled(events: seq<Event>, whose: seq<nat>) {
    && |whose| == |events|
    && forall i :: 0 <= i < |events| && events[i].Receive? && OurTid(events[i].tid).Some? ==>
         OurTid(events[i].tid) == Some(Tid(whose[i]))
  }

  /** A step receives a reply to draw a while another request waits under its key. */
  ghost predicate Misdirected(s: State, e: Event, a: nat) {
    e.Receive? && OurTid(e.tid).Some? && TakenByOther(s, (Tid(a), e.from), a)
  }

  /** What is received changes no request but the one it is for. */
  ghost predicate OwnOnly(states: seq<State>, events: seq<Event>, whose: seq<nat>)
    requires IsRun(states, events) && |whose| == |events|
  {
    forall i :: 0 <= i < |events| && events[i].Receive? ==> OthersAlone(states[i], states[i + 1], whose[i])
  }

  ghost predicate NoneMisdirected(states: seq<State>, events: seq<Event>, whose: seq<nat>)
    requires IsRun(states, events) && |whose| == |events|
  {
    forall i :: 0 <= i < |events| ==> !Misdirected(states[i], events[i], whose[i])
  }

  /** In any run, replies reach only the requests they are for exactly when none is misdirected. */
  lemma RepliesOwnIff(states: seq<State>, events: seq<Event>, whose: seq<nat>)
    requires IsRun(states, events) && Labelled(events, whose)
    ensures OwnOnly(states, events, whose) <==> NoneMisdirected(states, events, whose)
  {
    if OwnOnly(states, events, whose) {
      forall i | 0 <= i < |events| ensures !Misdirected(states[i], events[i], whose[i]) {
        if events[i].Receive? { ReceivedIff(states, events, whose[i], i); }
      }
    }
    if NoneMisdirected(states, events, whose) {
      forall i | 0 <= i < |events| && events[i].Receive? ensures OthersAlone(states[i], states[i + 1], whose[i]) {
        ReceivedIff(states, events, whose[i], i);
      }
    }
  }

  lemma ReceivedIff(states: seq<State>, events: seq<Event>, a: nat, i: nat)
    requires IsRun(states, events) && i < |events| && events[i].Receive?
    requires OurTid(events[i].tid).Some? ==> OurTid(events[i].tid) == Some(Tid(a))
    ensures OthersAlone(states[i], states[i + 1], a) <==> !Misdirected(states[i], events[i], a)
  {
    var e := events[i];
    RunBasic(states, events, i);
    if OurTid(e.tid).Some? { ReplyHarmIff(states[i], a, e.tid, e.from, e.body); }
  }

  ghost predicate FinishedWith(s: State, r: nat, reply: Reply) {
    InPhase(s, r, Finished(Replied(reply)))
  }

  /** If none is misdirected, each request that finishes with a reply has finished with a reply to itself. */
  lemma RepliesAreOwn(states: seq<State>, events: seq<Event>, whose: seq<nat>, n: nat, r: nat, reply: Reply)
    requires IsRun(states, events) && Labelled(events, whose) && NoneMisdirected(states, events, whose)
    requires n < |states| && reply.Received? && FinishedWith(states[n], r, reply)
    ensures exists i :: 0 <= i < n && events[i] == Receive(reply.tid, reply.from, reply.body) && whose[i] == r
  {
    OutcomeInSlot(states, events, n, r);
    var i := ReplyOrigin(states, events, n, r, reply);
    assert !Misdirected(states[i], events[i], whose[i]);
    assert whose[i] == r;
  }

  /** Each reply comes before 65,536 further ids were drawn since the one it answers. */
  ghost predicate Prompt(states: seq<State>, events: seq<Event>, whose: seq<nat>)
    requires IsRun(states, events) && |whose| == |events|
  {
    forall i :: 0 <= i < |events| && events[i].Receive? ==>
      whose[i] < states[i].draws && states[i].draws - whose[i] <= TRANSACTION_IDS
  }

  /** In a run that stays in the window, prompt replies are not misdirected. */
  lemma PromptRepliesAreSafe(states: seq<State>, events: seq<Event>, whose: seq<nat>)
    requires IsRun(states, events) && InWindow(states) && Labelled(events, whose) && Prompt(states, events, whose)
    ensures NoneMisdirected(states, events, whose)
  {
    forall i | 0 <= i < |events| ensures !Misdirected(states[i], events[i], whose[i]) {
      if events[i].Receive? {
        RunKeeps(states, events, i);
        PromptReplyIsSafe(states[i], whose[i], events[i].from);
      }
    }
  }

  lemma InWindowNoHarm(states: seq<State>, events: seq<Event>)
    requires IsRun(states, events) && InWindow(states)
    ensures NoHarmBefore(states, events, |events|)
  {
    forall i | 0 <= i < |events| ensures !Harm(states[i], events[i]) {
      RunKeeps(states, events, i);
      WindowIsSafe(states[i], events[i]);
    }
  }

  lemma ThenInWindow(states: seq<State>, events: seq<Event>, e: Event)
    returns (states': seq<State>, events': seq<Event>)
    requires IsRun(states, events) && InWindow(states) && Enabled(Last(states), e) && Window(Step(Last(states), e))
    ensures IsRun(states', events') && InWindow(states') && Last(states') == Step(Last(states), e)
    ensures states <= states' && events' == events + [e]
  {
    Extend(states, events, e);
    states', events' := states + [Step(Last(states), e)], events + [e];
  }

  /** A run of n announces, each sent before the next. */
  lemma {:induction false} SentAnnounces(addr: SocketAddr, n: nat) returns (states: seq<State>, events: seq<Event>)
    ensures IsRun(states, events) && InWindow(states)
    ensures Last(states) == State(n, map[], map[], {}, [])
    ensures if n == 0 then events == [] else |events| > 0 && events[0] == Announce(addr)
  {
    if n == 0 {
      states, events := [INIT], [];
    } else {
      states, events := SentAnnounces(addr, n - 1);
      states, events := ThenInWindow(states, events, Announce(addr));
      assert Last(states) == State(n, map[], map[], {(n - 1, addr)}, []);
      states, events := ThenInWindow(states, events, SendDone(n - 1, addr, true));
    }
  }

  /** After that many announces, one request that has been sent. */
  lemma RequestAfterAnnounces(addr: SocketAddr, n: nat) returns (states: seq<State>, events: seq<Event>)
    requires n > 0
    ensures IsRun(states, events) && InWindow(states) && |events| > 0 && events[0] == Announce(addr)
    ensures Last(states) ==
            State(n + 1, map[n := Req(addr, Waiting, None)], map[(Tid(n), addr) := n], {(n, addr)}, [])
  {
    states, events := SentAnnounces(addr, n);
    states, events := ThenInWindow(states, events, Draw(addr));
    assert Last(states) == State(n + 1, map[n := Req(addr, Drawn, None)], map[], {}, []);
    states, events := ThenInWindow(states, events, Insert(n));
    assert Last(states) == State(n + 1, map[n := Req(addr, Inserted, None)], map[(Tid(n), addr) := n], {}, []);
    states, events := ThenInWindow(states, events, Enqueue(n, true));
  }

  /**
    The window is about messages not yet sent; no timeout bounds a reply. In this run, which stays in
    the window and in which no step does harm, the reply to announce 0 comes 65,536 draws late and
    completes another request.
   */
  lemma LateReply(addr: SocketAddr, body: Bytes) returns (states: seq<State>, events: seq<Event>)
    ensures IsRun(states, events) && InWindow(states) && NoHarmBefore(states, events, |events|)
    ensures |events| > 2 && events[0] == Announce(addr) && 0 !in Last(states).reqs
    ensures var i := |events| - 2;
            events[i] == Receive(EncodeTid(Tid(0)), addr, body) && Misdirected(states[i], events[i], 0)
    ensures InPhase(Last(states), TRANSACTION_IDS, Finished(Replied(Received(EncodeTid(Tid(0)), addr, body))))
  {
    states, events := RequestAfterAnnounces(addr, TRANSACTION_IDS);
    var reply := Received(EncodeTid(0), addr, body);
    states, events := ThenInWindow(states, events, Receive(EncodeTid(0), addr, body));
    assert Last(states).reqs == map[TRANSACTION_IDS := Req(addr, Waiting, Some(reply))];
    states, events := ThenInWindow(states, events, Complete(TRANSACTION_IDS));
    InWindowNoHarm(states, events);
  }

  // ---------- The engine itself ----------

  datatype ReceiveResult = Handled | BadTransactionId | RequestNotFound

  /**
    The shared state of the source. A task is named by its draw, and requests holds what the
    tasks themselves remember: where they stand and what their channel holds.
   */
  class DhtState {
    var nextTransactionId: nat
    var inflight: map<Key, nat>
    var draws: nat
    var requests: map<nat, Req>
    var sends: set<(nat, SocketAddr)>
    ghost var log: seq<(nat, Outcome)>

    /** The counter is 16 bits wide, and the senders in the map are those of requests. */
    ghost predicate Valid()
      reads this
    {
      CounterOk() && forall k :: k in inflight ==> inflight[k] in requests
    }

    ghost predicate CounterOk()
      reads this
    {
      nextTransactionId == Tid(draws)
    }

    ghost function View(): State
      reads this
    {
      State(draws, requests, inflight, sends, log)
    }

    constructor ()
      ensures Valid() && View() == INIT
    {
      nextTransactionId, inflight, draws, requests, sends, log := 0, map[], 0, map[], {}, [];
    }

    /** Draws the next id, wrapping around, and encodes it for the wire. */
    method CreateRequest() returns (tid: nat, wire: Bytes)
      requires CounterOk()
      modifies this`nextTransactionId, this`draws
      ensures CounterOk() && draws == old(draws) + 1
      ensures tid == Tid(old(draws)) && OurTid(wire) == Some(tid)
    {
      tid := nextTransactionId;
      nextTransactionId := if nextTransactionId + 1 == TRANSACTION_IDS then 0 else nextTransactionId + 1;
      draws := draws + 1;
      wire := [tid / 256, tid % 256];
    }

    /** A request draws its id. */
    method BeginRequest(addr: SocketAddr) returns (key: Key)
      requires Valid()
      modifies this
      ensures Valid() && View() == Step(old(View()), Draw(addr))
      ensures key == KeyOf(View(), old(draws))
    {
      var r := draws;
      var tid, _ := CreateRequest();
      requests := requests[r := Req(addr, Drawn, None)];
      key := (tid, addr);
    }

    /** It puts its sender into the map. */
    method InsertRequest(r: nat, key: Key)
      requires Valid() && Enabled(View(), Insert(r)) && key == KeyOf(View(), r)
      modifies this
      ensures Valid() && View() == Step(old(View()), Insert(r))
    {
      inflight := inflight[key := r];
      requests := requests[r := requests[r].(phase := Inserted)];
    }

    /** It hands the message to the worker; if the worker is gone it takes its sender back. */
    method EnqueueRequest(r: nat, key: Key, workerAlive: bool)
      requires Valid() && Enabled(View(), Enqueue(r, workerAlive)) && key == KeyOf(View(), r)
      modifies this
      ensures Valid() && View() == Step(old(View()), Enqueue(r, workerAlive))
    {
      if workerAlive {
        sends := sends + {(r, key.1)};
        requests := requests[r := requests[r].(phase := Waiting)];
      } else {
        inflight := inflight - {key};
        Return(r, DhtDead);
      }
    }

    method Return(r: nat, o: Outcome)
      requires r in requests
      modifies this`requests, this`log
      ensures View() == Finish(old(View()), r, o)
    {
      requests := requests[r := requests[r].(phase := Finished(o))];
      log := log + [(r, o)];
    }

    /** The waiting task is woken: by its channel, or by the timeout, after which it cleans up. */
    method Wake(r: nat, key: Key, e: Event)
      requires Valid()
      requires e == Complete(r) || e == Expire(r) || e == CleanUp(r) || e == SenderDropped(r) || e == Cancel(r)
      requires Enabled(View(), e) && key == KeyOf(View(), r)
      modifies this
      ensures Valid() && View() == Step(old(View()), e)
    {
      match e {
        case Complete(_) =>
          Return(r, Replied(requests[r].slot.value));
        case Expire(_) =>
          requests := requests[r := requests[r].(phase := Expired)];
        case CleanUp(_) =>
          inflight := inflight - {key};
          Return(r, TimedOut);
        case SenderDropped(_) =>
          inflight := inflight - {key};
          Return(r, DhtDead);
        case Cancel(_) =>
          requests := requests[r := requests[r].(phase := Cancelled)];
      }
    }

    /** An announce draws an id and is handed to the worker, but no one waits for its answer. */
    method SendAnnounce(addr: SocketAddr)
      requires Valid()
      modifies this
      ensures Valid() && View() == Step(old(View()), Announce(addr))
    {
      var r := draws;
      var _, _ := CreateRequest();
      sends := sends + {(r, addr)};
    }

    /** The half of on_received_message that handles responses and errors. */
    method OnReceivedMessage(tid: Bytes, from: SocketAddr, body: Bytes) returns (res: ReceiveResult)
      requires Valid()
      modifies this
      ensures Valid() && View() == Step(old(View()), Receive(tid, from, body))
      ensures res.BadTransactionId? <==> OurTid(tid).None?
      ensures res.Handled? <==> OurTid(tid).Some? && (OurTid(tid).value, from) in old(inflight)
    {
      if OurTid(tid).None? {
        return BadTransactionId;
      }
      var key := (OurTid(tid).value, from);
      if key !in inflight {
        return RequestNotFound;
      }
      TakeAndSend(key, Received(tid, from, body));
      res := Handled;
    }

    method TakeAndSend(key: Key, reply: Reply)
      requires Valid() && key in inflight
      modifies this`inflight, this`requests
      ensures Valid() && View() == Deliver(old(View()), key, reply)
    {
      var r := inflight[key];
      inflight := inflight - {key};
      if requests[r].phase.Inserted? || requests[r].phase.Waiting? {
        requests := requests[r := requests[r].(slot := Some(reply))];
      }
    }

    /** The worker has tried to send a message; on_send_error reports a failure to its request. */
    method OnSent(draw: nat, addr: SocketAddr, ok: bool)
      requires Valid() && Enabled(View(), SendDone(draw, addr, ok))
      modifies this
      ensures Valid() && View() == Step(old(View()), SendDone(draw, addr, ok))
    {
      sends := sends - {(draw, addr)};
      var key := (Tid(draw), addr);
      if !ok && key in inflight {
        TakeAndSend(key, SendFailed(draw));
      }
    }
  }
}
