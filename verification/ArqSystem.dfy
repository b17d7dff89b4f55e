/**
 The daemon's ARQ registry as a transition system at lock granularity.

 Every piece of katzenpost/client/pigeonhole.go that runs under replyLock, every
 timer-queue call and every read of a shared message between two locks is one event
 of some goroutine. Goroutines interleave freely. Which branch a reply handler takes
 is left open, so whatever holds here holds for every reply FSM.
 */
module ArqSystem {
  import opened Wrappers

  type SurbId = nat
  type Hash = nat
  type Bytes = seq<nat>
  /** Names a goroutine. */
  type Thread = nat

  datatype Kind = Envelope | CopyCommand
  datatype ArqState = WaitingForAck | AckReceived | PayloadReceived

  /** The fields of an ARQMessage that the registry reads or writes. */
  datatype Message = Message(surb: SurbId, hash: Hash, kind: Kind, isRead: bool, state: ArqState,
                             noRetry: bool, noIdempotent: bool)

  /** The error codes a terminal notice can carry; courier and replica codes stay numbers. */
  datatype Code =
    | Success | InternalError | CopyCommandFailed | Tombstone | BoxIdNotFound | BoxAlreadyExists
    | Courier(number: nat) | Replica(number: nat) | DecryptionFailed

  /** What the owner of an operation is told when it ends. */
  datatype Outcome = Cancelled | Finished(code: Code, plaintext: Option<Bytes>)
  datatype Notice<M> = Notice(msg: M, outcome: Outcome)

  /** What a goroutine still has to do. */
  datatype Activity<M> =
    | Holding(msg: M)                              // a reply handler that has looked its message up
    | Rotating(msg: M, prev: SurbId, fired: bool)   // has read the SURB ID it will rotate away from
    | AfterRotate(prev: SurbId, next: SurbId)       // must cancel the old timer, then push the new one
    | Pushing(surb: SurbId)                        // must push a timer entry
    | AfterCancel(msg: M)                          // must cancel the timer of a cancelled message
    | Fired(surb: SurbId)                          // timer handler, entry popped, not looked up yet

  /**
   `surbs`, `hashes` and `timers` are the daemon's two maps and its timer queue; `heap`
   holds the message objects, `outbox` the terminal notices. `used` collects every SURB ID
   ever drawn and `dropped` the messages discarded without a notice.
   */
  datatype System<M(==)> = System(
    surbs: map<SurbId, M>, hashes: map<Hash, SurbId>, heap: map<M, Message>,
    timers: set<SurbId>, outbox: seq<Notice<M>>,
    acts: map<Thread, Activity<M>>, used: set<SurbId>, dropped: set<M>)

  datatype Event<M> =
    | Start(t: Thread, msg: M, fields: Message)
    | Lookup(t: Thread, surb: SurbId)
    | SetState(t: Thread, state: ArqState)
    | Capture(t: Thread)
    | CommitRotate(t: Thread, next: SurbId, state: ArqState, connected: bool)
    | CommitPoll(t: Thread, next: SurbId)
    | CommitFinish(t: Thread, outcome: Outcome)
    | CommitDrop(t: Thread)
    | Reschedule(t: Thread)
    | Abandon(t: Thread)
    | CancelRequest(t: Thread, hash: Hash)
    | Fire(t: Thread, surb: SurbId)
    | FireLookup(t: Thread)
    | TimerCancel(t: Thread)
    | TimerPush(t: Thread)

  function Init<M(==)>(): System<M> {
    System(map[], map[], map[], {}, [], map[], {}, {})
  }

  /** The SURB map reaches this very object under `surb`: the guard of lines 1534, 1678, 1962. */
  predicate Holds<M(==)>(s: System<M>, m: M, surb: SurbId) {
    surb in s.surbs && s.surbs[surb] == m
  }

  predicate Tracked<M(==)>(s: System<M>, m: M) {
    m in s.heap && Holds(s, m, s.heap[m].surb)
  }

  /** The message a cancel request for `hash` takes out of the maps. */
  function CancelTarget<M(==)>(s: System<M>, hash: Hash): Option<M> {
    if hash in s.hashes && s.hashes[hash] in s.surbs then Some(s.surbs[s.hashes[hash]]) else None
  }

  /** Moves a tracked message to a new SURB ID in both maps (lines 1683-1688). */
  function Rotate<M(==)>(s: System<M>, m: M, next: SurbId, state: ArqState): System<M>
    requires m in s.heap
  {
    var f := s.heap[m];
    s.(surbs := (s.surbs - {f.surb})[next := m],
       hashes := s.hashes[f.hash := next],
       heap := s.heap[m := f.(surb := next, state := state)],
       used := s.used + {next})
  }

  /** Deletes a message's two entries without looking whose they are (lines 1475-1476). */
  function Forget<M(==)>(s: System<M>, m: M): System<M>
    requires m in s.heap
  {
    s.(surbs := s.surbs - {s.heap[m].surb}, hashes := s.hashes - {s.heap[m].hash})
  }

  /** Removes whatever `hash` leads to (lines 1329-1335 and 1824-1830). */
  function CancelMaps<M(==)>(s: System<M>, hash: Hash): System<M> {
    if hash in s.hashes then
      s.(surbs := s.surbs - {s.hashes[hash]}, hashes := s.hashes - {hash})
    else s
  }

  /** Goroutine `t` is a reply handler that still holds the message it looked up. */
  predicate InHandler<M(==)>(s: System<M>, t: Thread) {
    t in s.acts && s.acts[t].Holding? && s.acts[t].msg in s.heap
  }

  /** Goroutine `t` has captured a SURB ID and has yet to commit the rotation. */
  predicate Composing<M(==)>(s: System<M>, t: Thread) {
    t in s.acts && s.acts[t].Rotating? && s.acts[t].msg in s.heap
  }

  predicate Enabled<M(==)>(s: System<M>, e: Event<M>) {
    match e
    case Start(t, m, f) => t !in s.acts && m !in s.heap && f.surb !in s.used
    case Lookup(t, surb) => t !in s.acts && surb in s.surbs
    case SetState(t, _) => InHandler(s, t)
    case Capture(t) => InHandler(s, t)
    case CommitRotate(t, n, _, _) => Composing(s, t) && n !in s.used
    case CommitPoll(t, n) => InHandler(s, t) && n !in s.used
    case CommitFinish(t, o) => InHandler(s, t) && o.Finished?
    case CommitDrop(t) => InHandler(s, t)
    case Reschedule(t) => InHandler(s, t) || Composing(s, t)
    case Abandon(t) => InHandler(s, t)
    case CancelRequest(t, _) => t !in s.acts
    case Fire(t, surb) => t !in s.acts && surb in s.timers
    case FireLookup(t) => t in s.acts && s.acts[t].Fired?
    case TimerCancel(t) =>
      t in s.acts && (s.acts[t].AfterRotate? || (s.acts[t].AfterCancel? && s.acts[t].msg in s.heap))
    case TimerPush(t) => t in s.acts && s.acts[t].Pushing?
  }

  function Apply<M(==)>(s: System<M>, e: Event<M>): System<M>
    requires Enabled(s, e)
  {
    match e
    case Start(t, m, f) =>
      s.(surbs := s.surbs[f.surb := m], hashes := s.hashes[f.hash := f.surb], heap := s.heap[m := f],
         used := s.used + {f.surb}, acts := s.acts[t := Pushing(f.surb)])
    case Lookup(t, surb) => s.(acts := s.acts[t := Holding(s.surbs[surb])])
    case SetState(t, st) =>
      var m := s.acts[t].msg;
      s.(heap := s.heap[m := s.heap[m].(state := st)])
    case Capture(t) =>
      var m := s.acts[t].msg;
      s.(acts := s.acts[t := Rotating(m, s.heap[m].surb, false)])
    case CommitRotate(t, n, st, connected) =>
      var a := s.acts[t];
      if Holds(s, a.msg, a.prev) && (connected || a.fired) then
        Rotate(s, a.msg, n, st).(acts := s.acts[t := if a.fired then Pushing(n) else AfterRotate(a.prev, n)])
      else s.(acts := s.acts - {t})
    case CommitPoll(t, n) =>
      var m := s.acts[t].msg;
      if Tracked(s, m) then
        Rotate(s, m, n, s.heap[m].state).(acts := s.acts[t := Pushing(n)])
      else s.(acts := s.acts - {t})
    case CommitFinish(t, o) =>
      var m := s.acts[t].msg;
      Forget(s, m).(outbox := s.outbox + [Notice(m, o)], acts := s.acts - {t}, dropped := s.dropped - {m})
    case CommitDrop(t) =>
      var m := s.acts[t].msg;
      Forget(s, m).(acts := s.acts - {t}, dropped := if Tracked(s, m) then s.dropped + {m} else s.dropped)
    case Reschedule(t) => s.(acts := s.acts[t := Pushing(s.heap[s.acts[t].msg].surb)])
    case Abandon(t) => s.(acts := s.acts - {t})
    case CancelRequest(t, hash) =>
      var found := CancelTarget(s, hash);
      if found.Some? then
        CancelMaps(s, hash).(outbox := s.outbox + [Notice(found.value, Cancelled)],
                             acts := s.acts[t := AfterCancel(found.value)])
      else CancelMaps(s, hash)
    case Fire(t, surb) => s.(timers := s.timers - {surb}, acts := s.acts[t := Fired(surb)])
    case FireLookup(t) =>
      var surb := s.acts[t].surb;
      if surb in s.surbs then s.(acts := s.acts[t := Rotating(s.surbs[surb], surb, true)])
      else s.(acts := s.acts - {t})
    case TimerCancel(t) =>
      var a := s.acts[t];
      if a.AfterRotate? then s.(timers := s.timers - {a.prev}, acts := s.acts[t := Pushing(a.next)])
      else s.(timers := s.timers - {s.heap[a.msg].surb}, acts := s.acts - {t})
    case TimerPush(t) => s.(timers := s.timers + {s.acts[t].surb}, acts := s.acts - {t})
  }

  ghost predicate ValidRun<M>(s: System<M>, es: seq<Event<M>>)
    decreases |es|, 0
  {
    |es| == 0 ||
    (var k := |es| - 1; ValidRun(s, es[..k]) && Enabled(Run(s, es[..k]), es[k]))
  }

  ghost function Run<M>(s: System<M>, es: seq<Event<M>>): System<M>
    requires ValidRun(s, es)
    decreases |es|, 1
  {
    if |es| == 0 then s else Apply(Run(s, es[..|es| - 1]), es[|es| - 1])
  }

  lemma RunSnoc<M>(s: System<M>, es: seq<Event<M>>, e: Event<M>)
    requires ValidRun(s, es) && Enabled(Run(s, es), e)
    ensures ValidRun(s, es + [e]) && Run(s, es + [e]) == Apply(Run(s, es), e)
  {
    assert (es + [e])[..|es + [e]| - 1] == es;
  }

  lemma {:induction false} PrefixValid<M>(s: System<M>, es: seq<Event<M>>, k: nat)
    requires ValidRun(s, es) && k <= |es|
    ensures ValidRun(s, es[..k])
    ensures k < |es| ==> Enabled(Run(s, es[..k]), es[k]) && ValidRun(s, es[..k + 1])
                         && Run(s, es[..k + 1]) == Apply(Run(s, es[..k]), es[k])
    decreases |es|
  {
    if k == |es| {
      assert es[..k] == es;
    } else if k + 1 == |es| {
      assert es[..k + 1] == es;
    } else {
      var p := es[..|es| - 1];
      PrefixValid(s, p, k);
      assert p[..k] == es[..k] && p[..k + 1] == es[..k + 1];
    }
  }

  // ---------------------------------------------------------------- Invariants

  /** An entry of the SURB map is filed under the SURB ID its message carries. */
  ghost predicate WellKeyed<M>(s: System<M>) {
    forall surb | surb in s.surbs :: s.surbs[surb] in s.heap && s.heap[s.surbs[surb]].surb == surb
  }

  /** Every hash leads to a tracked message with that hash. */
  ghost predicate HashBacked<M>(s: System<M>) {
    forall h | h in s.hashes ::
      s.hashes[h] in s.surbs && s.surbs[s.hashes[h]] in s.heap && s.heap[s.surbs[s.hashes[h]]].hash == h
  }

  ghost predicate DistinctSurbs<M>(s: System<M>) {
    && (forall m | m in s.heap :: s.heap[m].surb in s.used)
    && (forall m, n | m in s.heap && n in s.heap && s.heap[m].surb == s.heap[n].surb :: m == n)
  }

  /** No message other than `m` carries `surb`. */
  ghost predicate OnlyOf<M>(s: System<M>, surb: SurbId, m: M) {
    forall n | n in s.heap && s.heap[n].surb == surb :: n == m
  }

  ghost predicate Retired<M>(s: System<M>, surb: SurbId) {
    surb in s.used && forall n | n in s.heap :: s.heap[n].surb != surb
  }

  ghost predicate ActOk<M>(s: System<M>, a: Activity<M>) {
    match a
    case Holding(m) => m in s.heap
    case Rotating(m, prev, _) => m in s.heap && prev in s.used && OnlyOf(s, prev, m)
    case AfterRotate(prev, _) => Retired(s, prev)
    case AfterCancel(m) => m in s.heap && !Tracked(s, m)
    case _ => true
  }

  ghost predicate ActsOk<M>(s: System<M>) {
    forall t | t in s.acts :: ActOk(s, s.acts[t])
  }

  /** The goroutine is bound to file a timer entry for `surb`, or to move its message on. */
  predicate Owes<M>(a: Activity<M>, surb: SurbId) {
    match a
    case Pushing(x) => x == surb
    case AfterRotate(_, x) => x == surb
    case Fired(x) => x == surb
    case Rotating(_, x, fired) => fired && x == surb
    case _ => false
  }

  ghost predicate Covered<M>(s: System<M>, surb: SurbId) {
    surb in s.timers || exists t :: t in s.acts && Owes(s.acts[t], surb)
  }

  ghost predicate NotStranded<M>(s: System<M>) {
    forall surb | surb in s.surbs :: Covered(s, surb)
  }

  function Count<M(==)>(outbox: seq<Notice<M>>, m: M): nat {
    if |outbox| == 0 then 0
    else Count(outbox[..|outbox| - 1], m) + if outbox[|outbox| - 1].msg == m then 1 else 0
  }

  /** A message is tracked, was discarded, or was reported on: exactly one of the three. */
  ghost predicate Settled<M>(s: System<M>, m: M) {
    if Tracked(s, m) then Count(s.outbox, m) == 0 && m !in s.dropped
    else (m in s.dropped <==> Count(s.outbox, m) == 0)
  }

  ghost predicate AllSettled<M>(s: System<M>) {
    forall m | m in s.heap :: Settled(s, m)
  }

  ghost predicate HistoryKnown<M>(s: System<M>) {
    && (forall i | 0 <= i < |s.outbox| :: s.outbox[i].msg in s.heap)
    && (forall m | m in s.dropped :: m in s.heap)
  }

  ghost predicate Inv<M>(s: System<M>) {
    && WellKeyed(s) && HashBacked(s) && DistinctSurbs(s) && ActsOk(s)
    && NotStranded(s) && AllSettled(s) && HistoryKnown(s)
  }
}
