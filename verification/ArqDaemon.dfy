/**
 The registry in the form the daemon keeps it: two maps, a timer queue and message objects
 that are changed in place. Each lock region is a method; a handler calls several of them.
 The ghost `trace` records the events of ArqSystem that the calls amount to.
 */
module ArqDaemon {
  import opened Wrappers
  import opened ArqSystem
  import opened ArqInvariants
  import opened ArqTheorems

  datatype Action = ActionError | ActionComplete | ActionHandlePayload | ActionSendNewSurb | ActionIgnore
  datatype Transition = Transition(action: Action, state: ArqState, errorCode: nat)

  /** What decryptPigeonholeReply and the unpadding of its result yield. */
  datatype Opened =
    | Plaintext(raw: Bytes, unpadded: Option<Bytes>)
    | NotFound
    | AlreadyExists
    | Failed(code: Code)

  datatype EnvelopeReply = EnvelopeReply(replyType: nat, errorCode: nat, content: Opened)
  datatype CopyStatus = InProgress | Succeeded | CopyFailed | Unexpected

  /** A reply as the handler sees it after decryption and parsing. */
  datatype Reply =
    | Unreadable
    | EnvelopeKind(envelope: EnvelopeReply)
    | CopyKind(status: CopyStatus)

  /** What the handler meets on the way: connections, randomness and packet composition. */
  datatype Surroundings = Surroundings(connected: bool, draw: Option<SurbId>, composes: bool, stillConnected: bool)

  type Fsm = (ArqState, nat, nat, bool, bool) -> Transition

  // ------------------------------------------------ The handlers as event sequences

  /** Rotation under guard, then the timer calls made after the lock is released. */
  ghost function RotateScript<M>(s: System<M>, t: Thread, next: SurbId, state: ArqState, connected: bool): seq<Event<M>>
    requires InHandler(s, t)
  {
    [Capture(t), CommitRotate(t, next, state, connected)]
    + if Tracked(s, s.acts[t].msg) && connected then [TimerCancel(t), TimerPush(t)] else []
  }

  ghost function RescheduleScript<M>(t: Thread): seq<Event<M>> {
    [Reschedule(t), TimerPush(t)]
  }

  ghost function RetryScript<M>(s: System<M>, t: Thread, next: SurbId, state: ArqState, composes: bool, connected: bool)
    : seq<Event<M>>
    requires InHandler(s, t)
  {
    if composes then RotateScript(s, t, next, state, connected) else RescheduleScript(t)
  }

  ghost function PollScript<M>(s: System<M>, t: Thread, draw: Option<SurbId>): seq<Event<M>>
    requires InHandler(s, t)
  {
    if draw.None? then [Abandon(t)]
    else if Tracked(s, s.acts[t].msg) then [CommitPoll(t, draw.value), TimerPush(t)]
    else [CommitPoll(t, draw.value)]
  }

  ghost function CopyScript<M>(s: System<M>, t: Thread, reply: Reply, env: Surroundings): seq<Event<M>>
    requires InHandler(s, t)
  {
    if !reply.CopyKind? then [Abandon(t)]
    else match reply.status
      case InProgress => PollScript(s, t, env.draw)
      case Succeeded => [CommitFinish(t, Finished(Success, None))]
      case CopyFailed => [CommitFinish(t, Finished(CopyCommandFailed, None))]
      case Unexpected => [CommitFinish(t, Finished(InternalError, None))]
  }

  /** The retry of a read whose box does not exist yet, and the outcome of every other payload. */
  ghost function PayloadScript<M>(s: System<M>, t: Thread, content: Opened, env: Surroundings): seq<Event<M>>
    requires InHandler(s, t)
  {
    var f := s.heap[s.acts[t].msg];
    match content
    case NotFound =>
      if f.isRead && !f.noRetry && env.draw.Some? then
        RetryScript(s, t, env.draw.value, WaitingForAck, env.composes, true)
      else [CommitFinish(t, Finished(BoxIdNotFound, None))]
    case AlreadyExists =>
      if !f.isRead && !f.noIdempotent then [CommitFinish(t, Finished(Success, None))]
      else [CommitFinish(t, Finished(BoxAlreadyExists, None))]
    case Failed(code) => [CommitFinish(t, Finished(code, None))]
    case Plaintext(raw, unpadded) =>
      [CommitFinish(t,
        if !f.isRead then Finished(Success, None)
        else if |raw| == 0 then Finished(Tombstone, Some([]))
        else if unpadded.None? then Finished(InternalError, None)
        else Finished(Success, unpadded))]
  }

  ghost function NewSurbScript<M>(s: System<M>, t: Thread, state: ArqState, env: Surroundings): seq<Event<M>>
    requires InHandler(s, t)
  {
    var moved := Apply(s, SetState(t, state));
    [SetState(t, state)] +
    (if env.draw.None? then [Abandon(t)]
     else RetryScript(moved, t, env.draw.value, state, env.composes, env.stillConnected))
  }

  ghost function EnterPayloadScript<M>(s: System<M>, t: Thread, state: ArqState, content: Opened, env: Surroundings)
    : seq<Event<M>>
    requires InHandler(s, t)
  {
    [SetState(t, state)] + PayloadScript(Apply(s, SetState(t, state)), t, content, env)
  }

  ghost function EnvelopeScript<M>(fsm: Fsm, s: System<M>, t: Thread, e: EnvelopeReply, env: Surroundings)
    : seq<Event<M>>
    requires InHandler(s, t)
  {
    var f := s.heap[s.acts[t].msg];
    var tr := fsm(f.state, e.replyType, e.errorCode, f.isRead, f.noIdempotent);
    match tr.action
    case ActionError => [CommitFinish(t, Finished(Courier(tr.errorCode), None))]
    case ActionComplete => [CommitFinish(t, Finished(Success, None))]
    case ActionHandlePayload => EnterPayloadScript(s, t, tr.state, e.content, env)
    case ActionSendNewSurb => NewSurbScript(s, t, tr.state, env)
    case ActionIgnore => [Abandon(t)]
  }

  ghost function ReplyScript<M>(fsm: Fsm, s: System<M>, t: Thread, reply: Reply, env: Surroundings): seq<Event<M>>
    requires InHandler(s, t)
  {
    if !env.connected then [Abandon(t)]
    else if reply.Unreadable? then [CommitDrop(t)]
    else if s.heap[s.acts[t].msg].kind.CopyCommand? then CopyScript(s, t, reply, env)
    else if !reply.EnvelopeKind? then [CommitDrop(t)]
    else EnvelopeScript(fsm, s, t, reply.envelope, env)
  }

  ghost function FoundScript<M>(t: Thread, next: SurbId, state: ArqState, composes: bool): seq<Event<M>> {
    if composes then [CommitRotate(t, next, state, true), TimerPush(t)] else RescheduleScript(t)
  }

  ghost function ResendScript<M>(s: System<M>, t: Thread, surb: SurbId, next: SurbId, composes: bool): seq<Event<M>> {
    [Fire(t, surb), FireLookup(t)] +
    if surb in s.surbs && s.surbs[surb] in s.heap then FoundScript(t, next, s.heap[s.surbs[surb]].state, composes)
    else []
  }

  lemma Joined<T>(a: seq<T>, b: seq<T>, c: seq<T>)
    ensures (a + b) + c == a + (b + c)
  {
  }

  /** What a committed rotation leaves in the maps and the message. */
  lemma RotationShows<M>(s: System<M>, t: Thread, next: SurbId, state: ArqState, connected: bool)
    requires Composing(s, t) && next !in s.used && Holds(s, s.acts[t].msg, s.acts[t].prev)
    requires (connected || s.acts[t].fired) && s.heap[s.acts[t].msg].surb == s.acts[t].prev
    ensures var m, s' := s.acts[t].msg, Apply(s, CommitRotate(t, next, state, connected));
      && s'.surbs == (s.surbs - {s.acts[t].prev})[next := m]
      && s'.hashes == s.hashes[s.heap[m].hash := next]
      && s'.heap == s.heap[m := s.heap[m].(surb := next, state := state)]
      && s'.timers == s.timers && s'.outbox == s.outbox
  {
  }

  /** Adding events that belong to a running handler keeps handlers one at a time. */
  lemma {:induction false} ContinueHandler<M>(es: seq<Event<M>>, more: seq<Event<M>>)
    requires ValidRun(Init<M>(), es + more)
    requires ValidRun(Init<M>(), es) && OneAtATime(Init<M>(), es)
    requires forall i | 0 <= i < |more| :: !BeginsHandler(more[i])
    ensures OneAtATime(Init<M>(), es + more)
    decreases |more|
  {
    if |more| == 0 {
      assert es + more == es;
    } else {
      var all, k := es + more, |es + more| - 1;
      assert all[..k] == es + more[..|more| - 1];
      ContinueHandler(es, more[..|more| - 1]);
    }
  }

  lemma FirstEvent<M>(es: seq<Event<M>>, first: Event<M>)
    requires ValidRun(Init<M>(), es) && OneAtATime(Init<M>(), es)
    requires ValidRun(Init<M>(), es + [first])
    requires Run(Init<M>(), es).acts == map[]
    requires first.Start? ==> first.fields.hash !in Run(Init<M>(), es).hashes
    ensures OneAtATime(Init<M>(), es + [first])
  {
    assert (es + [first])[..|es + [first]| - 1] == es;
  }

  /** A handler begun with none running, with its follow-up events. */
  lemma BeginHandler<M>(es: seq<Event<M>>, first: Event<M>, more: seq<Event<M>>, all: seq<Event<M>>)
    requires ValidRun(Init<M>(), es) && OneAtATime(Init<M>(), es)
    requires all == es + [first] + more && ValidRun(Init<M>(), all)
    requires Run(Init<M>(), es).acts == map[]
    requires first.Start? ==> first.fields.hash !in Run(Init<M>(), es).hashes
    requires forall i | 0 <= i < |more| :: !BeginsHandler(more[i])
    ensures OneAtATime(Init<M>(), all)
  {
    PrefixValid(Init<M>(), all, |es| + 1);
    assert all[..|es| + 1] == es + [first];
    FirstEvent(es, first);
    ContinueHandler(es + [first], more);
  }

  lemma PayloadContinues<M>(s: System<M>, t: Thread, content: Opened, env: Surroundings)
    requires InHandler(s, t)
    ensures forall e | e in PayloadScript(s, t, content, env) :: !BeginsHandler(e)
  {
  }

  lemma ReplyContinues<M>(fsm: Fsm, s: System<M>, t: Thread, reply: Reply, env: Surroundings)
    requires InHandler(s, t)
    ensures forall e | e in ReplyScript(fsm, s, t, reply, env) :: !BeginsHandler(e)
  {
    if reply.EnvelopeKind? {
      var f, e := s.heap[s.acts[t].msg], reply.envelope;
      var tr := fsm(f.state, e.replyType, e.errorCode, f.isRead, f.noIdempotent);
      PayloadContinues(Apply(s, SetState(t, tr.state)), t, e.content, env);
    }
  }

  /**
   A payload ends its operation unless it says that a box to be read does not exist yet; it ends
   it well only for a read box that unpads, or for a write, and only reads hand out plaintext.
   */
  lemma PayloadOutcome<M>(s: System<M>, t: Thread, content: Opened, env: Surroundings)
    requires InHandler(s, t) && (content.Failed? ==> content.code != Success)
    ensures var f, script := s.heap[s.acts[t].msg], PayloadScript(s, t, content, env);
      && ((exists e :: e in script && e.CommitFinish?)
          <==> !(content.NotFound? && f.isRead && !f.noRetry && env.draw.Some?))
      && forall e | e in script && e.CommitFinish? ::
           && e.outcome.Finished?
           && (e.outcome.code == Success <==>
                 if f.isRead then content.Plaintext? && |content.raw| > 0 && content.unpadded.Some?
                 else content.Plaintext? || (content.AlreadyExists? && !f.noIdempotent))
           && (e.outcome.plaintext.Some? ==> f.isRead && content.Plaintext?)
           && (e.outcome.code == Success && f.isRead ==> e.outcome.plaintext == content.unpadded)
  {
    var script := PayloadScript(s, t, content, env);
    if |script| == 1 { assert script[0] in script; }
  }

  // ------------------------------------------------ The objects

  class ARQMessage {
    const hash: Hash
    const kind: Kind
    const isRead: bool
    const noRetry: bool
    const noIdempotent: bool
    var surbID: SurbId
    var state: ArqState

    constructor (hash: Hash, kind: Kind, isRead: bool, noRetry: bool, noIdempotent: bool, surbID: SurbId)
      ensures Fields() == Message(surbID, hash, kind, isRead, WaitingForAck, noRetry, noIdempotent)
    {
      this.hash, this.kind, this.isRead := hash, kind, isRead;
      this.noRetry, this.noIdempotent := noRetry, noIdempotent;
      this.surbID, this.state := surbID, WaitingForAck;
    }

    function Fields(): Message
      reads this
    {
      Message(surbID, hash, kind, isRead, state, noRetry, noIdempotent)
    }
  }

  /** All that a handler of one message can change: the daemon's fields and the message's own. */
  datatype View = View(
    surbs: map<SurbId, ARQMessage>, hashes: map<Hash, SurbId>, timers: set<SurbId>,
    notices: seq<Notice<ARQMessage>>, surb: SurbId, state: ArqState)

  /** The SURB map reaches `m` under the SURB ID it carries. */
  predicate Reaches(v: View, m: ARQMessage) {
    v.surb in v.surbs && v.surbs[v.surb] == m
  }

  /** Both entries of `m` are gone and nobody is told. */
  function Removed(v: View, m: ARQMessage): View {
    v.(surbs := v.surbs - {v.surb}, hashes := v.hashes - {m.hash})
  }

  /** Both entries of `m` are gone and its owner is told once. */
  function Ended(v: View, m: ARQMessage, code: Code, plaintext: Option<Bytes>): View {
    Removed(v, m).(notices := v.notices + [Notice(m, Finished(code, plaintext))])
  }

  /** `m` is filed under `next` in place of its SURB ID, in both maps. */
  function Moved(v: View, m: ARQMessage, next: SurbId, state: ArqState): View {
    v.(surbs := (v.surbs - {v.surb})[next := m], hashes := v.hashes[m.hash := next], surb := next, state := state)
  }

  /** Between the two views one notice came: `m` finished with `code`. */
  ghost predicate Told(v: View, v': View, m: ARQMessage, code: Code) {
    exists plaintext :: v'.notices == v.notices + [Notice(m, Finished(code, plaintext))]
  }

  /** The codes that lines 1903-1916 give to a reply that does not decrypt. */
  predicate DecryptionCode(code: Code) {
    code.InternalError? || code.DecryptionFailed? || code.Replica?
  }

  /** What a payload does to the view `v`: only a read of a box that may still appear goes on. */
  predicate PayloadEffect(m: ARQMessage, content: Opened, env: Surroundings, v: View, v': View) {
    && (content.NotFound? && m.isRead && !m.noRetry && env.draw.Some? ==>
          var next := env.draw.value;
          if !env.composes then v' == v.(timers := v.timers + {v.surb})
          else if Reaches(v, m) then
            v' == Moved(v, m, next, WaitingForAck).(timers := v.timers - {v.surb} + {next})
          else v' == v)
    && (content.NotFound? && (!m.isRead || m.noRetry || env.draw.None?) ==> v' == Ended(v, m, BoxIdNotFound, None))
    && (content.AlreadyExists? ==>
          v' == Ended(v, m, if m.isRead || m.noIdempotent then BoxAlreadyExists else Success, None))
    && (content.Failed? ==> v' == Ended(v, m, content.code, None))
    && (content.Plaintext? && !m.isRead ==> v' == Ended(v, m, Success, None))
    && (content.Plaintext? && m.isRead && |content.raw| == 0 ==> v' == Ended(v, m, Tombstone, Some([])))
    && (content.Plaintext? && m.isRead && |content.raw| > 0 ==>
          v' == Ended(v, m, if content.unpadded.Some? then Success else InternalError, content.unpadded))
  }

  /** What asking for the payload does: a tracked message moves on if a packet can be made for it. */
  predicate NewSurbEffect(m: ARQMessage, env: Surroundings, v: View, v': View) {
    if env.draw.None? || (env.composes && !(Reaches(v, m) && env.stillConnected)) then v' == v
    else if !env.composes then v' == v.(timers := v.timers + {v.surb})
    else v' == Moved(v, m, env.draw.value, v.state).(timers := v.timers - {v.surb} + {env.draw.value})
  }

  /** What a courier's envelope reply does, action by action. */
  predicate EnvelopeEffect(fsm: Fsm, m: ARQMessage, e: EnvelopeReply, env: Surroundings, v: View, v': View) {
    var tr := fsm(v.state, e.replyType, e.errorCode, m.isRead, m.noIdempotent);
    && (tr.action.ActionError? ==> v' == Ended(v, m, Courier(tr.errorCode), None))
    && (tr.action.ActionComplete? ==> v' == Ended(v, m, Success, None))
    && (tr.action.ActionIgnore? ==> v' == v)
    && (tr.action.ActionHandlePayload? ==> PayloadEffect(m, e.content, env, v.(state := tr.state), v'))
    && (tr.action.ActionSendNewSurb? ==>
          NewSurbEffect(m, env, v.(state := tr.state), v'))
  }

  /** What the status of a copy command does. */
  predicate CopyEffect(m: ARQMessage, status: CopyStatus, env: Surroundings, v: View, v': View) {
    match status
    case Succeeded => v' == Ended(v, m, Success, None)
    case CopyFailed => v' == Ended(v, m, CopyCommandFailed, None)
    case Unexpected => v' == Ended(v, m, InternalError, None)
    case InProgress =>
      if env.draw.Some? && Reaches(v, m) then
        v' == Moved(v, m, env.draw.value, v.state).(timers := v.timers + {env.draw.value})
      else v' == v
  }

  /** What any reply does to what the handler of `m` sees. */
  predicate ReplyEffect(fsm: Fsm, m: ARQMessage, reply: Reply, env: Surroundings, v: View, v': View) {
    if !env.connected then v' == v
    else if reply.Unreadable? || (m.kind.Envelope? && !reply.EnvelopeKind?) then v' == Removed(v, m)
    else if m.kind.Envelope? then EnvelopeEffect(fsm, m, reply.envelope, env, v, v')
    else if reply.CopyKind? then CopyEffect(m, reply.status, env, v, v')
    else v' == v
  }

  lemma OneNoticeTold(v: View, v': View, m: ARQMessage, c: Code, p: Option<Bytes>)
    requires v'.notices == v.notices + [Notice(m, Finished(c, p))]
    ensures forall code :: Told(v, v', m, code) <==> code == c
  {
    assert Told(v, v', m, c);
    forall code | Told(v, v', m, code) ensures code == c {
      var q :| v'.notices == v.notices + [Notice(m, Finished(code, q))];
      assert v'.notices[|v.notices|] == Notice(m, Finished(c, p));
    }
  }

  lemma ToldAddsOne(v: View, v': View, m: ARQMessage, code: Code)
    requires Told(v, v', m, code)
    ensures |v'.notices| == |v.notices| + 1
  {
  }

  lemma NoneTold(v: View, v': View, m: ARQMessage)
    requires v'.notices == v.notices
    ensures forall code :: !Told(v, v', m, code)
  {
    forall code | Told(v, v', m, code) ensures false {
      ToldAddsOne(v, v', m, code);
    }
  }

  /**
   A payload is answered with Success exactly for a read box that unpads or a write that took, with
   each other code exactly for its own condition; a read of an absent box that is to be repeated is
   told nothing and, if tracked, waits for an acknowledgement under the drawn SURB ID alone.
   */
  lemma PayloadVerdict(m: ARQMessage, content: Opened, env: Surroundings, v: View, v': View)
    requires PayloadEffect(m, content, env, v, v') && (content.Failed? ==> DecryptionCode(content.code))
    ensures Told(v, v', m, Success) <==>
      if m.isRead then content.Plaintext? && |content.raw| > 0 && content.unpadded.Some?
      else content.Plaintext? || (content.AlreadyExists? && !m.noIdempotent)
    ensures Told(v, v', m, Tombstone) <==> m.isRead && content.Plaintext? && |content.raw| == 0
    ensures Told(v, v', m, InternalError) <==>
      || (m.isRead && content.Plaintext? && |content.raw| > 0 && content.unpadded.None?)
      || content == Failed(InternalError)
    ensures Told(v, v', m, BoxAlreadyExists) <==> content.AlreadyExists? && (m.isRead || m.noIdempotent)
    ensures Told(v, v', m, BoxIdNotFound) <==> content.NotFound? && (!m.isRead || m.noRetry || env.draw.None?)
    ensures content.Failed? ==> Told(v, v', m, content.code)
    ensures m.isRead && content.Plaintext? && |content.raw| > 0 && content.unpadded.Some? ==>
      v'.notices == v.notices + [Notice(m, Finished(Success, content.unpadded))]
    ensures content.NotFound? && m.isRead && !m.noRetry && env.draw.Some? ==>
      && v'.notices == v.notices && (Reaches(v, m) ==> Reaches(v', m))
      && (Reaches(v, m) && env.composes ==>
            && v'.surb == env.draw.value && v'.state == WaitingForAck && v'.surb in v'.timers
            && (v.surb != v'.surb ==> v.surb !in v'.timers && v.surb !in v'.surbs))
    ensures !(content.NotFound? && m.isRead && !m.noRetry && env.draw.Some?) ==>
      v.surb !in v'.surbs && m.hash !in v'.hashes && v'.timers == v.timers
  {
    if content.NotFound? && m.isRead && !m.noRetry && env.draw.Some? {
      NoneTold(v, v', m);
    } else {
      var n := v'.notices[|v.notices|];
      OneNoticeTold(v, v', m, n.outcome.code, n.outcome.plaintext);
    }
  }

  /**
   An envelope operation ends well exactly if the FSM says complete, or says payload and the payload
   ends well; a courier's error is passed on as it is; asking for the payload keeps a tracked message
   tracked, under the drawn SURB ID if one could be drawn and a packet composed.
   */
  lemma EnvelopeVerdict(fsm: Fsm, m: ARQMessage, e: EnvelopeReply, env: Surroundings, v: View, v': View)
    requires EnvelopeEffect(fsm, m, e, env, v, v')
    requires e.content.Failed? ==> DecryptionCode(e.content.code)
    ensures var tr := fsm(v.state, e.replyType, e.errorCode, m.isRead, m.noIdempotent);
      && (Told(v, v', m, Success) <==>
            || tr.action.ActionComplete?
            || (tr.action.ActionHandlePayload? && m.isRead && e.content.Plaintext?
                && |e.content.raw| > 0 && e.content.unpadded.Some?)
            || (tr.action.ActionHandlePayload? && !m.isRead
                && (e.content.Plaintext? || (e.content.AlreadyExists? && !m.noIdempotent))))
      && (forall c :: Told(v, v', m, Courier(c)) <==> tr.action.ActionError? && c == tr.errorCode)
      && (tr.action.ActionIgnore? ==> v' == v)
      && (tr.action.ActionComplete? || tr.action.ActionError? ==> v.surb !in v'.surbs && m.hash !in v'.hashes)
      && (tr.action.ActionSendNewSurb? ==>
            && v'.notices == v.notices && v'.state == tr.state && (Reaches(v, m) ==> Reaches(v', m))
            && (Reaches(v, m) && env.draw.Some? && env.composes && env.stillConnected ==>
                  && v'.surb == env.draw.value && v'.surb in v'.timers && v'.hashes[m.hash] == v'.surb
                  && (v.surb != v'.surb ==> v.surb !in v'.timers && v.surb !in v'.surbs)))
  {
    var tr := fsm(v.state, e.replyType, e.errorCode, m.isRead, m.noIdempotent);
    if v'.notices == v.notices {
      NoneTold(v, v', m);
    } else {
      var n := v'.notices[|v.notices|];
      OneNoticeTold(v, v', m, n.outcome.code, n.outcome.plaintext);
    }
    if tr.action.ActionHandlePayload? {
      PayloadVerdict(m, e.content, env, v.(state := tr.state), v');
    }
  }

  /** A copy command ends exactly if its status is not InProgress, each status with its own code. */
  lemma CopyVerdict(m: ARQMessage, status: CopyStatus, env: Surroundings, v: View, v': View)
    requires CopyEffect(m, status, env, v, v')
    ensures v'.notices == v.notices <==> status.InProgress?
    ensures Told(v, v', m, Success) <==> status.Succeeded?
    ensures Told(v, v', m, CopyCommandFailed) <==> status.CopyFailed?
    ensures Told(v, v', m, InternalError) <==> status.Unexpected?
    ensures !status.InProgress? ==> v.surb !in v'.surbs && m.hash !in v'.hashes
    ensures status.InProgress? && Reaches(v, m) ==> Reaches(v', m)
    ensures status.InProgress? && Reaches(v, m) && env.draw.Some? ==>
      v'.surb == env.draw.value && v'.surb in v'.timers && v'.hashes[m.hash] == v'.surb
  {
    if status.InProgress? {
      NoneTold(v, v', m);
    } else {
      var n := v'.notices[|v.notices|];
      OneNoticeTold(v, v', m, n.outcome.code, n.outcome.plaintext);
    }
  }

  /**
   Any reply: without a connection nothing changes, an unreadable or misfit one takes the message out of
   the maps unreported. At most one notice comes, and it is about `m`.
   */
  lemma ReplyVerdict(fsm: Fsm, m: ARQMessage, reply: Reply, env: Surroundings, v: View, v': View)
    requires ReplyEffect(fsm, m, reply, env, v, v')
    ensures !env.connected || (m.kind.CopyCommand? && reply.EnvelopeKind?) ==> v' == v
    ensures env.connected && (reply.Unreadable? || (m.kind.Envelope? && reply.CopyKind?)) ==>
      && v'.notices == v.notices && v'.timers == v.timers
      && v.surb !in v'.surbs && m.hash !in v'.hashes
    ensures v'.notices == v.notices
      || exists o: Outcome :: o.Finished? && v'.notices == v.notices + [Notice(m, o)]
  {
    if v'.notices != v.notices {
      var n := v'.notices[|v.notices|];
      assert v'.notices == v.notices + [Notice(m, n.outcome)];
    }
  }

  /** The maps are as they were, or lack the entries of `m`, or have them moved to the drawn SURB ID. */
  predicate OwnEntriesOnly(m: ARQMessage, env: Surroundings, v: View, v': View) {
    || (v'.surbs == v.surbs && v'.hashes == v.hashes)
    || (v'.surbs == v.surbs - {v.surb} && v'.hashes == v.hashes - {m.hash})
    || (env.draw.Some? && v'.surbs == (v.surbs - {v.surb})[env.draw.value := m]
        && v'.hashes == v.hashes[m.hash := env.draw.value])
  }

  lemma PayloadOwn(m: ARQMessage, content: Opened, env: Surroundings, v: View, v': View)
    requires PayloadEffect(m, content, env, v, v')
    ensures OwnEntriesOnly(m, env, v, v')
  {
  }

  lemma ReplyOwn(fsm: Fsm, m: ARQMessage, reply: Reply, env: Surroundings, v: View, v': View)
    requires ReplyEffect(fsm, m, reply, env, v, v')
    ensures OwnEntriesOnly(m, env, v, v')
  {
    if env.connected && m.kind.Envelope? && reply.EnvelopeKind? {
      var e := reply.envelope;
      var tr := fsm(v.state, e.replyType, e.errorCode, m.isRead, m.noIdempotent);
      if tr.action.ActionHandlePayload? { PayloadOwn(m, e.content, env, v.(state := tr.state), v'); }
    }
  }

  /** No reply touches the entries of other SURB IDs and hashes. */
  lemma OthersUntouched(fsm: Fsm, m: ARQMessage, reply: Reply, env: Surroundings, v: View, v': View, surb: SurbId,
                        h: Hash)
    requires ReplyEffect(fsm, m, reply, env, v, v') && surb != v.surb && Some(surb) != env.draw && h != m.hash
    ensures (surb in v'.surbs <==> surb in v.surbs) && (surb in v.surbs ==> v'.surbs[surb] == v.surbs[surb])
    ensures (h in v'.hashes <==> h in v.hashes) && (h in v.hashes ==> v'.hashes[h] == v.hashes[h])
  {
    ReplyOwn(fsm, m, reply, env, v, v');
  }

  class Daemon {
    const fsm: Fsm
    var arqSurbIDMap: map<SurbId, ARQMessage>
    var arqEnvelopeHashMap: map<Hash, SurbId>
    var arqTimerQueue: set<SurbId>
    var responses: seq<Notice<ARQMessage>>
    ghost var trace: seq<Event<ARQMessage>>
    ghost var sys: System<ARQMessage>

    /** The fields are those of the system `x`. */
    ghost predicate Shows(x: System<ARQMessage>)
      reads this, x.heap.Keys
    {
      && arqSurbIDMap == x.surbs && arqEnvelopeHashMap == x.hashes
      && arqTimerQueue == x.timers && responses == x.outbox
      && forall m | m in x.heap :: x.heap[m] == m.Fields()
    }

    ghost predicate Traced()
      reads `trace, `sys
    {
      ValidRun(Init<ARQMessage>(), trace) && sys == Run(Init<ARQMessage>(), trace)
    }

    /** The fields are those of a system reached by a valid run. */
    ghost predicate Valid()
      reads this, sys.heap.Keys
    {
      Traced() && Shows(sys)
    }

    ghost predicate Handling(t: Thread, m: ARQMessage)
      reads this, sys.heap.Keys
    {
      Valid() && InHandler(sys, t) && sys.acts[t] == Holding(m)
    }

    function Sees(m: ARQMessage): View
      reads this, m
    {
      View(arqSurbIDMap, arqEnvelopeHashMap, arqTimerQueue, responses, m.surbID, m.state)
    }

    constructor (fsm: Fsm)
      ensures Valid() && trace == []
    {
      this.fsm := fsm;
      arqSurbIDMap, arqEnvelopeHashMap, arqTimerQueue, responses := map[], map[], {}, [];
      trace, sys := [], Init<ARQMessage>();
    }

    /** Every daemon that came about through these methods satisfies the registry invariant. */
    lemma ValidInv()
      requires Valid()
      ensures Inv(sys)
    {
      InitInv<ARQMessage>();
      RunInv(Init<ARQMessage>(), trace);
    }

    /** The entry under `surb` belongs to a known message that carries `surb`. */
    lemma EntryKeyed(surb: SurbId)
      requires Valid() && surb in sys.surbs
      ensures sys.surbs[surb] in sys.heap && sys.heap[sys.surbs[surb]].surb == surb
    {
      ValidInv();
    }

    /** The daemon's own test of a message is the system's. */
    lemma TrackedIsReached(m: ARQMessage)
      requires Valid() && m in sys.heap
      ensures Tracked(sys, m) == Reaches(Sees(m), m)
    {
    }

    /** Notes the event that the changes just made to the fields amount to. */
    ghost method Record(e: Event<ARQMessage>)
      requires Traced() && Enabled(sys, e) && Shows(Apply(sys, e))
      modifies `trace, `sys
      ensures Valid() && trace == old(trace) + [e] && sys == Apply(old(sys), e)
    {
      RunSnoc(Init<ARQMessage>(), trace, e);
      trace := trace + [e];
      sys := Apply(sys, e);
    }

    // ---------------------------------------------- Lock regions and timer calls

    /** The lock region of arqSend. */
    method FileMessage(ghost t: Thread, m: ARQMessage)
      requires Valid() && Enabled(sys, Start(t, m, m.Fields()))
      modifies this
      ensures Valid() && trace == old(trace) + [Start(t, m, m.Fields())]
      ensures sys.acts == old(sys.acts)[t := Pushing(m.surbID)]
      ensures arqSurbIDMap == old(arqSurbIDMap)[m.surbID := m]
      ensures arqEnvelopeHashMap == old(arqEnvelopeHashMap)[m.hash := m.surbID]
      ensures arqTimerQueue == old(arqTimerQueue) && responses == old(responses)
    {
      arqSurbIDMap := arqSurbIDMap[m.surbID := m];
      arqEnvelopeHashMap := arqEnvelopeHashMap[m.hash := m.surbID];
      Record(Start(t, m, m.Fields()));
    }

    method ArqSend(ghost t: Thread, m: ARQMessage)
      requires Valid() && Enabled(sys, Start(t, m, m.Fields()))
      modifies this
      ensures Valid() && trace == old(trace) + [Start(t, m, m.Fields()), TimerPush(t)]
      ensures sys.acts == old(sys.acts)
      ensures arqSurbIDMap == old(arqSurbIDMap)[m.surbID := m]
      ensures arqEnvelopeHashMap == old(arqEnvelopeHashMap)[m.hash := m.surbID]
      ensures arqTimerQueue == old(arqTimerQueue) + {m.surbID} && responses == old(responses)
    {
      FileMessage(t, m);
      PushTimer(t, m.surbID);
    }

    /** handleReply's lookup; a SURB ID that is not in the map has no handler. */
    method LookupReply(ghost t: Thread, surb: SurbId) returns (found: Option<ARQMessage>)
      requires Valid() && t !in sys.acts
      modifies `trace, `sys
      ensures Valid()
      ensures found.Some? <==> surb in old(arqSurbIDMap)
      ensures found.Some? ==> found.value == old(arqSurbIDMap)[surb]
      ensures found.Some? ==> Handling(t, found.value) && trace == old(trace) + [Lookup(t, surb)]
      ensures sys == old(sys).(acts := if found.Some? then old(sys.acts)[t := Holding(found.value)] else old(sys.acts))
      ensures found.None? ==> trace == old(trace)
    {
      if surb in arqSurbIDMap {
        EntryKeyed(surb);
        found := Some(arqSurbIDMap[surb]);
        Record(Lookup(t, surb));
      } else {
        found := None;
      }
    }

    /** The lock region of both cancel handlers: removes the entries and takes the message. */
    method TakeCancelled(ghost t: Thread, hash: Hash) returns (hit: Option<ARQMessage>)
      requires Valid() && t !in sys.acts
      modifies `arqSurbIDMap, `arqEnvelopeHashMap, `responses, `trace, `sys
      ensures Valid() && hit == CancelTarget(old(sys), hash)
      ensures trace == old(trace) + [CancelRequest(t, hash)]
      ensures sys.heap == old(sys.heap) && (hit.Some? ==> hit.value in sys.heap)
      ensures sys.acts == if hit.Some? then old(sys.acts)[t := AfterCancel(hit.value)] else old(sys.acts)
      ensures hash !in old(arqEnvelopeHashMap) ==>
        arqSurbIDMap == old(arqSurbIDMap) && arqEnvelopeHashMap == old(arqEnvelopeHashMap)
      ensures hash in old(arqEnvelopeHashMap) ==>
        && arqSurbIDMap == old(arqSurbIDMap) - {old(arqEnvelopeHashMap[hash])}
        && arqEnvelopeHashMap == old(arqEnvelopeHashMap) - {hash}
      ensures hit.Some? ==> hit.value.surbID == old(arqEnvelopeHashMap[hash])
      ensures responses == old(responses) + if hit.Some? then [Notice(hit.value, Cancelled)] else []
    {
      hit := None;
      if hash in arqEnvelopeHashMap {
        var surb := arqEnvelopeHashMap[hash];
        if surb in arqSurbIDMap {
          hit := Some(arqSurbIDMap[surb]);
          EntryKeyed(surb);
        }
        arqSurbIDMap := arqSurbIDMap - {surb};
        arqEnvelopeHashMap := arqEnvelopeHashMap - {hash};
      }
      if hit.Some? { responses := responses + [Notice(hit.value, Cancelled)]; }
      Record(CancelRequest(t, hash));
    }

    method CancelTimer(ghost t: Thread, surb: SurbId)
      requires Valid() && Enabled(sys, TimerCancel(t))
      requires sys.acts[t].AfterRotate? ==> surb == sys.acts[t].prev
      requires sys.acts[t].AfterCancel? ==> surb == sys.heap[sys.acts[t].msg].surb
      modifies `arqTimerQueue, `trace, `sys
      ensures Valid() && trace == old(trace) + [TimerCancel(t)]
      ensures arqTimerQueue == old(arqTimerQueue) - {surb}
      ensures sys.acts == if old(sys.acts[t].AfterRotate?) then old(sys.acts)[t := Pushing(old(sys.acts[t].next))]
                          else old(sys.acts) - {t}
    {
      arqTimerQueue := arqTimerQueue - {surb};
      Record(TimerCancel(t));
    }

    method PushTimer(ghost t: Thread, surb: SurbId)
      requires Valid() && Enabled(sys, TimerPush(t)) && surb == sys.acts[t].surb
      modifies `arqTimerQueue, `trace, `sys
      ensures Valid() && arqTimerQueue == old(arqTimerQueue) + {surb}
      ensures trace == old(trace) + [TimerPush(t)] && sys.acts == old(sys.acts) - {t}
    {
      arqTimerQueue := arqTimerQueue + {surb};
      Record(TimerPush(t));
    }

    method CancelResending(ghost t: Thread, hash: Hash) returns (hit: Option<ARQMessage>)
      requires Valid() && t !in sys.acts
      modifies this
      ensures Valid()
      ensures hit == CancelTarget(old(sys), hash)
      ensures trace == old(trace) + [CancelRequest(t, hash)] + if hit.Some? then [TimerCancel(t)] else []
      ensures sys.acts == old(sys.acts)
      ensures hash !in old(arqEnvelopeHashMap) ==>
        && hit.None? && arqSurbIDMap == old(arqSurbIDMap) && arqEnvelopeHashMap == old(arqEnvelopeHashMap)
        && arqTimerQueue == old(arqTimerQueue) && responses == old(responses)
      ensures hash in old(arqEnvelopeHashMap) ==>
        var surb := old(arqEnvelopeHashMap[hash]);
        && hit == (if surb in old(arqSurbIDMap) then Some(old(arqSurbIDMap)[surb]) else None)
        && arqSurbIDMap == old(arqSurbIDMap) - {surb} && arqEnvelopeHashMap == old(arqEnvelopeHashMap) - {hash}
        && arqTimerQueue == old(arqTimerQueue) - (if hit.Some? then {surb} else {})
        && responses == old(responses) + if hit.Some? then [Notice(hit.value, Cancelled)] else []
    {
      hit := TakeCancelled(t, hash);
      if hit.Some? {
        CancelTimer(t, hit.value.surbID);
      }
    }

    method Finish(ghost t: Thread, m: ARQMessage, outcome: Outcome)
      requires Handling(t, m) && outcome.Finished?
      modifies `arqSurbIDMap, `arqEnvelopeHashMap, `responses, `trace, `sys
      ensures Valid() && trace == old(trace) + [CommitFinish(t, outcome)]
      ensures arqSurbIDMap == old(arqSurbIDMap) - {m.surbID}
      ensures arqEnvelopeHashMap == old(arqEnvelopeHashMap) - {m.hash}
      ensures responses == old(responses) + [Notice(m, outcome)]
      ensures Sees(m) == Ended(old(Sees(m)), m, outcome.code, outcome.plaintext)
      ensures sys.acts == old(sys.acts) - {t}
    {
      arqSurbIDMap := arqSurbIDMap - {m.surbID};
      arqEnvelopeHashMap := arqEnvelopeHashMap - {m.hash};
      responses := responses + [Notice(m, outcome)];
      Record(CommitFinish(t, outcome));
    }

    method DropARQMessage(ghost t: Thread, m: ARQMessage)
      requires Handling(t, m)
      modifies `arqSurbIDMap, `arqEnvelopeHashMap, `trace, `sys
      ensures Valid() && trace == old(trace) + [CommitDrop(t)]
      ensures arqSurbIDMap == old(arqSurbIDMap) - {m.surbID}
      ensures arqEnvelopeHashMap == old(arqEnvelopeHashMap) - {m.hash}
      ensures sys.acts == old(sys.acts) - {t}
    {
      arqSurbIDMap := arqSurbIDMap - {m.surbID};
      arqEnvelopeHashMap := arqEnvelopeHashMap - {m.hash};
      Record(CommitDrop(t));
    }

    /** A handler that returns without touching the registry. */
    method Leave(ghost t: Thread, m: ARQMessage)
      requires Handling(t, m)
      modifies `trace, `sys
      ensures Sees(m) == old(Sees(m))
      ensures Valid() && trace == old(trace) + [Abandon(t)]
      ensures sys.acts == old(sys.acts) - {t}
    {
      Record(Abandon(t));
    }

    method SetArqState(ghost t: Thread, m: ARQMessage, state: ArqState)
      requires Handling(t, m)
      modifies `trace, `sys, m`state
      ensures Handling(t, m) && m.state == state
      ensures trace == old(trace) + [SetState(t, state)] && sys == Apply(old(sys), SetState(t, state))
    {
      m.state := state;
      Record(SetState(t, state));
    }

    method RescheduleAfterComposeFailure(ghost t: Thread, m: ARQMessage)
      requires Handling(t, m)
      modifies `arqTimerQueue, `trace, `sys
      ensures Valid() && trace == old(trace) + RescheduleScript(t)
      ensures arqTimerQueue == old(arqTimerQueue) + {m.surbID}
      ensures sys.acts == old(sys.acts) - {t}
    {
      Record(Reschedule(t));
      PushTimer(t, m.surbID);
    }

    /** Reads the SURB ID outside the lock. */
    method CaptureSurb(ghost t: Thread, m: ARQMessage) returns (prev: SurbId)
      requires Handling(t, m)
      modifies `trace, `sys
      ensures Valid() && prev == m.surbID && trace == old(trace) + [Capture(t)]
      ensures Sees(m) == old(Sees(m))
      ensures sys == old(sys).(acts := old(sys.acts)[t := Rotating(m, prev, false)])
      ensures Holds(sys, m, prev) == Tracked(old(sys), m)
    {
      prev := m.surbID;
      Record(Capture(t));
    }

    /** Files `m` under a new SURB ID, as lines 1683-1688 do. */
    method RotateSurbLocked(m: ARQMessage, next: SurbId)
      modifies `arqSurbIDMap, `arqEnvelopeHashMap, m
      ensures arqSurbIDMap == (old(arqSurbIDMap) - {old(m.surbID)})[next := m]
      ensures arqEnvelopeHashMap == old(arqEnvelopeHashMap)[m.hash := next]
      ensures m.Fields() == old(m.Fields()).(surb := next)
    {
      arqSurbIDMap := arqSurbIDMap - {m.surbID};
      m.surbID := next;
      arqSurbIDMap := arqSurbIDMap[next := m];
      arqEnvelopeHashMap := arqEnvelopeHashMap[m.hash := next];
    }

    /** The lock region of lines 1525-1545 and 1954-1969. */
    method CommitRotation(ghost t: Thread, m: ARQMessage, prev: SurbId, next: SurbId, state: ArqState, connected: bool)
      returns (rotated: bool)
      requires Valid() && Composing(sys, t) && sys.acts[t].msg == m && sys.acts[t].prev == prev
      requires next !in sys.used && (sys.acts[t].fired ==> connected)
      modifies this, m
      ensures Valid() && rotated == (Holds(old(sys), m, prev) && connected)
      ensures trace == old(trace) + [CommitRotate(t, next, state, connected)]
      ensures sys.acts == if !rotated then old(sys.acts) - {t}
                          else old(sys.acts)[t :=
                            if old(sys.acts[t].fired) then Pushing(next) else AfterRotate(prev, next)]
      ensures rotated == (prev in old(arqSurbIDMap) && old(arqSurbIDMap)[prev] == m && connected)
      ensures rotated ==> old(m.surbID) == prev
      ensures Sees(m) == if rotated then Moved(old(Sees(m)), m, next, state) else old(Sees(m))
    {
      rotated := prev in arqSurbIDMap && arqSurbIDMap[prev] == m && connected;
      ghost var e := CommitRotate(t, next, state, connected);
      if rotated {
        EntryKeyed(prev);
        RotateSurbLocked(m, next);
        m.state := state;
        RotationShows(sys, t, next, state, connected);
        Record(e);
      } else {
        Record(e);
      }
    }

    /** The two timer calls that follow a rotation. */
    method SwapTimers(ghost t: Thread, prev: SurbId, next: SurbId)
      requires Valid() && t in sys.acts && sys.acts[t] == AfterRotate(prev, next)
      modifies `arqTimerQueue, `trace, `sys
      ensures Valid() && arqTimerQueue == old(arqTimerQueue) - {prev} + {next}
      ensures trace == old(trace) + [TimerCancel(t), TimerPush(t)]
      ensures sys.acts == old(sys.acts) - {t}
    {
      CancelTimer(t, prev);
      PushTimer(t, next);
    }

    method RotateSurb(ghost t: Thread, m: ARQMessage, next: SurbId, state: ArqState, connected: bool)
      requires Handling(t, m) && next !in sys.used
      modifies this, m
      ensures Valid() && trace == old(trace) + RotateScript(old(sys), t, next, state, connected)
      ensures sys.acts == old(sys.acts) - {t}
      ensures Reaches(old(Sees(m)), m) && connected ==> var v := old(Sees(m));
        Sees(m) == Moved(v, m, next, state).(timers := v.timers - {v.surb} + {next})
      ensures !(Reaches(old(Sees(m)), m) && connected) ==> Sees(m) == old(Sees(m))
    {
      TrackedIsReached(m);
      var prev := CaptureSurb(t, m);
      var rotated := CommitRotation(t, m, prev, next, state, connected);
      ghost var begun := [Capture(t), CommitRotate(t, next, state, connected)];
      assert trace == old(trace) + begun;
      if rotated {
        SwapTimers(t, prev, next);
        Joined(old(trace), begun, [TimerCancel(t), TimerPush(t)]);
      } else {
        assert begun + [] == begun;
      }
    }

    /** Composes a packet under a fresh SURB ID and rotates to it, or reschedules. */
    method RetryUnder(ghost t: Thread, m: ARQMessage, next: SurbId, state: ArqState, composes: bool, connected: bool)
      requires Handling(t, m) && next !in sys.used
      modifies this, m
      ensures Valid() && trace == old(trace) + RetryScript(old(sys), t, next, state, composes, connected)
      ensures sys.acts == old(sys.acts) - {t}
      ensures composes && Reaches(old(Sees(m)), m) && connected ==> var v := old(Sees(m));
        Sees(m) == Moved(v, m, next, state).(timers := v.timers - {v.surb} + {next})
      ensures composes && !(Reaches(old(Sees(m)), m) && connected) ==> Sees(m) == old(Sees(m))
      ensures !composes ==> var v := old(Sees(m)); Sees(m) == v.(timers := v.timers + {v.surb})
    {
      if composes {
        RotateSurb(t, m, next, state, connected);
      } else {
        RescheduleAfterComposeFailure(t, m);
      }
    }

    /** The lock region of lines 1668-1689. */
    method CommitPlaceholder(ghost t: Thread, m: ARQMessage, placeholder: SurbId) returns (moved: bool)
      requires Handling(t, m) && placeholder !in sys.used
      modifies this, m
      ensures Valid() && moved == Tracked(old(sys), m)
      ensures trace == old(trace) + [CommitPoll(t, placeholder)]
      ensures sys.acts == if moved then old(sys.acts)[t := Pushing(placeholder)] else old(sys.acts) - {t}
      ensures moved == Reaches(old(Sees(m)), m)
      ensures Sees(m) == if moved then Moved(old(Sees(m)), m, placeholder, old(m.state)) else old(Sees(m))
    {
      var prev := m.surbID;
      moved := prev in arqSurbIDMap && arqSurbIDMap[prev] == m;
      if moved {
        RotateSurbLocked(m, placeholder);
      }
      Record(CommitPoll(t, placeholder));
    }

    method ScheduleCopyCommandPoll(ghost t: Thread, m: ARQMessage, draw: Option<SurbId>)
      requires Handling(t, m) && (draw.Some? ==> draw.value !in sys.used)
      modifies this, m
      ensures Valid() && trace == old(trace) + PollScript(old(sys), t, draw)
      ensures sys.acts == old(sys.acts) - {t}
      ensures var v := old(Sees(m));
        if draw.Some? && Reaches(v, m) then
          Sees(m) == Moved(v, m, draw.value, v.state).(timers := v.timers + {draw.value})
        else Sees(m) == v
    {
      if draw.None? {
        Leave(t, m);
        return;
      }
      TrackedIsReached(m);
      var moved := CommitPlaceholder(t, m, draw.value);
      if moved {
        PushTimer(t, draw.value);
      }
    }

    // ---------------------------------------------- Handlers

    method HandleCopyCommandARQReply(ghost t: Thread, m: ARQMessage, reply: Reply, env: Surroundings)
      requires Handling(t, m) && (env.draw.Some? ==> env.draw.value !in sys.used)
      modifies this, m
      ensures Valid() && trace == old(trace) + CopyScript(old(sys), t, reply, env)
      ensures sys.acts == old(sys.acts) - {t}
      ensures !reply.CopyKind? ==> Sees(m) == old(Sees(m))
      ensures reply.CopyKind? ==> CopyEffect(m, reply.status, env, old(Sees(m)), Sees(m))
    {
      if !reply.CopyKind? {
        Leave(t, m);
        return;
      }
      match reply.status {
        case InProgress => ScheduleCopyCommandPoll(t, m, env.draw);
        case Succeeded => Finish(t, m, Finished(Success, None));
        case CopyFailed => Finish(t, m, Finished(CopyCommandFailed, None));
        case Unexpected => Finish(t, m, Finished(InternalError, None));
      }
    }

    method HandlePayloadReply(ghost t: Thread, m: ARQMessage, content: Opened, env: Surroundings)
      requires Handling(t, m) && (env.draw.Some? ==> env.draw.value !in sys.used)
      modifies this, m
      ensures Valid() && trace == old(trace) + PayloadScript(old(sys), t, content, env)
      ensures sys.acts == old(sys.acts) - {t}
      ensures PayloadEffect(m, content, env, old(Sees(m)), Sees(m))
    {
      match content {
        case NotFound =>
          if m.isRead && !m.noRetry && env.draw.Some? {
            RetryUnder(t, m, env.draw.value, WaitingForAck, env.composes, true);
          } else {
            Finish(t, m, Finished(BoxIdNotFound, None));
          }
        case AlreadyExists =>
          if !m.isRead && !m.noIdempotent {
            Finish(t, m, Finished(Success, None));
          } else {
            Finish(t, m, Finished(BoxAlreadyExists, None));
          }
        case Failed(code) =>
          Finish(t, m, Finished(code, None));
        case Plaintext(raw, unpadded) =>
          if !m.isRead {
            Finish(t, m, Finished(Success, None));
          } else if |raw| == 0 {
            Finish(t, m, Finished(Tombstone, Some([])));
          } else if unpadded.None? {
            Finish(t, m, Finished(InternalError, None));
          } else {
            Finish(t, m, Finished(Success, unpadded));
          }
      }
    }

    method SendNewSurb(ghost t: Thread, m: ARQMessage, state: ArqState, env: Surroundings)
      requires Handling(t, m) && (env.draw.Some? ==> env.draw.value !in sys.used)
      modifies this, m
      ensures Valid() && trace == old(trace) + NewSurbScript(old(sys), t, state, env)
      ensures sys.acts == old(sys.acts) - {t}
      ensures NewSurbEffect(m, env, old(Sees(m)).(state := state), Sees(m))
    {
      SetArqState(t, m, state);
      ghost var moved := sys;
      if env.draw.None? {
        Leave(t, m);
        Joined(old(trace), [SetState(t, state)], [Abandon(t)]);
      } else {
        RetryUnder(t, m, env.draw.value, state, env.composes, env.stillConnected);
        Joined(old(trace), [SetState(t, state)],
               RetryScript(moved, t, env.draw.value, state, env.composes, env.stillConnected));
      }
    }

    method EnterPayload(ghost t: Thread, m: ARQMessage, state: ArqState, content: Opened, env: Surroundings)
      requires Handling(t, m) && (env.draw.Some? ==> env.draw.value !in sys.used)
      modifies this, m
      ensures Valid() && trace == old(trace) + EnterPayloadScript(old(sys), t, state, content, env)
      ensures sys.acts == old(sys.acts) - {t}
      ensures PayloadEffect(m, content, env, old(Sees(m)).(state := state), Sees(m))
    {
      SetArqState(t, m, state);
      ghost var moved := sys;
      HandlePayloadReply(t, m, content, env);
      Joined(old(trace), [SetState(t, state)], PayloadScript(moved, t, content, env));
    }

    method HandleEnvelopeReply(ghost t: Thread, m: ARQMessage, e: EnvelopeReply, env: Surroundings)
      requires Handling(t, m) && (env.draw.Some? ==> env.draw.value !in sys.used)
      modifies this, m
      ensures Valid() && trace == old(trace) + EnvelopeScript(fsm, old(sys), t, e, env)
      ensures sys.acts == old(sys.acts) - {t}
      ensures EnvelopeEffect(fsm, m, e, env, old(Sees(m)), Sees(m))
    {
      var tr := fsm(m.state, e.replyType, e.errorCode, m.isRead, m.noIdempotent);
      match tr.action {
        case ActionError => Finish(t, m, Finished(Courier(tr.errorCode), None));
        case ActionComplete => Finish(t, m, Finished(Success, None));
        case ActionHandlePayload => EnterPayload(t, m, tr.state, e.content, env);
        case ActionSendNewSurb => SendNewSurb(t, m, tr.state, env);
        case ActionIgnore => Leave(t, m);
      }
    }

    method PopTimer(ghost t: Thread, surb: SurbId)
      requires Valid() && t !in sys.acts && surb in sys.timers
      modifies `arqTimerQueue, `trace, `sys
      ensures Valid() && trace == old(trace) + [Fire(t, surb)]
      ensures sys == old(sys).(timers := old(sys.timers) - {surb}, acts := old(sys.acts)[t := Fired(surb)])
      ensures arqTimerQueue == old(arqTimerQueue) - {surb}
    {
      arqTimerQueue := arqTimerQueue - {surb};
      Record(Fire(t, surb));
    }

    method LookupFired(ghost t: Thread, surb: SurbId) returns (found: Option<ARQMessage>)
      requires Valid() && t in sys.acts && sys.acts[t] == Fired(surb)
      modifies `trace, `sys
      ensures Valid() && trace == old(trace) + [FireLookup(t)]
      ensures found == if surb in sys.surbs then Some(sys.surbs[surb]) else None
      ensures found.Some? ==> found.value in sys.heap && sys.heap[found.value].surb == surb
      ensures sys == old(sys).(acts :=
        if found.Some? then old(sys.acts)[t := Rotating(found.value, surb, true)] else old(sys.acts) - {t})
    {
      found := None;
      if surb in arqSurbIDMap {
        EntryKeyed(surb);
        found := Some(arqSurbIDMap[surb]);
      }
      Record(FireLookup(t));
    }

    /** The popped entry and the message it leads to, read before a packet is composed for it. */
    method TakeFired(ghost t: Thread, surb: SurbId) returns (found: Option<ARQMessage>)
      requires Valid() && t !in sys.acts && surb in sys.timers
      modifies `arqTimerQueue, `trace, `sys
      ensures Valid() && trace == old(trace) + [Fire(t, surb), FireLookup(t)]
      ensures found == if surb in arqSurbIDMap then Some(arqSurbIDMap[surb]) else None
      ensures found.Some? ==> found.value in sys.heap && found.value.surbID == surb
      ensures arqTimerQueue == old(arqTimerQueue) - {surb}
      ensures sys == old(sys).(timers := old(sys.timers) - {surb}, acts :=
        if found.Some? then old(sys.acts)[t := Rotating(found.value, surb, true)] else old(sys.acts))
    {
      PopTimer(t, surb);
      found := LookupFired(t, surb);
    }

    method PushAgain(ghost t: Thread, m: ARQMessage)
      requires Valid() && Composing(sys, t) && sys.acts[t].msg == m
      modifies `arqTimerQueue, `trace, `sys
      ensures arqTimerQueue == old(arqTimerQueue) + {m.surbID}
      ensures Valid() && trace == old(trace) + RescheduleScript(t) && sys.acts == old(sys.acts) - {t}
    {
      Record(Reschedule(t));
      PushTimer(t, m.surbID);
    }

    method ResendFound(ghost t: Thread, m: ARQMessage, surb: SurbId, next: SurbId, composes: bool)
      requires Valid() && Composing(sys, t) && sys.acts[t] == Rotating(m, surb, true)
      requires m.surbID == surb && surb in sys.surbs && sys.surbs[surb] == m && next !in sys.used
      modifies this, m
      ensures Valid() && sys.acts == old(sys.acts) - {t}
      ensures trace == old(trace) + FoundScript(t, next, old(m.state), composes)
      ensures Sees(m) ==
        var v := old(Sees(m));
        if composes then Moved(v, m, next, v.state).(timers := v.timers + {next})
        else v.(timers := v.timers + {surb})
    {
      if composes {
        var rotated := CommitRotation(t, m, surb, next, m.state, true);
        PushTimer(t, next);
      } else {
        PushAgain(t, m);
      }
    }

    /**
     The timer handler as lines 1655-1656 describe it: look the popped SURB ID up, rotate the
     message to a fresh one, push a new entry. A failed composition pushes the entry again.
     */
    method ArqDoResend(ghost t: Thread, surb: SurbId, next: SurbId, composes: bool)
      requires Valid() && t !in sys.acts && surb in sys.timers && next !in sys.used
      modifies this, if surb in arqSurbIDMap then {arqSurbIDMap[surb]} else {}
      ensures Valid() && trace == old(trace) + ResendScript(old(sys), t, surb, next, composes)
      ensures sys.acts == old(sys.acts)
      ensures surb !in old(arqSurbIDMap) ==>
        && arqSurbIDMap == old(arqSurbIDMap) && arqEnvelopeHashMap == old(arqEnvelopeHashMap)
        && arqTimerQueue == old(arqTimerQueue) - {surb} && responses == old(responses)
      ensures surb in old(arqSurbIDMap) ==>
        var m := old(arqSurbIDMap)[surb];
        var v := old(Sees(m));
        Sees(m) == if composes then Moved(v, m, next, v.state).(timers := v.timers - {v.surb} + {next}) else v
    {
      var found := TakeFired(t, surb);
      ghost var begun := [Fire(t, surb), FireLookup(t)];
      if found.Some? {
        ghost var state := found.value.state;
        ResendFound(t, found.value, surb, next, composes);
        Joined(old(trace), begun, FoundScript(t, next, state, composes));
      } else {
        assert begun + [] == begun;
      }
    }

    /** Runs, in one piece, exactly the events that ReplyScript lists for this FSM. */
    method HandlePigeonholeARQReply(ghost t: Thread, m: ARQMessage, reply: Reply, env: Surroundings)
      requires Handling(t, m) && (env.draw.Some? ==> env.draw.value !in sys.used)
      modifies this, m
      ensures Valid() && trace == old(trace) + ReplyScript(fsm, old(sys), t, reply, env)
      ensures sys.acts == old(sys.acts) - {t}
      ensures ReplyEffect(fsm, m, reply, env, old(Sees(m)), Sees(m))
    {
      if !env.connected {
        Leave(t, m);
      } else if reply.Unreadable? {
        DropARQMessage(t, m);
      } else if m.kind.CopyCommand? {
        HandleCopyCommandARQReply(t, m, reply, env);
      } else if !reply.EnvelopeKind? {
        DropARQMessage(t, m);
      } else {
        HandleEnvelopeReply(t, m, reply.envelope, env);
      }
    }

    // ---------------------------------------------- Entry points, one at a time

    /** No handler is running, and none ever overlapped another. */
    ghost predicate Quiet()
      reads this, sys.heap.Keys
    {
      Valid() && sys.acts == map[] && OneAtATime(Init<ARQMessage>(), trace)
    }

    /** A hash on file leads to a tracked message with that hash. */
    lemma HashLeadsBack(hash: Hash)
      requires Valid()
      ensures hash in arqEnvelopeHashMap ==>
        && arqEnvelopeHashMap[hash] in arqSurbIDMap
        && arqSurbIDMap[arqEnvelopeHashMap[hash]].surbID == arqEnvelopeHashMap[hash]
        && arqSurbIDMap[arqEnvelopeHashMap[hash]].hash == hash
    {
      ValidInv();
      if hash in arqEnvelopeHashMap {
        EntryKeyed(arqEnvelopeHashMap[hash]);
      }
    }

    /** What a daemon whose handlers never overlapped guarantees between two handlers. */
    lemma QuietSafe()
      requires Quiet()
      ensures Inv(sys) && Inverse(sys) && AtMostOnce(sys)
      ensures forall surb | surb in arqSurbIDMap :: surb in arqTimerQueue
      ensures forall m | m in sys.heap ::
        Count(responses, m) == if Tracked(sys, m) || m in sys.dropped then 0 else 1
    {
      InitInv<ARQMessage>();
      AtomicHandlers(Init<ARQMessage>(), trace);
      OutcomeOverRuns(Init<ARQMessage>(), trace);
      ValidInv();
    }

    method StartResending(ghost t: Thread, m: ARQMessage)
      requires Quiet() && Enabled(sys, Start(t, m, m.Fields())) && m.hash !in arqEnvelopeHashMap
      modifies this
      ensures Quiet() && trace == old(trace) + [Start(t, m, m.Fields()), TimerPush(t)]
      ensures Reaches(Sees(m), m) && arqEnvelopeHashMap == old(arqEnvelopeHashMap)[m.hash := m.surbID]
      ensures arqTimerQueue == old(arqTimerQueue) + {m.surbID} && responses == old(responses)
    {
      ArqSend(t, m);
      ghost var first := Start(t, m, old(m.Fields()));
      assert trace == old(trace) + [first] + [TimerPush(t)];
      BeginHandler(old(trace), first, [TimerPush(t)], trace);
    }

    method Cancel(ghost t: Thread, hash: Hash) returns (hit: Option<ARQMessage>)
      requires Quiet()
      modifies this
      ensures Quiet() && hit == CancelTarget(old(sys), hash)
      ensures hit.Some? <==> hash in old(arqEnvelopeHashMap)
      ensures hit.Some? ==> old(Sees(hit.value)).surb == hit.value.surbID == old(arqEnvelopeHashMap[hash])
      ensures hit.Some? ==> var v := old(Sees(hit.value));
        Sees(hit.value) == Removed(v, hit.value).(timers := v.timers - {v.surb},
                                                  notices := v.notices + [Notice(hit.value, Cancelled)])
      ensures trace == old(trace) + [CancelRequest(t, hash)] + if hit.Some? then [TimerCancel(t)] else []
    {
      HashLeadsBack(hash);
      hit := CancelResending(t, hash);
      BeginHandler(old(trace), CancelRequest(t, hash), if hit.Some? then [TimerCancel(t)] else [], trace);
    }

    method HandleReply(ghost t: Thread, surb: SurbId, reply: Reply, env: Surroundings)
      requires Quiet() && (env.draw.Some? ==> env.draw.value !in sys.used)
      modifies this, if surb in arqSurbIDMap then {arqSurbIDMap[surb]} else {}
      ensures Quiet()
      ensures surb !in old(arqSurbIDMap) ==> trace == old(trace)
      ensures surb in old(arqSurbIDMap) ==>
        var held := old(sys).(acts := old(sys.acts)[t := Holding(old(arqSurbIDMap[surb]))]);
        InHandler(held, t) && trace == old(trace) + [Lookup(t, surb)] + ReplyScript(fsm, held, t, reply, env)
      ensures surb in old(arqSurbIDMap) ==>
        var m := old(arqSurbIDMap)[surb];
        Reaches(old(Sees(m)), m) && ReplyEffect(fsm, m, reply, env, old(Sees(m)), Sees(m))
    {
      if surb in arqSurbIDMap {
        EntryKeyed(surb);
      }
      var found := LookupReply(t, surb);
      if found.Some? {
        ghost var middle := sys;
        HandlePigeonholeARQReply(t, found.value, reply, env);
        ghost var script := ReplyScript(fsm, middle, t, reply, env);
        ReplyContinues(fsm, middle, t, reply, env);
        BeginHandler(old(trace), Lookup(t, surb), script, trace);
      }
    }

    method HandleTimer(ghost t: Thread, surb: SurbId, next: SurbId, composes: bool)
      requires Quiet() && surb in arqTimerQueue && next !in sys.used
      modifies this, if surb in arqSurbIDMap then {arqSurbIDMap[surb]} else {}
      ensures Quiet() && trace == old(trace) + ResendScript(old(sys), t, surb, next, composes)
      ensures surb in old(arqSurbIDMap) && composes ==>
        var m := old(arqSurbIDMap)[surb];
        var v := old(Sees(m));
        v.surb == surb && Sees(m) == Moved(v, m, next, v.state).(timers := v.timers - {surb} + {next})
    {
      if surb in arqSurbIDMap {
        EntryKeyed(surb);
      }
      ArqDoResend(t, surb, next, composes);
      ghost var script := ResendScript(old(sys), t, surb, next, composes);
      assert script == [Fire(t, surb)] + script[1..];
      assert trace == old(trace) + [Fire(t, surb)] + script[1..];
      BeginHandler(old(trace), Fire(t, surb), script[1..], trace);
    }
  }
}
