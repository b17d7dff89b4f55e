/** What every event keeps, whatever the interleaving. */
module ArqInvariants {
  import opened Wrappers
  import opened ArqSystem

  // ---------------------------------------------- The three ways the maps change

  lemma RotateHashBacked<M>(s: System<M>, m: M, next: SurbId, state: ArqState)
    requires WellKeyed(s) && HashBacked(s) && DistinctSurbs(s) && Tracked(s, m) && next !in s.used
    ensures HashBacked(Rotate(s, m, next, state))
  {
  }

  lemma ForgetHashBacked<M>(s: System<M>, m: M)
    requires WellKeyed(s) && HashBacked(s) && DistinctSurbs(s) && m in s.heap
    ensures HashBacked(Forget(s, m))
  {
  }

  lemma CancelHashBacked<M>(s: System<M>, hash: Hash)
    requires WellKeyed(s) && HashBacked(s)
    ensures HashBacked(CancelMaps(s, hash))
  {
  }

  /** Rotation moves one message and loses none. */
  lemma RotateTracked<M>(s: System<M>, m: M, next: SurbId, state: ArqState, n: M)
    requires WellKeyed(s) && DistinctSurbs(s) && Tracked(s, m) && next !in s.used && n in s.heap
    ensures Tracked(Rotate(s, m, next, state), n) <==> Tracked(s, n)
  {
  }

  lemma ForgetTracked<M>(s: System<M>, m: M, n: M)
    requires DistinctSurbs(s) && m in s.heap && n in s.heap
    ensures Tracked(Forget(s, m), n) <==> Tracked(s, n) && n != m
  {
  }

  lemma CancelTracked<M>(s: System<M>, hash: Hash, n: M)
    requires WellKeyed(s) && n in s.heap
    ensures Tracked(CancelMaps(s, hash), n) <==> Tracked(s, n) && CancelTarget(s, hash) != Some(n)
  {
  }

  /** A committed rotation finds its message still tracked. */
  lemma CommitMeansTracked<M>(s: System<M>, t: Thread)
    requires WellKeyed(s) && Composing(s, t) && Holds(s, s.acts[t].msg, s.acts[t].prev)
    ensures Tracked(s, s.acts[t].msg) && s.heap[s.acts[t].msg].surb == s.acts[t].prev
  {
  }

  // ---------------------------------------------- Event by event

  function File<M(==)>(s: System<M>, m: M, f: Message): System<M> {
    s.(surbs := s.surbs[f.surb := m], hashes := s.hashes[f.hash := f.surb], heap := s.heap[m := f])
  }

  /** What `e` makes of the maps and messages; timers and goroutines aside. */
  function Core<M(==)>(s: System<M>, e: Event<M>): System<M>
    requires Enabled(s, e)
  {
    match e
    case Start(_, m, f) => File(s, m, f)
    case CommitRotate(t, next, state, connected) =>
      var a := s.acts[t];
      if Holds(s, a.msg, a.prev) && (connected || a.fired) then Rotate(s, a.msg, next, state) else s
    case CommitPoll(t, next) =>
      var m := s.acts[t].msg;
      if Tracked(s, m) then Rotate(s, m, next, s.heap[m].state) else s
    case CommitFinish(t, _) => Forget(s, s.acts[t].msg)
    case CommitDrop(t) => Forget(s, s.acts[t].msg)
    case CancelRequest(_, hash) => CancelMaps(s, hash)
    case SetState(t, state) =>
      var m := s.acts[t].msg;
      s.(heap := s.heap[m := s.heap[m].(state := state)])
    case _ => s
  }

  lemma CoreAlike<M>(s: System<M>, e: Event<M>)
    requires Enabled(s, e)
    ensures var c := Core(s, e);
      c.surbs == Apply(s, e).surbs && c.hashes == Apply(s, e).hashes && c.heap == Apply(s, e).heap
  {
  }

  lemma CoreHashBacked<M>(s: System<M>, e: Event<M>)
    requires WellKeyed(s) && HashBacked(s) && DistinctSurbs(s) && ActsOk(s) && Enabled(s, e)
    ensures HashBacked(Core(s, e))
  {
    match e
    case CommitRotate(t, next, state, _) =>
      var a := s.acts[t];
      if Holds(s, a.msg, a.prev) {
        CommitMeansTracked(s, t);
        RotateHashBacked(s, a.msg, next, state);
      }
    case CommitPoll(t, next) =>
      var m := s.acts[t].msg;
      if Tracked(s, m) { RotateHashBacked(s, m, next, s.heap[m].state); }
    case CommitFinish(t, _) => ForgetHashBacked(s, s.acts[t].msg);
    case CommitDrop(t) => ForgetHashBacked(s, s.acts[t].msg);
    case CancelRequest(_, hash) => CancelHashBacked(s, hash);
    case _ =>
  }

  lemma StepHashBacked<M>(s: System<M>, e: Event<M>)
    requires WellKeyed(s) && HashBacked(s) && DistinctSurbs(s) && ActsOk(s) && Enabled(s, e)
    ensures HashBacked(Apply(s, e))
  {
    CoreHashBacked(s, e);
    CoreAlike(s, e);
  }

  lemma CoreWellKeyed<M>(s: System<M>, e: Event<M>)
    requires WellKeyed(s) && DistinctSurbs(s) && ActsOk(s) && Enabled(s, e)
    ensures WellKeyed(Core(s, e))
  {
  }

  /** An entry of the SURB map stays filed under its message's SURB ID. */
  lemma StepWellKeyed<M>(s: System<M>, e: Event<M>)
    requires WellKeyed(s) && DistinctSurbs(s) && ActsOk(s) && Enabled(s, e)
    ensures WellKeyed(Apply(s, e))
  {
    CoreWellKeyed(s, e);
    CoreAlike(s, e);
  }

  /** A step gives a new SURB ID to one message at most, and only one never used. */
  lemma StepOneNewSurb<M>(s: System<M>, e: Event<M>, m: M, n: M)
    requires ActsOk(s) && Enabled(s, e) && m in Apply(s, e).heap && n in Apply(s, e).heap && m != n
    requires m !in s.heap || Apply(s, e).heap[m].surb != s.heap[m].surb
    ensures n in s.heap && Apply(s, e).heap[n].surb == s.heap[n].surb
    ensures Apply(s, e).heap[m].surb !in s.used
  {
  }

  lemma StepSurbsUsed<M>(s: System<M>, e: Event<M>, m: M)
    requires DistinctSurbs(s) && ActsOk(s) && Enabled(s, e) && m in Apply(s, e).heap
    ensures Apply(s, e).heap[m].surb in Apply(s, e).used
  {
  }

  lemma StepDistinctSurbs<M>(s: System<M>, e: Event<M>)
    requires WellKeyed(s) && DistinctSurbs(s) && ActsOk(s) && Enabled(s, e)
    ensures DistinctSurbs(Apply(s, e))
  {
    var s' := Apply(s, e);
    forall m | m in s'.heap ensures s'.heap[m].surb in s'.used { StepSurbsUsed(s, e, m); }
    forall m, n | m in s'.heap && n in s'.heap && s'.heap[m].surb == s'.heap[n].surb ensures m == n {
      if m != n {
        if m !in s.heap || s'.heap[m].surb != s.heap[m].surb {
          StepOneNewSurb(s, e, m, n);
        } else if n !in s.heap || s'.heap[n].surb != s.heap[n].surb {
          StepOneNewSurb(s, e, n, m);
        }
      }
    }
  }

  /** The events that take a message out of the maps. */
  predicate Removes<M(==)>(s: System<M>, e: Event<M>, m: M)
    requires Enabled(s, e)
  {
    || ((e.CommitFinish? || e.CommitDrop?) && s.acts[e.t].msg == m)
    || (e.CancelRequest? && CancelTarget(s, e.hash) == Some(m))
  }

  lemma CoreTracked<M>(s: System<M>, e: Event<M>, m: M)
    requires WellKeyed(s) && DistinctSurbs(s) && ActsOk(s) && Enabled(s, e) && m in s.heap
    ensures m in Core(s, e).heap
    ensures Tracked(Core(s, e), m) <==> Tracked(s, m) && !Removes(s, e, m)
  {
    match e
    case CommitRotate(t, next, state, _) =>
      var a := s.acts[t];
      if Holds(s, a.msg, a.prev) {
        CommitMeansTracked(s, t);
        RotateTracked(s, a.msg, next, state, m);
      }
    case CommitPoll(t, next) =>
      var n := s.acts[t].msg;
      if Tracked(s, n) { RotateTracked(s, n, next, s.heap[n].state, m); }
    case CommitFinish(t, _) => ForgetTracked(s, s.acts[t].msg, m);
    case CommitDrop(t) => ForgetTracked(s, s.acts[t].msg, m);
    case CancelRequest(_, hash) => CancelTracked(s, hash, m);
    case _ =>
  }

  /** A message stays tracked until it is finished, dropped or cancelled, and is never tracked again. */
  lemma StepTracked<M>(s: System<M>, e: Event<M>, m: M)
    requires WellKeyed(s) && DistinctSurbs(s) && ActsOk(s) && Enabled(s, e) && m in s.heap
    ensures m in Apply(s, e).heap
    ensures Tracked(Apply(s, e), m) <==> Tracked(s, m) && !Removes(s, e, m)
  {
    CoreTracked(s, e, m);
    CoreAlike(s, e);
  }

  /** Messages and used SURB IDs are never forgotten, and a SURB ID that changes becomes a fresh one. */
  lemma StepSurbs<M>(s: System<M>, e: Event<M>)
    requires ActsOk(s) && Enabled(s, e)
    ensures forall n | n in s.heap :: n in Apply(s, e).heap
    ensures forall surb | surb in s.used :: surb in Apply(s, e).used
    ensures forall n | n in Apply(s, e).heap ::
      (n in s.heap && Apply(s, e).heap[n].surb == s.heap[n].surb) || Apply(s, e).heap[n].surb !in s.used
  {
  }

  /** What a goroutine relies on survives the other goroutines' events. */
  lemma StepActOk<M>(s: System<M>, e: Event<M>, a: Activity<M>)
    requires WellKeyed(s) && DistinctSurbs(s) && ActsOk(s) && Enabled(s, e)
    requires ActOk(s, a)
    ensures ActOk(Apply(s, e), a)
  {
    StepSurbs(s, e);
    if a.AfterCancel? { StepTracked(s, e, a.msg); }
  }

  lemma OwnActOk<M>(s: System<M>, e: Event<M>)
    requires WellKeyed(s) && HashBacked(s) && DistinctSurbs(s) && ActsOk(s) && Enabled(s, e)
    requires e.t in Apply(s, e).acts
    ensures ActOk(Apply(s, e), Apply(s, e).acts[e.t])
  {
    if e.t in s.acts { StepActOk(s, e, s.acts[e.t]); }
  }

  lemma StepActsOk<M>(s: System<M>, e: Event<M>)
    requires WellKeyed(s) && HashBacked(s) && DistinctSurbs(s) && ActsOk(s) && Enabled(s, e)
    ensures ActsOk(Apply(s, e))
  {
    var s' := Apply(s, e);
    forall t | t in s'.acts ensures ActOk(s', s'.acts[t]) {
      if t == e.t {
        OwnActOk(s, e);
      } else {
        StepActOk(s, e, s.acts[t]);
      }
    }
  }

  /** The event takes neither the timer entry for `surb` nor another goroutine's promise of one. */
  lemma OthersStillOwe<M>(s: System<M>, e: Event<M>, surb: SurbId)
    requires Enabled(s, e) && Covered(s, surb) && !(surb in s.timers)
    requires !(e.t in s.acts && Owes(s.acts[e.t], surb))
    ensures Covered(Apply(s, e), surb)
  {
    var t :| t in s.acts && Owes(s.acts[t], surb);
    var acts := Apply(s, e).acts;
    assert t in acts && acts[t] == s.acts[t];
  }

  /** A timer entry goes away only to a handler that owes one for it, or with a retired SURB ID. */
  lemma EntryStays<M>(s: System<M>, e: Event<M>, surb: SurbId)
    requires WellKeyed(s) && DistinctSurbs(s) && ActsOk(s) && Enabled(s, e)
    requires surb in s.timers && surb in s.surbs
    ensures Covered(Apply(s, e), surb)
  {
    var s' := Apply(s, e);
    if e.Fire? && e.surb == surb { assert Owes(s'.acts[e.t], surb); }
    if e.TimerCancel? { assert ActOk(s, s.acts[e.t]); }
  }

  /** A goroutine that owes an entry for a tracked SURB ID files it, or moves the message on. */
  lemma DebtIsKept<M>(s: System<M>, e: Event<M>, surb: SurbId)
    requires WellKeyed(s) && DistinctSurbs(s) && ActsOk(s) && Enabled(s, e)
    requires e.t in s.acts && Owes(s.acts[e.t], surb) && surb in s.surbs && surb in Apply(s, e).surbs
    ensures Covered(Apply(s, e), surb)
  {
    var s' := Apply(s, e);
    assert ActOk(s, s.acts[e.t]);
    if surb !in s'.timers { assert e.t in s'.acts && Owes(s'.acts[e.t], surb); }
  }

  /** A SURB ID that enters the map comes with a goroutine that owes its timer entry. */
  lemma NewEntryIsOwed<M>(s: System<M>, e: Event<M>, surb: SurbId)
    requires Enabled(s, e) && surb !in s.surbs && surb in Apply(s, e).surbs
    ensures Covered(Apply(s, e), surb)
  {
    var s' := Apply(s, e);
    assert e.t in s'.acts && Owes(s'.acts[e.t], surb);
  }

  /** No event takes the last timer entry, or promise of one, away from a tracked SURB ID. */
  lemma StepCovered<M>(s: System<M>, e: Event<M>, surb: SurbId)
    requires WellKeyed(s) && DistinctSurbs(s) && ActsOk(s) && NotStranded(s) && Enabled(s, e)
    requires surb in Apply(s, e).surbs
    ensures Covered(Apply(s, e), surb)
  {
    if surb !in s.surbs {
      NewEntryIsOwed(s, e, surb);
    } else if surb in s.timers {
      EntryStays(s, e, surb);
    } else if e.t in s.acts && Owes(s.acts[e.t], surb) {
      DebtIsKept(s, e, surb);
    } else {
      assert Covered(s, surb);
      OthersStillOwe(s, e, surb);
    }
  }

  lemma StepNotStranded<M>(s: System<M>, e: Event<M>)
    requires Inv(s) && Enabled(s, e)
    ensures NotStranded(Apply(s, e))
  {
    forall surb | surb in Apply(s, e).surbs ensures Covered(Apply(s, e), surb) {
      StepCovered(s, e, surb);
    }
  }

  lemma CountSnoc<M>(outbox: seq<Notice<M>>, n: Notice<M>, m: M)
    ensures Count(outbox + [n], m) == Count(outbox, m) + if n.msg == m then 1 else 0
  {
    assert (outbox + [n])[..|outbox + [n]| - 1] == outbox;
  }

  lemma {:induction false} CountUnknown<M>(outbox: seq<Notice<M>>, m: M)
    requires forall i | 0 <= i < |outbox| :: outbox[i].msg != m
    ensures Count(outbox, m) == 0
    decreases |outbox|
  {
    if |outbox| > 0 {
      CountUnknown(outbox[..|outbox| - 1], m);
    }
  }

  lemma StepHistoryKnown<M>(s: System<M>, e: Event<M>)
    requires WellKeyed(s) && ActsOk(s) && HistoryKnown(s) && Enabled(s, e)
    ensures HistoryKnown(Apply(s, e))
  {
  }

  /** Only finishing and cancelling report, and each reports on one message. */
  lemma StepCount<M>(s: System<M>, e: Event<M>, m: M)
    requires Enabled(s, e)
    ensures Count(Apply(s, e).outbox, m) == Count(s.outbox, m) +
      if || (e.CommitFinish? && s.acts[e.t].msg == m)
         || (e.CancelRequest? && CancelTarget(s, e.hash) == Some(m)) then 1 else 0
  {
    if e.CommitFinish? { CountSnoc(s.outbox, Notice(s.acts[e.t].msg, e.outcome), m); }
    if e.CancelRequest? && CancelTarget(s, e.hash).Some? {
      CountSnoc(s.outbox, Notice(CancelTarget(s, e.hash).value, Cancelled), m);
    }
  }

  lemma RemovedIsKnown<M>(s: System<M>, e: Event<M>, m: M)
    requires WellKeyed(s) && ActsOk(s) && Enabled(s, e) && Removes(s, e, m)
    ensures m in s.heap && (e.CancelRequest? ==> Tracked(s, m))
  {
  }

  lemma NewMessage<M>(s: System<M>, e: Event<M>, m: M)
    requires WellKeyed(s) && ActsOk(s) && HistoryKnown(s) && Enabled(s, e)
    requires m !in s.heap && m in Apply(s, e).heap
    ensures Settled(Apply(s, e), m)
  {
    CountUnknown(s.outbox, m);
  }

  lemma StepSettled<M>(s: System<M>, e: Event<M>, m: M)
    requires Inv(s) && Enabled(s, e) && m in s.heap
    ensures Settled(Apply(s, e), m)
  {
    assert Settled(s, m);
    StepTracked(s, e, m);
    StepCount(s, e, m);
    if Removes(s, e, m) { RemovedIsKnown(s, e, m); }
  }

  lemma StepAllSettled<M>(s: System<M>, e: Event<M>)
    requires Inv(s) && Enabled(s, e)
    ensures AllSettled(Apply(s, e))
  {
    forall m | m in Apply(s, e).heap ensures Settled(Apply(s, e), m) {
      if m in s.heap { StepSettled(s, e, m); } else { NewMessage(s, e, m); }
    }
  }

  lemma StepInv<M>(s: System<M>, e: Event<M>)
    requires Inv(s) && Enabled(s, e)
    ensures Inv(Apply(s, e))
  {
    StepWellKeyed(s, e);
    StepHashBacked(s, e);
    StepDistinctSurbs(s, e);
    StepActsOk(s, e);
    StepNotStranded(s, e);
    StepHistoryKnown(s, e);
    StepAllSettled(s, e);
  }
}
