/**
 What the registry promises over whole runs, and exactly where it stops promising it.
 */
module ArqTheorems {
  import opened Wrappers
  import opened ArqSystem
  import opened ArqInvariants

  lemma InitInv<M>()
    ensures Inv(Init<M>())
  {
  }

  lemma {:induction false} RunInv<M>(s: System<M>, es: seq<Event<M>>)
    requires Inv(s) && ValidRun(s, es)
    ensures Inv(Run(s, es))
    decreases |es|
  {
    if |es| > 0 {
      RunInv(s, es[..|es| - 1]);
      StepInv(Run(s, es[..|es| - 1]), es[|es| - 1]);
    }
  }

  // ---------------------------------------------- Cancelled stays cancelled

  /** Neither map leads to `m`. */
  ghost predicate Unreachable<M>(s: System<M>, m: M) {
    && (forall surb | surb in s.surbs :: s.surbs[surb] != m)
    && (forall h | h in s.hashes && s.hashes[h] in s.surbs :: s.surbs[s.hashes[h]] != m)
  }

  lemma UntrackedUnreachable<M>(s: System<M>, m: M)
    requires Inv(s) && m in s.heap && !Tracked(s, m)
    ensures Unreachable(s, m)
  {
  }

  /** A message object that has left the maps never comes back, in any interleaving. */
  lemma {:induction false} StaysUntracked<M>(s: System<M>, es: seq<Event<M>>, m: M)
    requires Inv(s) && ValidRun(s, es) && m in s.heap && !Tracked(s, m)
    ensures m in Run(s, es).heap && !Tracked(Run(s, es), m) && Unreachable(Run(s, es), m)
    decreases |es|
  {
    if |es| > 0 {
      var p := es[..|es| - 1];
      StaysUntracked(s, p, m);
      RunInv(s, p);
      StepTracked(Run(s, p), es[|es| - 1], m);
    }
    RunInv(s, es);
    UntrackedUnreachable(Run(s, es), m);
  }

  /** The message a cancel request hits is unreachable from then on, whatever was in flight. */
  lemma CancelledStaysCancelled<M>(s: System<M>, t: Thread, hash: Hash, es: seq<Event<M>>, m: M)
    requires Inv(s) && Enabled(s, CancelRequest(t, hash)) && CancelTarget(s, hash) == Some(m)
    requires ValidRun(Apply(s, CancelRequest(t, hash)), es)
    ensures Tracked(s, m) && s.heap[m].hash == hash
    ensures Unreachable(Run(Apply(s, CancelRequest(t, hash)), es), m)
    ensures Notice(m, Cancelled) == Apply(s, CancelRequest(t, hash)).outbox[|s.outbox|]
  {
    var e := CancelRequest(t, hash);
    StepInv(s, e);
    RemovedIsKnown(s, e, m);
    StepTracked(s, e, m);
    StaysUntracked(Apply(s, e), es, m);
  }

  lemma StepRetired<M>(s: System<M>, e: Event<M>, surb: SurbId)
    requires Enabled(s, e) && surb in s.used && surb !in s.surbs
    ensures surb in Apply(s, e).used && surb !in Apply(s, e).surbs
  {
  }

  /** A SURB ID that left the map, by rotation or otherwise, is never filed again. */
  lemma {:induction false} RetiredStaysRetired<M>(s: System<M>, es: seq<Event<M>>, surb: SurbId)
    requires ValidRun(s, es) && surb in s.used && surb !in s.surbs
    ensures surb in Run(s, es).used && surb !in Run(s, es).surbs
    decreases |es|
  {
    if |es| > 0 {
      RetiredStaysRetired(s, es[..|es| - 1], surb);
      StepRetired(Run(s, es[..|es| - 1]), es[|es| - 1], surb);
    }
  }

  // ---------------------------------------------- The two maps as inverses

  ghost predicate HashEntry<M>(s: System<M>, h: Hash, surb: SurbId) {
    h in s.hashes && s.hashes[h] == surb
  }

  ghost predicate SurbEntry<M>(s: System<M>, h: Hash, surb: SurbId) {
    surb in s.surbs && s.surbs[surb] in s.heap
    && s.heap[s.surbs[surb]].surb == surb && s.heap[s.surbs[surb]].hash == h
  }

  ghost predicate Inverse<M>(s: System<M>) {
    forall h, surb :: HashEntry(s, h, surb) <==> SurbEntry(s, h, surb)
  }

  /** The maps are inverse exactly when a cancel request can reach every tracked message. */
  lemma InverseMeansCancellable<M>(s: System<M>)
    requires Inv(s)
    ensures Inverse(s) <==> forall m | Tracked(s, m) :: CancelTarget(s, s.heap[m].hash) == Some(m)
  {
    if Inverse(s) {
      forall m | Tracked(s, m) ensures CancelTarget(s, s.heap[m].hash) == Some(m) {
        assert SurbEntry(s, s.heap[m].hash, s.heap[m].surb);
        assert HashEntry(s, s.heap[m].hash, s.heap[m].surb);
      }
    } else {
      var h, surb :| HashEntry(s, h, surb) != SurbEntry(s, h, surb);
      assert SurbEntry(s, h, surb);
      assert Tracked(s, s.surbs[surb]);
    }
  }

  /**
   A second start for a hash still in flight, or a handler that deletes the entries of a
   message it no longer tracks while another message owns the hash (lines 1475-1476,
   1485-1488, 1609-1610, 1990-1991, 2001-2002, 2019-2020 have no guard).
   */
  predicate Conflict<M(==)>(s: System<M>, e: Event<M>)
    requires Enabled(s, e)
  {
    || (e.Start? && e.fields.hash in s.hashes)
    || ((e.CommitFinish? || e.CommitDrop?)
        && !Tracked(s, s.acts[e.t].msg) && s.heap[s.acts[e.t].msg].hash in s.hashes)
  }

  lemma ConflictBreaks<M>(s: System<M>, e: Event<M>)
    requires Inv(s) && Enabled(s, e) && Inverse(s) && Conflict(s, e)
    ensures !Inverse(Apply(s, e))
  {
    var h := if e.Start? then e.fields.hash else s.heap[s.acts[e.t].msg].hash;
    var surb := s.hashes[h];
    assert HashEntry(s, h, surb);
    assert SurbEntry(s, h, surb);
    assert SurbEntry(Apply(s, e), h, surb);
    assert !HashEntry(Apply(s, e), h, surb);
  }

  /** Every tracked message has its hash entry. */
  ghost predicate AllFiled<M>(s: System<M>) {
    forall m | m in s.heap && Tracked(s, m) :: HashEntry(s, s.heap[m].hash, s.heap[m].surb)
  }

  lemma InverseMeansFiled<M>(s: System<M>)
    requires WellKeyed(s) && HashBacked(s)
    ensures Inverse(s) <==> AllFiled(s)
  {
    if AllFiled(s) {
      forall h, surb ensures HashEntry(s, h, surb) <==> SurbEntry(s, h, surb) {
        if SurbEntry(s, h, surb) { assert Tracked(s, s.surbs[surb]); }
      }
    } else {
      var m :| m in s.heap && Tracked(s, m) && !HashEntry(s, s.heap[m].hash, s.heap[m].surb);
      assert SurbEntry(s, s.heap[m].hash, s.heap[m].surb);
    }
  }

  lemma RotateFiled<M>(s: System<M>, m: M, next: SurbId, state: ArqState)
    requires WellKeyed(s) && DistinctSurbs(s) && AllFiled(s) && Tracked(s, m) && next !in s.used
    ensures AllFiled(Rotate(s, m, next, state))
  {
    var s' := Rotate(s, m, next, state);
    forall n | Tracked(s', n) ensures HashEntry(s', s'.heap[n].hash, s'.heap[n].surb) {
      RotateTracked(s, m, next, state, n);
      assert HashEntry(s, s.heap[n].hash, s.heap[n].surb) && HashEntry(s, s.heap[m].hash, s.heap[m].surb);
    }
  }

  lemma ForgetFiled<M>(s: System<M>, m: M)
    requires WellKeyed(s) && DistinctSurbs(s) && AllFiled(s) && m in s.heap
    requires Tracked(s, m) || s.heap[m].hash !in s.hashes
    ensures AllFiled(Forget(s, m))
  {
    forall n | Tracked(Forget(s, m), n)
      ensures HashEntry(Forget(s, m), s.heap[n].hash, s.heap[n].surb)
    {
      ForgetTracked(s, m, n);
      assert HashEntry(s, s.heap[n].hash, s.heap[n].surb);
      if Tracked(s, m) { assert HashEntry(s, s.heap[m].hash, s.heap[m].surb); }
    }
  }

  lemma CancelFiled<M>(s: System<M>, hash: Hash)
    requires WellKeyed(s) && HashBacked(s) && AllFiled(s)
    ensures AllFiled(CancelMaps(s, hash))
  {
    forall n | Tracked(CancelMaps(s, hash), n)
      ensures HashEntry(CancelMaps(s, hash), s.heap[n].hash, s.heap[n].surb)
    {
      CancelTracked(s, hash, n);
      assert HashEntry(s, s.heap[n].hash, s.heap[n].surb);
    }
  }

  lemma StartFiled<M>(s: System<M>, m: M, f: Message)
    requires WellKeyed(s) && DistinctSurbs(s) && AllFiled(s)
    requires m !in s.heap && f.surb !in s.used && f.hash !in s.hashes
    ensures AllFiled(File(s, m, f))
  {
    var s' := File(s, m, f);
    forall n | n in s'.heap && Tracked(s', n) ensures HashEntry(s', s'.heap[n].hash, s'.heap[n].surb) {
      if n != m {
        assert Tracked(s, n);
        assert HashEntry(s, s.heap[n].hash, s.heap[n].surb);
      }
    }
  }

  /** Filing depends on the maps and on each message's SURB ID and hash alone. */
  lemma FiledAlike<M>(s: System<M>, s': System<M>)
    requires AllFiled(s) && s.surbs == s'.surbs && s.hashes == s'.hashes && s.heap.Keys == s'.heap.Keys
    requires forall n | n in s.heap :: s.heap[n].surb == s'.heap[n].surb && s.heap[n].hash == s'.heap[n].hash
    ensures AllFiled(s')
  {
    forall n | n in s'.heap && Tracked(s', n) ensures HashEntry(s', s'.heap[n].hash, s'.heap[n].surb) {
      assert HashEntry(s, s.heap[n].hash, s.heap[n].surb);
    }
  }

  lemma CoreFiled<M>(s: System<M>, e: Event<M>)
    requires WellKeyed(s) && HashBacked(s) && DistinctSurbs(s) && ActsOk(s) && AllFiled(s)
    requires Enabled(s, e) && !Conflict(s, e)
    ensures AllFiled(Core(s, e))
  {
    match e
    case Start(_, m, f) => StartFiled(s, m, f);
    case CommitRotate(t, next, state, _) =>
      var a := s.acts[t];
      if Holds(s, a.msg, a.prev) {
        CommitMeansTracked(s, t);
        RotateFiled(s, a.msg, next, state);
      }
    case CommitPoll(t, next) =>
      var m := s.acts[t].msg;
      if Tracked(s, m) { RotateFiled(s, m, next, s.heap[m].state); }
    case CommitFinish(t, _) => ForgetFiled(s, s.acts[t].msg);
    case CommitDrop(t) => ForgetFiled(s, s.acts[t].msg);
    case CancelRequest(_, hash) => CancelFiled(s, hash);
    case SetState(_, _) => FiledAlike(s, Core(s, e));
    case _ =>
  }

  /** Without a conflict every tracked message keeps its hash entry. */
  lemma NoConflictKeeps<M>(s: System<M>, e: Event<M>)
    requires WellKeyed(s) && HashBacked(s) && DistinctSurbs(s) && ActsOk(s) && AllFiled(s)
    requires Enabled(s, e) && !Conflict(s, e)
    ensures AllFiled(Apply(s, e))
  {
    CoreFiled(s, e);
    CoreAlike(s, e);
    FiledAlike(Core(s, e), Apply(s, e));
  }

  /** One step keeps the maps inverse if and only if it is not a conflict. */
  lemma InverseExact<M>(s: System<M>, e: Event<M>)
    requires Inv(s) && Enabled(s, e) && Inverse(s)
    ensures Inverse(Apply(s, e)) <==> !Conflict(s, e)
  {
    if Conflict(s, e) {
      ConflictBreaks(s, e);
    } else {
      StepInv(s, e);
      InverseMeansFiled(s);
      NoConflictKeeps(s, e);
      InverseMeansFiled(Apply(s, e));
    }
  }

  ghost predicate ConflictFree<M>(s: System<M>, es: seq<Event<M>>)
    requires ValidRun(s, es)
    decreases |es|
  {
    |es| == 0 ||
    (var k := |es| - 1; ConflictFree(s, es[..k]) && !Conflict(Run(s, es[..k]), es[k]))
  }

  ghost predicate InverseThroughout<M>(s: System<M>, es: seq<Event<M>>)
    requires ValidRun(s, es)
    decreases |es|
  {
    Inverse(Run(s, es)) && (|es| > 0 ==> InverseThroughout(s, es[..|es| - 1]))
  }

  /** Over a whole run: inverse in every state if and only if no step is a conflict. */
  lemma {:induction false} InverseOverRuns<M>(s: System<M>, es: seq<Event<M>>)
    requires Inv(s) && Inverse(s) && ValidRun(s, es)
    ensures InverseThroughout(s, es) <==> ConflictFree(s, es)
    decreases |es|
  {
    if |es| > 0 {
      var p := es[..|es| - 1];
      InverseOverRuns(s, p);
      RunInv(s, p);
      if InverseThroughout(s, p) {
        InverseExact(Run(s, p), es[|es| - 1]);
      }
    }
  }

  // ---------------------------------------------- At most one terminal outcome

  ghost predicate AtMostOnce<M>(s: System<M>) {
    forall m | m in s.heap :: Count(s.outbox, m) <= 1
  }

  /** A handler reports on a message that a cancel or another handler already reported on. */
  predicate StaleReport<M(==)>(s: System<M>, e: Event<M>)
    requires Enabled(s, e)
  {
    e.CommitFinish? && !Tracked(s, s.acts[e.t].msg) && s.acts[e.t].msg !in s.dropped
  }

  /** One step keeps every operation at one terminal outcome if and only if it is no stale report. */
  lemma OutcomeExact<M>(s: System<M>, e: Event<M>)
    requires Inv(s) && Enabled(s, e) && AtMostOnce(s)
    ensures AtMostOnce(Apply(s, e)) <==> !StaleReport(s, e)
  {
    var s' := Apply(s, e);
    if StaleReport(s, e) {
      var m := s.acts[e.t].msg;
      assert Settled(s, m);
      StepCount(s, e, m);
      assert m in s'.heap;
    } else {
      forall m | m in s'.heap ensures Count(s'.outbox, m) <= 1 {
        OutcomeStep(s, e, m);
      }
    }
  }

  lemma OutcomeStep<M>(s: System<M>, e: Event<M>, m: M)
    requires Inv(s) && Enabled(s, e) && AtMostOnce(s) && !StaleReport(s, e) && m in Apply(s, e).heap
    ensures Count(Apply(s, e).outbox, m) <= 1
  {
    StepCount(s, e, m);
    if m in s.heap {
      assert Settled(s, m);
      if e.CancelRequest? && CancelTarget(s, e.hash) == Some(m) { RemovedIsKnown(s, e, m); }
    } else {
      CountUnknown(s.outbox, m);
    }
  }

  ghost predicate NoStaleReport<M>(s: System<M>, es: seq<Event<M>>)
    requires ValidRun(s, es)
    decreases |es|
  {
    |es| == 0 ||
    (var k := |es| - 1; NoStaleReport(s, es[..k]) && !StaleReport(Run(s, es[..k]), es[k]))
  }

  /** A notice, once sent, stays in the outbox. */
  lemma {:induction false} CountGrows<M>(s: System<M>, es: seq<Event<M>>, m: M)
    requires ValidRun(s, es)
    ensures Count(s.outbox, m) <= Count(Run(s, es).outbox, m)
    decreases |es|
  {
    if |es| > 0 {
      CountGrows(s, es[..|es| - 1], m);
      StepCount(Run(s, es[..|es| - 1]), es[|es| - 1], m);
    }
  }

  /**
   Over a whole run: at most one outcome per operation if and only if there is no stale
   report; and then a started operation is tracked, discarded or reported on exactly once.
   */
  lemma {:induction false} OutcomeOverRuns<M>(s: System<M>, es: seq<Event<M>>)
    requires Inv(s) && AtMostOnce(s) && ValidRun(s, es)
    ensures AtMostOnce(Run(s, es)) <==> NoStaleReport(s, es)
    ensures NoStaleReport(s, es) ==>
      forall m | m in Run(s, es).heap ::
        Count(Run(s, es).outbox, m) == if Tracked(Run(s, es), m) || m in Run(s, es).dropped then 0 else 1
    decreases |es|
  {
    if |es| > 0 {
      var p := es[..|es| - 1];
      var e := es[|es| - 1];
      OutcomeOverRuns(s, p);
      RunInv(s, p);
      if NoStaleReport(s, p) {
        OutcomeExact(Run(s, p), e);
      } else {
        var m :| m in Run(s, p).heap && Count(Run(s, p).outbox, m) > 1;
        StepCount(Run(s, p), e, m);
        StepTracked(Run(s, p), e, m);
      }
    }
    RunInv(s, es);
    forall m | m in Run(s, es).heap && NoStaleReport(s, es)
      ensures Count(Run(s, es).outbox, m) == if Tracked(Run(s, es), m) || m in Run(s, es).dropped then 0 else 1
    {
      assert Settled(Run(s, es), m);
    }
  }

  // ---------------------------------------------- Handlers that run one at a time

  ghost predicate BeginsHandler<M>(e: Event<M>) {
    e.Start? || e.Lookup? || e.CancelRequest? || e.Fire?
  }

  /** Every handler runs to its end before the next begins, and no start repeats a hash in flight. */
  ghost predicate OneAtATime<M>(s: System<M>, es: seq<Event<M>>)
    requires ValidRun(s, es)
    decreases |es|
  {
    |es| == 0 ||
    (var k := |es| - 1;
     && OneAtATime(s, es[..k])
     && (BeginsHandler(es[k]) ==> Run(s, es[..k]).acts == map[])
     && (es[k].Start? ==> es[k].fields.hash !in Run(s, es[..k]).hashes))
  }

  ghost predicate Alone<M>(s: System<M>) {
    && (forall t, u | t in s.acts && u in s.acts :: t == u)
    && (forall t | t in s.acts && (s.acts[t].Holding? || s.acts[t].Rotating?) :: Tracked(s, s.acts[t].msg))
  }

  /** A lone handler reports on, and deletes the entries of, a message that is still tracked. */
  lemma AloneIsHarmless<M>(s: System<M>, e: Event<M>)
    requires Alone(s) && Enabled(s, e)
    ensures !StaleReport(s, e)
    ensures (e.Start? ==> e.fields.hash !in s.hashes) ==> !Conflict(s, e)
  {
  }

  lemma OnlyItsOwn<M>(s: System<M>, e: Event<M>)
    requires Alone(s) && Enabled(s, e) && (BeginsHandler(e) ==> s.acts == map[])
    ensures forall t | t in Apply(s, e).acts :: t == e.t
  {
  }

  lemma StepAlone<M>(s: System<M>, e: Event<M>)
    requires WellKeyed(s) && Alone(s) && Enabled(s, e)
    requires BeginsHandler(e) ==> s.acts == map[]
    ensures Alone(Apply(s, e))
  {
    OnlyItsOwn(s, e);
    var s' := Apply(s, e);
    if e.t in s'.acts && (s'.acts[e.t].Holding? || s'.acts[e.t].Rotating?) {
      assert e.Lookup? || e.SetState? || e.Capture? || e.FireLookup?;
      assert Tracked(s', s'.acts[e.t].msg);
    }
  }

  /**
   With handlers one at a time, for any FSM: the maps stay inverse, no operation has two
   outcomes, and whenever no handler is running every tracked message has its timer entry.
   */
  lemma {:induction false} AtomicHandlers<M>(s: System<M>, es: seq<Event<M>>)
    requires Inv(s) && Inverse(s) && AtMostOnce(s) && s.acts == map[]
    requires ValidRun(s, es) && OneAtATime(s, es)
    ensures ConflictFree(s, es) && NoStaleReport(s, es) && Alone(Run(s, es))
    ensures Inverse(Run(s, es)) && AtMostOnce(Run(s, es))
    ensures Run(s, es).acts == map[] ==>
      forall surb | surb in Run(s, es).surbs :: surb in Run(s, es).timers
    decreases |es|
  {
    if |es| > 0 {
      var p := es[..|es| - 1];
      AtomicHandlers(s, p);
      RunInv(s, p);
      AloneIsHarmless(Run(s, p), es[|es| - 1]);
      StepAlone(Run(s, p), es[|es| - 1]);
    }
    InverseOverRuns(s, es);
    OutcomeOverRuns(s, es);
    RunInv(s, es);
    if Run(s, es).acts == map[] {
      forall surb | surb in Run(s, es).surbs ensures surb in Run(s, es).timers {
        assert Covered(Run(s, es), surb);
      }
    }
  }
}
