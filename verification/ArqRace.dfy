/** An interleaving of seven events in which an unguarded finish does harm. */
module ArqRace {
  import opened Wrappers
  import opened ArqSystem
  import opened ArqInvariants
  import opened ArqTheorems

  function Fields(surb: SurbId): Message {
    Message(surb, 7, Envelope, false, WaitingForAck, false, false)
  }

  /**
   Operation 10 is started and its timer entry filed, after which its packet goes out; its reply is
   looked up; it is cancelled; the same hash is started again as operation 11; the held reply then
   completes operation 10.
   */
  function Race(): seq<Event<nat>> {
    [Start(1, 10, Fields(100)), TimerPush(1), Lookup(2, 100), CancelRequest(3, 7), TimerCancel(3),
     Start(4, 11, Fields(101)), CommitFinish(2, Finished(Success, None))]
  }

  /** The system after the first `k` events of the race. */
  function At(k: nat): System<nat>
    requires k <= 7
  {
    var one := map[10 := Fields(100)];
    var two := map[10 := Fields(100), 11 := Fields(101)];
    var told := [Notice(10, Cancelled)];
    var done := told + [Notice(10, Finished(Success, None))];
    match k
    case 0 => Init()
    case 1 => System(map[100 := 10], map[7 := 100], one, {}, [], map[1 := Pushing(100)], {100}, {})
    case 2 => System(map[100 := 10], map[7 := 100], one, {100}, [], map[], {100}, {})
    case 3 => System(map[100 := 10], map[7 := 100], one, {100}, [], map[2 := Holding(10)], {100}, {})
    case 4 => System(map[], map[], one, {100}, told, map[2 := Holding(10), 3 := AfterCancel(10)], {100}, {})
    case 5 => System(map[], map[], one, {}, told, map[2 := Holding(10)], {100}, {})
    case 6 => System(map[101 := 11], map[7 := 101], two, {}, told,
                     map[2 := Holding(10), 4 := Pushing(101)], {100, 101}, {})
    case _ => System(map[101 := 11], map[], two, {}, done, map[4 := Pushing(101)], {100, 101}, {})
  }

  lemma Advance(k: nat)
    requires k < 7
    ensures Enabled(At(k), Race()[k]) && Apply(At(k), Race()[k]) == At(k + 1)
  {
    if k < 4 {
      if k == 0 {} else if k == 1 {} else if k == 2 {} else {}
    } else {
      if k == 4 {} else if k == 5 {} else {}
    }
  }

  /** A list of states in which each follows from the one before is a run. */
  lemma {:induction false} Follows<M>(states: seq<System<M>>, es: seq<Event<M>>)
    requires |states| == |es| + 1
    requires forall k | 0 <= k < |es| :: Enabled(states[k], es[k]) && Apply(states[k], es[k]) == states[k + 1]
    ensures ValidRun(states[0], es) && Run(states[0], es) == states[|es|]
    decreases |es|
  {
    if |es| > 0 {
      var k := |es| - 1;
      Follows(states[..k + 1], es[..k]);
      RunSnoc(states[0], es[..k], es[k]);
      assert es[..k] + [es[k]] == es;
    }
  }

  lemma RaceRuns()
    ensures ValidRun(Init<nat>(), Race()) && Run(Init<nat>(), Race()) == At(7)
  {
    var states := seq(8, k requires 0 <= k < 8 => At(k));
    forall k | 0 <= k < 7 ensures Enabled(states[k], Race()[k]) && Apply(states[k], Race()[k]) == states[k + 1] {
      Advance(k);
    }
    Follows(states, Race());
  }

  lemma TwoNotices()
    ensures Count([Notice(10, Cancelled)] + [Notice(10, Finished(Success, None))], 10) == 2
  {
    CountSnoc([], Notice(10, Cancelled), 10);
    CountSnoc([Notice(10, Cancelled)], Notice(10, Finished(Success, None)), 10);
    assert [Notice(10, Cancelled)] == [] + [Notice(10, Cancelled)];
  }

  /** Operation 10 gets two outcomes, and operation 11 is being retried with no way to cancel it. */
  lemma RaceDoesHarm()
    ensures ValidRun(Init<nat>(), Race())
    ensures Count(Run(Init<nat>(), Race()).outbox, 10) == 2
    ensures Tracked(Run(Init<nat>(), Race()), 11)
    ensures CancelTarget(Run(Init<nat>(), Race()), 7) == None
    ensures !Inverse(Run(Init<nat>(), Race()))
  {
    RaceRuns();
    TwoNotices();
    var s := At(7);
    assert SurbEntry(s, 7, 101) && !HashEntry(s, 7, 101);
  }
}
