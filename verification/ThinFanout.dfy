/** Fan-out of events to subscribers by the event-sink worker. */
module ThinFanout {

  type Channel = nat
  type Event = nat

  /** What the worker takes up next: a registration, a removal or an event. */
  datatype Op = Add(ch: Channel, capacity: nat) | Remove(ch: Channel) | Emit(event: Event)

  function Drains(ops: seq<Op>): set<Channel> {
    if |ops| == 0 then {}
    else
      var before := Drains(ops[..|ops| - 1]);
      match ops[|ops| - 1]
      case Add(ch, capacity) => if capacity == 0 then before else before + {ch}
      case Remove(ch) => before - {ch}
      case Emit(_) => before
  }

  /** What a subscriber has been handed in all. */
  function Received(ops: seq<Op>, ch: Channel): seq<Event> {
    if |ops| == 0 then []
    else
      var p := ops[..|ops| - 1];
      Received(p, ch) + if ops[|ops| - 1].Emit? && ch in Drains(p) then [ops[|ops| - 1].event] else []
  }

  /** The events distributed, to whomever. */
  function Emitted(ops: seq<Op>): seq<Event> {
    if |ops| == 0 then []
    else Emitted(ops[..|ops| - 1]) + if ops[|ops| - 1].Emit? then [ops[|ops| - 1].event] else []
  }

  /** Where in the operations events stand. */
  function EventSteps(ops: seq<Op>): set<nat> {
    set k: nat | k < |ops| && ops[k].Emit?
  }

  /** Every event is among those distributed, at the place that the events before it leave for it. */
  lemma {:induction false} EmittedHolds(ops: seq<Op>, k: nat)
    requires k < |ops| && ops[k].Emit?
    ensures |Emitted(ops[..k])| < |Emitted(ops)| && Emitted(ops)[|Emitted(ops[..k])|] == ops[k].event
    decreases |ops|
  {
    if k < |ops| - 1 {
      var p := ops[..|ops| - 1];
      EmittedHolds(p, k);
      assert p[..k] == ops[..k];
    }
  }

  /** And nothing else is. */
  lemma {:induction false} EmittedCount(ops: seq<Op>)
    ensures |Emitted(ops)| == |EventSteps(ops)|
  {
    if |ops| > 0 {
      var n := |ops| - 1;
      EmittedCount(ops[..n]);
      assert EventSteps(ops) == EventSteps(ops[..n]) + if ops[n].Emit? then {n} else {};
    }
  }

  ghost predicate NoRemoval(ops: seq<Op>, i: nat, j: nat, ch: Channel)
    requires i <= j <= |ops|
  {
    forall k | i <= k < j :: ops[k] != Remove(ch)
  }

  ghost predicate NoRegistration(ops: seq<Op>, i: nat, j: nat, ch: Channel)
    requires i <= j <= |ops|
  {
    forall k | i <= k < j :: ops[k].Add? && ops[k].ch == ch ==> ops[k].capacity == 0
  }

  lemma Assoc(a: seq<Event>, b: seq<Event>, c: seq<Event>)
    ensures (a + b) + c == a + (b + c)
  {
  }

  /** From registration to removal a subscriber gets exactly the events distributed, in order. */
  lemma {:induction false} SubscribedGetsAll(ops: seq<Op>, i: nat, j: nat, ch: Channel)
    requires i <= j <= |ops| && ch in Drains(ops[..i]) && NoRemoval(ops, i, j, ch)
    ensures ch in Drains(ops[..j])
    ensures Received(ops[..j], ch) == Received(ops[..i], ch) + Emitted(ops[i..j])
    decreases j - i
  {
    if i == j {
      assert ops[i..j] == [];
    } else {
      SubscribedGetsAll(ops, i, j - 1, ch);
      assert ops[..j][..j - 1] == ops[..j - 1];
      assert ops[i..j][..j - 1 - i] == ops[i..j - 1] && ops[i..j][j - 1 - i] == ops[j - 1];
      var last := if ops[j - 1].Emit? then [ops[j - 1].event] else [];
      assert Emitted(ops[i..j]) == Emitted(ops[i..j - 1]) + last;
      Assoc(Received(ops[..i], ch), Emitted(ops[i..j - 1]), last);
    }
  }

  lemma {:induction false} UnsubscribedGetsNone(ops: seq<Op>, i: nat, j: nat, ch: Channel)
    requires i <= j <= |ops| && ch !in Drains(ops[..i]) && NoRegistration(ops, i, j, ch)
    ensures ch !in Drains(ops[..j])
    ensures Received(ops[..j], ch) == Received(ops[..i], ch)
    decreases j - i
  {
    if i < j {
      UnsubscribedGetsNone(ops, i, j - 1, ch);
      assert ops[..j][..j - 1] == ops[..j - 1];
    }
  }

  lemma OneStep(ops: seq<Op>, k: nat)
    requires k < |ops|
    ensures ops[k].Add? ==>
      Drains(ops[..k + 1]) == if ops[k].capacity == 0 then Drains(ops[..k]) else Drains(ops[..k]) + {ops[k].ch}
    ensures ops[k].Remove? ==> Drains(ops[..k + 1]) == Drains(ops[..k]) - {ops[k].ch}
    ensures !ops[k].Emit? ==> forall ch :: Received(ops[..k + 1], ch) == Received(ops[..k], ch)
  {
    assert ops[..k + 1][..k] == ops[..k];
  }

  /**
   A channel registered once at step i and removed once at step j has received, at any time,
   exactly the contiguous run of events distributed between the two.
   */
  lemma LosslessFanout(ops: seq<Op>, i: nat, j: nat, n: nat, ch: Channel)
    requires i < j <= n <= |ops| && (j < n ==> ops[j] == Remove(ch))
    requires ops[i].Add? && ops[i].ch == ch && ops[i].capacity > 0
    requires NoRegistration(ops, 0, i, ch) && NoRegistration(ops, j, n, ch) && NoRemoval(ops, i + 1, j, ch)
    ensures Received(ops[..n], ch) == Emitted(ops[i + 1..j])
  {
    assert ops[..0] == [];
    UnsubscribedGetsNone(ops, 0, i, ch);
    OneStep(ops, i);
    SubscribedGetsAll(ops, i + 1, j, ch);
    if j < n {
      OneStep(ops, j);
      UnsubscribedGetsNone(ops, j + 1, n, ch);
    }
  }

  class EventSink {
    var drains: set<Channel>
    var received: map<Channel, seq<Event>>

    constructor ()
      ensures drains == {} && received == map[]
    {
      drains, received := {}, map[];
    }

    /** What a channel has been handed. */
    function Got(ch: Channel): seq<Event>
      reads this
    {
      if ch in received then received[ch] else []
    }

    /**
     Hands one event to every drain, in any order, blocking on each; a halt after `budget`
     deliveries leaves the remaining drains without it and ends the worker.
     */
    method Distribute(event: Event, budget: nat) returns (halted: bool)
      modifies `received
      ensures halted <==> budget < |drains|
      ensures forall ch | ch !in drains :: Got(ch) == old(Got(ch))
      ensures forall ch | ch in drains ::
                Got(ch) == old(Got(ch)) + [event] || (halted && Got(ch) == old(Got(ch)))
    {
      var todo, left := drains, budget;
      while todo != {}
        invariant todo <= drains && 0 <= left && budget - left + |todo| == |drains|
        invariant forall ch | ch in todo || ch !in drains :: Got(ch) == old(Got(ch))
        invariant forall ch | ch in drains && ch !in todo :: Got(ch) == old(Got(ch)) + [event]
        decreases todo
      {
        var drain :| drain in todo;
        if left == 0 { return true; }
        received := received[drain := Got(drain) + [event]];
        todo, left := todo - {drain}, left - 1;
      }
      return false;
    }

    /** Processes operations until none is left or a halt strikes during the one at `haltAt`. */
    method Work(ops: seq<Op>, haltAt: nat, budget: nat) returns (done: nat)
      requires drains == {} && received == map[]
      modifies this
      ensures done <= |ops| && drains == Drains(ops[..done])
      ensures done < |ops| ==> done == haltAt
      ensures forall ch ::
        || Got(ch) == Received(ops[..done], ch)
        || (done < |ops| && ops[done].Emit? && ch in drains
            && Got(ch) == Received(ops[..done], ch) + [ops[done].event])
    {
      done := 0;
      while done < |ops|
        invariant done <= |ops| && drains == Drains(ops[..done])
        invariant forall ch :: Got(ch) == Received(ops[..done], ch)
      {
        assert ops[..done + 1][..done] == ops[..done];
        match ops[done] {
          case Add(ch, capacity) =>
            if capacity > 0 { drains := drains + {ch}; }
          case Remove(ch) =>
            drains := drains - {ch};
          case Emit(event) =>
            if done == haltAt {
              var halted := Distribute(event, budget);
              if halted { return; }
            } else {
              var halted := Distribute(event, |drains|);
            }
        }
        done := done + 1;
      }
    }
  }
}
