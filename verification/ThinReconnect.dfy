/** Reconnection of the thin client, and the decision to replay in-flight requests. */
module ThinReconnect {
  import opened Powers
  import opened Wrappers

  type Token = nat
  type Key = nat
  type Req = nat

  /** How far one dial attempt gets; a status event overwrites the token even if the rest fails. */
  datatype Attempt =
    | DialFails
    | NoStatus
    | Partial(connected: bool, token: Token)
    | Full(connected: bool, token: Token)

  /** The attempts up to and including the first that succeeds, if one does before a halt. */
  function FirstFull(attempts: seq<Attempt>): Option<nat> {
    if |attempts| == 0 then None
    else if attempts[0].Full? then Some(0)
    else
      var r := FirstFull(attempts[1..]);
      if r.None? then None else Some(r.value + 1)
  }

  lemma {:induction false} FirstFullMeans(attempts: seq<Attempt>)
    ensures FirstFull(attempts).Some? ==>
      && FirstFull(attempts).value < |attempts| && attempts[FirstFull(attempts).value].Full?
      && forall k | 0 <= k < FirstFull(attempts).value :: !attempts[k].Full?
    ensures FirstFull(attempts).None? ==> forall k | 0 <= k < |attempts| :: !attempts[k].Full?
  {
    if |attempts| > 0 && !attempts[0].Full? {
      FirstFullMeans(attempts[1..]);
      forall k | 0 < k < |attempts| ensures attempts[k] == attempts[1..][k - 1] {}
    }
  }

  /** What a status event sets. */
  datatype Status = Status(connected: bool, token: Token)

  /** The status after these attempts, when it was `before` ahead of them. */
  function StatusAfter(before: Status, attempts: seq<Attempt>): Status {
    if |attempts| == 0 then before
    else
      var a := attempts[|attempts| - 1];
      if a.Partial? || a.Full? then Status(a.connected, a.token) else StatusAfter(before, attempts[..|attempts| - 1])
  }

  function DialFailures(attempts: seq<Attempt>): nat {
    if |attempts| == 0 then 0
    else DialFailures(attempts[..|attempts| - 1]) + if attempts[|attempts| - 1].DialFails? then 1 else 0
  }

  /** Seconds to wait after this many refused dials. */
  function Backoff(failures: nat): nat {
    if Pow2(failures) < 60 then Pow2(failures) else 60
  }

  lemma BackoffStep(failures: nat)
    ensures Backoff(failures + 1) == if 2 * Backoff(failures) > 60 then 60 else 2 * Backoff(failures)
  {
  }

  /** The first wait is one second; a refused dial doubles it up to 60 and nothing else changes it. */
  ghost predicate WaitsAsDialled(waits: seq<nat>, attempts: seq<Attempt>) {
    && |waits| <= |attempts|
    && (|waits| > 0 ==> waits[0] == 1)
    && forall i | 0 < i < |waits| ::
         waits[i] == if attempts[i - 1].DialFails? then (if waits[i - 1] > 30 then 60 else 2 * waits[i - 1])
                     else waits[i - 1]
  }

  lemma WaitsDouble(waits: seq<nat>, attempts: seq<Attempt>)
    requires |waits| <= |attempts|
    requires forall i | 0 <= i < |waits| :: waits[i] == Backoff(DialFailures(attempts[..i]))
    ensures WaitsAsDialled(waits, attempts)
  {
    forall i | 0 < i < |waits|
      ensures waits[i] == if attempts[i - 1].DialFails? then (if waits[i - 1] > 30 then 60 else 2 * waits[i - 1])
                          else waits[i - 1]
    {
      assert attempts[..i][..i - 1] == attempts[..i - 1];
      BackoffStep(DialFailures(attempts[..i - 1]));
    }
  }

  /** The status is the one that the last attempt to get as far as a status event brought. */
  lemma {:induction false} StatusIsLast(before: Status, attempts: seq<Attempt>, k: nat)
    requires k <= |attempts| && forall i | k <= i < |attempts| :: attempts[i].DialFails? || attempts[i].NoStatus?
    ensures k == 0 ==> StatusAfter(before, attempts) == before
    ensures k > 0 && (attempts[k - 1].Partial? || attempts[k - 1].Full?) ==>
      StatusAfter(before, attempts) == Status(attempts[k - 1].connected, attempts[k - 1].token)
    decreases |attempts|
  {
    if k < |attempts| {
      StatusIsLast(before, attempts[..|attempts| - 1], k);
    }
  }

  class ThinClient {
    var daemonInstanceToken: Token
    var isConnected: bool
    var inFlightResends: map<Key, Req>
    /** Requests written to the current connection by a replay, with their keys. */
    var written: seq<(Key, Req)>
    /** Seconds slept before each attempt. */
    var waits: seq<nat>

    constructor (token: Token, connected: bool)
      ensures daemonInstanceToken == token && isConnected == connected && inFlightResends == map[]
      ensures written == [] && waits == []
    {
      daemonInstanceToken, isConnected, inFlightResends := token, connected, map[];
      written, waits := [], [];
    }

    function CurrentStatus(): Status
      reads this
    {
      Status(isConnected, daemonInstanceToken)
    }

    /** Dials until an attempt goes all the way through; false means the client was halted. */
    method Redial(attempts: seq<Attempt>) returns (ok: bool)
      modifies `daemonInstanceToken, `isConnected, `waits
      ensures ok <==> FirstFull(attempts).Some?
      ensures !ok ==> CurrentStatus() == StatusAfter(old(CurrentStatus()), attempts)
      ensures old(waits) <= waits && WaitsAsDialled(waits[|old(waits)|..], attempts)
      ensures ok ==> var k := FirstFull(attempts).value;
        && k < |attempts| && attempts[k].Full?
        && CurrentStatus() == Status(attempts[k].connected, attempts[k].token)
        && |waits| == |old(waits)| + k + 1
        && old(waits) <= waits
        && forall i | 0 <= i <= k :: waits[|old(waits)| + i] == Backoff(DialFailures(attempts[..i]))
    {
      FirstFullMeans(attempts);
      var backoff := 1;
      for i := 0 to |attempts|
        invariant backoff == Backoff(DialFailures(attempts[..i]))
        invariant CurrentStatus() == StatusAfter(old(CurrentStatus()), attempts[..i])
        invariant forall k | 0 <= k < i :: !attempts[k].Full?
        invariant |waits| == |old(waits)| + i && old(waits) <= waits
        invariant forall k | 0 <= k < i :: waits[|old(waits)| + k] == Backoff(DialFailures(attempts[..k]))
      {
        waits := waits + [backoff];
        assert attempts[..i + 1][..i] == attempts[..i];
        match attempts[i] {
          case DialFails =>
            BackoffStep(DialFailures(attempts[..i]));
            backoff := backoff * 2;
            if backoff > 60 { backoff := 60; }
          case NoStatus =>
          case Partial(connected, token) =>
            isConnected, daemonInstanceToken := connected, token;
          case Full(connected, token) =>
            isConnected, daemonInstanceToken := connected, token;
            WaitsDouble(waits[|old(waits)|..], attempts);
            return true;
        }
      }
      assert attempts[..|attempts|] == attempts;
      WaitsDouble(waits[|old(waits)|..], attempts);
      return false;
    }

    /** The tracked requests whose write goes through are on the connection, each once, and nothing else is. */
    ghost predicate Replayed(failing: set<Key>)
      reads this
    {
      && (forall i, j | 0 <= i < j < |written| :: written[i].0 != written[j].0)
      && (forall p :: p in written <==> p.0 in inFlightResends && inFlightResends[p.0] == p.1 && p.0 !in failing)
    }

    /** Writes the tracked requests in whatever order the map yields them; a failed write is skipped. */
    method ReplayInFlightResends(failing: set<Key>)
      requires written == []
      modifies `written
      ensures Replayed(failing)
    {
      var todo := inFlightResends.Keys;
      while todo != {}
        invariant todo <= inFlightResends.Keys
        invariant forall i, j | 0 <= i < j < |written| :: written[i].0 != written[j].0
        invariant forall p :: p in written <==>
                    p.0 in inFlightResends && inFlightResends[p.0] == p.1 && p.0 !in failing && p.0 !in todo
        decreases |todo|
      {
        var key :| key in todo;
        if key !in failing {
          forall i | 0 <= i < |written| ensures written[i].0 != key { assert written[i] in written; }
          written := written + [(key, inFlightResends[key])];
        }
        todo := todo - {key};
      }
    }

    /**
     One disconnect and reconnect of the worker. The requests in flight are replayed exactly if
     the instance reached differs from the one connected before; the instances met by attempts
     that failed in between play no part.
     */
    method Reconnect(attempts: seq<Attempt>, failing: set<Key>) returns (ok: bool, replayed: bool)
      modifies this
      ensures inFlightResends == old(inFlightResends)
      ensures ok <==> FirstFull(attempts).Some?
      ensures ok ==>
        (FirstFull(attempts).value < |attempts|
         && attempts[FirstFull(attempts).value] == Full(isConnected, daemonInstanceToken))
      ensures ok ==> (replayed <==> daemonInstanceToken != old(daemonInstanceToken))
      ensures if ok && replayed then Replayed(failing) else written == []
    {
      isConnected := false;
      var previousToken := daemonInstanceToken;
      written := [];
      ok := Redial(attempts);
      replayed := false;
      if !ok { return; }
      if daemonInstanceToken != previousToken {
        replayed := true;
        ReplayInFlightResends(failing);
      }
    }
  }

  // ------------------------------------------------ Runs, with the daemons' side

  datatype Mode = Up | Down(previous: Token)

  /**
   The client, the token of the instance it was last fully connected to, what each daemon
   instance holds, and which requests some instance has been given.
   */
  datatype World = World(mode: Mode, token: Token, lastFull: Token, inFlight: set<Key>,
                         held: map<Token, set<Key>>, delivered: set<Key>)

  datatype Step =
    | Deliver(key: Key)                             // registered and accepted by the connected daemon
    | Register(key: Key)                            // registered, but its write did not go through
    | Complete(key: Key)                            // answered or cancelled
    | Disconnect
    | Try(attempt: Attempt, failing: set<Key>)      // one dial attempt, and the writes a replay would lose

  function HeldBy(w: World, t: Token): set<Key> {
    if t in w.held then w.held[t] else {}
  }

  predicate Possible(w: World, s: Step) {
    match s
    case Deliver(_) => w.mode.Up?
    case Disconnect => w.mode.Up?
    case Try(_, _) => w.mode.Down?
    case _ => true
  }

  /** Whether this step replays: a full handshake that ends on another token than before the disconnect. */
  predicate Replays(w: World, s: Step) {
    w.mode.Down? && s.Try? && s.attempt.Full? && s.attempt.token != w.mode.previous
  }

  function Next(w: World, s: Step): World {
    match s
    case Deliver(k) =>
      w.(inFlight := w.inFlight + {k}, delivered := w.delivered + {k},
         held := w.held[w.token := HeldBy(w, w.token) + {k}])
    case Register(k) => w.(inFlight := w.inFlight + {k})
    case Complete(k) => w.(inFlight := w.inFlight - {k}, delivered := w.delivered - {k})
    case Disconnect => w.(mode := Down(w.token))
    case Try(a, failing) =>
      match a
      case DialFails => w
      case NoStatus => w
      case Partial(_, t) => w.(token := t)
      case Full(_, t) =>
        var up := w.(mode := Up, token := t, lastFull := t);
        if Replays(w, s) then
          up.(held := w.held[t := HeldBy(w, t) + (w.inFlight - failing)],
              delivered := w.delivered + (w.inFlight - failing))
        else up
  }

  ghost predicate ReplayInv(w: World) {
    match w.mode
    case Up => w.token == w.lastFull
    case Down(previous) => previous == w.lastFull
  }

  /** Every request a daemon was given is tracked, and held by the instance last connected to. */
  ghost predicate NothingLost(w: World) {
    w.delivered <= w.inFlight && w.delivered <= HeldBy(w, w.lastFull)
  }

  ghost predicate ValidRun(w: World, steps: seq<Step>)
    decreases |steps|
  {
    |steps| == 0 || (Possible(w, steps[0]) && ValidRun(Next(w, steps[0]), steps[1..]))
  }

  function Run(w: World, steps: seq<Step>): World
    decreases |steps|
  {
    if |steps| == 0 then w else Run(Next(w, steps[0]), steps[1..])
  }

  /** No replay of the run loses a write of a request that was delivered before. */
  ghost predicate WritesSucceed(w: World, steps: seq<Step>)
    decreases |steps|
  {
    |steps| == 0 ||
    ((Replays(w, steps[0]) ==> steps[0].failing !! w.delivered) && WritesSucceed(Next(w, steps[0]), steps[1..]))
  }

  lemma {:induction false} RunKeepsToken(w: World, steps: seq<Step>)
    requires ReplayInv(w) && ValidRun(w, steps)
    ensures ReplayInv(Run(w, steps))
    decreases |steps|
  {
    if |steps| > 0 { RunKeepsToken(Next(w, steps[0]), steps[1..]); }
  }

  /**
   After any run, whatever instances half-finished handshakes have met, a completed redial
   replays if and only if the instance differs from the last fully connected one.
   */
  lemma ReplayDecision(w: World, steps: seq<Step>, s: Step)
    requires ReplayInv(w) && ValidRun(w, steps) && Possible(Run(w, steps), s) && s.Try? && s.attempt.Full?
    ensures Replays(Run(w, steps), s) <==> s.attempt.token != Run(w, steps).lastFull
  {
    RunKeepsToken(w, steps);
  }

  /**
   Whenever the client is connected, the connected daemon holds every delivered request that
   is still in flight, provided the replays' writes succeeded.
   */
  lemma {:induction false} DeliveredIsHeld(w: World, steps: seq<Step>)
    requires ReplayInv(w) && NothingLost(w) && ValidRun(w, steps) && WritesSucceed(w, steps)
    ensures NothingLost(Run(w, steps))
    ensures Run(w, steps).mode.Up? ==> Run(w, steps).delivered <= HeldBy(Run(w, steps), Run(w, steps).token)
    decreases |steps|
  {
    if |steps| > 0 {
      StepKeepsHeld(w, steps[0]);
      DeliveredIsHeld(Next(w, steps[0]), steps[1..]);
    }
  }

  lemma StepKeepsHeld(w: World, s: Step)
    requires ReplayInv(w) && NothingLost(w) && Possible(w, s)
    requires Replays(w, s) ==> s.failing !! w.delivered
    ensures ReplayInv(Next(w, s)) && NothingLost(Next(w, s))
  {
  }

  /**
   A replay leaves the new instance with every request delivered so far if and only if it
   already holds the delivered ones whose write is lost.
   */
  lemma ReplayRestoresExactly(w: World, s: Step)
    requires ReplayInv(w) && NothingLost(w) && Replays(w, s)
    ensures NothingLost(Next(w, s)) <==> w.delivered * s.failing <= HeldBy(w, s.attempt.token)
  {
    var w' := Next(w, s);
    if NothingLost(w') {
      forall k | k in w.delivered * s.failing ensures k in HeldBy(w, s.attempt.token) {
        assert k in w'.delivered;
      }
    }
  }

  // ------------------------------------------------ One redial as a run

  function Tries(attempts: seq<Attempt>, failing: set<Key>): seq<Step> {
    seq(|attempts|, i requires 0 <= i < |attempts| => Try(attempts[i], failing))
  }

  /** What a redial that ends on instance `t` makes of the world, when `previous` was connected before. */
  function Redialled(w: World, previous: Token, t: Token, failing: set<Key>): World {
    var up := w.(mode := Up, token := t, lastFull := t);
    if t == previous then up
    else up.(held := w.held[t := HeldBy(w, t) + (w.inFlight - failing)],
             delivered := w.delivered + (w.inFlight - failing))
  }

  /** The attempts of one redial, one step each, amount to the method's single decision. */
  lemma {:induction false} RedialIsARun(w: World, attempts: seq<Attempt>, failing: set<Key>)
    requires w.mode.Down? && FirstFull(attempts).Some?
    ensures FirstFull(attempts).value < |attempts|
    ensures var k, steps := FirstFull(attempts).value, Tries(attempts[..FirstFull(attempts).value + 1], failing);
      && attempts[k].Full? && ValidRun(w, steps)
      && Run(w, steps) == Redialled(w, w.mode.previous, attempts[k].token, failing)
    decreases |attempts|
  {
    var k := FirstFull(attempts).value;
    FirstFullMeans(attempts);
    var steps := Tries(attempts[..k + 1], failing);
    var w1 := Next(w, steps[0]);
    if attempts[0].Full? {
      assert steps[1..] == [];
    } else {
      RedialIsARun(w1, attempts[1..], failing);
      assert steps[1..] == Tries(attempts[1..][..k], failing);
      assert Redialled(w1, w.mode.previous, attempts[k].token, failing)
          == Redialled(w, w.mode.previous, attempts[k].token, failing);
    }
  }
}
