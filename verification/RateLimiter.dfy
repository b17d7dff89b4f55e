/** The per-IP fixed-window limiter in front of /api, and the bound it gives on any sliding interval. */
module RateLimiter {
  import opened Wrappers

  type Ip = string

  const MAX := 240
  const WINDOW_MS := 60000

  datatype Window = Window(start: int, n: nat)
  datatype Request = Request(ip: Ip, now: int)

  /** The entry after a request at `now`. */
  function Touch(e: Option<Window>, now: int): Window {
    if e.None? || now - e.value.start > WINDOW_MS then Window(now, 1) else Window(e.value.start, e.value.n + 1)
  }

  function EntryOf(rates: map<Ip, Window>, ip: Ip): Option<Window> {
    if ip in rates then Some(rates[ip]) else None
  }

  function Rates(rs: seq<Request>): map<Ip, Window> {
    if |rs| == 0 then map[]
    else
      var before, r := Rates(rs[..|rs| - 1]), rs[|rs| - 1];
      before[r.ip := Touch(EntryOf(before, r.ip), r.now)]
  }

  /** The arrival times of one address. */
  function Times(rs: seq<Request>, ip: Ip): seq<int> {
    if |rs| == 0 then []
    else Times(rs[..|rs| - 1], ip) + if rs[|rs| - 1].ip == ip then [rs[|rs| - 1].now] else []
  }

  function Entry(times: seq<int>): Option<Window> {
    if |times| == 0 then None else Some(Touch(Entry(times[..|times| - 1]), times[|times| - 1]))
  }

  /** Whether the last request of the sequence passes. */
  predicate LastPasses(times: seq<int>)
    requires |times| > 0
  {
    Entry(times).value.n <= MAX
  }

  /** Addresses do not influence each other. */
  lemma {:induction false} AddressesAreIndependent(rs: seq<Request>, ip: Ip)
    ensures EntryOf(Rates(rs), ip) == Entry(Times(rs, ip))
  {
    if |rs| > 0 {
      var p, r := rs[..|rs| - 1], rs[|rs| - 1];
      AddressesAreIndependent(p, ip);
      if r.ip == ip {
        assert Times(rs, ip)[..|Times(rs, ip)| - 1] == Times(p, ip);
      } else {
        assert Times(rs, ip) == Times(p, ip);
      }
    }
  }

  class Limiter {
    var rateMap: map<Ip, Window>
    ghost var served: seq<Request>

    ghost predicate Valid()
      reads this
    {
      rateMap == Rates(served)
    }

    constructor ()
      ensures Valid() && served == []
    {
      rateMap, served := map[], [];
    }

    /** Returns whether the request goes on, which its own address's arrival times decide; if not, the answer is 429. */
    method RateLimit(ip: Ip, now: int) returns (passed: bool)
      requires Valid()
      modifies this
      ensures Valid() && served == old(served) + [Request(ip, now)]
      ensures Times(served, ip) == Times(old(served), ip) + [now]
      ensures passed == LastPasses(Times(served, ip))
    {
      ghost var r := Request(ip, now);
      assert (served + [r])[..|served|] == served;
      served := served + [r];
      AddressesAreIndependent(served, ip);
      if ip !in rateMap || now - rateMap[ip].start > WINDOW_MS {
        rateMap := rateMap[ip := Window(now, 0)];
      }
      rateMap := rateMap[ip := Window(rateMap[ip].start, rateMap[ip].n + 1)];
      if rateMap[ip].n > MAX { return false; }
      return true;
    }
  }

  ghost predicate Monotone(times: seq<int>) {
    forall i, j | 0 <= i < j < |times| :: times[i] <= times[j]
  }

  /** How many requests passed at times from `a` to `a + WINDOW_MS`, both included. */
  function PassedIn(times: seq<int>, a: int): nat {
    if |times| == 0 then 0
    else
      PassedIn(times[..|times| - 1], a)
      + if LastPasses(times) && a <= times[|times| - 1] <= a + WINDOW_MS then 1 else 0
  }

  function Capped(n: nat): nat {
    if n < MAX then n else MAX
  }

  /** What the current window says about the interval from `a`. */
  ghost predicate IntervalBound(times: seq<int>, a: int) {
    |times| > 0 ==>
      var w, c := Entry(times).value, PassedIn(times, a);
      && w.n >= 1 && w.start <= times[|times| - 1]
      && (times[|times| - 1] < a ==> c == 0)
      && (w.start < a ==> c <= Capped(w.n) - 1)
      && (a <= w.start <= a + WINDOW_MS ==> c <= MAX - 1 + Capped(w.n))
      && c <= 2 * MAX - 1
  }

  lemma {:induction false} IntervalBoundHolds(times: seq<int>, a: int)
    requires Monotone(times)
    ensures IntervalBound(times, a)
  {
    if |times| > 0 {
      IntervalBoundHolds(times[..|times| - 1], a);
    }
  }

  /**
   In any interval of 60000 ms at most 479 requests of one address pass: 2 * 240, less the
   request that opened the earlier of the two windows the interval can meet.
   */
  lemma SlidingBound(rs: seq<Request>, ip: Ip, a: int)
    requires Monotone(Times(rs, ip))
    ensures PassedIn(Times(rs, ip), a) <= 479
  {
    IntervalBoundHolds(Times(rs, ip), a);
  }

  // ------------------------------------------------ The bound is reached

  function Repeat(n: nat, t: int): seq<int> {
    seq(n, i => t)
  }

  function Burst(k: nat): seq<int> {
    if k <= 239 then [0] + Repeat(k, 60000) else [0] + Repeat(239, 60000) + Repeat(k - 239, 60001)
  }

  lemma BurstStep(k: nat)
    ensures |Burst(k)| == k + 1
    ensures k > 0 ==> Burst(k)[..|Burst(k)| - 1] == Burst(k - 1)
                      && Burst(k)[|Burst(k)| - 1] == if k <= 239 then 60000 else 60001
  {
  }

  /** One more request, after which the sequence is `t`. */
  lemma LastOf(t: seq<int>, a: int)
    requires |t| > 0
    ensures Entry(t) == Some(Touch(Entry(t[..|t| - 1]), t[|t| - 1]))
    ensures PassedIn(t, a) == PassedIn(t[..|t| - 1], a)
      + if Touch(Entry(t[..|t| - 1]), t[|t| - 1]).n <= MAX && a <= t[|t| - 1] <= a + WINDOW_MS then 1 else 0
  {
  }

  lemma {:induction false} BurstPasses(k: nat)
    requires k <= 479
    ensures Entry(Burst(k)) == Some(if k <= 239 then Window(0, k + 1) else Window(60001, k - 239))
    ensures PassedIn(Burst(k), 60000) == k
  {
    BurstStep(k);
    LastOf(Burst(k), 60000);
    if k > 0 {
      BurstPasses(k - 1);
    } else {
      assert Burst(0)[..0] == [];
    }
  }

  lemma BurstMonotone()
    ensures Monotone(Burst(479))
  {
  }

  /** 479 is reached, so no smaller bound holds. */
  lemma BoundIsTight()
    ensures exists times :: Monotone(times) && PassedIn(times, 60000) == 479
  {
    BurstPasses(479);
    BurstMonotone();
  }

  // ------------------------------------------------ No request is refused early

  function Since(times: seq<int>, lo: int): nat {
    if |times| == 0 then 0 else Since(times[..|times| - 1], lo) + if times[|times| - 1] >= lo then 1 else 0
  }

  lemma {:induction false} SinceMonotone(times: seq<int>, lo: int, lower: int)
    requires lower <= lo
    ensures Since(times, lo) <= Since(times, lower)
  {
    if |times| > 0 { SinceMonotone(times[..|times| - 1], lo, lower); }
  }

  lemma {:induction false} WindowCounts(times: seq<int>)
    requires Monotone(times) && |times| > 0
    ensures Entry(times).value.n <= Since(times, Entry(times).value.start)
    ensures Entry(times).value.start <= times[|times| - 1]
  {
    if |times| > 1 { WindowCounts(times[..|times| - 1]); }
  }

  /** A refused request was preceded by 240 others of its address in the last 60000 ms. */
  lemma RefusedOnlyWhenBusy(times: seq<int>)
    requires Monotone(times) && |times| > 0 && !LastPasses(times)
    ensures Since(times[..|times| - 1], times[|times| - 1] - WINDOW_MS) >= MAX
  {
    WindowCounts(times);
    SinceMonotone(times[..|times| - 1], Entry(times).value.start, times[|times| - 1] - WINDOW_MS);
  }
}
