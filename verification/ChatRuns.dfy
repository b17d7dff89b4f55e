/** Conservation of messages and agreement of groups over whole runs of requests. */
module ChatRuns {
  import opened Wrappers
  import opened ChatStore
  import opened ChatGroups
  import opened ChatLedger

  /** What one step does to one ledger line. */
  lemma LedgerStep(w: World, i: Input, id: Id)
    requires LedgerInv(w) && FreshId(w, i)
    ensures id in Next(w, i).ledger <==> id in w.ledger || (AcceptedBy(w, i).Some? && id == i.id)
    ensures id in w.ledger ==> Next(w, i).ledger[id] == w.ledger[id].(fate :=
      if id in Ids(Deleted(w, i)) then Discarded
      else if id in Ids(Read(w, i)) then Returned(i.request.user)
      else w.ledger[id].fate)
    ensures AcceptedBy(w, i).Some? ==> Next(w, i).ledger[i.id] == AcceptedBy(w, i).value
  {
    ReadWasPending(w, i);
  }

  lemma KeepsBoxes(w: World, i: Input)
    requires LedgerInv(w) && FreshId(w, i)
    ensures BoxesSorted(After(w, i)) && BoxesOnLedger(Next(w, i))
  {
    var w' := Next(w, i);
    forall p ensures Sorted(Box(w'.store, p)) {
      StepEffect(w, i, p);
    }
    forall p, m | m in Box(w'.store, p) ensures m.id in w'.ledger && w'.ledger[m.id] == Entry(p, m, Pending) {
      BoxedIsPending(w, i, p, m);
    }
  }

  /** What lies in a directory after a step is on the ledger as pending there. */
  lemma BoxedIsPending(w: World, i: Input, p: Place, m: ChatMessage)
    requires LedgerInv(w) && FreshId(w, i) && m in Box(After(w, i), p)
    ensures m.id in Next(w, i).ledger && Next(w, i).ledger[m.id] == Entry(p, m, Pending)
  {
    StepEffect(w, i, p);
    ReadWasPending(w, i);
    LedgerStep(w, i, m.id);
    if AcceptedBy(w, i) != Some(Entry(p, m, Pending)) {
      assert w.ledger[m.id] == Entry(p, m, Pending);
    }
  }

  lemma KeepsPending(w: World, i: Input)
    requires LedgerInv(w) && FreshId(w, i)
    ensures PendingInBox(Next(w, i))
  {
    var w' := Next(w, i);
    forall id | id in w'.ledger
      ensures w'.ledger[id].msg.id == id
      ensures w'.ledger[id].fate.Pending? ==> w'.ledger[id].msg in Box(w'.store, w'.ledger[id].place)
    {
      LedgerStep(w, i, id);
      ReadWasPending(w, i);
      StepEffect(w, i, w'.ledger[id].place);
    }
  }

  lemma KeepsTags(w: World, i: Input)
    requires LedgerInv(w) && FreshId(w, i)
    ensures GroupTags(Next(w, i))
  {
    forall id | id in Next(w, i).ledger
      ensures var e := Next(w, i).ledger[id];
        e.msg.group == if e.place.GroupBoxOf? then Some(e.place.group) else None
    {
      LedgerStep(w, i, id);
    }
  }

  lemma LogIs(w: World, i: Input)
    ensures Next(w, i).log == w.log + Deliveries(i.request.user, Read(w, i))
  {
  }

  ghost predicate Logged(ledger: map<Id, Entry>, d: Delivery) {
    d.msg.id in ledger && ledger[d.msg.id].msg == d.msg && ledger[d.msg.id].fate == Returned(d.to)
  }

  /** A delivery logged before keeps its ledger line. */
  lemma OldDelivery(w: World, i: Input, k: nat)
    requires LedgerInv(w) && FreshId(w, i) && k < |w.log|
    ensures Logged(Next(w, i).ledger, w.log[k])
  {
    ReadWasPending(w, i);
    LedgerStep(w, i, w.log[k].msg.id);
  }

  lemma NewDelivery(w: World, i: Input, m: ChatMessage)
    requires LedgerInv(w) && FreshId(w, i) && m in Read(w, i)
    ensures Logged(Next(w, i).ledger, Delivery(i.request.user, m))
  {
    ReadWasPending(w, i);
    LedgerStep(w, i, m.id);
  }

  /** One entry of the log after a step, on the values the step leaves. */
  lemma EveryLogged(before: seq<Delivery>, to: User, read: seq<ChatMessage>, ledger: map<Id, Entry>, k: nat)
    requires forall j: nat | j < |before| :: Logged(ledger, before[j])
    requires forall m | m in read :: Logged(ledger, Delivery(to, m))
    requires k < |before + Deliveries(to, read)|
    ensures Logged(ledger, (before + Deliveries(to, read))[k])
  {
    if k >= |before| { assert read[k - |before|] in read; }
  }

  lemma KeepsLog(w: World, i: Input)
    requires LedgerInv(w) && FreshId(w, i)
    ensures LogOnLedger(Next(w, i))
  {
    var w' := Next(w, i);
    LogIs(w, i);
    forall j: nat | j < |w.log| ensures Logged(w'.ledger, w.log[j]) { OldDelivery(w, i, j); }
    forall m | m in Read(w, i) ensures Logged(w'.ledger, Delivery(i.request.user, m)) { NewDelivery(w, i, m); }
    forall k: nat | k < |w'.log| ensures Logged(w'.ledger, w'.log[k]) {
      EveryLogged(w.log, i.request.user, Read(w, i), w'.ledger, k);
    }
  }

  lemma DeliveredBefore(w: World, i: Input, j: nat, m: ChatMessage)
    requires LedgerInv(w) && FreshId(w, i) && j < |w.log| && m in Read(w, i)
    ensures w.log[j].msg.id != m.id
  {
    ReadWasPending(w, i);
    assert w.ledger[w.log[j].msg.id].fate.Returned?;
  }

  /** Logged deliveries stay distinct when what is read is distinct and was not delivered before. */
  lemma DistinctLog(before: seq<Delivery>, to: User, read: seq<ChatMessage>)
    requires forall j, k | 0 <= j < k < |before| :: before[j].msg.id != before[k].msg.id
    requires DistinctIds(read)
    requires forall j, m | 0 <= j < |before| && m in read :: before[j].msg.id != m.id
    ensures var log := before + Deliveries(to, read);
      forall j, k | 0 <= j < k < |log| :: log[j].msg.id != log[k].msg.id
  {
    var log := before + Deliveries(to, read);
    forall j, k | 0 <= j < k < |log| ensures log[j].msg.id != log[k].msg.id {
      if k >= |before| { assert read[k - |before|] in read; }
    }
  }

  lemma KeepsLogDistinct(w: World, i: Input)
    requires LedgerInv(w) && FreshId(w, i)
    ensures LogDistinct(Next(w, i))
  {
    LogIs(w, i);
    ReadDistinct(w, i);
    forall j, m | 0 <= j < |w.log| && m in Read(w, i) ensures w.log[j].msg.id != m.id { DeliveredBefore(w, i, j, m); }
    DistinctLog(w.log, i.request.user, Read(w, i));
  }

  lemma NowInLog(w: World, i: Input, id: Id)
    requires BoxInv(w) && id in w.ledger && id in Ids(Read(w, i))
    ensures Delivery(i.request.user, w.ledger[id].msg) in Next(w, i).log
  {
    ReadWasPending(w, i);
    var m :| m in Read(w, i) && m.id == id;
    LogIs(w, i);
    var k :| 0 <= k < |Read(w, i)| && Read(w, i)[k] == m;
    assert Next(w, i).log[|w.log| + k] == Delivery(i.request.user, m);
  }

  lemma KeepsReturned(w: World, i: Input)
    requires LedgerInv(w) && FreshId(w, i)
    ensures ReturnedInLog(Next(w, i))
  {
    var w' := Next(w, i);
    LogIs(w, i);
    ReadWasPending(w, i);
    forall id | id in w'.ledger && w'.ledger[id].fate.Returned?
      ensures Delivery(w'.ledger[id].fate.to, w'.ledger[id].msg) in w'.log
    {
      LedgerStep(w, i, id);
      if id in w.ledger && id in Ids(Read(w, i)) {
        NowInLog(w, i, id);
      } else {
        assert Delivery(w.ledger[id].fate.to, w.ledger[id].msg) in w.log;
      }
    }
  }

  lemma KeepsDrawn(w: World, i: Input)
    requires LedgerInv(w) && FreshId(w, i)
    ensures IdsDrawn(Next(w, i))
  {
    var w' := Next(w, i);
    StepGroups(w.store, i.request, i.id, i.now);
    forall id | id in w'.ledger
      ensures id in w'.drawn && (w'.ledger[id].place.GroupBoxOf? ==> w'.ledger[id].place.group in w'.drawn)
    {
      LedgerStep(w, i, id);
      AcceptedHasGroup(w, i);
    }
  }

  /** A group message is accepted only for a group that exists. */
  lemma AcceptedHasGroup(w: World, i: Input)
    ensures AcceptedBy(w, i).Some? && AcceptedBy(w, i).value.place.GroupBoxOf? ==>
      AcceptedBy(w, i).value.place.group in w.store.groups
  {
  }

  /** What a step deletes lay in the group it deletes. */
  lemma DeletedLay(w: World, i: Input, m: ChatMessage)
    requires LedgerInv(w) && m in Deleted(w, i)
    ensures m.id in w.ledger && w.ledger[m.id].place.GroupBoxOf?
    ensures w.ledger[m.id].place.group !in After(w, i).groups
  {
    ReadIs(w, i);
    assert w.ledger[m.id] == Entry(GroupBoxOf(i.request.group.value), m, Pending);
  }

  lemma KeepsDiscarded(w: World, i: Input)
    requires LedgerInv(w) && FreshId(w, i)
    ensures DiscardedWithGroup(Next(w, i))
  {
    var w' := Next(w, i);
    StepGroups(w.store, i.request, i.id, i.now);
    forall id | id in w'.ledger && w'.ledger[id].fate.Discarded?
      ensures w'.ledger[id].place.GroupBoxOf? && w'.ledger[id].place.group !in w'.store.groups
    {
      LedgerStep(w, i, id);
      ReadWasPending(w, i);
      if id in Ids(Deleted(w, i)) {
        var m :| m in Deleted(w, i) && m.id == id;
        DeletedLay(w, i, m);
      }
    }
  }

  lemma NextKeepsLedger(w: World, i: Input)
    requires LedgerInv(w) && FreshId(w, i)
    ensures LedgerInv(Next(w, i))
  {
    KeepsBoxes(w, i);
    KeepsPending(w, i);
    KeepsTags(w, i);
    KeepsLog(w, i);
    KeepsLogDistinct(w, i);
    KeepsReturned(w, i);
    KeepsDrawn(w, i);
    KeepsDiscarded(w, i);
  }

  // ------------------------------------------------ Runs

  const EMPTY := World(Store(map[], map[]), map[], [], {})

  ghost predicate Fresh(w: World, ins: seq<Input>)
    decreases |ins|
  {
    |ins| == 0 || (var k := |ins| - 1; Fresh(w, ins[..k]) && FreshId(Run(w, ins[..k]), ins[k]))
  }

  function Run(w: World, ins: seq<Input>): World
    decreases |ins|
  {
    if |ins| == 0 then w else Next(Run(w, ins[..|ins| - 1]), ins[|ins| - 1])
  }

  /** Every reachable state: groups and lists agree, every message is accounted for once. */
  lemma {:induction false} RunKeeps(w: World, ins: seq<Input>)
    requires LedgerInv(w) && MembershipInv(w.store) && Fresh(w, ins)
    ensures LedgerInv(Run(w, ins)) && MembershipInv(Run(w, ins).store)
    decreases |ins|
  {
    if |ins| > 0 {
      var p, i := ins[..|ins| - 1], ins[|ins| - 1];
      RunKeeps(w, p);
      NextKeepsLedger(Run(w, p), i);
      StepKeepsMembership(Run(w, p).store, i.request, i.id, i.now);
    }
  }

  lemma ReachableKeeps(ins: seq<Input>)
    requires Fresh(EMPTY, ins)
    ensures LedgerInv(Run(EMPTY, ins)) && MembershipInv(Run(EMPTY, ins).store)
  {
    RunKeeps(EMPTY, ins);
  }

  lemma {:induction false} FreshPrefix(ins: seq<Input>, k: nat)
    requires Fresh(EMPTY, ins) && k <= |ins|
    ensures Fresh(EMPTY, ins[..k])
    ensures k < |ins| ==> FreshId(Run(EMPTY, ins[..k]), ins[k])
    decreases |ins|
  {
    if k == |ins| {
      assert ins[..k] == ins;
    } else if k < |ins| - 1 {
      var p := ins[..|ins| - 1];
      FreshPrefix(p, k);
      assert p[..k] == ins[..k];
    }
  }

  // ------------------------------------------------ Accepting and returning requests of a run

  /** What the k-th request of the run gets accepted, if anything. */
  function AcceptedAt(ins: seq<Input>, k: nat): Option<Entry>
    requires k < |ins|
  {
    AcceptedBy(Run(EMPTY, ins[..k]), ins[k])
  }

  /** The j-th request of the run returns the message. */
  predicate ReturnedAt(ins: seq<Input>, j: nat, m: ChatMessage) {
    j < |ins| && m in Read(Run(EMPTY, ins[..j]), ins[j])
  }

  ghost predicate Returns(ins: seq<Input>, m: ChatMessage) {
    exists j: nat :: ReturnedAt(ins, j, m)
  }

  /** A request returns the message of the delivery to its recipient. */
  predicate Delivers(ins: seq<Input>, j: nat, d: Delivery) {
    ReturnedAt(ins, j, d.msg) && ins[j].request.user == d.to
  }

  /** What a request does depends on the requests before it alone. */
  lemma PrefixSame(ins: seq<Input>, n: nat, k: nat)
    requires k < n <= |ins|
    ensures ins[..n][..k] == ins[..k] && AcceptedAt(ins[..n], k) == AcceptedAt(ins, k)
    ensures forall m :: ReturnedAt(ins[..n], k, m) <==> ReturnedAt(ins, k, m)
  {
    assert ins[..n][..k] == ins[..k];
  }

  /** The last request leaves the lines of the ledger in place; only fates change. */
  lemma LineStays(ins: seq<Input>, id: Id)
    requires |ins| > 0 && Fresh(EMPTY, ins) && id in Run(EMPTY, ins[..|ins| - 1]).ledger
    ensures id in Run(EMPTY, ins).ledger
    ensures var e := Run(EMPTY, ins).ledger[id]; e == Run(EMPTY, ins[..|ins| - 1]).ledger[id].(fate := e.fate)
  {
    var n := |ins| - 1;
    ReachableKeeps(ins[..n]);
    LedgerStep(Run(EMPTY, ins[..n]), ins[n], id);
  }

  lemma LineIsAdded(ins: seq<Input>)
    requires |ins| > 0 && Fresh(EMPTY, ins) && AcceptedAt(ins, |ins| - 1).Some?
    ensures var n := |ins| - 1;
      ins[n].id in Run(EMPTY, ins).ledger && Run(EMPTY, ins).ledger[ins[n].id] == AcceptedAt(ins, n).value
  {
    var n := |ins| - 1;
    ReachableKeeps(ins[..n]);
    LedgerStep(Run(EMPTY, ins[..n]), ins[n], ins[n].id);
  }

  /** An accepted message is on the ledger ever after, unchanged and at its place. */
  lemma {:induction false} AcceptedIsOnLedger(ins: seq<Input>, k: nat)
    requires Fresh(EMPTY, ins) && k < |ins| && AcceptedAt(ins, k).Some?
    ensures ins[k].id in Run(EMPTY, ins).ledger
    ensures var e := Run(EMPTY, ins).ledger[ins[k].id]; e == AcceptedAt(ins, k).value.(fate := e.fate)
    decreases |ins|
  {
    var n := |ins| - 1;
    if k == n {
      LineIsAdded(ins);
    } else {
      PrefixSame(ins, n, k);
      AcceptedIsOnLedger(ins[..n], k);
      LineStays(ins, ins[k].id);
    }
  }

  lemma LedgerGrows(ins: seq<Input>, id: Id)
    requires |ins| > 0 && Fresh(EMPTY, ins)
    ensures var n := |ins| - 1;
      id in Run(EMPTY, ins).ledger
      <==> id in Run(EMPTY, ins[..n]).ledger || (AcceptedAt(ins, n).Some? && id == ins[n].id)
  {
    var n := |ins| - 1;
    ReachableKeeps(ins[..n]);
    LedgerStep(Run(EMPTY, ins[..n]), ins[n], id);
  }

  /** Whatever is on the ledger was accepted by a request of the run. */
  lemma {:induction false} LedgerIsAccepted(ins: seq<Input>, id: Id) returns (k: nat)
    requires Fresh(EMPTY, ins) && id in Run(EMPTY, ins).ledger
    ensures k < |ins| && ins[k].id == id && AcceptedAt(ins, k).Some?
    decreases |ins|
  {
    var n := |ins| - 1;
    LedgerGrows(ins, id);
    if id in Run(EMPTY, ins[..n]).ledger {
      k := LedgerIsAccepted(ins[..n], id);
      PrefixSame(ins, n, k);
    } else {
      k := n;
    }
  }

  lemma LogStep(ins: seq<Input>, d: Delivery)
    requires |ins| > 0
    ensures d in Run(EMPTY, ins).log <==> d in Run(EMPTY, ins[..|ins| - 1]).log || Delivers(ins, |ins| - 1, d)
  {
    var n := |ins| - 1;
    LogIs(Run(EMPTY, ins[..n]), ins[n]);
    DeliveriesMean(ins[n].request.user, Read(Run(EMPTY, ins[..n]), ins[n]), d);
  }

  ghost predicate Delivered(ins: seq<Input>, d: Delivery) {
    exists j: nat :: Delivers(ins, j, d)
  }

  lemma DeliversPrefix(ins: seq<Input>, n: nat, j: nat, d: Delivery)
    requires j < n <= |ins|
    ensures Delivers(ins[..n], j, d) <==> Delivers(ins, j, d)
  {
    PrefixSame(ins, n, j);
  }

  lemma DeliveredBy(ins: seq<Input>, j: nat, d: Delivery)
    requires Delivers(ins, j, d)
    ensures Delivered(ins, d)
  {
  }

  lemma DeliveredLater(ins: seq<Input>, d: Delivery)
    requires |ins| > 0 && Delivered(ins[..|ins| - 1], d)
    ensures Delivered(ins, d)
  {
    var j: nat :| Delivers(ins[..|ins| - 1], j, d);
    DeliversAlso(ins, j, d);
  }

  lemma DeliversAlso(ins: seq<Input>, j: nat, d: Delivery)
    requires |ins| > 0 && Delivers(ins[..|ins| - 1], j, d)
    ensures Delivered(ins, d)
  {
    DeliversPrefix(ins, |ins| - 1, j, d);
    DeliveredBy(ins, j, d);
  }

  /** The request that makes a delivery is the last one or an earlier one. */
  lemma DeliveredEarlier(ins: seq<Input>, d: Delivery)
    requires |ins| > 0 && Delivered(ins, d)
    ensures Delivered(ins[..|ins| - 1], d) || Delivers(ins, |ins| - 1, d)
  {
    var j: nat :| Delivers(ins, j, d);
    if j != |ins| - 1 { DeliversBefore(ins, j, d); }
  }

  lemma DeliversBefore(ins: seq<Input>, j: nat, d: Delivery)
    requires |ins| > 0 && j != |ins| - 1 && Delivers(ins, j, d)
    ensures Delivered(ins[..|ins| - 1], d)
  {
    DeliversPrefix(ins, |ins| - 1, j, d);
    DeliveredBy(ins[..|ins| - 1], j, d);
  }

  lemma DeliveredStep(ins: seq<Input>, d: Delivery)
    requires |ins| > 0
    ensures Delivered(ins, d) <==> Delivered(ins[..|ins| - 1], d) || Delivers(ins, |ins| - 1, d)
  {
    if Delivered(ins[..|ins| - 1], d) {
      DeliveredLater(ins, d);
    } else if Delivers(ins, |ins| - 1, d) {
      DeliveredBy(ins, |ins| - 1, d);
    } else if Delivered(ins, d) {
      DeliveredEarlier(ins, d);
    }
  }

  /** The log is what the requests have returned, and to whom. */
  lemma {:induction false} LogIsReturned(ins: seq<Input>, d: Delivery)
    ensures d in Run(EMPTY, ins).log <==> Delivered(ins, d)
    decreases |ins|
  {
    if |ins| > 0 {
      LogStep(ins, d);
      LogIsReturned(ins[..|ins| - 1], d);
      DeliveredStep(ins, d);
    }
  }

  lemma DeliveriesMean(to: User, msgs: seq<ChatMessage>, d: Delivery)
    ensures d in Deliveries(to, msgs) <==> d.to == to && d.msg in msgs
  {
    if d.to == to && d.msg in msgs {
      var k :| 0 <= k < |msgs| && msgs[k] == d.msg;
      assert Deliveries(to, msgs)[k] == d;
    }
  }

  /** A logged delivery is on the ledger as returned. */
  lemma DeliveredIsReturned(ins: seq<Input>, d: Delivery)
    requires Fresh(EMPTY, ins) && Delivered(ins, d)
    ensures d.msg.id in Run(EMPTY, ins).ledger && Run(EMPTY, ins).ledger[d.msg.id].fate == Returned(d.to)
  {
    LogIsReturned(ins, d);
    ReachableKeeps(ins);
  }

  lemma ReturnedWasPending(ins: seq<Input>, j: nat, m: ChatMessage)
    requires Fresh(EMPTY, ins) && ReturnedAt(ins, j, m)
    ensures m.id in Run(EMPTY, ins[..j]).ledger && Run(EMPTY, ins[..j]).ledger[m.id].fate.Pending?
  {
    FreshPrefix(ins, j);
    ReachableKeeps(ins[..j]);
    ReadWasPending(Run(EMPTY, ins[..j]), ins[j]);
  }

  /** No two requests return the same message. */
  lemma ReturnedOnce(ins: seq<Input>, i: nat, j: nat, m: ChatMessage)
    requires Fresh(EMPTY, ins) && i < j < |ins| && ReturnedAt(ins, i, m)
    ensures !ReturnedAt(ins, j, m)
  {
    PrefixSame(ins, j, i);
    FreshPrefix(ins, j);
    var d := Delivery(ins[i].request.user, m);
    assert Delivers(ins[..j], i, d);
    DeliveredIsReturned(ins[..j], d);
    if ReturnedAt(ins, j, m) { ReturnedWasPending(ins, j, m); }
  }

  /** How often the message `id` has been delivered, over all polls by anyone. */
  function Times(log: seq<Delivery>, id: Id): nat {
    if |log| == 0 then 0 else (if log[0].msg.id == id then 1 else 0) + Times(log[1..], id)
  }

  lemma {:induction false} TimesOnce(log: seq<Delivery>, id: Id)
    requires forall j, k | 0 <= j < k < |log| :: log[j].msg.id != log[k].msg.id
    ensures Times(log, id) == if exists k :: 0 <= k < |log| && log[k].msg.id == id then 1 else 0
  {
    if |log| > 0 {
      TimesOnce(log[1..], id);
      if exists k :: 0 <= k < |log| && log[k].msg.id == id {
        var k :| 0 <= k < |log| && log[k].msg.id == id;
        if k > 0 { assert log[1..][k - 1].msg.id == id; }
      }
    }
  }

  // ------------------------------------------------ Conservation

  /** The message lies in the directory it was sent to, and no request of the run has returned it. */
  ghost predicate StillPending(ins: seq<Input>, p: Place, m: ChatMessage) {
    m in Box(Run(EMPTY, ins).store, p) && !Returns(ins, m)
  }

  /** The message lies nowhere; exactly one request has returned it, and once. */
  ghost predicate ReturnedByOne(ins: seq<Input>, m: ChatMessage) {
    && (forall q :: m !in Box(Run(EMPTY, ins).store, q))
    && Returns(ins, m)
    && (forall i: nat, j: nat | ReturnedAt(ins, i, m) && ReturnedAt(ins, j, m) :: i == j)
    && Times(Run(EMPTY, ins).log, m.id) == 1
  }

  /** The message lies nowhere and was never returned; its group is gone. */
  ghost predicate GoneWithGroup(ins: seq<Input>, p: Place, m: ChatMessage) {
    && (forall q :: m !in Box(Run(EMPTY, ins).store, q))
    && !Returns(ins, m)
    && p.GroupBoxOf? && p.group !in Run(EMPTY, ins).store.groups
  }

  /** A message on the ledger is returned by a request exactly if its line says so. */
  lemma ReturnsIsFate(ins: seq<Input>, m: ChatMessage)
    requires Fresh(EMPTY, ins) && m.id in Run(EMPTY, ins).ledger && Run(EMPTY, ins).ledger[m.id].msg == m
    ensures Returns(ins, m) <==> Run(EMPTY, ins).ledger[m.id].fate.Returned?
  {
    var fate := Run(EMPTY, ins).ledger[m.id].fate;
    if fate.Returned? {
      ReachableKeeps(ins);
      LogIsReturned(ins, Delivery(fate.to, m));
      var j: nat :| Delivers(ins, j, Delivery(fate.to, m));
      assert ReturnedAt(ins, j, m);
    }
    if Returns(ins, m) {
      var j: nat :| ReturnedAt(ins, j, m);
      assert Delivers(ins, j, Delivery(ins[j].request.user, m));
      DeliveredIsReturned(ins, Delivery(ins[j].request.user, m));
    }
  }

  lemma ReturnedTimes(ins: seq<Input>, m: ChatMessage)
    requires Fresh(EMPTY, ins) && Returns(ins, m)
    ensures Times(Run(EMPTY, ins).log, m.id) == 1
    ensures forall i: nat, j: nat | ReturnedAt(ins, i, m) && ReturnedAt(ins, j, m) :: i == j
  {
    ReachableKeeps(ins);
    var w := Run(EMPTY, ins);
    var j: nat :| ReturnedAt(ins, j, m);
    var d := Delivery(ins[j].request.user, m);
    assert Delivers(ins, j, d);
    LogIsReturned(ins, d);
    var n :| 0 <= n < |w.log| && w.log[n] == d;
    TimesOnce(w.log, m.id);
    forall i: nat, k: nat | ReturnedAt(ins, i, m) && ReturnedAt(ins, k, m) ensures i == k {
      if i < k { ReturnedOnce(ins, i, k, m); }
      if k < i { ReturnedOnce(ins, k, i, m); }
    }
  }

  /**
   After any run, every message that some request of it had accepted is still pending in exactly
   the directory it was sent to, or was returned by exactly one request, or went with its deleted group.
   */
  lemma MessageConservation(ins: seq<Input>, k: nat)
    requires Fresh(EMPTY, ins) && k < |ins| && AcceptedAt(ins, k).Some?
    ensures var m, p := AcceptedAt(ins, k).value.msg, AcceptedAt(ins, k).value.place;
      && m.id == ins[k].id
      && (forall q :: m in Box(Run(EMPTY, ins).store, q) ==> q == p)
      && (StillPending(ins, p, m) || ReturnedByOne(ins, m) || GoneWithGroup(ins, p, m))
  {
    ReachableKeeps(ins);
    AcceptedIsOnLedger(ins, k);
    var w, a := Run(EMPTY, ins), AcceptedAt(ins, k).value;
    var e := w.ledger[ins[k].id];
    ReturnsIsFate(ins, a.msg);
    forall q | a.msg in Box(w.store, q) ensures q == a.place && e.fate.Pending? {
      assert w.ledger[a.msg.id] == Entry(q, a.msg, Pending);
    }
    if e.fate.Returned? {
      ReturnedTimes(ins, a.msg);
    }
  }

  /** The three conditions exclude each other. */
  lemma ConditionsExclude(ins: seq<Input>, p: Place, m: ChatMessage)
    ensures !(StillPending(ins, p, m) && ReturnedByOne(ins, m))
    ensures !(StillPending(ins, p, m) && GoneWithGroup(ins, p, m))
    ensures !(ReturnedByOne(ins, m) && GoneWithGroup(ins, p, m))
  {
  }

  /** What a request returns was accepted by an earlier one, for a place the caller may read. */
  lemma OnlyAcceptedIsReturned(ins: seq<Input>, j: nat, m: ChatMessage) returns (k: nat)
    requires Fresh(EMPTY, ins) && ReturnedAt(ins, j, m)
    ensures k < j && AcceptedAt(ins, k).Some? && AcceptedAt(ins, k).value.msg == m
    ensures ReadableBy(Run(EMPTY, ins[..j]), ins[j].request.user, AcceptedAt(ins, k).value)
  {
    FreshPrefix(ins, j);
    ReachableKeeps(ins[..j]);
    PollReadsOwn(Run(EMPTY, ins[..j]), ins[j], m);
    k := LedgerIsAccepted(ins[..j], m.id);
    PrefixSame(ins, j, k);
    AcceptedIsOnLedger(ins[..j], k);
  }

  // ------------------------------------------------ Who gets to read what

  /** A poll goes through groups of the poller only, although only the poll of one group checks. */
  lemma PolledAreMemberships(w: World, i: Input, g: Id)
    requires MembershipInv(w.store) && i.request.GroupPoll? && g in Polled(w, i)
    ensures InGroup(w.store, i.request.user, g)
  {
    assert InGroup(w.store, i.request.user, g) <==> Listed(w.store.users, i.request.user, g);
  }

  ghost predicate ReadableBy(w: World, u: User, e: Entry) {
    match e.place
    case UserBox(v) => v == u && e.msg.group == None
    case GroupBoxOf(g) => InGroup(w.store, u, g) && e.msg.group == Some(g)
  }

  /** Every message a poll returns was addressed to the poller or to a group the poller is in. */
  lemma PollReadsOwn(w: World, i: Input, m: ChatMessage)
    requires LedgerInv(w) && MembershipInv(w.store) && FreshId(w, i) && m in Read(w, i)
    ensures m.id in w.ledger && w.ledger[m.id].msg == m && ReadableBy(w, i.request.user, w.ledger[m.id])
  {
    if i.request.Poll? {
      assert m in Box(w.store, UserBox(i.request.user));
    } else {
      GroupPollIs(w, i);
      ReadOnLedger(w, Polled(w, i), m);
      PolledAreMemberships(w, i, w.ledger[m.id].place.group);
    }
  }

  /** Polling all groups leaves nothing behind in any group of the poller, and touches no other. */
  lemma PollAllIsComplete(w: World, i: Input, g: Id)
    requires LedgerInv(w) && MembershipInv(w.store)
    requires i.request.GroupPoll? && i.request.group.None? && |i.request.user| > 0
    ensures InGroup(w.store, i.request.user, g) ==>
      && GroupBox(After(w, i).groups, g) == []
      && forall m | m in GroupBox(w.store.groups, g) :: m in Read(w, i)
    ensures !InGroup(w.store, i.request.user, g) ==>
      && GroupBox(After(w, i).groups, g) == GroupBox(w.store.groups, g)
      && forall m | m in Read(w, i) :: m !in GroupBox(w.store.groups, g)
  {
    GroupPollIs(w, i);
    DrainAllMeans(w.store.groups, Polled(w, i));
    assert InGroup(w.store, i.request.user, g) <==> Listed(w.store.users, i.request.user, g);
    forall m | m in Read(w, i) && m in GroupBox(w.store.groups, g) ensures InGroup(w.store, i.request.user, g) {
      ReadOnLedger(w, Polled(w, i), m);
      assert m in Box(w.store, GroupBoxOf(g));
    }
  }

  lemma {:induction false} LoadAllFound(groups: map<Id, GroupDir>, gids: seq<Id>)
    requires forall g | g in gids :: g in groups
    ensures |LoadAll(groups, gids)| == |gids|
    ensures forall k | 0 <= k < |gids| :: LoadAll(groups, gids)[k] == groups[gids[k]].meta
    decreases |gids|
  {
    if |gids| > 0 {
      var p := gids[..|gids| - 1];
      assert forall g | g in p :: g in gids;
      LoadAllFound(groups, p);
    }
  }

  /** The groups whose metadata a list request goes through. */
  function ListedGroups(s: Store, u: User): seq<Id> {
    if UserGroups(s.users, u).None? then [] else UserGroups(s.users, u).value
  }

  lemma ListedAreMemberships(s: Store, u: User)
    requires MembershipInv(s)
    ensures NoDuplicates(ListedGroups(s, u))
    ensures forall g :: g in ListedGroups(s, u) <==> InGroup(s, u, g)
  {
    forall g ensures g in ListedGroups(s, u) <==> InGroup(s, u, g) {
      assert InGroup(s, u, g) <==> Listed(s.users, u, g);
    }
  }

  /** Listing shows each group the user is a member of, once, and no other. */
  lemma ListIsExact(s: Store, u: User)
    requires MembershipInv(s) && |u| > 0
    ensures DoList(s, GroupList(u)).1.Groups?
    ensures NoDuplicates(ListedGroups(s, u))
    ensures forall g :: g in ListedGroups(s, u) <==> InGroup(s, u, g)
    ensures var gids, shown := ListedGroups(s, u), DoList(s, GroupList(u)).1.groups;
      |shown| == |gids| && forall k | 0 <= k < |gids| :: gids[k] in s.groups && shown[k] == s.groups[gids[k]].meta
  {
    ListedAreMemberships(s, u);
    forall g | g in ListedGroups(s, u) ensures g in s.groups { assert InGroup(s, u, g); }
    LoadAllFound(s.groups, ListedGroups(s, u));
  }
}
