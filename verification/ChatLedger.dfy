/** Where every accepted message goes: it stays pending, is returned by one poll, or dies with its group. */
module ChatLedger {
  import opened Wrappers
  import opened ChatStore
  import opened ChatGroups

  datatype Place = UserBox(user: User) | GroupBoxOf(group: Id)
  datatype Fate = Pending | Returned(to: User) | Discarded
  datatype Entry = Entry(place: Place, msg: ChatMessage, fate: Fate)
  datatype Delivery = Delivery(to: User, msg: ChatMessage)

  /** The store, a ledger of every accepted message, the deliveries in order, and the IDs drawn so far. */
  datatype World = World(store: Store, ledger: map<Id, Entry>, log: seq<Delivery>, drawn: set<Id>)

  datatype Input = Input(request: Request, id: Id, now: int)

  function Box(s: Store, p: Place): seq<ChatMessage> {
    match p
    case UserBox(u) => Inbox(s.users, u)
    case GroupBoxOf(g) => GroupBox(s.groups, g)
  }

  function Ids(msgs: seq<ChatMessage>): set<Id> {
    set m | m in msgs :: m.id
  }

  function Mark(ledger: map<Id, Entry>, ids: set<Id>, fate: Fate): map<Id, Entry> {
    map i | i in ledger :: if i in ids then ledger[i].(fate := fate) else ledger[i]
  }

  function Deliveries(to: User, msgs: seq<ChatMessage>): seq<Delivery> {
    seq(|msgs|, i requires 0 <= i < |msgs| => Delivery(to, msgs[i]))
  }

  /** What a step accepts, if anything. */
  function Accepted(i: Input, resp: Response): Option<Entry> {
    match i.request
    case Send(u, to, content, kind) =>
      if resp.Done? then
        Some(Entry(UserBox(Recipient(u, to)), ChatMessage(i.id, u, content, kind, i.now, None), Pending))
      else None
    case GroupSend(u, g, content, kind) =>
      if resp.Done? && g.Some? then
        Some(Entry(GroupBoxOf(g.value), ChatMessage(i.id, u, content, kind, i.now, g), Pending))
      else None
    case _ => None
  }

  /** The messages a step deletes with their group. */
  function DeletedWith(s: Store, s': Store, r: Request): seq<ChatMessage> {
    if r.GroupLeave? && r.group.Some? && r.group.value !in s'.groups then GroupBox(s.groups, r.group.value) else []
  }

  function Next(w: World, i: Input): World {
    var (s', resp) := Step(w.store, i.request, i.id, i.now);
    var accepted := Accepted(i, resp);
    var read := if resp.Messages? then resp.messages else [];
    var l1 := if accepted.Some? then w.ledger[i.id := accepted.value] else w.ledger;
    var l2 := Mark(l1, Ids(read), Returned(i.request.user));
    World(s', Mark(l2, Ids(DeletedWith(w.store, s', i.request)), Discarded),
          w.log + Deliveries(i.request.user, read), w.drawn + {i.id})
  }

  /** newID yields an ID that no earlier request was given, also for a group or message that is gone by now. */
  predicate FreshId(w: World, i: Input) {
    i.id !in w.drawn
  }

  // ------------------------------------------------ Invariant

  ghost predicate Sorted(msgs: seq<ChatMessage>) {
    forall i, j | 0 <= i < j < |msgs| :: msgs[i].id < msgs[j].id
  }

  ghost predicate BoxesSorted(s: Store) {
    forall p :: Sorted(Box(s, p))
  }

  /** Whatever lies in a directory is on the ledger as pending there. */
  ghost predicate BoxesOnLedger(w: World) {
    forall p, m | m in Box(w.store, p) :: m.id in w.ledger && w.ledger[m.id] == Entry(p, m, Pending)
  }

  ghost predicate PendingInBox(w: World) {
    forall id | id in w.ledger ::
      && w.ledger[id].msg.id == id
      && (w.ledger[id].fate.Pending? ==> w.ledger[id].msg in Box(w.store, w.ledger[id].place))
  }

  ghost predicate LogOnLedger(w: World) {
    forall k | 0 <= k < |w.log| ::
      && w.log[k].msg.id in w.ledger
      && w.ledger[w.log[k].msg.id].msg == w.log[k].msg
      && w.ledger[w.log[k].msg.id].fate == Returned(w.log[k].to)
  }

  ghost predicate LogDistinct(w: World) {
    forall j, k | 0 <= j < k < |w.log| :: w.log[j].msg.id != w.log[k].msg.id
  }

  ghost predicate ReturnedInLog(w: World) {
    forall id | id in w.ledger && w.ledger[id].fate.Returned? ::
      Delivery(w.ledger[id].fate.to, w.ledger[id].msg) in w.log
  }

  ghost predicate GroupTags(w: World) {
    forall id | id in w.ledger ::
      w.ledger[id].msg.group == if w.ledger[id].place.GroupBoxOf? then Some(w.ledger[id].place.group) else None
  }

  /** Groups and messages, present and past, have IDs that were drawn. */
  ghost predicate IdsDrawn(w: World) {
    && (forall g | g in w.store.groups :: g in w.drawn)
    && (forall id | id in w.ledger ::
          id in w.drawn && (w.ledger[id].place.GroupBoxOf? ==> w.ledger[id].place.group in w.drawn))
  }

  /** Only messages of a group that no longer exists were discarded. */
  ghost predicate DiscardedWithGroup(w: World) {
    forall id | id in w.ledger && w.ledger[id].fate.Discarded? ::
      w.ledger[id].place.GroupBoxOf? && w.ledger[id].place.group !in w.store.groups
  }

  /** What the effect of a step on the directories rests on. */
  ghost predicate BoxInv(w: World) {
    BoxesSorted(w.store) && BoxesOnLedger(w) && IdsDrawn(w)
  }

  ghost predicate LedgerInv(w: World) {
    && BoxInv(w) && PendingInBox(w)
    && LogOnLedger(w) && LogDistinct(w) && ReturnedInLog(w) && GroupTags(w) && DiscardedWithGroup(w)
  }

  // ------------------------------------------------ What a step reads and leaves

  lemma {:induction false} InsertMeans(msgs: seq<ChatMessage>, m: ChatMessage)
    requires Sorted(msgs) && forall x | x in msgs :: x.id != m.id
    ensures forall x :: x in Insert(msgs, m) <==> x in msgs || x == m
    ensures Sorted(Insert(msgs, m))
  {
    if |msgs| == 0 {
    } else if m.id < msgs[0].id {
      assert forall x :: x in [m] + msgs <==> x == m || x in msgs;
    } else {
      assert msgs[0] in msgs;
      InsertMeans(msgs[1..], m);
      var r := Insert(msgs[1..], m);
      assert forall x :: x in msgs <==> x == msgs[0] || x in msgs[1..];
      assert forall x :: x in [msgs[0]] + r <==> x == msgs[0] || x in r;
      forall x | x in r ensures msgs[0].id < x.id {
        if x in msgs[1..] {
          var i :| 0 <= i < |msgs[1..]| && msgs[1..][i] == x;
          assert msgs[0].id < msgs[i + 1].id;
        }
      }
    }
  }

  /** Draining a list of groups reads exactly their messages and empties exactly their boxes. */
  lemma {:induction false} DrainAllMeans(groups: map<Id, GroupDir>, gids: seq<Id>)
    ensures forall m :: m in DrainAll(groups, gids).0 <==> exists g :: g in gids && m in GroupBox(groups, g)
    ensures forall g :: GroupBox(DrainAll(groups, gids).1, g) == if g in gids then [] else GroupBox(groups, g)
    decreases |gids|
  {
    if |gids| > 0 {
      var p, z := gids[..|gids| - 1], gids[|gids| - 1];
      DrainAllMeans(groups, p);
      assert gids == p + [z];
      assert forall g :: g in gids <==> g in p || g == z;
      var (read, left) := DrainAll(groups, p);
      forall m ensures m in DrainAll(groups, gids).0 <==> exists g :: g in gids && m in GroupBox(groups, g) {
        if m in read {
          var g :| g in p && m in GroupBox(groups, g);
          assert g in gids;
        } else if m in GroupBox(left, z) {
          assert z in gids && m in GroupBox(groups, z);
        }
      }
    }
  }

  ghost predicate DistinctIds(msgs: seq<ChatMessage>) {
    forall i, j | 0 <= i < j < |msgs| :: msgs[i].id != msgs[j].id
  }

  lemma ReadOnLedger(w: World, gids: seq<Id>, m: ChatMessage)
    requires BoxesOnLedger(w) && m in DrainAll(w.store.groups, gids).0
    ensures m.id in w.ledger && w.ledger[m.id].fate.Pending? && w.ledger[m.id].msg == m
    ensures w.ledger[m.id].place.GroupBoxOf? && w.ledger[m.id].place.group in gids
  {
    DrainAllMeans(w.store.groups, gids);
    var g :| g in gids && m in GroupBox(w.store.groups, g);
    assert m in Box(w.store, GroupBoxOf(g));
  }

  lemma BoxDistinct(w: World, g: Id)
    requires BoxesSorted(w.store)
    ensures DistinctIds(GroupBox(w.store.groups, g))
  {
    assert Sorted(Box(w.store, GroupBoxOf(g)));
  }

  lemma DistinctConcat(a: seq<ChatMessage>, b: seq<ChatMessage>)
    requires DistinctIds(a) && DistinctIds(b)
    requires forall x, y | x in a && y in b :: x.id != y.id
    ensures DistinctIds(a + b)
  {
    forall i, j | 0 <= i < j < |a + b| ensures (a + b)[i].id != (a + b)[j].id {
      if i < |a| <= j { assert a[i] in a && b[j - |a|] in b; }
    }
  }

  /** What further groups hold was not read from the groups before. */
  lemma LaterIsOther(w: World, gids: seq<Id>, z: Id, x: ChatMessage, y: ChatMessage)
    requires BoxesOnLedger(w) && x in DrainAll(w.store.groups, gids).0
    requires y in GroupBox(DrainAll(w.store.groups, gids).1, z)
    ensures x.id != y.id
  {
    DrainAllMeans(w.store.groups, gids);
    ReadOnLedger(w, gids, x);
    assert y in Box(w.store, GroupBoxOf(z));
  }

  /** No message is read twice in one poll of several groups. */
  lemma {:induction false} DrainAllDistinct(w: World, gids: seq<Id>)
    requires BoxesSorted(w.store) && BoxesOnLedger(w)
    ensures DistinctIds(DrainAll(w.store.groups, gids).0)
    decreases |gids|
  {
    if |gids| > 0 {
      var p, z := gids[..|gids| - 1], gids[|gids| - 1];
      DrainAllDistinct(w, p);
      var read, more := DrainAll(w.store.groups, p).0, GroupBox(DrainAll(w.store.groups, p).1, z);
      RestDistinct(w, p, z);
      forall x, y | x in read && y in more ensures x.id != y.id {
        LaterIsOther(w, p, z, x, y);
      }
      DistinctConcat(read, more);
    }
  }

  lemma RestDistinct(w: World, gids: seq<Id>, z: Id)
    requires BoxesSorted(w.store)
    ensures DistinctIds(GroupBox(DrainAll(w.store.groups, gids).1, z))
  {
    DrainAllMeans(w.store.groups, gids);
    BoxDistinct(w, z);
  }

  // ------------------------------------------------ Every step keeps the ledger

  /** The messages a step hands to its caller. */
  function Read(w: World, i: Input): seq<ChatMessage> {
    var resp := Step(w.store, i.request, i.id, i.now).1;
    if resp.Messages? then resp.messages else []
  }

  function Deleted(w: World, i: Input): seq<ChatMessage> {
    DeletedWith(w.store, Step(w.store, i.request, i.id, i.now).0, i.request)
  }

  function AcceptedBy(w: World, i: Input): Option<Entry> {
    Accepted(i, Step(w.store, i.request, i.id, i.now).1)
  }

  function After(w: World, i: Input): Store {
    Step(w.store, i.request, i.id, i.now).0
  }

  /** A directory afterwards: what was read or deleted is gone, what was accepted is there, the rest stays. */
  ghost predicate BoxEffect(w: World, i: Input, p: Place) {
    && Sorted(Box(After(w, i), p))
    && forall m :: m in Box(After(w, i), p) <==>
         || (m in Box(w.store, p) && m !in Read(w, i) && m !in Deleted(w, i))
         || AcceptedBy(w, i) == Some(Entry(p, m, Pending))
  }

  /** A message lies in one directory only. */
  lemma OnePlace(w: World, p: Place, q: Place, m: ChatMessage)
    requires BoxesOnLedger(w) && m in Box(w.store, p) && m in Box(w.store, q)
    ensures p == q
  {
    assert w.ledger[m.id] == Entry(p, m, Pending);
    assert w.ledger[m.id] == Entry(q, m, Pending);
  }

  /** A send reads and deletes nothing, and writes into one directory at most. */
  lemma SendIs(w: World, i: Input, p: Place)
    requires i.request.Send? || i.request.GroupSend?
    ensures Read(w, i) == [] && Deleted(w, i) == []
    ensures Box(After(w, i), p) ==
      if AcceptedBy(w, i).Some? && AcceptedBy(w, i).value.place == p
      then Insert(Box(w.store, p), AcceptedBy(w, i).value.msg) else Box(w.store, p)
    ensures AcceptedBy(w, i).Some? ==> AcceptedBy(w, i).value.msg.id == i.id && AcceptedBy(w, i).value.fate.Pending?
  {
  }

  lemma SendEffect(w: World, i: Input, p: Place)
    requires BoxInv(w) && FreshId(w, i) && (i.request.Send? || i.request.GroupSend?)
    ensures BoxEffect(w, i, p)
  {
    SendIs(w, i, p);
    assert Sorted(Box(w.store, p));
    var a := AcceptedBy(w, i);
    if a.Some? && a.value.place == p {
      forall x | x in Box(w.store, p) ensures x.id != i.id { assert x.id in w.ledger; }
      InsertMeans(Box(w.store, p), a.value.msg);
    }
  }

  lemma PollEffect(w: World, i: Input, p: Place)
    requires BoxInv(w) && i.request.Poll?
    ensures BoxEffect(w, i, p)
  {
    assert Sorted(Box(w.store, p));
    var u := UserBox(i.request.user);
    forall m | m in Box(w.store, p) && m in Read(w, i) ensures p == u {
      OnePlace(w, p, u, m);
    }
  }

  /** The groups a poll request goes through. */
  function Polled(w: World, i: Input): seq<Id>
    requires i.request.GroupPoll?
  {
    if Step(w.store, i.request, i.id, i.now).1.Failure? then []
    else if i.request.group.Some? then [i.request.group.value]
    else if UserGroups(w.store.users, i.request.user).Some? then UserGroups(w.store.users, i.request.user).value
    else []
  }

  lemma GroupPollIs(w: World, i: Input)
    requires i.request.GroupPoll?
    ensures Read(w, i) == DrainAll(w.store.groups, Polled(w, i)).0
    ensures After(w, i) == w.store.(groups := DrainAll(w.store.groups, Polled(w, i)).1)
    ensures Deleted(w, i) == [] && AcceptedBy(w, i).None?
  {
  }

  lemma GroupPollEffect(w: World, i: Input, p: Place)
    requires BoxInv(w) && i.request.GroupPoll?
    ensures BoxEffect(w, i, p)
  {
    GroupPollIs(w, i);
    var gids := Polled(w, i);
    var read, left := DrainAll(w.store.groups, gids).0, DrainAll(w.store.groups, gids).1;
    DrainAllMeans(w.store.groups, gids);
    assert Sorted(Box(w.store, p));
    forall m | m in Box(w.store, p) ensures m in read <==> p.GroupBoxOf? && p.group in gids {
      if m in read {
        ReadOnLedger(w, gids, m);
        assert w.ledger[m.id] == Entry(p, m, Pending);
      }
    }
  }

  lemma LeaveEffect(w: World, i: Input, p: Place)
    requires BoxInv(w) && i.request.GroupLeave?
    ensures BoxEffect(w, i, p)
  {
    assert Sorted(Box(w.store, p));
    var r := i.request;
    if r.group.Some? {
      var g := GroupBoxOf(r.group.value);
      RemoveIndexMeans(w.store.users, r.user, r.group.value);
      forall m | m in Box(w.store, p) && m in Deleted(w, i) ensures p == g {
        OnePlace(w, p, g, m);
      }
    }
  }

  lemma QuietEffect(w: World, i: Input, p: Place)
    requires BoxInv(w) && (i.request.GroupCreate? || i.request.GroupInvite? || i.request.GroupList?)
    ensures BoxEffect(w, i, p)
  {
    assert Sorted(Box(w.store, p));
    var r := i.request;
    if r.GroupCreate? {
      AddAllMeans(w.store.users, [r.user] + r.members, i.id);
    } else if r.GroupInvite? && r.group.Some? {
      AddAllMeans(w.store.users, r.members, r.group.value);
    }
  }

  lemma StepEffect(w: World, i: Input, p: Place)
    requires BoxInv(w) && FreshId(w, i)
    ensures BoxEffect(w, i, p)
  {
    match i.request
    case Send(_, _, _, _) => SendEffect(w, i, p);
    case GroupSend(_, _, _, _) => SendEffect(w, i, p);
    case Poll(_) => PollEffect(w, i, p);
    case GroupPoll(_, _) => GroupPollEffect(w, i, p);
    case GroupLeave(_, _) => LeaveEffect(w, i, p);
    case _ => QuietEffect(w, i, p);
  }

  ghost predicate PendingOnLedger(w: World, m: ChatMessage) {
    m.id in w.ledger && w.ledger[m.id].msg == m && w.ledger[m.id].fate.Pending?
  }

  lemma BoxedWasPending(w: World, p: Place, m: ChatMessage)
    requires BoxesOnLedger(w) && m in Box(w.store, p)
    ensures PendingOnLedger(w, m)
  {
  }

  /** Where the messages that a request returns come from. */
  lemma ReadIs(w: World, i: Input)
    ensures Read(w, i) == [] || i.request.GroupPoll? ||
      (i.request.Poll? && Read(w, i) == Box(w.store, UserBox(i.request.user)))
    ensures Deleted(w, i) == [] ||
      (i.request.GroupLeave? && i.request.group.Some?
       && Deleted(w, i) == Box(w.store, GroupBoxOf(i.request.group.value)))
    ensures i.request.GroupLeave? ==> Read(w, i) == []
    ensures AcceptedBy(w, i).Some? ==>
              && Read(w, i) == [] && Deleted(w, i) == []
              && AcceptedBy(w, i).value.msg.id == i.id && AcceptedBy(w, i).value.fate.Pending?
  {
  }

  lemma ReadDistinct(w: World, i: Input)
    requires BoxInv(w)
    ensures DistinctIds(Read(w, i))
    ensures forall m | m in Read(w, i) :: PendingOnLedger(w, m)
  {
    ReadIs(w, i);
    if i.request.GroupPoll? {
      GroupPollIs(w, i);
      DrainAllDistinct(w, Polled(w, i));
      forall m | m in Read(w, i) ensures PendingOnLedger(w, m) { ReadOnLedger(w, Polled(w, i), m); }
    } else if Read(w, i) != [] {
      var u := UserBox(i.request.user);
      assert Sorted(Box(w.store, u));
      forall m | m in Read(w, i) ensures PendingOnLedger(w, m) { BoxedWasPending(w, u, m); }
    }
  }

  /** What is read or deleted was pending, each message once. */
  lemma ReadWasPending(w: World, i: Input)
    requires BoxInv(w)
    ensures DistinctIds(Read(w, i))
    ensures forall m | m in Read(w, i) || m in Deleted(w, i) :: PendingOnLedger(w, m)
    ensures |Read(w, i)| == 0 || |Deleted(w, i)| == 0
    ensures AcceptedBy(w, i).Some? ==>
              && |Read(w, i)| == 0 && |Deleted(w, i)| == 0
              && AcceptedBy(w, i).value.msg.id == i.id && AcceptedBy(w, i).value.fate.Pending?
  {
    ReadIs(w, i);
    ReadDistinct(w, i);
    forall m | m in Deleted(w, i) ensures PendingOnLedger(w, m) {
      BoxedWasPending(w, GroupBoxOf(i.request.group.value), m);
    }
  }
}
