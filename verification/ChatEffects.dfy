/** What requests answer and change, told by who may do what rather than by handler. */
module ChatEffects {
  import opened Wrappers
  import opened ChatStore
  import opened ChatGroups
  import opened ChatLedger
  import opened ChatRuns

  // ------------------------------------------------ Answers

  /** The request names the group `g`, and is one that needs it to exist. */
  predicate Addresses(r: Request, g: Id) {
    || (r.GroupSend? && r.group == Some(g) && r.content != "")
    || (r.GroupPoll? && r.group == Some(g))
    || (r.GroupInvite? && r.group == Some(g) && |r.members| > 0)
    || (r.GroupLeave? && r.group == Some(g))
  }

  /** Which error a request meets, each exactly under its own condition; a failure changes nothing. */
  lemma ErrorsExact(s: Store, r: Request, id: Id, now: int)
    ensures var (s', a) := Step(s, r, id, now);
      && (a.Failure? ==> s' == s)
      && (!a.Failure? ==>
            && (a.Messages? <==> r.Poll? || r.GroupPoll?) && (a.Groups? <==> r.GroupList?)
            && (a.Created? <==> r.GroupCreate?) && (a.Created? ==> a.group == id))
      && (a == Failure(UserIdRequired) <==> |r.user| == 0)
      && (a == Failure(ContentRequired) <==>
            |r.user| > 0 && ((r.Send? && r.content == "") || (r.GroupSend? && r.group.Some? && r.content == "")))
      && (a == Failure(GroupNameRequired) <==> |r.user| > 0 && r.GroupCreate? && r.name == "")
      && (a == Failure(GroupIdRequired) <==>
            |r.user| > 0 && (r.GroupSend? || r.GroupInvite? || r.GroupLeave?) && r.group.None?)
      && (a == Failure(MembersRequired) <==> |r.user| > 0 && r.GroupInvite? && r.group.Some? && |r.members| == 0)
      && (a == Failure(GroupNotFound) <==> |r.user| > 0 && exists g :: Addresses(r, g) && g !in s.groups)
      && (a == Failure(NotAMember) <==>
            && |r.user| > 0 && (r.GroupSend? || r.GroupPoll?)
            && exists g :: Addresses(r, g) && g in s.groups && !InGroup(s, r.user, g))
      && (a == Failure(OnlyOwnerInvites) <==>
            && |r.user| > 0 && r.GroupInvite?
            && exists g :: Addresses(r, g) && g in s.groups && s.groups[g].meta.owner != r.user)
  {
    if (r.GroupSend? || r.GroupPoll? || r.GroupInvite? || r.GroupLeave?) && r.group.Some? {
      var g := r.group.value;
      assert forall h | Addresses(r, h) :: h == g;
    }
  }

  /** Which sends are accepted: all with a user and content, and to a group those of its members alone. */
  lemma AcceptedExactly(w: World, i: Input)
    ensures var r := i.request;
      AcceptedBy(w, i).Some? <==>
        || (r.Send? && |r.user| > 0 && r.content != "")
        || (r.GroupSend? && |r.user| > 0 && r.content != "" && r.group.Some? && InGroup(w.store, r.user, r.group.value))
    ensures var r := i.request; r.Send? && AcceptedBy(w, i).Some? ==>
      && AcceptedBy(w, i).value.place == UserBox(if |r.recipient| > 0 then r.recipient else r.user)
      && AcceptedBy(w, i).value.msg == ChatMessage(i.id, r.user, r.content, r.kind, i.now, None)
    ensures var r := i.request; r.GroupSend? && AcceptedBy(w, i).Some? ==>
      && AcceptedBy(w, i).value.place == GroupBoxOf(r.group.value)
      && AcceptedBy(w, i).value.msg == ChatMessage(i.id, r.user, r.content, r.kind, i.now, r.group)
    ensures i.request.Send? || i.request.GroupSend? ==>
      (AcceptedBy(w, i).Some? <==> Step(w.store, i.request, i.id, i.now).1 == Done)
  {
  }

  // ------------------------------------------------ Membership

  /** The request makes `u` a member of `g`: it creates the group naming `u`, or its owner invites `u`. */
  predicate Joins(s: Store, r: Request, id: Id, u: User, g: Id) {
    || (r.GroupCreate? && |r.user| > 0 && r.name != "" && g == id && (u == r.user || u in r.members))
    || (r.GroupInvite? && |r.user| > 0 && r.group == Some(g) && u in r.members
        && g in s.groups && s.groups[g].meta.owner == r.user)
  }

  predicate Leaves(r: Request, u: User, g: Id) {
    r.GroupLeave? && |r.user| > 0 && r.group == Some(g) && u == r.user
  }

  /** Members after a request are the members before it that do not leave, and those it makes members. */
  lemma MembershipExactly(s: Store, r: Request, id: Id, now: int, u: User, g: Id)
    requires r.GroupCreate? ==> id !in s.groups
    ensures InGroup(Step(s, r, id, now).0, u, g) <==> Joins(s, r, id, u, g) || (InGroup(s, u, g) && !Leaves(r, u, g))
  {
    match r
    case GroupInvite(_, _, members) =>
      if r.group == Some(g) && g in s.groups { ExtendMeans(s.groups[g].meta.members, members); }
    case GroupLeave(_, _) =>
      if r.group == Some(g) && g in s.groups { WithoutMeans(s.groups[g].meta.members, r.user); }
    case GroupPoll(_, _) =>
      var known := UserGroups(s.users, r.user);
      DrainAllMeta(s.groups, if r.group.Some? then [r.group.value] else if known.Some? then known.value else []);
    case _ =>
  }

  /** Invitations are the owner's: any other leaves the store as it is and is refused. */
  lemma InvitationsAreOwners(s: Store, r: Request, id: Id, now: int)
    requires r.GroupInvite?
    ensures var (s', a) := Step(s, r, id, now);
      && (a == Done <==> |r.user| > 0 && |r.members| > 0 && r.group.Some? && r.group.value in s.groups
                         && s.groups[r.group.value].meta.owner == r.user)
      && (a != Done ==> s' == s && a.Failure?)
  {
  }

  /** What a group is, from its creation on: the request that creates it says, and later ones keep it. */
  lemma GroupsExactly(s: Store, r: Request, id: Id, now: int, g: Id)
    requires r.GroupCreate? ==> id !in s.groups
    ensures var (s', a) := Step(s, r, id, now);
      && (a == Created(id) <==> r.GroupCreate? && |r.user| > 0 && r.name != "")
      && (a == Created(g) ==>
            g == id && g in s'.groups && s'.groups[g].meta == Group(r.name, r.user, [r.user] + r.members, now))
      && (g !in s.groups ==> (g in s'.groups <==> a == Created(g)))
      && (g in s.groups ==>
            (g !in s'.groups <==> Leaves(r, r.user, g) && forall v | v in s.groups[g].meta.members :: v == r.user))
      && (g in s.groups && g in s'.groups ==>
            var before, after := s.groups[g].meta, s'.groups[g].meta;
            && after.name == before.name && after.createdAt == before.createdAt
            && (before.owner != after.owner ==> Leaves(r, before.owner, g))
            && (!Leaves(r, r.user, g) ==> before.members <= after.members)
            && (NoDuplicates(before.members) ==> NoDuplicates(after.members)))
  {
    match r
    case GroupInvite(_, _, members) =>
      if r.group == Some(g) && g in s.groups {
        ExtendMeans(s.groups[g].meta.members, members);
        ExtendDistinct(s.groups[g].meta.members, members);
      }
    case GroupLeave(_, _) =>
      if r.group == Some(g) && g in s.groups { LeaveDeletes(s.groups[g].meta.members, r.user); }
    case GroupPoll(_, _) =>
      var known := UserGroups(s.users, r.user);
      DrainAllMeta(s.groups, if r.group.Some? then [r.group.value] else if known.Some? then known.value else []);
    case _ =>
  }

  lemma {:induction false} ExtendDistinct(members: seq<User>, us: seq<User>)
    ensures NoDuplicates(members) ==> NoDuplicates(Extend(members, us))
    decreases |us|
  {
    if |us| > 0 {
      ExtendDistinct(members, us[..|us| - 1]);
    }
  }

  lemma LeaveDeletes(members: seq<User>, u: User)
    ensures |Without(members, u)| == 0 <==> forall v | v in members :: v == u
    ensures NoDuplicates(members) ==> NoDuplicates(Without(members, u))
  {
    WithoutMeans(members, u);
    var left := Without(members, u);
    if |left| > 0 { assert left[0] in left; }
    forall v | v in members && v != u ensures |left| > 0 { assert v in left; }
  }

  // ------------------------------------------------ Polls

  /** A poll hands out the whole mailbox in listing order, empties it, and touches no other directory. */
  lemma PollIsComplete(w: World, i: Input, p: Place)
    requires i.request.Poll? && |i.request.user| > 0
    ensures Read(w, i) == Box(w.store, UserBox(i.request.user))
    ensures Box(After(w, i), p) == if p == UserBox(i.request.user) then [] else Box(w.store, p)
    ensures Step(w.store, i.request, i.id, i.now).1 == Messages(Read(w, i))
  {
  }

  /** The same for a member's poll of one group; one of anyone else's is refused. */
  lemma GroupPollIsComplete(w: World, i: Input, p: Place)
    requires i.request.GroupPoll? && i.request.group.Some? && |i.request.user| > 0
    ensures var g := i.request.group.value;
      if InGroup(w.store, i.request.user, g) then
        && Read(w, i) == Box(w.store, GroupBoxOf(g))
        && Box(After(w, i), p) == (if p == GroupBoxOf(g) then [] else Box(w.store, p))
        && Step(w.store, i.request, i.id, i.now).1 == Messages(Read(w, i))
      else After(w, i) == w.store && Step(w.store, i.request, i.id, i.now).1.Failure?
  {
    var g := i.request.group.value;
    assert [g][..0] == [];
    assert DrainAll(w.store.groups, [g]) == ([] + GroupBox(w.store.groups, g), Drain(w.store.groups, g));
  }

  // ------------------------------------------------ Over runs

  predicate JoinsAt(ins: seq<Input>, k: nat, u: User, g: Id) {
    k < |ins| && Joins(Run(EMPTY, ins[..k]).store, ins[k].request, ins[k].id, u, g)
  }

  /** The k-th request made `u` a member of `g`, and `u` has not left since. */
  ghost predicate JoinedAndStayed(ins: seq<Input>, k: nat, u: User, g: Id) {
    JoinsAt(ins, k, u, g) && forall j | k < j < |ins| :: !Leaves(ins[j].request, u, g)
  }

  lemma JoinsAtPrefix(ins: seq<Input>, n: nat, k: nat, u: User, g: Id)
    requires k < n <= |ins|
    ensures JoinsAt(ins[..n], k, u, g) <==> JoinsAt(ins, k, u, g)
  {
    assert ins[..n][..k] == ins[..k];
  }

  lemma StayedOneMore(ins: seq<Input>, k: nat, u: User, g: Id)
    requires |ins| > 0 && k < |ins| - 1 && JoinsAt(ins, k, u, g)
    requires JoinedAndStayed(ins[..|ins| - 1], k, u, g) && !Leaves(ins[|ins| - 1].request, u, g)
    ensures JoinedAndStayed(ins, k, u, g)
  {
    forall j | k < j < |ins| ensures !Leaves(ins[j].request, u, g) {
      if j < |ins| - 1 { assert ins[..|ins| - 1][j] == ins[j]; }
    }
  }

  lemma StayedBefore(ins: seq<Input>, k: nat, u: User, g: Id)
    requires |ins| > 0 && k < |ins| - 1 && JoinedAndStayed(ins, k, u, g)
    ensures JoinedAndStayed(ins[..|ins| - 1], k, u, g) && !Leaves(ins[|ins| - 1].request, u, g)
  {
    JoinsAtPrefix(ins, |ins| - 1, k, u, g);
  }

  ghost predicate Stays(ins: seq<Input>, u: User, g: Id) {
    exists k: nat :: JoinedAndStayed(ins, k, u, g)
  }

  /** The last request makes `u` a member, or does not end a membership that stood before it. */
  lemma StaysStep(ins: seq<Input>, u: User, g: Id)
    requires |ins| > 0
    ensures Stays(ins, u, g) <==>
      || JoinsAt(ins, |ins| - 1, u, g)
      || (Stays(ins[..|ins| - 1], u, g) && !Leaves(ins[|ins| - 1].request, u, g))
  {
    var n := |ins| - 1;
    if JoinsAt(ins, n, u, g) {
      assert JoinedAndStayed(ins, n, u, g);
    } else if Stays(ins, u, g) {
      var k: nat :| JoinedAndStayed(ins, k, u, g);
      StayedBefore(ins, k, u, g);
    } else if Stays(ins[..n], u, g) && !Leaves(ins[n].request, u, g) {
      var k: nat :| JoinedAndStayed(ins[..n], k, u, g);
      JoinsAtPrefix(ins, n, k, u, g);
      StayedOneMore(ins, k, u, g);
    }
  }

  /** After any run a user is in a group exactly if its creator or owner put the user there, and the user stayed. */
  lemma {:induction false} MembersOverRuns(ins: seq<Input>, u: User, g: Id)
    requires Fresh(EMPTY, ins)
    ensures InGroup(Run(EMPTY, ins).store, u, g) <==> exists k: nat :: JoinedAndStayed(ins, k, u, g)
    decreases |ins|
  {
    if |ins| > 0 {
      var n := |ins| - 1;
      var w, i := Run(EMPTY, ins[..n]), ins[n];
      MembersOverRuns(ins[..n], u, g);
      ReachableKeeps(ins[..n]);
      MembershipExactly(w.store, i.request, i.id, i.now, u, g);
      StaysStep(ins, u, g);
      assert Run(EMPTY, ins).store == Step(w.store, i.request, i.id, i.now).0;
    }
  }

  /** The request hands out everything that lies at `p`. */
  ghost predicate Empties(ins: seq<Input>, j: nat, p: Place)
    requires j < |ins|
  {
    var s, r := Run(EMPTY, ins[..j]).store, ins[j].request;
    |r.user| > 0 &&
    match p
    case UserBox(u) => r.Poll? && r.user == u
    case GroupBoxOf(g) => r.GroupPoll? && InGroup(s, r.user, g) && (r.group == None || r.group == Some(g))
  }

  lemma EmptiesReads(ins: seq<Input>, j: nat, p: Place, m: ChatMessage)
    requires Fresh(EMPTY, ins) && j < |ins| && Empties(ins, j, p) && m in Box(Run(EMPTY, ins[..j]).store, p)
    ensures ReturnedAt(ins, j, m)
  {
    var w := Run(EMPTY, ins[..j]);
    FreshPrefix(ins, j);
    ReachableKeeps(ins[..j]);
    if p.UserBox? {
      PollIsComplete(w, ins[j], p);
    } else if ins[j].request.group.None? {
      PollAllIsComplete(w, ins[j], p.group);
    } else {
      GroupPollIsComplete(w, ins[j], p);
    }
  }

  lemma {:induction false} DrawnGrows(ins: seq<Input>, i: nat, k: nat)
    requires i < k <= |ins|
    ensures Run(EMPTY, ins[..i]).drawn <= Run(EMPTY, ins[..k]).drawn && ins[i].id in Run(EMPTY, ins[..k]).drawn
    decreases k
  {
    assert ins[..k][..k - 1] == ins[..k - 1];
    if i < k - 1 { DrawnGrows(ins, i, k - 1); }
  }

  /** A message is returned only after its acceptance. */
  lemma ReturnedLater(ins: seq<Input>, k: nat, i: nat)
    requires Fresh(EMPTY, ins) && k < |ins| && AcceptedAt(ins, k).Some?
    requires ReturnedAt(ins, i, AcceptedAt(ins, k).value.msg)
    ensures k < i
  {
    var m := AcceptedAt(ins, k).value.msg;
    ReadIs(Run(EMPTY, ins[..k]), ins[k]);
    ReturnedWasPending(ins, i, m);
    FreshPrefix(ins, i);
    FreshPrefix(ins, k);
    ReachableKeeps(ins[..i]);
    if i < k { DrawnGrows(ins, i, k); }
  }

  /**
   A message that was accepted has been returned, once, by the time its recipient polls, or a member
   of its group does: by that very poll if it is still there.
   */
  lemma PolledIsReturned(ins: seq<Input>, k: nat, j: nat) returns (i: nat)
    requires Fresh(EMPTY, ins) && k < j < |ins| && AcceptedAt(ins, k).Some?
    requires Empties(ins, j, AcceptedAt(ins, k).value.place)
    ensures k < i <= j && ReturnedAt(ins, i, AcceptedAt(ins, k).value.msg)
    ensures AcceptedAt(ins, k).value.msg in Box(Run(EMPTY, ins[..j]).store, AcceptedAt(ins, k).value.place) ==> i == j
  {
    var m, p := AcceptedAt(ins, k).value.msg, AcceptedAt(ins, k).value.place;
    FreshPrefix(ins, j);
    PrefixSame(ins, j, k);
    MessageConservation(ins[..j], k);
    if m in Box(Run(EMPTY, ins[..j]).store, p) {
      EmptiesReads(ins, j, p, m);
      i := j;
    } else {
      i :| ReturnedAt(ins[..j], i, m);
      PrefixSame(ins, j, i);
      ReturnedLater(ins, k, i);
    }
  }
}
