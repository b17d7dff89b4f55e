/** Group metadata and the per-user group lists agree in every reachable store. */
module ChatGroups {
  import opened Wrappers
  import opened ChatStore

  predicate InGroup(s: Store, u: User, g: Id) {
    g in s.groups && u in s.groups[g].meta.members
  }

  predicate Listed(users: map<User, UserDir>, u: User, g: Id) {
    UserGroups(users, u).Some? && g in UserGroups(users, u).value
  }

  ghost predicate Agree(s: Store) {
    forall u, g :: InGroup(s, u, g) <==> Listed(s.users, u, g)
  }

  ghost predicate NoDuplicates<T>(s: seq<T>) {
    forall i, j | 0 <= i < j < |s| :: s[i] != s[j]
  }

  ghost predicate ListsOk(users: map<User, UserDir>) {
    forall u | u in users && users[u].index.Some? :: NoDuplicates(users[u].index.value)
  }

  /** The owner is a member, the first one. */
  predicate GroupOk(g: Group) {
    |g.members| > 0 && g.owner == g.members[0]
  }

  ghost predicate GroupsOk(s: Store) {
    forall g | g in s.groups :: GroupOk(s.groups[g].meta)
  }

  ghost predicate MembershipInv(s: Store) {
    Agree(s) && ListsOk(s.users) && GroupsOk(s)
  }

  // ------------------------------------------------ List operations

  lemma {:induction false} WithoutMeans<T>(s: seq<T>, x: T)
    ensures forall y :: y in Without(s, x) <==> y in s && y != x
    ensures |s| > 0 && s[0] != x ==> |Without(s, x)| > 0 && Without(s, x)[0] == s[0]
    ensures NoDuplicates(s) ==> NoDuplicates(Without(s, x))
    decreases |s|
  {
    if |s| > 0 {
      var p, z := s[..|s| - 1], s[|s| - 1];
      WithoutMeans(p, x);
      assert s == p + [z];
      assert forall y :: y in s <==> y in p || y == z;
      if NoDuplicates(s) {
        assert NoDuplicates(p) && z !in p;
        assert z !in Without(p, x);
      }
    }
  }

  lemma {:induction false} ExtendMeans(members: seq<User>, us: seq<User>)
    ensures forall u :: u in Extend(members, us) <==> u in members || u in us
    ensures members <= Extend(members, us)
    decreases |us|
  {
    if |us| > 0 {
      var p, z := us[..|us| - 1], us[|us| - 1];
      ExtendMeans(members, p);
      assert us == p + [z];
      assert forall u :: u in us <==> u in p || u == z;
    }
  }

  lemma AddIndexMeans(users: map<User, UserDir>, u: User, g: Id)
    ensures forall v, h :: Listed(AddIndex(users, u, g), v, h) <==> Listed(users, v, h) || (v == u && h == g)
    ensures forall v :: Inbox(AddIndex(users, u, g), v) == Inbox(users, v)
    ensures ListsOk(users) ==> ListsOk(AddIndex(users, u, g))
  {
  }

  /** Registering a group with many users lists it for exactly those, and disturbs nothing else. */
  lemma {:induction false} AddAllMeans(users: map<User, UserDir>, us: seq<User>, g: Id)
    ensures forall v, h :: Listed(AddAll(users, us, g), v, h) <==> Listed(users, v, h) || (v in us && h == g)
    ensures forall v :: Inbox(AddAll(users, us, g), v) == Inbox(users, v)
    ensures ListsOk(users) ==> ListsOk(AddAll(users, us, g))
    decreases |us|
  {
    if |us| > 0 {
      var p, z := us[..|us| - 1], us[|us| - 1];
      AddAllMeans(users, p, g);
      AddIndexMeans(AddAll(users, p, g), z, g);
      assert us == p + [z];
      assert forall u :: u in us <==> u in p || u == z;
    }
  }

  lemma RemoveIndexMeans(users: map<User, UserDir>, u: User, g: Id)
    ensures forall v, h :: Listed(RemoveIndex(users, u, g), v, h) <==> Listed(users, v, h) && !(v == u && h == g)
    ensures forall v :: Inbox(RemoveIndex(users, u, g), v) == Inbox(users, v)
    ensures ListsOk(users) ==> ListsOk(RemoveIndex(users, u, g))
  {
    if UserGroups(users, u).Some? {
      WithoutMeans(UserGroups(users, u).value, g);
    }
  }

  /** Draining touches message files only. */
  lemma {:induction false} DrainAllMeta(groups: map<Id, GroupDir>, gids: seq<Id>)
    ensures DrainAll(groups, gids).1.Keys == groups.Keys
    ensures forall g | g in groups :: DrainAll(groups, gids).1[g].meta == groups[g].meta
    decreases |gids|
  {
    if |gids| > 0 {
      DrainAllMeta(groups, gids[..|gids| - 1]);
    }
  }

  // ------------------------------------------------ Every handler keeps the invariant

  lemma CreateKeeps(s: Store, r: Request, id: Id, now: int)
    requires MembershipInv(s) && r.GroupCreate? && id !in s.groups
    ensures MembershipInv(DoCreate(s, r, id, now).0)
  {
    var s' := DoCreate(s, r, id, now).0;
    AddAllMeans(s.users, [r.user] + r.members, id);
    forall u, g ensures InGroup(s', u, g) <==> Listed(s'.users, u, g) {
      assert InGroup(s, u, g) <==> Listed(s.users, u, g);
    }
  }

  lemma InviteKeeps(s: Store, r: Request)
    requires MembershipInv(s) && r.GroupInvite?
    ensures MembershipInv(DoInvite(s, r).0)
  {
    var s' := DoInvite(s, r).0;
    if r.group.Some? && r.group.value in s.groups {
      AddAllMeans(s.users, r.members, r.group.value);
      ExtendMeans(s.groups[r.group.value].meta.members, r.members);
    }
    forall u, g ensures InGroup(s', u, g) <==> Listed(s'.users, u, g) {
      assert InGroup(s, u, g) <==> Listed(s.users, u, g);
    }
  }

  lemma LeaveKeeps(s: Store, r: Request)
    requires MembershipInv(s) && r.GroupLeave?
    ensures MembershipInv(DoLeave(s, r).0)
  {
    var s' := DoLeave(s, r).0;
    if r.group.Some? && r.group.value in s.groups {
      RemoveIndexMeans(s.users, r.user, r.group.value);
      WithoutMeans(s.groups[r.group.value].meta.members, r.user);
    }
    forall u, g ensures InGroup(s', u, g) <==> Listed(s'.users, u, g) {
      assert InGroup(s, u, g) <==> Listed(s.users, u, g);
    }
  }

  lemma OthersKeep(s: Store, r: Request, id: Id, now: int)
    requires MembershipInv(s) && !r.GroupCreate? && !r.GroupInvite? && !r.GroupLeave?
    ensures MembershipInv(Step(s, r, id, now).0)
  {
    var s' := Step(s, r, id, now).0;
    if r.GroupPoll? {
      var known := UserGroups(s.users, r.user);
      DrainAllMeta(s.groups, if r.group.Some? then [r.group.value] else if known.Some? then known.value else []);
    }
    forall u, g ensures InGroup(s', u, g) <==> Listed(s'.users, u, g) {
      assert InGroup(s, u, g) <==> Listed(s.users, u, g);
    }
  }

  /** A fresh ID is asked of group creation only. */
  lemma StepKeepsMembership(s: Store, r: Request, id: Id, now: int)
    requires MembershipInv(s) && (r.GroupCreate? ==> id !in s.groups)
    ensures MembershipInv(Step(s, r, id, now).0)
  {
    if r.GroupCreate? { CreateKeeps(s, r, id, now); }
    else if r.GroupInvite? { InviteKeeps(s, r); }
    else if r.GroupLeave? { LeaveKeeps(s, r); }
    else { OthersKeep(s, r, id, now); }
  }

  /**
   A departure takes the leaver out and leaves the others in their order. The owner is then the
   first of them, so an owner who stays keeps the group and one who leaves is succeeded by the
   member who has belonged longest.
   */
  lemma OwnerSucceeds(s: Store, r: Request)
    requires MembershipInv(s) && r.GroupLeave? && |r.user| > 0 && r.group.Some? && r.group.value in s.groups
    ensures var g, s' := r.group.value, DoLeave(s, r).0;
      && !InGroup(s', r.user, g) && !Listed(s'.users, r.user, g)
      && (forall v | v != r.user :: InGroup(s', v, g) <==> InGroup(s, v, g))
      && (g !in s'.groups <==> forall v | InGroup(s, v, g) :: v == r.user)
      && (g in s'.groups ==>
            && s'.groups[g].meta.members == Without(s.groups[g].meta.members, r.user)
            && |s'.groups[g].meta.members| > 0
            && s'.groups[g].meta.owner == s'.groups[g].meta.members[0]
            && (s.groups[g].meta.owner != r.user ==> s'.groups[g].meta.owner == s.groups[g].meta.owner))
  {
    var g := r.group.value;
    WithoutMeans(s.groups[g].meta.members, r.user);
    RemoveIndexMeans(s.users, r.user, g);
    LeaveKeeps(s, r);
    var left := Without(s.groups[g].meta.members, r.user);
    if |left| > 0 {
      assert left[0] in left;
      assert InGroup(s, left[0], g);
    } else {
      forall v | InGroup(s, v, g) ensures v == r.user {
        assert v !in left;
      }
    }
  }

  /** Only group creation adds a group. */
  lemma StepGroups(s: Store, r: Request, id: Id, now: int)
    ensures forall g | g in Step(s, r, id, now).0.groups :: g in s.groups || (r.GroupCreate? && g == id)
  {
    if r.GroupPoll? {
      var known := UserGroups(s.users, r.user);
      DrainAllMeta(s.groups, if r.group.Some? then [r.group.value] else if known.Some? then known.value else []);
    }
  }

  // ------------------------------------------------ Why handlers must not overlap

  /**
   When two additions for one user both read before either writes, the first entry is lost exactly
   if both are new and different; one after the other they lose nothing.
   */
  lemma OverlapLosesEntry(users: map<User, UserDir>, u: User, g: Id, h: Id)
    ensures var read := UserGroups(users, u);
      !Listed(WriteIndex(WriteIndex(users, u, read, g), u, read, h), u, g)
      <==> g != h && !Listed(users, u, g) && !Listed(users, u, h)
    ensures Listed(AddIndex(AddIndex(users, u, g), u, h), u, g)
  {
    AddIndexMeans(users, u, g);
    AddIndexMeans(AddIndex(users, u, g), u, h);
  }
}
