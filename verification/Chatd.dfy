/** The chat service: a store that its handlers rewrite, loop by loop. */
module Chatd {
  import opened Wrappers
  import opened ChatStore

  lemma Snoc<T>(s: seq<T>, k: nat)
    requires k < |s|
    ensures s[..k + 1][..k] == s[..k] && s[..k + 1][k] == s[k]
  {
  }

  class Server {
    var groups: map<Id, GroupDir>
    var users: map<User, UserDir>

    constructor ()
      ensures Contents() == Store(map[], map[])
    {
      groups, users := map[], map[];
    }

    function Contents(): Store
      reads this
    {
      Store(groups, users)
    }

    // -------------------------------------------- Files

    method AddUserGroup(u: User, g: Id)
      modifies `users
      ensures users == AddIndex(old(users), u, g)
    {
      var known := UserGroups(users, u);
      var list := if known.Some? then known.value else [];
      for k := 0 to |list|
        invariant g !in list[..k]
        invariant users == old(users)
      {
        if list[k] == g { return; }
      }
      assert list[..|list|] == list;
      users := users[u := UserDir(Some(list + [g]), Inbox(users, u))];
    }

    method AddUserGroups(us: seq<User>, g: Id)
      modifies `users
      ensures users == AddAll(old(users), us, g)
    {
      for k := 0 to |us|
        invariant users == AddAll(old(users), us[..k], g)
      {
        Snoc(us, k);
        AddUserGroup(us[k], g);
      }
      assert us[..|us|] == us;
    }

    method RemoveUserGroup(u: User, g: Id)
      modifies `users
      ensures users == RemoveIndex(old(users), u, g)
    {
      var known := UserGroups(users, u);
      if known.None? { return; }
      var filtered := [];
      for k := 0 to |known.value|
        invariant filtered == Without(known.value[..k], g)
        invariant users == old(users)
      {
        Snoc(known.value, k);
        if known.value[k] != g { filtered := filtered + [known.value[k]]; }
      }
      assert known.value[..|known.value|] == known.value;
      users := users[u := UserDir(Some(filtered), Inbox(users, u))];
    }

    method IsMember(g: Group, u: User) returns (found: bool)
      ensures found <==> u in g.members
    {
      for k := 0 to |g.members|
        invariant u !in g.members[..k]
      {
        if g.members[k] == u { return true; }
      }
      assert g.members[..|g.members|] == g.members;
      return false;
    }

    /** Reads the message files of one directory one by one, deleting each after reading it. */
    method DrainGroup(g: Id) returns (msgs: seq<ChatMessage>)
      modifies `groups
      ensures msgs == GroupBox(old(groups), g) && groups == Drain(old(groups), g)
    {
      msgs := [];
      if g !in groups { return; }
      var entries := groups[g].msgs;
      for k := 0 to |entries|
        invariant g in groups && msgs == entries[..k]
        invariant groups == old(groups)[g := old(groups)[g].(msgs := entries[k..])]
      {
        msgs := msgs + [entries[k]];
        groups := groups[g := groups[g].(msgs := groups[g].msgs[1..])];
        assert entries[k..][1..] == entries[k + 1..];
      }
      assert entries[|entries|..] == [];
    }

    // -------------------------------------------- Handlers

    method HandleSend(r: Request, id: Id, now: int) returns (resp: Response)
      requires r.Send?
      modifies this
      ensures (Contents(), resp) == DoSend(old(Contents()), r, id, now)
    {
      if |r.user| == 0 { return Failure(UserIdRequired); }
      if r.content == "" { return Failure(ContentRequired); }
      var m := ChatMessage(id, r.user, r.content, r.kind, now, None);
      var to := r.recipient;
      if |to| == 0 { to := r.user; }
      users := users[to := UserDir(UserGroups(users, to), Insert(Inbox(users, to), m))];
      return Done;
    }

    method HandlePoll(r: Request) returns (resp: Response)
      requires r.Poll?
      modifies this
      ensures (Contents(), resp) == DoPoll(old(Contents()), r)
      ensures groups == old(groups)
      ensures |r.user| > 0 ==> resp == Messages(old(Inbox(users, r.user))) && Inbox(users, r.user) == []
    {
      if |r.user| == 0 { return Failure(UserIdRequired); }
      if r.user !in users { return Messages([]); }
      var entries, msgs := users[r.user].msgs, [];
      for k := 0 to |entries|
        invariant r.user in users && msgs == entries[..k] && groups == old(groups)
        invariant users == old(users)[r.user := old(users)[r.user].(msgs := entries[k..])]
      {
        msgs := msgs + [entries[k]];
        users := users[r.user := users[r.user].(msgs := users[r.user].msgs[1..])];
        assert entries[k..][1..] == entries[k + 1..];
      }
      assert entries[|entries|..] == [] && entries[..|entries|] == entries;
      return Messages(msgs);
    }

    method HandleGroupCreate(r: Request, id: Id, now: int) returns (resp: Response)
      requires r.GroupCreate?
      modifies this
      ensures (Contents(), resp) == DoCreate(old(Contents()), r, id, now)
      ensures resp == Created(id) <==> |r.user| > 0 && r.name != ""
      ensures resp == Created(id) ==>
        id in groups && groups[id].meta == Group(r.name, r.user, [r.user] + r.members, now)
    {
      if |r.user| == 0 { return Failure(UserIdRequired); }
      if r.name == "" { return Failure(GroupNameRequired); }
      var members := [r.user] + r.members;
      groups := groups[id := GroupDir(Group(r.name, r.user, members, now), GroupBox(groups, id))];
      AddUserGroups(members, id);
      return Created(id);
    }

    method HandleGroupSend(r: Request, id: Id, now: int) returns (resp: Response)
      requires r.GroupSend?
      modifies this
      ensures (Contents(), resp) == DoGroupSend(old(Contents()), r, id, now)
      ensures users == old(users) && (resp != Done ==> groups == old(groups))
      ensures resp == Done <==>
        && |r.user| > 0 && r.content != "" && r.group.Some? && r.group.value in old(groups)
        && r.user in old(groups)[r.group.value].meta.members
    {
      if |r.user| == 0 { return Failure(UserIdRequired); }
      if r.group.None? { return Failure(GroupIdRequired); }
      if r.content == "" { return Failure(ContentRequired); }
      var g := r.group.value;
      if g !in groups { return Failure(GroupNotFound); }
      var member := IsMember(groups[g].meta, r.user);
      if !member { return Failure(NotAMember); }
      var m := ChatMessage(id, r.user, r.content, r.kind, now, Some(g));
      groups := groups[g := groups[g].(msgs := Insert(groups[g].msgs, m))];
      return Done;
    }

    method HandleGroupPoll(r: Request) returns (resp: Response)
      requires r.GroupPoll?
      modifies this
      ensures (Contents(), resp) == DoGroupPoll(old(Contents()), r)
    {
      if |r.user| == 0 { return Failure(UserIdRequired); }
      var gids := [];
      if r.group.Some? {
        if r.group.value !in groups { return Failure(GroupNotFound); }
        var member := IsMember(groups[r.group.value].meta, r.user);
        if !member { return Failure(NotAMember); }
        gids := [r.group.value];
      } else {
        var known := UserGroups(users, r.user);
        if known.Some? { gids := known.value; }
      }
      var all := [];
      for k := 0 to |gids|
        invariant users == old(users)
        invariant (all, groups) == DrainAll(old(groups), gids[..k])
      {
        Snoc(gids, k);
        var more := DrainGroup(gids[k]);
        all := all + more;
      }
      assert gids[..|gids|] == gids;
      return Messages(all);
    }

    method HandleGroupInvite(r: Request) returns (resp: Response)
      requires r.GroupInvite?
      modifies this
      ensures (Contents(), resp) == DoInvite(old(Contents()), r)
      ensures resp == Done <==>
        && |r.user| > 0 && |r.members| > 0 && r.group.Some? && r.group.value in old(groups)
        && old(groups)[r.group.value].meta.owner == r.user
      ensures resp != Done ==> groups == old(groups) && users == old(users)
    {
      if |r.user| == 0 { return Failure(UserIdRequired); }
      if r.group.None? { return Failure(GroupIdRequired); }
      if |r.members| == 0 { return Failure(MembersRequired); }
      var g := r.group.value;
      if g !in groups { return Failure(GroupNotFound); }
      if groups[g].meta.owner != r.user { return Failure(OnlyOwnerInvites); }
      var d := groups[g];
      var members := d.meta.members;
      var existing := set m | m in members;
      for k := 0 to |r.members|
        invariant members == Extend(d.meta.members, r.members[..k])
        invariant forall u :: u in existing <==> u in members
        invariant Contents() == old(Contents())
      {
        Snoc(r.members, k);
        if r.members[k] !in existing {
          members := members + [r.members[k]];
          existing := existing + {r.members[k]};
        }
      }
      assert r.members[..|r.members|] == r.members;
      groups := groups[g := d.(meta := d.meta.(members := members))];
      AddUserGroups(r.members, g);
      return Done;
    }

    method HandleGroupLeave(r: Request) returns (resp: Response)
      requires r.GroupLeave?
      modifies this
      ensures (Contents(), resp) == DoLeave(old(Contents()), r)
    {
      if |r.user| == 0 { return Failure(UserIdRequired); }
      if r.group.None? { return Failure(GroupIdRequired); }
      var g := r.group.value;
      if g !in groups { return Failure(GroupNotFound); }
      var d := groups[g];
      var filtered := [];
      for k := 0 to |d.meta.members|
        invariant filtered == Without(d.meta.members[..k], r.user)
        invariant Contents() == old(Contents())
      {
        Snoc(d.meta.members, k);
        if d.meta.members[k] != r.user { filtered := filtered + [d.meta.members[k]]; }
      }
      assert d.meta.members[..|d.meta.members|] == d.meta.members;
      if |filtered| == 0 {
        groups := groups - {g};
      } else {
        var owner := d.meta.owner;
        if owner == r.user { owner := filtered[0]; }
        groups := groups[g := d.(meta := d.meta.(owner := owner, members := filtered))];
      }
      RemoveUserGroup(r.user, g);
      return Done;
    }

    method HandleGroupList(r: Request) returns (resp: Response)
      requires r.GroupList?
      ensures (Contents(), resp) == DoList(Contents(), r)
    {
      if |r.user| == 0 { return Failure(UserIdRequired); }
      var known := UserGroups(users, r.user);
      if known.None? { return Groups([]); }
      var found := [];
      for k := 0 to |known.value|
        invariant found == LoadAll(groups, known.value[..k])
      {
        Snoc(known.value, k);
        if known.value[k] in groups { found := found + [groups[known.value[k]].meta]; }
      }
      assert known.value[..|known.value|] == known.value;
      return Groups(found);
    }

    /** Dispatches a decoded request; `id` is the next newID, `now` the clock. */
    method Process(r: Request, id: Id, now: int) returns (resp: Response)
      modifies this
      ensures (Contents(), resp) == Step(old(Contents()), r, id, now)
    {
      match r {
        case Send(_, _, _, _) => resp := HandleSend(r, id, now);
        case Poll(_) => resp := HandlePoll(r);
        case GroupCreate(_, _, _) => resp := HandleGroupCreate(r, id, now);
        case GroupSend(_, _, _, _) => resp := HandleGroupSend(r, id, now);
        case GroupPoll(_, _) => resp := HandleGroupPoll(r);
        case GroupInvite(_, _, _) => resp := HandleGroupInvite(r);
        case GroupLeave(_, _) => resp := HandleGroupLeave(r);
        case GroupList(_) => resp := HandleGroupList(r);
      }
    }
  }
}
