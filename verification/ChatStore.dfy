/**
 The chat service's store and its handlers, each as one atomic step on values.
 A directory is the sequence of its .msg files in listing order (by file name, that is by
 message ID); a group directory also holds the group's metadata, a user directory also
 holds the user's group list once it has been written.
 */
module ChatStore {
  import opened Wrappers

  type Id = nat
  type User = seq<nat>

  datatype ChatMessage = ChatMessage(id: Id, sender: User, content: string, kind: string, timestamp: int,
                                     group: Option<Id>)
  datatype Group = Group(name: string, owner: User, members: seq<User>, createdAt: int)
  datatype GroupDir = GroupDir(meta: Group, msgs: seq<ChatMessage>)
  datatype UserDir = UserDir(index: Option<seq<Id>>, msgs: seq<ChatMessage>)
  datatype Store = Store(groups: map<Id, GroupDir>, users: map<User, UserDir>)

  datatype Error =
    | UserIdRequired | ContentRequired | GroupNameRequired | GroupIdRequired | MembersRequired
    | GroupNotFound | NotAMember | OnlyOwnerInvites

  datatype Response =
    | Failure(error: Error)
    | Done
    | Messages(messages: seq<ChatMessage>)
    | Created(group: Id)
    | Groups(groups: seq<Group>)

  /** An empty recipient or group ID in a request is an absent one. */
  datatype Request =
    | Send(user: User, recipient: User, content: string, kind: string)
    | Poll(user: User)
    | GroupCreate(user: User, name: string, members: seq<User>)
    | GroupSend(user: User, group: Option<Id>, content: string, kind: string)
    | GroupPoll(user: User, group: Option<Id>)
    | GroupInvite(user: User, group: Option<Id>, members: seq<User>)
    | GroupLeave(user: User, group: Option<Id>)
    | GroupList(user: User)

  /** Writes a message file into a directory. */
  function Insert(msgs: seq<ChatMessage>, m: ChatMessage): seq<ChatMessage> {
    if |msgs| == 0 then [m]
    else if m.id < msgs[0].id then [m] + msgs
    else if m.id == msgs[0].id then [m] + msgs[1..]
    else [msgs[0]] + Insert(msgs[1..], m)
  }

  function UserGroups(users: map<User, UserDir>, u: User): Option<seq<Id>> {
    if u in users then users[u].index else None
  }

  function Inbox(users: map<User, UserDir>, u: User): seq<ChatMessage> {
    if u in users then users[u].msgs else []
  }

  /** What addUserGroup writes once it has read `known`: the list with the group, unless listed already. */
  function WriteIndex(users: map<User, UserDir>, u: User, known: Option<seq<Id>>, g: Id): map<User, UserDir> {
    var list := if known.Some? then known.value else [];
    if g in list then users else users[u := UserDir(Some(list + [g]), Inbox(users, u))]
  }

  function AddIndex(users: map<User, UserDir>, u: User, g: Id): map<User, UserDir> {
    WriteIndex(users, u, UserGroups(users, u), g)
  }

  function AddAll(users: map<User, UserDir>, us: seq<User>, g: Id): map<User, UserDir> {
    if |us| == 0 then users else AddIndex(AddAll(users, us[..|us| - 1], g), us[|us| - 1], g)
  }

  /** A list without the elements equal to `x`. */
  function Without<T(==)>(s: seq<T>, x: T): seq<T> {
    if |s| == 0 then []
    else Without(s[..|s| - 1], x) + if s[|s| - 1] == x then [] else [s[|s| - 1]]
  }

  function RemoveIndex(users: map<User, UserDir>, u: User, g: Id): map<User, UserDir> {
    var known := UserGroups(users, u);
    if known.None? then users else users[u := UserDir(Some(Without(known.value, g)), Inbox(users, u))]
  }

  /** The members after an invitation: newcomers are appended, once each. */
  function Extend(members: seq<User>, us: seq<User>): seq<User> {
    if |us| == 0 then members
    else
      var before := Extend(members, us[..|us| - 1]);
      if us[|us| - 1] in before then before else before + [us[|us| - 1]]
  }

  function GroupBox(groups: map<Id, GroupDir>, g: Id): seq<ChatMessage> {
    if g in groups then groups[g].msgs else []
  }

  function Drain(groups: map<Id, GroupDir>, g: Id): map<Id, GroupDir> {
    if g in groups then groups[g := groups[g].(msgs := [])] else groups
  }

  /** Polls the listed groups in turn: what is read, and what the groups become. */
  function DrainAll(groups: map<Id, GroupDir>, gids: seq<Id>): (seq<ChatMessage>, map<Id, GroupDir>) {
    if |gids| == 0 then ([], groups)
    else
      var (read, left) := DrainAll(groups, gids[..|gids| - 1]);
      (read + GroupBox(left, gids[|gids| - 1]), Drain(left, gids[|gids| - 1]))
  }

  function LoadAll(groups: map<Id, GroupDir>, gids: seq<Id>): seq<Group> {
    if |gids| == 0 then []
    else
      LoadAll(groups, gids[..|gids| - 1])
      + if gids[|gids| - 1] in groups then [groups[gids[|gids| - 1]].meta] else []
  }

  function Recipient(user: User, recipient: User): User {
    if |recipient| == 0 then user else recipient
  }

  function DoSend(s: Store, r: Request, id: Id, now: int): (Store, Response)
    requires r.Send?
  {
    if |r.user| == 0 then (s, Failure(UserIdRequired))
    else if r.content == "" then (s, Failure(ContentRequired))
    else
      var to := Recipient(r.user, r.recipient);
      var m := ChatMessage(id, r.user, r.content, r.kind, now, None);
      (s.(users := s.users[to := UserDir(UserGroups(s.users, to), Insert(Inbox(s.users, to), m))]), Done)
  }

  function DoPoll(s: Store, r: Request): (Store, Response)
    requires r.Poll?
  {
    if |r.user| == 0 then (s, Failure(UserIdRequired))
    else if r.user !in s.users then (s, Messages([]))
    else (s.(users := s.users[r.user := s.users[r.user].(msgs := [])]), Messages(s.users[r.user].msgs))
  }

  function DoCreate(s: Store, r: Request, id: Id, now: int): (Store, Response)
    requires r.GroupCreate?
  {
    if |r.user| == 0 then (s, Failure(UserIdRequired))
    else if r.name == "" then (s, Failure(GroupNameRequired))
    else
      var members := [r.user] + r.members;
      var meta := Group(r.name, r.user, members, now);
      (Store(s.groups[id := GroupDir(meta, GroupBox(s.groups, id))], AddAll(s.users, members, id)), Created(id))
  }

  function DoGroupSend(s: Store, r: Request, id: Id, now: int): (Store, Response)
    requires r.GroupSend?
  {
    if |r.user| == 0 then (s, Failure(UserIdRequired))
    else if r.group.None? then (s, Failure(GroupIdRequired))
    else if r.content == "" then (s, Failure(ContentRequired))
    else
      var g := r.group.value;
      if g !in s.groups then (s, Failure(GroupNotFound))
      else if r.user !in s.groups[g].meta.members then (s, Failure(NotAMember))
      else
        var m := ChatMessage(id, r.user, r.content, r.kind, now, Some(g));
        (s.(groups := s.groups[g := s.groups[g].(msgs := Insert(s.groups[g].msgs, m))]), Done)
  }

  function DoGroupPoll(s: Store, r: Request): (Store, Response)
    requires r.GroupPoll?
  {
    if |r.user| == 0 then (s, Failure(UserIdRequired))
    else if r.group.Some? && r.group.value !in s.groups then (s, Failure(GroupNotFound))
    else if r.group.Some? && r.user !in s.groups[r.group.value].meta.members then (s, Failure(NotAMember))
    else
      var known := UserGroups(s.users, r.user);
      var gids := if r.group.Some? then [r.group.value] else if known.Some? then known.value else [];
      var (read, left) := DrainAll(s.groups, gids);
      (s.(groups := left), Messages(read))
  }

  function DoInvite(s: Store, r: Request): (Store, Response)
    requires r.GroupInvite?
  {
    if |r.user| == 0 then (s, Failure(UserIdRequired))
    else if r.group.None? then (s, Failure(GroupIdRequired))
    else if |r.members| == 0 then (s, Failure(MembersRequired))
    else
      var g := r.group.value;
      if g !in s.groups then (s, Failure(GroupNotFound))
      else if s.groups[g].meta.owner != r.user then (s, Failure(OnlyOwnerInvites))
      else
        var d := s.groups[g];
        (Store(s.groups[g := d.(meta := d.meta.(members := Extend(d.meta.members, r.members)))],
               AddAll(s.users, r.members, g)), Done)
  }

  function DoLeave(s: Store, r: Request): (Store, Response)
    requires r.GroupLeave?
  {
    if |r.user| == 0 then (s, Failure(UserIdRequired))
    else if r.group.None? then (s, Failure(GroupIdRequired))
    else
      var g := r.group.value;
      if g !in s.groups then (s, Failure(GroupNotFound))
      else
        var d := s.groups[g];
        var left := Without(d.meta.members, r.user);
        var groups :=
          if |left| == 0 then s.groups - {g}
          else
            var owner := if d.meta.owner == r.user then left[0] else d.meta.owner;
            s.groups[g := d.(meta := d.meta.(owner := owner, members := left))];
        (Store(groups, RemoveIndex(s.users, r.user, g)), Done)
  }

  function DoList(s: Store, r: Request): (Store, Response)
    requires r.GroupList?
  {
    if |r.user| == 0 then (s, Failure(UserIdRequired))
    else
      var known := UserGroups(s.users, r.user);
      (s, Groups(if known.None? then [] else LoadAll(s.groups, known.value)))
  }

  /** `id` is what newID draws and `now` the clock, should the handler ask for them. */
  function Step(s: Store, r: Request, id: Id, now: int): (Store, Response) {
    match r
    case Send(_, _, _, _) => DoSend(s, r, id, now)
    case Poll(_) => DoPoll(s, r)
    case GroupCreate(_, _, _) => DoCreate(s, r, id, now)
    case GroupSend(_, _, _, _) => DoGroupSend(s, r, id, now)
    case GroupPoll(_, _) => DoGroupPoll(s, r)
    case GroupInvite(_, _, _) => DoInvite(s, r)
    case GroupLeave(_, _) => DoLeave(s, r)
    case GroupList(_) => DoList(s, r)
  }
}
