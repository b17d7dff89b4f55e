/** Answering a batch: oversized items on the spot, the rest group by group, replies put back by id. */
module BatchForward {
  import opened Wrappers
  import opened BatchSplit

  datatype Payload = Value(json: string) | RpcError(code: int, message: string)
  datatype Reply = Reply(id: Option<JsonId>, payload: Payload)
  datatype Cache = Cache(chainId: Option<string>, netVersion: Option<string>)

  /** How the call for one group ended; a failure falls back on what is cached by then. */
  datatype Outcome = Failed(message: string, cache: Cache) | Answered(replies: seq<Reply>)

  /** An id that is absent or null counts as 1. */
  function KeyOf(id: Option<JsonId>): JsonId {
    if id.None? then Number(1) else id.value
  }

  /** Ids are told apart, except that an absent one and the number 1 are one key. */
  lemma KeysApart(a: Option<JsonId>, b: Option<JsonId>)
    ensures KeyOf(a) == KeyOf(b) <==>
      a == b || (a.None? && b == Some(Number(1))) || (b.None? && a == Some(Number(1)))
  {
  }

  function CachedResponse(c: Cache, rpcMethod: string, id: JsonId): Option<Reply> {
    if rpcMethod == "eth_chainId" && c.chainId.Some? then Some(Reply(Some(id), Value(c.chainId.value)))
    else if rpcMethod == "net_version" && c.netVersion.Some? then Some(Reply(Some(id), Value(c.netVersion.value)))
    else None
  }

  function OversizeError(item: Item): Reply {
    Reply(Some(KeyOf(item.id)),
          RpcError(-32005, "single request too large for mixnet tunnel (max ~1900 bytes)"))
  }

  /** The replies by id, a later one replacing an earlier one. */
  function ById(replies: seq<Reply>): map<JsonId, Reply> {
    if |replies| == 0 then map[]
    else ById(replies[..|replies| - 1])[KeyOf(replies[|replies| - 1].id) := replies[|replies| - 1]]
  }

  function ReplyFor(outcome: Outcome, item: Item): Reply {
    var key := KeyOf(item.id);
    match outcome
    case Answered(replies) =>
      if key in ById(replies) then ById(replies)[key]
      else Reply(Some(key), RpcError(-32603, "missing reply in batch"))
    case Failed(message, cache) =>
      var c := CachedResponse(cache, item.rpcMethod, key);
      if c.Some? then c.value else Reply(Some(key), RpcError(-32603, message))
  }

  predicate Carries(reply: Reply, item: Item) {
    KeyOf(reply.id) == KeyOf(item.id)
  }

  lemma {:induction false} ByIdMeans(replies: seq<Reply>)
    ensures forall k | k in ById(replies) :: ById(replies)[k] in replies && KeyOf(ById(replies)[k].id) == k
    ensures forall r | r in replies :: KeyOf(r.id) in ById(replies)
  {
    if |replies| > 0 {
      var p, z := replies[..|replies| - 1], replies[|replies| - 1];
      ByIdMeans(p);
      assert replies == p + [z];
      assert forall r :: r in replies <==> r in p || r == z;
    }
  }

  /** Whatever happens upstream, an item's reply carries the item's id. */
  lemma RepliesCarryIds(outcome: Outcome, item: Item)
    ensures Carries(ReplyFor(outcome, item), item)
  {
    if outcome.Answered? { ByIdMeans(outcome.replies); }
  }

  /** The last of the replies whose id counts as `key` stands at `k`. */
  ghost predicate LastWithKey(replies: seq<Reply>, key: JsonId, k: int) {
    && 0 <= k < |replies| && KeyOf(replies[k].id) == key
    && forall j | k < j < |replies| :: KeyOf(replies[j].id) != key
  }

  lemma {:induction false} ByIdIsLast(replies: seq<Reply>, key: JsonId)
    requires key in ById(replies)
    ensures exists k :: LastWithKey(replies, key, k) && ById(replies)[key] == replies[k]
  {
    var n := |replies| - 1;
    if KeyOf(replies[n].id) == key {
      assert LastWithKey(replies, key, n);
    } else {
      ByIdIsLast(replies[..n], key);
      var k :| LastWithKey(replies[..n], key, k) && ById(replies[..n])[key] == replies[..n][k];
      assert LastWithKey(replies, key, k);
    }
  }

  /**
   After a failed call an item gets a value exactly if its method is one of the two whose value is
   cached, and then that value; every other item is told of the failure, under its own id.
   */
  lemma FailedGives(message: string, cache: Cache, item: Item)
    ensures var r := ReplyFor(Failed(message, cache), item);
      && r.id == Some(KeyOf(item.id))
      && (r.payload.Value? <==> || (item.rpcMethod == "eth_chainId" && cache.chainId.Some?)
                                || (item.rpcMethod == "net_version" && cache.netVersion.Some?))
      && (item.rpcMethod == "eth_chainId" && cache.chainId.Some? ==> r.payload == Value(cache.chainId.value))
      && (item.rpcMethod == "net_version" && cache.netVersion.Some? ==> r.payload == Value(cache.netVersion.value))
      && (!r.payload.Value? ==> r.payload == RpcError(-32603, message))
  {
    assert "eth_chainId"[0] != "net_version"[0];
  }

  /** An answered call gives an item the last reply with its id, or, if there is none, the missing-reply error. */
  lemma AnsweredGives(replies: seq<Reply>, item: Item)
    ensures var r := ReplyFor(Answered(replies), item);
      if exists y :: y in replies && KeyOf(y.id) == KeyOf(item.id) then
        exists k :: LastWithKey(replies, KeyOf(item.id), k) && r == replies[k]
      else r == Reply(Some(KeyOf(item.id)), RpcError(-32603, "missing reply in batch"))
  {
    ByIdMeans(replies);
    if KeyOf(item.id) in ById(replies) {
      assert ById(replies)[KeyOf(item.id)] in replies;
      ByIdIsLast(replies, KeyOf(item.id));
    }
  }

  /** `r` is what a group's call may give `x`: the two cases above. */
  ghost predicate GivenBy(outcome: Outcome, x: Item, r: Reply) {
    match outcome
    case Failed(message, cache) =>
      && r.id == Some(KeyOf(x.id))
      && r.payload == (if x.rpcMethod == "eth_chainId" && cache.chainId.Some? then Value(cache.chainId.value)
                       else if x.rpcMethod == "net_version" && cache.netVersion.Some? then Value(cache.netVersion.value)
                       else RpcError(-32603, message))
    case Answered(replies) =>
      || (exists k :: LastWithKey(replies, KeyOf(x.id), k) && r == replies[k])
      || ((forall y | y in replies :: KeyOf(y.id) != KeyOf(x.id))
          && r == Reply(Some(KeyOf(x.id)), RpcError(-32603, "missing reply in batch")))
  }

  /** A call gives an item one reply, the one that the code looks up. */
  lemma GivenExactly(outcome: Outcome, x: Item, r: Reply)
    ensures GivenBy(outcome, x, r) <==> r == ReplyFor(outcome, x)
  {
    match outcome {
      case Failed(message, cache) => FailedGives(message, cache, x);
      case Answered(replies) =>
        AnsweredGives(replies, x);
        forall i, j | LastWithKey(replies, KeyOf(x.id), i) && LastWithKey(replies, KeyOf(x.id), j) ensures i == j {
        }
        forall k | LastWithKey(replies, KeyOf(x.id), k) ensures replies[k] in replies {
        }
    }
  }

  // ------------------------------------------------ An upstream that answers every item

  ghost predicate RespectsIds(f: Item -> Reply) {
    forall x :: Carries(f(x), x)
  }

  /** What is cached for the two methods is what the upstream answers them with. */
  ghost predicate CachedTruly(f: Item -> Reply, cache: Cache) {
    forall x: Item ::
      && (x.rpcMethod == "eth_chainId" && cache.chainId.Some? ==> f(x).payload == Value(cache.chainId.value))
      && (x.rpcMethod == "net_version" && cache.netVersion.Some? ==> f(x).payload == Value(cache.netVersion.value))
  }

  /** A failed call hands out no wrong value: what it gives from a true cache is the upstream's answer. */
  lemma FailedGivesOwnAnswer(f: Item -> Reply, message: string, cache: Cache, item: Item)
    requires CachedTruly(f, cache)
    ensures ReplyFor(Failed(message, cache), item).payload
         == if || (item.rpcMethod == "eth_chainId" && cache.chainId.Some?)
               || (item.rpcMethod == "net_version" && cache.netVersion.Some?) then f(item).payload
            else RpcError(-32603, message)
  {
    FailedGives(message, cache, item);
  }

  function Answers(f: Item -> Reply, items: seq<Item>): seq<Reply> {
    seq(|items|, i requires 0 <= i < |items| => f(items[i]))
  }

  /** The replies are the items' answers, in any order (section 6 of the JSON-RPC 2.0 Specification). */
  predicate AnswersAll(f: Item -> Reply, items: seq<Item>, replies: seq<Reply>) {
    multiset(replies) == multiset(Answers(f, items))
  }

  /** Items that share an id have the same answer. */
  ghost predicate NoIdClash(f: Item -> Reply, items: seq<Item>) {
    forall x, y | x in items && y in items && KeyOf(x.id) == KeyOf(y.id) :: f(x) == f(y)
  }

  lemma ReplyIsSomeAnswer(f: Item -> Reply, items: seq<Item>, replies: seq<Reply>, r: Reply)
    requires AnswersAll(f, items, replies)
    ensures r in replies <==> exists x :: x in items && f(x) == r
  {
    assert r in replies <==> r in multiset(replies);
    assert r in multiset(Answers(f, items)) <==> r in Answers(f, items);
    if r in Answers(f, items) {
      var i :| 0 <= i < |items| && Answers(f, items)[i] == r;
      assert items[i] in items && f(items[i]) == r;
    }
    if exists x :: x in items && f(x) == r {
      var x :| x in items && f(x) == r;
      var i :| 0 <= i < |items| && items[i] == x;
      assert Answers(f, items)[i] == r;
    }
  }

  /** An item gets its own answer or that of an item with the same id. */
  lemma ReplyIsOfPeer(f: Item -> Reply, items: seq<Item>, replies: seq<Reply>, x: Item) returns (y: Item)
    requires RespectsIds(f) && AnswersAll(f, items, replies) && x in items
    ensures KeyOf(x.id) in ById(replies)
    ensures y in items && KeyOf(y.id) == KeyOf(x.id) && f(y) == ReplyFor(Answered(replies), x)
  {
    ByIdMeans(replies);
    ReplyIsSomeAnswer(f, items, replies, f(x));
    assert Carries(f(x), x);
    var r := ById(replies)[KeyOf(x.id)];
    ReplyIsSomeAnswer(f, items, replies, r);
    y :| y in items && f(y) == r;
    assert Carries(f(y), y);
  }

  ghost predicate OwnAnswers(f: Item -> Reply, items: seq<Item>, replies: seq<Reply>) {
    forall x | x in items :: ReplyFor(Answered(replies), x) == f(x)
  }

  /** A group's items get their own answers, whatever the reply order, exactly when no ids clash. */
  lemma ScatterExact(f: Item -> Reply, items: seq<Item>, replies: seq<Reply>)
    requires RespectsIds(f) && AnswersAll(f, items, replies)
    ensures OwnAnswers(f, items, replies) <==> NoIdClash(f, items)
  {
    if NoIdClash(f, items) {
      forall x | x in items ensures ReplyFor(Answered(replies), x) == f(x) {
        var y := ReplyIsOfPeer(f, items, replies, x);
      }
    }
    if OwnAnswers(f, items, replies) {
      forall x, y | x in items && y in items && KeyOf(x.id) == KeyOf(y.id) ensures f(x) == f(y) {
        var z := ReplyIsOfPeer(f, items, replies, x);
      }
    }
  }

  // ------------------------------------------------ Where replies go

  /** The last position of an element with this identity, or -1. */
  function LastIndex(body: seq<Item>, ref: nat): (i: int)
    ensures -1 <= i < |body|
    ensures i >= 0 ==> body[i].ref == ref
    ensures forall k | 0 <= k < |body| && body[k].ref == ref :: k <= i
  {
    if |body| == 0 then -1
    else if body[|body| - 1].ref == ref then |body| - 1
    else LastIndex(body[..|body| - 1], ref)
  }

  /** Equal identities mean equal elements: an object is itself, a number or string is its value. */
  ghost predicate RefsDetermine(body: seq<Item>) {
    forall i, j | 0 <= i < |body| && 0 <= j < |body| && body[i].ref == body[j].ref :: body[i] == body[j]
  }

  ghost predicate DistinctRefs(items: seq<Item>) {
    forall i, j | 0 <= i < j < |items| :: items[i].ref != items[j].ref
  }

  method IndexByRef(body: seq<Item>) returns (idx: map<nat, nat>)
    ensures forall x | x in body :: x.ref in idx && idx[x.ref] == LastIndex(body, x.ref)
  {
    idx := map[];
    for i := 0 to |body|
      invariant forall x | x in body[..i] :: x.ref in idx && idx[x.ref] == LastIndex(body[..i], x.ref)
    {
      assert body[..i + 1][..i] == body[..i];
      assert body[..i + 1] == body[..i] + [body[i]];
      idx := idx[body[i].ref := i];
    }
    assert body[..|body|] == body;
  }

  ghost predicate Indexes(idx: map<nat, nat>, body: seq<Item>) {
    forall x | x in body :: x.ref in idx && idx[x.ref] == LastIndex(body, x.ref)
  }

  ghost predicate AllInBody(body: seq<Item>, items: seq<Item>) {
    forall x | x in items :: x in body
  }

  /** Some element of the group belongs in slot `j`. */
  ghost predicate Hits(body: seq<Item>, items: seq<Item>, j: int) {
    exists x :: x in items && LastIndex(body, x.ref) == j
  }

  /** The effect of scattering one group's replies. */
  ghost predicate Scattered(body: seq<Item>, items: seq<Item>, outcome: Outcome,
                            before: seq<Option<Reply>>, after: seq<Option<Reply>>)
  {
    && |before| == |body| == |after|
    && (forall x | x in items :: x in body && after[LastIndex(body, x.ref)] == Some(ReplyFor(outcome, x)))
    && (forall j | 0 <= j < |after| && !Hits(body, items, j) :: after[j] == before[j])
  }

  /** Puts one group's replies into the slots of its items; other slots keep what they have. */
  method ScatterGroup(results: array<Option<Reply>>, idx: map<nat, nat>, ghost body: seq<Item>, items: seq<Item>,
                      outcome: Outcome)
    requires results.Length == |body| && Indexes(idx, body) && RefsDetermine(body) && AllInBody(body, items)
    modifies results
    ensures Scattered(body, items, outcome, old(results[..]), results[..])
  {
    for k := 0 to |items|
      invariant forall x | x in items[..k] :: results[LastIndex(body, x.ref)] == Some(ReplyFor(outcome, x))
      invariant forall j | 0 <= j < results.Length && !Hits(body, items, j) :: results[j] == old(results[j])
    {
      var item := items[k];
      var slot := idx[item.ref];
      results[slot] := Some(ReplyFor(outcome, item));
      forall x | x in items[..k + 1] ensures results[LastIndex(body, x.ref)] == Some(ReplyFor(outcome, x)) {
        if LastIndex(body, x.ref) == slot { SameSlot(body, x, item); }
      }
    }
    assert items[..|items|] == items;
  }

  lemma SameSlot(body: seq<Item>, x: Item, y: Item)
    requires RefsDetermine(body) && x in body && y in body && LastIndex(body, x.ref) == LastIndex(body, y.ref)
    ensures x == y
  {
    var i :| 0 <= i < |body| && body[i] == x;
    var j :| 0 <= j < |body| && body[j] == y;
    assert body[LastIndex(body, x.ref)].ref == x.ref == y.ref;
  }

  /** Every element of the batch is oversized or forwarded in some group. */
  lemma {:induction false} NormalsMeans(body: seq<Item>)
    ensures forall x :: x in Normals(body) <==> x in body && !TooBig(x)
    ensures forall x :: x in Oversized(body) <==> x in body && TooBig(x)
  {
    if |body| > 0 {
      var p, z := body[..|body| - 1], body[|body| - 1];
      NormalsMeans(p);
      assert body == p + [z];
      assert forall x :: x in body <==> x in p || x == z;
    }
  }

  lemma {:induction false} NormalsDistinct(body: seq<Item>)
    requires DistinctRefs(body)
    ensures DistinctRefs(Normals(body))
  {
    if |body| > 0 {
      var p, z := body[..|body| - 1], body[|body| - 1];
      NormalsDistinct(p);
      NormalsMeans(p);
      forall i | 0 <= i < |Normals(p)| ensures Normals(p)[i].ref != z.ref {
        assert Normals(p)[i] in p;
      }
    }
  }

  lemma {:induction false} ConcatMeans(parts: seq<seq<Item>>)
    ensures forall x :: x in Concat(parts) <==> exists k :: 0 <= k < |parts| && x in parts[k]
  {
    if |parts| > 0 {
      var p, z := parts[..|parts| - 1], parts[|parts| - 1];
      ConcatMeans(p);
      forall x ensures x in Concat(parts) <==> exists k :: 0 <= k < |parts| && x in parts[k] {
        if x in Concat(p) {
          var k :| 0 <= k < |p| && x in p[k];
          assert x in parts[k];
        } else if x in z {
          assert x in parts[|parts| - 1];
        }
        if exists k :: 0 <= k < |parts| && x in parts[k] {
          var k :| 0 <= k < |parts| && x in parts[k];
          if k < |p| { assert x in p[k]; }
        }
      }
    }
  }

  /** With distinct identities no two groups share one. */
  lemma {:induction false} GroupsDisjoint(parts: seq<seq<Item>>, j: nat, k: nat, x: Item, y: Item)
    requires DistinctRefs(Concat(parts)) && j < k < |parts| && x in parts[j] && y in parts[k]
    ensures x.ref != y.ref
  {
    var p, z := parts[..|parts| - 1], parts[|parts| - 1];
    if k < |parts| - 1 {
      assert Concat(p) == Concat(parts)[..|Concat(p)|];
      GroupsDisjoint(p, j, k, x, y);
    } else {
      PartOfConcat(p, j, x);
      var a :| 0 <= a < |Concat(p)| && Concat(p)[a] == x;
      var b :| 0 <= b < |z| && z[b] == y;
      assert Concat(parts)[a] == x && Concat(parts)[|Concat(p)| + b] == y;
    }
  }

  /** An element is forwarded exactly if it has at most 1900 bytes. */
  lemma ForwardedExactly(body: seq<Item>, x: Item)
    ensures (exists k :: 0 <= k < |Forwarded(body)| && x in Forwarded(body)[k]) <==> x in body && |x.json| <= 1900
  {
    SplitsTightly(body);
    NormalsMeans(body);
    ConcatMeans(Forwarded(body));
    assert x in Normals(body) <==> x in body && !TooBig(x);
    assert x in Concat(Forwarded(body)) <==> exists k :: 0 <= k < |Forwarded(body)| && x in Forwarded(body)[k];
  }

  lemma ForwardedMeans(body: seq<Item>, k: nat, x: Item)
    requires k < |Forwarded(body)| && x in Forwarded(body)[k]
    ensures x in body && !TooBig(x)
  {
    SplitsTightly(body);
    PartOfConcat(Forwarded(body), k, x);
    NormalsMeans(body);
  }
}
