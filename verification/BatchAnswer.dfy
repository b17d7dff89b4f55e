/** The batch branch of the /ethereum handler from request to response array. */
module BatchAnswer {
  import opened Wrappers
  import opened BatchSplit
  import opened BatchForward

  /** What the tunnel returns for the k-th forwarded group. */
  type Upstream = (nat, seq<Item>) -> Outcome

  /** The response for the element whose identity last occurs at slot `j`. */
  ghost predicate Filled(body: seq<Item>, results: seq<Option<Reply>>) {
    && |results| == |body|
    && (forall j | 0 <= j < |body| && results[j].Some? ::
          LastIndex(body, body[j].ref) == j && Carries(results[j].value, body[j]))
  }

  ghost predicate GroupAnswered(body: seq<Item>, upstream: Upstream, results: seq<Option<Reply>>, k: nat)
    requires k < |Forwarded(body)| && |results| == |body|
  {
    var items := Forwarded(body)[k];
    forall x | x in items && x in body :: results[LastIndex(body, x.ref)] == Some(ReplyFor(upstream(k, items), x))
  }

  ghost predicate GroupFilled(body: seq<Item>, results: seq<Option<Reply>>, k: nat)
    requires k < |Forwarded(body)| && |results| == |body|
  {
    forall x | x in Forwarded(body)[k] && x in body :: results[LastIndex(body, x.ref)].Some?
  }

  ghost predicate OversizedAnswered(body: seq<Item>, results: seq<Option<Reply>>)
    requires |results| == |body|
  {
    forall x | x in body && TooBig(x) :: results[LastIndex(body, x.ref)] == Some(OversizeError(x))
  }

  /** Slots filled so far hold the size error of their own oversized element. */
  ghost predicate OnlySizeErrors(body: seq<Item>, results: seq<Option<Reply>>) {
    && |results| == |body|
    && forall j | 0 <= j < |body| && results[j].Some? ::
         LastIndex(body, body[j].ref) == j && TooBig(body[j]) && results[j] == Some(OversizeError(body[j]))
  }

  ghost predicate HasReply(body: seq<Item>, results: seq<Option<Reply>>, x: Item)
    requires |results| == |body|
  {
    x in body && results[LastIndex(body, x.ref)].Some?
  }

  lemma AddSizeError(body: seq<Item>, before: seq<Option<Reply>>, item: Item)
    requires RefsDetermine(body) && OnlySizeErrors(body, before) && item in body && TooBig(item)
    ensures var after := before[LastIndex(body, item.ref) := Some(OversizeError(item))];
      && OnlySizeErrors(body, after) && HasReply(body, after, item)
      && forall x | HasReply(body, before, x) :: HasReply(body, after, x)
  {
    InSlot(body, item);
  }

  ghost predicate AllReplied(body: seq<Item>, results: seq<Option<Reply>>, items: seq<Item>)
    requires |results| == |body|
  {
    forall x | x in items :: HasReply(body, results, x)
  }

  /** The groups before the k-th have been looked through. */
  ghost predicate FilledUpTo(body: seq<Item>, results: seq<Option<Reply>>, k: nat) {
    && k <= |Groups(body)| && OnlySizeErrors(body, results)
    && AllReplied(body, results, Concat(Select(Groups(body)[..k], true)))
  }

  lemma FillStep(body: seq<Item>, before: seq<Option<Reply>>, k: nat)
    requires RefsDetermine(body) && k < |Groups(body)| && FilledUpTo(body, before, k)
    ensures !Groups(body)[k].single ==> FilledUpTo(body, before, k + 1)
    ensures Groups(body)[k].single ==>
      && |Groups(body)[k].items| == 1 && Groups(body)[k].items[0] in body
      && var item := Groups(body)[k].items[0];
         FilledUpTo(body, before[LastIndex(body, item.ref) := Some(OversizeError(item))], k + 1)
  {
    SelectStep(Groups(body), k);
    if Groups(body)[k].single {
      SingleInBody(body, k);
      AddSizeError(body, before, Groups(body)[k].items[0]);
    }
  }

  method FillOversized(results: array<Option<Reply>>, idx: map<nat, nat>, body: seq<Item>, groups: seq<Group>)
    requires results.Length == |body| && Indexes(idx, body) && RefsDetermine(body) && groups == Groups(body)
    requires forall j | 0 <= j < results.Length :: results[j] == None
    modifies results
    ensures Filled(body, results[..]) && OversizedAnswered(body, results[..]) && OnlySizeErrors(body, results[..])
  {
    for k := 0 to |groups|
      invariant FilledUpTo(body, results[..], k)
    {
      ghost var before := results[..];
      FillStep(body, before, k);
      if groups[k].single {
        var item := groups[k].items[0];
        var slot := idx[item.ref];
        results[slot] := Some(OversizeError(item));
        assert results[..] == before[slot := Some(OversizeError(item))];
      }
    }
    assert groups[..|groups|] == groups;
    AllSizeErrors(body, results[..]);
  }

  lemma SelectStep(groups: seq<Group>, k: nat)
    requires k < |groups|
    ensures Concat(Select(groups[..k + 1], true))
         == Concat(Select(groups[..k], true)) + if groups[k].single then groups[k].items else []
  {
    assert groups[..k + 1] == groups[..k] + [groups[k]];
    SelectSnoc(groups[..k], groups[k], true);
    if groups[k].single {
      ConcatSnoc(Select(groups[..k], true), groups[k].items);
    } else {
      assert Select(groups[..k], true) + [] == Select(groups[..k], true);
    }
  }

  lemma AllSizeErrors(body: seq<Item>, results: seq<Option<Reply>>)
    requires RefsDetermine(body) && OnlySizeErrors(body, results)
    requires AllReplied(body, results, Concat(Select(Groups(body), true)))
    ensures Filled(body, results) && OversizedAnswered(body, results)
  {
    SinglesAreOversized(body);
    NormalsMeans(body);
    forall x | x in body && TooBig(x) ensures results[LastIndex(body, x.ref)] == Some(OversizeError(x)) {
      assert HasReply(body, results, x);
      InSlot(body, x);
    }
  }

  /** The element at an identity's last position is the element itself. */
  lemma InSlot(body: seq<Item>, x: Item)
    requires RefsDetermine(body) && x in body
    ensures LastIndex(body, x.ref) >= 0 && body[LastIndex(body, x.ref)] == x
  {
    var i :| 0 <= i < |body| && body[i] == x;
    assert body[LastIndex(body, x.ref)].ref == body[i].ref;
  }

  lemma {:induction false} SelectHolds(groups: seq<Group>, k: nat)
    requires k < |groups|
    ensures groups[k].items in Select(groups, groups[k].single)
  {
    var p := groups[..|groups| - 1];
    if k < |p| { SelectHolds(p, k); }
  }

  lemma SingleInBody(body: seq<Item>, k: nat)
    requires k < |Groups(body)| && Groups(body)[k].single
    ensures |Groups(body)[k].items| == 1 && Groups(body)[k].items[0] in body && TooBig(Groups(body)[k].items[0])
  {
    SinglesAreOversized(body);
    NormalsMeans(body);
    var g := Groups(body)[k];
    assert g in Groups(body);
    SelectHolds(Groups(body), k);
    var j :| 0 <= j < |Select(Groups(body), true)| && Select(Groups(body), true)[j] == g.items;
    assert g.items[0] in g.items;
    PartOfConcat(Select(Groups(body), true), j, g.items[0]);
  }

  /** One group's replies leave every filled slot with a reply of its own element. */
  lemma ScatterKeepsFilled(body: seq<Item>, items: seq<Item>, outcome: Outcome,
                           before: seq<Option<Reply>>, after: seq<Option<Reply>>)
    requires RefsDetermine(body) && Filled(body, before) && |after| == |body|
    requires forall x | x in items :: x in body && after[LastIndex(body, x.ref)] == Some(ReplyFor(outcome, x))
    requires forall j | 0 <= j < |after| && !Hits(body, items, j) :: after[j] == before[j]
    ensures Filled(body, after)
    ensures forall j | 0 <= j < |after| && before[j].Some? :: after[j].Some?
  {
    forall j | 0 <= j < |after| && Hits(body, items, j)
      ensures after[j].Some? && LastIndex(body, body[j].ref) == j && Carries(after[j].value, body[j])
    {
      var x :| x in items && LastIndex(body, x.ref) == j;
      InSlot(body, x);
      RepliesCarryIds(outcome, x);
    }
  }

  lemma ForwardedInBody(body: seq<Item>, k: nat)
    requires k < |Forwarded(body)|
    ensures AllInBody(body, Forwarded(body)[k])
  {
    forall x | x in Forwarded(body)[k] ensures x in body { ForwardedMeans(body, k, x); }
  }

  /** With distinct elements one group's replies leave the others' alone. */
  lemma GroupsApart(body: seq<Item>, j: nat, k: nat, x: Item)
    requires DistinctRefs(body) && j < |Forwarded(body)| && k < |Forwarded(body)| && j != k
    requires x in Forwarded(body)[j]
    ensures !Hits(body, Forwarded(body)[k], LastIndex(body, x.ref))
  {
    SplitsTightly(body);
    NormalsDistinct(body);
    if Hits(body, Forwarded(body)[k], LastIndex(body, x.ref)) {
      var y :| y in Forwarded(body)[k] && LastIndex(body, y.ref) == LastIndex(body, x.ref);
      ForwardedMeans(body, j, x);
      ForwardedMeans(body, k, y);
      SameSlotRef(body, x, y);
      if j < k { GroupsDisjoint(Forwarded(body), j, k, x, y); } else { GroupsDisjoint(Forwarded(body), k, j, y, x); }
    }
  }

  lemma SameSlotRef(body: seq<Item>, x: Item, y: Item)
    requires x in body && y in body && LastIndex(body, x.ref) == LastIndex(body, y.ref)
    ensures x.ref == y.ref
  {
  }

  lemma OversizedApart(body: seq<Item>, k: nat, x: Item)
    requires RefsDetermine(body) && k < |Forwarded(body)| && x in body && TooBig(x)
    ensures !Hits(body, Forwarded(body)[k], LastIndex(body, x.ref))
  {
    if Hits(body, Forwarded(body)[k], LastIndex(body, x.ref)) {
      var y :| y in Forwarded(body)[k] && LastIndex(body, y.ref) == LastIndex(body, x.ref);
      ForwardedMeans(body, k, y);
      SameSlot(body, x, y);
    }
  }

  /** Some call that carried `x` gave it the reply `r`. */
  ghost predicate GivenInCall(body: seq<Item>, upstream: Upstream, x: Item, r: Reply) {
    exists k :: 0 <= k < |Forwarded(body)| && x in Forwarded(body)[k]
                && GivenBy(upstream(k, Forwarded(body)[k]), x, r)
  }

  /** Every reply in the array comes from a call, or tells an element that it has more than 1900 bytes. */
  ghost predicate RepliesAccounted(body: seq<Item>, upstream: Upstream, results: seq<Option<Reply>>) {
    && |results| == |body|
    && forall j | 0 <= j < |body| && results[j].Some? ::
         if |body[j].json| > 1900 then
           && results[j].value.id == Some(KeyOf(body[j].id))
           && results[j].value.payload
              == RpcError(-32005, "single request too large for mixnet tunnel (max ~1900 bytes)")
         else GivenInCall(body, upstream, body[j], results[j].value)
  }

  lemma ScatterAccounts(body: seq<Item>, upstream: Upstream, k: nat,
                        before: seq<Option<Reply>>, after: seq<Option<Reply>>)
    requires RefsDetermine(body) && k < |Forwarded(body)| && RepliesAccounted(body, upstream, before)
    requires Scattered(body, Forwarded(body)[k], upstream(k, Forwarded(body)[k]), before, after)
    ensures RepliesAccounted(body, upstream, after)
  {
    forall j | 0 <= j < |body| && Hits(body, Forwarded(body)[k], j)
      ensures |body[j].json| <= 1900 && after[j].Some? && GivenInCall(body, upstream, body[j], after[j].value)
    {
      var x :| x in Forwarded(body)[k] && LastIndex(body, x.ref) == j;
      ForwardedMeans(body, k, x);
      InSlot(body, x);
      GivenExactly(upstream(k, Forwarded(body)[k]), x, after[j].value);
    }
  }

  /** `order` lists every forwarded group once: the order in which the calls complete. */
  ghost predicate Completion(order: seq<nat>, count: nat) {
    && (forall k: nat | k < count :: k in order)
    && (forall i | 0 <= i < |order| :: order[i] < count)
    && (forall i, j | 0 <= i < j < |order| :: order[i] != order[j])
  }

  /**
   Every reply in the array is an oversized element's size error or what some call that carried its
   element gave it. Every slot of a last occurrence is filled with one reply that carries that element's id,
   whatever fails; and with distinct elements, each forwarded item has the reply its own
   group's call yields, each oversized one the size error, in any completion order. No slot stays
   empty exactly when no element repeats; and if every call is answered item by item, the array is
   the direct answer exactly when, besides, no sub-batch clashes.
   */
  method AnswerBatch(body: seq<Item>, upstream: Upstream, order: seq<nat>) returns (results: array<Option<Reply>>)
    requires RefsDetermine(body) && Completion(order, |Forwarded(body)|)
    ensures fresh(results) && Filled(body, results[..])
    ensures forall x | x in body :: HasReply(body, results[..], x)
    ensures OversizedAnswered(body, results[..])
    ensures forall k | 0 <= k < |Forwarded(body)| :: Settled(body, upstream, results[..], k)
    ensures RepliesAccounted(body, upstream, results[..])
    ensures NoGap(results[..]) <==> DistinctRefs(body)
    ensures forall f | RespectsIds(f) && TrueOrFailing(f, upstream, body) :: NoWrongValue(f, results[..], body)
    ensures forall f | RespectsIds(f) && AnswersBy(f, upstream, body) ::
              AnsweredDirectly(f, body, results[..]) <==> DistinctRefs(body) && ClashFree(f, body)
  {
    var groups := Split(body);
    var idx;
    results, idx := Prefill(body, groups);
    var forwarded := SelectForwarded(groups);
    AwaitAll(results, idx, body, forwarded, order, upstream);
    AllFilled(body, upstream, order, results[..]);
    FilledExactly(body, results[..]);
    SettledIsDirect(body, upstream, results[..]);
    forall f | RespectsIds(f) && TrueOrFailing(f, upstream, body) ensures NoWrongValue(f, results[..], body) {
      FailuresStayTrue(f, upstream, body, results[..]);
    }
  }

  method Prefill(body: seq<Item>, groups: seq<Group>) returns (results: array<Option<Reply>>, idx: map<nat, nat>)
    requires RefsDetermine(body) && groups == Groups(body)
    ensures fresh(results) && results.Length == |body| && Indexes(idx, body)
    ensures Filled(body, results[..]) && OversizedAnswered(body, results[..]) && OnlySizeErrors(body, results[..])
  {
    results := new Option<Reply>[|body|](i => None);
    idx := IndexByRef(body);
    FillOversized(results, idx, body, groups);
  }

  /** The first `p` calls have completed. */
  ghost predicate Progress(body: seq<Item>, upstream: Upstream, results: seq<Option<Reply>>, order: seq<nat>, p: nat) {
    && p <= |order| && Filled(body, results) && OversizedAnswered(body, results)
    && RepliesAccounted(body, upstream, results)
    && forall q | 0 <= q < p :: Settled(body, upstream, results, order[q])
  }

  method AwaitAll(results: array<Option<Reply>>, idx: map<nat, nat>, ghost body: seq<Item>,
                  forwarded: seq<seq<Item>>, order: seq<nat>, upstream: Upstream)
    requires results.Length == |body| && Indexes(idx, body) && RefsDetermine(body)
    requires forwarded == Forwarded(body) && Completion(order, |forwarded|)
    requires Filled(body, results[..]) && OversizedAnswered(body, results[..])
    requires RepliesAccounted(body, upstream, results[..])
    modifies results
    ensures Progress(body, upstream, results[..], order, |order|)
  {
    for p := 0 to |order|
      invariant Progress(body, upstream, results[..], order, p)
    {
      ghost var before := results[..];
      var k := order[p];
      var outcome := upstream(k, forwarded[k]);
      ForwardedInBody(body, k);
      ScatterGroup(results, idx, body, forwarded[k], outcome);
      OneMore(body, upstream, order, p, before, results[..]);
    }
  }

  /** One more call completes: its group is settled, and the groups settled before stay so. */
  lemma OneMore(body: seq<Item>, upstream: Upstream, order: seq<nat>, p: nat,
                before: seq<Option<Reply>>, after: seq<Option<Reply>>)
    requires RefsDetermine(body) && Completion(order, |Forwarded(body)|) && p < |order|
    requires Progress(body, upstream, before, order, p)
    requires Scattered(body, Forwarded(body)[order[p]], upstream(order[p], Forwarded(body)[order[p]]), before, after)
    ensures Progress(body, upstream, after, order, p + 1)
  {
    Settle(body, upstream, order[p], before, after);
    ScatterAccounts(body, upstream, order[p], before, after);
    forall q | 0 <= q < p ensures Settled(body, upstream, after, order[q]) {
      assert Settled(body, upstream, before, order[q]);
      OthersStay(body, upstream, order[q], order[p], before, after);
    }
  }

  /** The group's slots are filled; with distinct elements, by the replies of its own call. */
  ghost predicate Settled(body: seq<Item>, upstream: Upstream, results: seq<Option<Reply>>, k: nat) {
    && k < |Forwarded(body)| && |results| == |body|
    && GroupFilled(body, results, k)
    && (DistinctRefs(body) ==> GroupAnswered(body, upstream, results, k))
  }

  method SelectForwarded(groups: seq<Group>) returns (parts: seq<seq<Item>>)
    ensures parts == Select(groups, false)
  {
    parts := [];
    for k := 0 to |groups|
      invariant parts == Select(groups[..k], false)
    {
      assert groups[..k + 1][..k] == groups[..k];
      if !groups[k].single { parts := parts + [groups[k].items]; }
    }
    assert groups[..|groups|] == groups;
  }

  /** What the k-th group's completion establishes. */
  lemma Settle(body: seq<Item>, upstream: Upstream, k: nat, before: seq<Option<Reply>>, after: seq<Option<Reply>>)
    requires RefsDetermine(body) && k < |Forwarded(body)|
    requires Filled(body, before) && OversizedAnswered(body, before)
    requires Scattered(body, Forwarded(body)[k], upstream(k, Forwarded(body)[k]), before, after)
    ensures Filled(body, after) && OversizedAnswered(body, after)
    ensures GroupFilled(body, after, k) && GroupAnswered(body, upstream, after, k)
  {
    ScatterKeepsFilled(body, Forwarded(body)[k], upstream(k, Forwarded(body)[k]), before, after);
    forall x | x in body && TooBig(x) ensures after[LastIndex(body, x.ref)] == Some(OversizeError(x)) {
      OversizedApart(body, k, x);
    }
  }

  /** What another group's earlier completion established is still there. */
  lemma OthersStay(body: seq<Item>, upstream: Upstream, j: nat, k: nat,
                   before: seq<Option<Reply>>, after: seq<Option<Reply>>)
    requires RefsDetermine(body) && j < |Forwarded(body)| && k < |Forwarded(body)| && j != k
    requires Scattered(body, Forwarded(body)[k], upstream(k, Forwarded(body)[k]), before, after)
    requires GroupFilled(body, before, j)
    ensures GroupFilled(body, after, j)
    ensures DistinctRefs(body) && GroupAnswered(body, upstream, before, j) ==> GroupAnswered(body, upstream, after, j)
  {
    forall x | x in Forwarded(body)[j] && x in body ensures after[LastIndex(body, x.ref)].Some? {
      if Hits(body, Forwarded(body)[k], LastIndex(body, x.ref)) {
        var y :| y in Forwarded(body)[k] && LastIndex(body, y.ref) == LastIndex(body, x.ref);
      }
    }
    if DistinctRefs(body) && GroupAnswered(body, upstream, before, j) {
      forall x | x in Forwarded(body)[j] && x in body
        ensures after[LastIndex(body, x.ref)] == Some(ReplyFor(upstream(j, Forwarded(body)[j]), x))
      {
        GroupsApart(body, j, k, x);
      }
    }
  }

  lemma AllFilled(body: seq<Item>, upstream: Upstream, order: seq<nat>, results: seq<Option<Reply>>)
    requires Completion(order, |Forwarded(body)|) && |results| == |body| && OversizedAnswered(body, results)
    requires forall q | 0 <= q < |order| :: Settled(body, upstream, results, order[q])
    ensures forall k | 0 <= k < |Forwarded(body)| :: Settled(body, upstream, results, k)
    ensures forall x | x in body :: HasReply(body, results, x)
  {
    forall k | 0 <= k < |Forwarded(body)| ensures Settled(body, upstream, results, k) {
      assert k in order;
    }
    SplitsTightly(body);
    NormalsMeans(body);
    ConcatMeans(Forwarded(body));
    forall x | x in body ensures HasReply(body, results, x) {
      if !TooBig(x) {
        assert x in Concat(Forwarded(body));
        var k :| 0 <= k < |Forwarded(body)| && x in Forwarded(body)[k];
        assert Settled(body, upstream, results, k);
      }
    }
  }

  // ------------------------------------------------ Splitting refines answering directly

  /** The upstream answers each forwarded item by f, replies in any order. */
  ghost predicate AnswersBy(f: Item -> Reply, upstream: Upstream, body: seq<Item>) {
    forall k | 0 <= k < |Forwarded(body)| ::
      var o := upstream(k, Forwarded(body)[k]);
      o.Answered? && AnswersAll(f, Forwarded(body)[k], o.replies)
  }

  /** What a server without the tunnel's limit would put at position i. */
  function Direct(f: Item -> Reply, item: Item): Reply {
    if TooBig(item) then OversizeError(item) else f(item)
  }

  /** Every element has the answer that a server without the tunnel's limit would give it. */
  ghost predicate AnsweredDirectly(f: Item -> Reply, body: seq<Item>, results: seq<Option<Reply>>) {
    |results| == |body| && forall i | 0 <= i < |body| :: results[i] == Some(Direct(f, body[i]))
  }

  /** No sub-batch holds two items with one id and different answers. */
  ghost predicate ClashFree(f: Item -> Reply, body: seq<Item>) {
    forall k | 0 <= k < |Forwarded(body)| :: NoIdClash(f, Forwarded(body)[k])
  }

  ghost predicate NoGap(results: seq<Option<Reply>>) {
    forall i | 0 <= i < |results| :: results[i].Some?
  }

  lemma DistinctIsLast(body: seq<Item>, i: nat)
    requires DistinctRefs(body) && i < |body|
    ensures LastIndex(body, body[i].ref) == i
  {
  }

  /** Every slot is filled if and only if no element repeats; the earlier slots of a repeated one stay empty. */
  lemma FilledExactly(body: seq<Item>, results: seq<Option<Reply>>)
    requires Filled(body, results) && forall x | x in body :: HasReply(body, results, x)
    ensures NoGap(results) <==> DistinctRefs(body)
  {
    if DistinctRefs(body) {
      forall i | 0 <= i < |results| ensures results[i].Some? {
        DistinctIsLast(body, i);
        assert HasReply(body, results, body[i]);
      }
    }
    if NoGap(results) {
      forall i, j | 0 <= i < j < |body| ensures body[i].ref != body[j].ref {
        assert results[i].Some?;
        assert LastIndex(body, body[i].ref) == i;
      }
    }
  }

  /** Where no element repeats, the array is the direct answer if and only if no sub-batch clashes. */
  lemma DistinctRefinesDirect(f: Item -> Reply, upstream: Upstream, body: seq<Item>, results: seq<Option<Reply>>)
    requires RespectsIds(f) && DistinctRefs(body) && RefsDetermine(body)
    requires AnswersBy(f, upstream, body) && |results| == |body| && OversizedAnswered(body, results)
    requires forall k | 0 <= k < |Forwarded(body)| :: GroupAnswered(body, upstream, results, k)
    ensures AnsweredDirectly(f, body, results) <==> ClashFree(f, body)
  {
    SplitsTightly(body);
    NormalsMeans(body);
    ConcatMeans(Forwarded(body));
    forall i | 0 <= i < |body| ensures LastIndex(body, body[i].ref) == i { DistinctIsLast(body, i); }
    if ClashFree(f, body) {
      forall i | 0 <= i < |body| ensures results[i] == Some(Direct(f, body[i])) {
        var x := body[i];
        if !TooBig(x) {
          assert x in Concat(Forwarded(body));
          var k :| 0 <= k < |Forwarded(body)| && x in Forwarded(body)[k];
          assert GroupAnswered(body, upstream, results, k);
          ScatterExact(f, Forwarded(body)[k], upstream(k, Forwarded(body)[k]).replies);
        }
      }
    } else {
      var k :| 0 <= k < |Forwarded(body)| && !NoIdClash(f, Forwarded(body)[k]);
      var items := Forwarded(body)[k];
      ScatterExact(f, items, upstream(k, items).replies);
      var x :| x in items && ReplyFor(upstream(k, items), x) != f(x);
      ForwardedMeans(body, k, x);
      assert GroupAnswered(body, upstream, results, k);
      InSlot(body, x);
    }
  }

  /**
   The whole detour through sub-batches equals answering element by element, for every reply and
   completion order, if and only if no element repeats and no sub-batch holds two items with one id
   and different answers.
   */
  lemma SplitRefinesDirect(f: Item -> Reply, upstream: Upstream, body: seq<Item>, results: seq<Option<Reply>>)
    requires RespectsIds(f) && RefsDetermine(body) && AnswersBy(f, upstream, body)
    requires Filled(body, results) && OversizedAnswered(body, results)
    requires forall k | 0 <= k < |Forwarded(body)| :: Settled(body, upstream, results, k)
    requires forall x | x in body :: HasReply(body, results, x)
    ensures AnsweredDirectly(f, body, results) <==> DistinctRefs(body) && ClashFree(f, body)
  {
    FilledExactly(body, results);
    if DistinctRefs(body) {
      forall k | 0 <= k < |Forwarded(body)| ensures GroupAnswered(body, upstream, results, k) {
        assert Settled(body, upstream, results, k);
      }
      DistinctRefinesDirect(f, upstream, body, results);
    }
  }

  /** The same for every such upstream behaviour, once all groups are settled. */
  lemma SettledIsDirect(body: seq<Item>, upstream: Upstream, results: seq<Option<Reply>>)
    requires RefsDetermine(body) && Filled(body, results) && OversizedAnswered(body, results)
    requires forall k | 0 <= k < |Forwarded(body)| :: Settled(body, upstream, results, k)
    requires forall x | x in body :: HasReply(body, results, x)
    ensures forall f | RespectsIds(f) && AnswersBy(f, upstream, body) ::
              AnsweredDirectly(f, body, results) <==> DistinctRefs(body) && ClashFree(f, body)
  {
    forall f | RespectsIds(f) && AnswersBy(f, upstream, body)
      ensures AnsweredDirectly(f, body, results) <==> DistinctRefs(body) && ClashFree(f, body)
    {
      SplitRefinesDirect(f, upstream, body, results);
    }
  }

  /** Calls that succeed answer by `f` without clash; calls that fail find nothing cached but what `f` says. */
  ghost predicate TrueOrFailing(f: Item -> Reply, upstream: Upstream, body: seq<Item>) {
    forall k | 0 <= k < |Forwarded(body)| ::
      match upstream(k, Forwarded(body)[k])
      case Failed(_, cache) => CachedTruly(f, cache)
      case Answered(replies) => AnswersAll(f, Forwarded(body)[k], replies) && NoIdClash(f, Forwarded(body)[k])
  }

  /** Whichever calls fail, no element is given a value other than the upstream's answer to it. */
  ghost predicate NoWrongValue(f: Item -> Reply, results: seq<Option<Reply>>, body: seq<Item>)
    requires |results| == |body|
  {
    forall j | 0 <= j < |body| && results[j].Some? && results[j].value.payload.Value? ::
      results[j].value.payload == f(body[j]).payload
  }

  lemma FailuresStayTrue(f: Item -> Reply, upstream: Upstream, body: seq<Item>, results: seq<Option<Reply>>)
    requires RespectsIds(f) && TrueOrFailing(f, upstream, body) && RepliesAccounted(body, upstream, results)
    ensures NoWrongValue(f, results, body)
  {
    forall j | 0 <= j < |body| && results[j].Some? && results[j].value.payload.Value?
      ensures results[j].value.payload == f(body[j]).payload
    {
      var x, r := body[j], results[j].value;
      assert GivenInCall(body, upstream, x, r);
      var k :| 0 <= k < |Forwarded(body)| && x in Forwarded(body)[k] && GivenBy(upstream(k, Forwarded(body)[k]), x, r);
      var outcome := upstream(k, Forwarded(body)[k]);
      GivenExactly(outcome, x, r);
      match outcome {
        case Failed(message, cache) => FailedGivesOwnAnswer(f, message, cache, x);
        case Answered(replies) => ScatterExact(f, Forwarded(body)[k], replies);
      }
    }
  }

  // ------------------------------------------------ Both failures are reached

  /** Two items that fit into one sub-batch are sent as one. */
  lemma PairIsOneGroup(x: Item, y: Item)
    requires Size(x) + Size(y) <= LIMIT
    ensures Forwarded([x, y]) == [[x, y]]
  {
    var body := [x, y];
    assert body[..1] == [x] && body[..1][..0] == [];
    assert Load([x]) == Size(x) by { LoadSnoc([], x); assert [] + [x] == [x]; }
    assert Packed([x]) == Packing([], [x]);
    assert Packed(body) == Packing([], [x, y]);
    ForwardedIsParts(body);
    assert Current(Packed(body)) == [[x, y]];
  }

  /** Of two replies with one id the second is filed. */
  lemma LastIsFiled(x: Reply, y: Reply)
    requires KeyOf(x.id) == KeyOf(y.id)
    ensures KeyOf(y.id) in ById([x, y]) && ById([x, y])[KeyOf(y.id)] == y
  {
    assert [x, y][..1] == [x];
  }

  /**
   Whenever two items with one id and different answers fit into one sub-batch, the first is given
   the second's answer, though the upstream answers both, in order.
   */
  lemma ClashSwapsAnswers(f: Item -> Reply, x: Item, y: Item)
    requires RespectsIds(f) && Size(x) + Size(y) <= LIMIT && KeyOf(x.id) == KeyOf(y.id) && f(x) != f(y)
    ensures !ClashFree(f, [x, y])
    ensures AnswersAll(f, [x, y], Answers(f, [x, y]))
    ensures ReplyFor(Answered(Answers(f, [x, y])), x) == f(y)
  {
    PairIsOneGroup(x, y);
    assert x in [x, y] && y in [x, y];
    assert !NoIdClash(f, Forwarded([x, y])[0]);
    assert Answers(f, [x, y]) == [f(x), f(y)];
    assert Carries(f(x), x) && Carries(f(y), y);
    LastIsFiled(f(x), f(y));
  }

  /** The bytes of a text of ASCII characters. */
  function Ascii(s: string): (b: Bytes)
    ensures |b| == |s|
  {
    seq(|s|, i requires 0 <= i < |s| => s[i] as nat)
  }

  /** A request without an id, which counts as 1. */
  function Unnumbered(): Item {
    Item(0, None, "eth_chainId", Ascii("{\"jsonrpc\":\"2.0\",\"method\":\"eth_chainId\"}"))
  }

  function Numbered(): Item {
    Item(1, Some(Number(1)), "net_version", Ascii("{\"jsonrpc\":\"2.0\",\"method\":\"net_version\",\"id\":1}"))
  }

  /** An upstream that answers every request with its method's name. */
  function Echo(x: Item): Reply {
    Reply(Some(KeyOf(x.id)), Value(x.rpcMethod))
  }

  /** A request without an id beside one with id 1, as a client may send them, is a clash. */
  lemma ClashIsReached()
    ensures RespectsIds(Echo) && DistinctRefs([Unnumbered(), Numbered()]) && RefsDetermine([Unnumbered(), Numbered()])
    ensures !ClashFree(Echo, [Unnumbered(), Numbered()])
    ensures ReplyFor(Answered(Answers(Echo, [Unnumbered(), Numbered()])), Unnumbered()) == Echo(Numbered())
    ensures Echo(Numbered()) != Echo(Unnumbered())
  {
    assert Unnumbered().rpcMethod[0] == 'e' && Numbered().rpcMethod[0] == 'n';
    ClashSwapsAnswers(Echo, Unnumbered(), Numbered());
  }

  /** The batch [1, 1]: a number is its own identity, so both elements share the second slot. */
  function Ones(): seq<Item> {
    [Item(1, None, "", Ascii("1")), Item(1, None, "", Ascii("1"))]
  }

  /** Whatever the upstream does, the first slot of [1, 1] stays empty. */
  lemma RepeatLeavesGap(results: seq<Option<Reply>>)
    requires Filled(Ones(), results)
    ensures RefsDetermine(Ones()) && !DistinctRefs(Ones()) && results[0] == None
  {
    assert LastIndex(Ones(), 1) == 1;
    assert Ones()[0].ref == Ones()[1].ref == 1;
  }
}
