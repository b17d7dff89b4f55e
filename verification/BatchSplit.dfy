/** Cutting a JSON-RPC batch into sub-batches that fit the mixnet tunnel. */
module BatchSplit {
  import opened Wrappers

  type Bytes = seq<nat>
  datatype JsonId = Number(n: int) | Text(s: string)

  /**
   One element of the batch. `ref` is what a JavaScript Map distinguishes elements by: object
   identity, or the value itself for a number or string; `json` is its serialisation.
   */
  datatype Item = Item(ref: nat, id: Option<JsonId>, rpcMethod: string, json: Bytes)

  datatype Group = Group(items: seq<Item>, single: bool)

  const LIMIT := 1900

  predicate TooBig(item: Item) {
    |item.json| > LIMIT
  }

  /** What the splitter charges for an item: its bytes and two for separators. */
  function Size(item: Item): nat {
    |item.json| + 2
  }

  function Load(items: seq<Item>): nat {
    if |items| == 0 then 0 else Load(items[..|items| - 1]) + Size(items[|items| - 1])
  }

  // ------------------------------------------------ The greedy packer

  /** The groups closed so far and the group being filled. */
  datatype Packing = Packing(closed: seq<Group>, cur: seq<Item>)

  function Put(p: Packing, item: Item): Packing {
    if TooBig(item) then p.(closed := p.closed + [Group([item], true)])
    else if |p.cur| > 0 && Load(p.cur) + Size(item) > LIMIT then
      Packing(p.closed + [Group(p.cur, false)], [item])
    else p.(cur := p.cur + [item])
  }

  function Packed(body: seq<Item>): Packing {
    if |body| == 0 then Packing([], []) else Put(Packed(body[..|body| - 1]), body[|body| - 1])
  }

  function Groups(body: seq<Item>): seq<Group> {
    var p := Packed(body);
    p.closed + if |p.cur| > 0 then [Group(p.cur, false)] else []
  }

  method Split(body: seq<Item>) returns (groups: seq<Group>)
    ensures groups == Groups(body)
  {
    groups := [];
    var cur, curSize := [], 0;
    for k := 0 to |body|
      invariant Packing(groups, cur) == Packed(body[..k]) && curSize == Load(cur)
    {
      assert body[..k + 1][..k] == body[..k];
      if |body[k].json| > LIMIT {
        groups := groups + [Group([body[k]], true)];
      } else {
        var sz := |body[k].json| + 2;
        if |cur| > 0 && curSize + sz > LIMIT {
          groups := groups + [Group(cur, false)];
          cur, curSize := [], 0;
        }
        assert (cur + [body[k]])[..|cur|] == cur;
        cur, curSize := cur + [body[k]], curSize + sz;
      }
    }
    assert body[..|body|] == body;
    if |cur| > 0 { groups := groups + [Group(cur, false)]; }
  }

  // ------------------------------------------------ A partition

  function Normals(body: seq<Item>): seq<Item> {
    if |body| == 0 then []
    else Normals(body[..|body| - 1]) + if TooBig(body[|body| - 1]) then [] else [body[|body| - 1]]
  }

  function Oversized(body: seq<Item>): seq<Item> {
    if |body| == 0 then []
    else Oversized(body[..|body| - 1]) + if TooBig(body[|body| - 1]) then [body[|body| - 1]] else []
  }

  /** The groups that are sent on, or those that are answered on the spot. */
  function Select(groups: seq<Group>, single: bool): seq<seq<Item>> {
    if |groups| == 0 then []
    else
      Select(groups[..|groups| - 1], single)
      + if groups[|groups| - 1].single == single then [groups[|groups| - 1].items] else []
  }

  function Forwarded(body: seq<Item>): seq<seq<Item>> {
    Select(Groups(body), false)
  }

  function Concat(parts: seq<seq<Item>>): seq<Item> {
    if |parts| == 0 then [] else Concat(parts[..|parts| - 1]) + parts[|parts| - 1]
  }

  /**
   A sub-batch by the splitter's own measure, which charges two bytes for separators per item: not
   empty, and within the limit unless it is a single item. Posted it is shorter (PostedSize).
   */
  predicate Fits(items: seq<Item>) {
    |items| > 0 && (|items| == 1 || Load(items) <= LIMIT)
  }

  ghost predicate AllFit(parts: seq<seq<Item>>) {
    forall k | 0 <= k < |parts| :: Fits(parts[k])
  }

  predicate TightAt(parts: seq<seq<Item>>, k: nat)
    requires k + 1 < |parts|
  {
    |parts[k + 1]| > 0 && Load(parts[k]) + Size(parts[k + 1][0]) > LIMIT
  }

  /** No group could have taken the first item of the next one. */
  ghost predicate Tight(parts: seq<seq<Item>>) {
    forall k: nat | k + 1 < |parts| :: TightAt(parts, k)
  }

  lemma SelectSnoc(groups: seq<Group>, g: Group, single: bool)
    ensures Select(groups + [g], single) == Select(groups, single) + if g.single == single then [g.items] else []
  {
    assert (groups + [g])[..|groups|] == groups;
  }

  lemma ConcatSnoc(parts: seq<seq<Item>>, x: seq<Item>)
    ensures Concat(parts + [x]) == Concat(parts) + x
  {
    assert (parts + [x])[..|parts|] == parts;
  }

  lemma LoadSnoc(items: seq<Item>, x: Item)
    ensures Load(items + [x]) == Load(items) + Size(x)
  {
    assert (items + [x])[..|items|] == items;
  }

  // One more item, seen on the parts alone.

  /** The last part with one more item, or a first part. */
  function GrowLast(parts: seq<seq<Item>>, x: Item): seq<seq<Item>> {
    if |parts| == 0 then [[x]] else parts[..|parts| - 1] + [parts[|parts| - 1] + [x]]
  }

  function AddPart(parts: seq<seq<Item>>, x: Item): seq<seq<Item>> {
    if TooBig(x) then parts
    else if |parts| > 0 && Load(parts[|parts| - 1]) + Size(x) > LIMIT then parts + [[x]]
    else GrowLast(parts, x)
  }

  lemma AddPartConcat(parts: seq<seq<Item>>, x: Item)
    ensures Concat(AddPart(parts, x)) == Concat(parts) + if TooBig(x) then [] else [x]
  {
    if !TooBig(x) {
      if |parts| == 0 {
        ConcatSnoc([], [x]);
        assert [] + [[x]] == [[x]];
      } else {
        var init, last := parts[..|parts| - 1], parts[|parts| - 1];
        ConcatSnoc(parts, [x]);
        ConcatSnoc(init, last + [x]);
        assert (Concat(init) + last) + [x] == Concat(init) + (last + [x]);
      }
    }
  }

  lemma AddPartFits(parts: seq<seq<Item>>, x: Item)
    requires AllFit(parts)
    ensures AllFit(AddPart(parts, x))
  {
    if |parts| > 0 { LoadSnoc(parts[|parts| - 1], x); }
  }

  lemma AddPartTight(parts: seq<seq<Item>>, x: Item)
    requires AllFit(parts) && Tight(parts)
    ensures Tight(AddPart(parts, x))
  {
    var after := AddPart(parts, x);
    forall k: nat | k + 1 < |after| ensures TightAt(after, k) {
      if k + 1 < |parts| { assert TightAt(parts, k); }
    }
  }

  /** The group being filled, as a list of at most one part. */
  function Current(p: Packing): seq<seq<Item>> {
    if |p.cur| > 0 then [p.cur] else []
  }

  function PartsOf(p: Packing): seq<seq<Item>> {
    Select(p.closed, false) + Current(p)
  }

  function Parts(body: seq<Item>): seq<seq<Item>> {
    PartsOf(Packed(body))
  }

  lemma ForwardedIsParts(body: seq<Item>)
    ensures Forwarded(body) == Parts(body)
  {
    var p := Packed(body);
    assert p.closed + [] == p.closed;
    SelectSnoc(p.closed, Group(p.cur, false), false);
  }

  lemma PutParts(p: Packing, x: Item)
    requires |p.cur| == 0 ==> Select(p.closed, false) == []
    ensures PartsOf(Put(p, x)) == AddPart(PartsOf(p), x)
  {
    var parts := PartsOf(p);
    if TooBig(x) {
      SelectSnoc(p.closed, Group([x], true), false);
    } else if |p.cur| > 0 {
      assert parts[|parts| - 1] == p.cur;
      if Load(p.cur) + Size(x) > LIMIT {
        SelectSnoc(p.closed, Group(p.cur, false), false);
      } else {
        assert parts[..|parts| - 1] == Select(p.closed, false);
      }
    } else {
      assert p.cur + [x] == [x] && Select(p.closed, false) + [[x]] == [[x]];
    }
  }

  lemma {:induction false} StartsEmpty(body: seq<Item>)
    ensures |Packed(body).cur| == 0 ==> Select(Packed(body).closed, false) == []
  {
    if |body| > 0 {
      StartsEmpty(body[..|body| - 1]);
      SelectSnoc(Packed(body[..|body| - 1]).closed, Group([body[|body| - 1]], true), false);
    }
  }

  /**
   The forwarded groups are an ordered partition of the items that are not oversized; each fits
   the tunnel; and none could have taken the next group's first item.
   */
  lemma {:induction false} SplitsTightly(body: seq<Item>)
    ensures Concat(Forwarded(body)) == Normals(body)
    ensures AllFit(Forwarded(body)) && Tight(Forwarded(body))
  {
    ForwardedIsParts(body);
    if |body| > 0 {
      var b, x := body[..|body| - 1], body[|body| - 1];
      SplitsTightly(b);
      ForwardedIsParts(b);
      StartsEmpty(b);
      PutParts(Packed(b), x);
      AddPartConcat(Parts(b), x);
      AddPartFits(Parts(b), x);
      AddPartTight(Parts(b), x);
    }
  }

  /** The groups answered on the spot are the oversized items, one each, in order. */
  lemma {:induction false} SinglesAreOversized(body: seq<Item>)
    ensures Concat(Select(Groups(body), true)) == Oversized(body)
    ensures forall g | g in Groups(body) && g.single :: |g.items| == 1 && TooBig(g.items[0])
  {
    ClosedSingles(body);
    var p := Packed(body);
    assert p.closed + [] == p.closed;
    SelectSnoc(p.closed, Group(p.cur, false), true);
    assert Select(p.closed, true) + [] == Select(p.closed, true);
  }

  lemma PutSingles(p: Packing, x: Item)
    ensures Select(Put(p, x).closed, true) == Select(p.closed, true) + if TooBig(x) then [[x]] else []
  {
    SelectSnoc(p.closed, Group([x], true), true);
    SelectSnoc(p.closed, Group(p.cur, false), true);
  }

  lemma {:induction false} ClosedSingles(body: seq<Item>)
    ensures Concat(Select(Packed(body).closed, true)) == Oversized(body)
    ensures forall g | g in Packed(body).closed && g.single :: |g.items| == 1 && TooBig(g.items[0])
  {
    if |body| > 0 {
      var p, x := Packed(body[..|body| - 1]), body[|body| - 1];
      ClosedSingles(body[..|body| - 1]);
      PutSingles(p, x);
      ConcatSnoc(Select(p.closed, true), [x]);
      assert Select(p.closed, true) + [] == Select(p.closed, true);
      assert Oversized(body[..|body| - 1]) + [] == Oversized(body[..|body| - 1]);
    }
  }

  // ------------------------------------------------ The bound on what is sent

  const OPEN: nat := 91
  const CLOSE: nat := 93
  const COMMA: nat := 44

  function Elements(items: seq<Item>): Bytes {
    if |items| == 0 then []
    else if |items| == 1 then items[0].json
    else Elements(items[..|items| - 1]) + [COMMA] + items[|items| - 1].json
  }

  /** JSON.stringify of the group's array. */
  function JsonArray(items: seq<Item>): Bytes {
    [OPEN] + Elements(items) + [CLOSE]
  }

  lemma {:induction false} ElementsLength(items: seq<Item>)
    requires |items| > 0
    ensures |Elements(items)| + |items| + 1 == Load(items)
  {
    if |items| == 1 {
      assert Load(items[..0]) == 0;
    } else {
      ElementsLength(items[..|items| - 1]);
    }
  }

  lemma {:induction false} SelectedAreItems(body: seq<Item>, x: Item)
    requires x in Normals(body)
    ensures x in body && !TooBig(x)
  {
    if x != body[|body| - 1] || TooBig(x) {
      SelectedAreItems(body[..|body| - 1], x);
    }
  }

  lemma {:induction false} PartOfConcat(parts: seq<seq<Item>>, k: nat, x: Item)
    requires k < |parts| && x in parts[k]
    ensures x in Concat(parts)
  {
    if k < |parts| - 1 {
      PartOfConcat(parts[..|parts| - 1], k, x);
    }
  }

  /** What is posted for a group is at most 1902 bytes, and at most 1899 when it has several items. */
  lemma PostedSize(body: seq<Item>, k: nat)
    requires k < |Forwarded(body)|
    ensures |JsonArray(Forwarded(body)[k])| <= 1902
    ensures |Forwarded(body)[k]| >= 2 ==> |JsonArray(Forwarded(body)[k])| <= 1899
  {
    var items := Forwarded(body)[k];
    SplitsTightly(body);
    ElementsLength(items);
    if |items| == 1 {
      PartOfConcat(Forwarded(body), k, items[0]);
      SelectedAreItems(body, items[0]);
    }
  }

  // ------------------------------------------------ No split needs fewer groups

  lemma {:induction false} LoadConcat(a: seq<Item>, b: seq<Item>)
    ensures Load(a + b) == Load(a) + Load(b)
  {
    if |b| == 0 {
      assert a + b == a;
    } else {
      LoadConcat(a, b[..|b| - 1]);
      assert (a + b)[..|a + b| - 1] == a + b[..|b| - 1];
    }
  }

  lemma LoadFrom(s: seq<Item>, a: nat, c: nat, d: nat)
    requires a <= c <= d <= |s|
    ensures Load(s[c..d]) <= Load(s[a..d])
  {
    LoadConcat(s[a..c], s[c..d]);
    assert s[a..c] + s[c..d] == s[a..d];
  }

  lemma LoadUpTo(s: seq<Item>, a: nat, d: nat, b: nat)
    requires a <= d <= b <= |s|
    ensures Load(s[a..d]) <= Load(s[a..b])
  {
    LoadConcat(s[a..d], s[d..b]);
    assert s[a..d] + s[d..b] == s[a..b];
  }

  lemma LoadWithin(s: seq<Item>, a: nat, b: nat, c: nat, d: nat)
    requires a <= c <= d <= b <= |s|
    ensures Load(s[c..d]) <= Load(s[a..b])
  {
    LoadFrom(s, a, c, d);
    LoadUpTo(s, a, d, b);
  }

  /** How many items the first k parts hold. */
  function Covered(parts: seq<seq<Item>>, k: nat): nat
    requires k <= |parts|
  {
    |Concat(parts[..k])|
  }

  lemma {:induction false} ConcatIsPrefix(parts: seq<seq<Item>>, k: nat)
    requires k <= |parts|
    ensures Concat(parts[..k]) <= Concat(parts)
    decreases |parts|
  {
    if k == |parts| {
      assert parts[..k] == parts;
    } else {
      var init := parts[..|parts| - 1];
      ConcatIsPrefix(init, k);
      assert init[..k] == parts[..k];
    }
  }

  /** Where the k-th part lies in the whole. */
  lemma ConcatPrefix(parts: seq<seq<Item>>, k: nat)
    requires k < |parts|
    ensures Covered(parts, k) <= Covered(parts, k + 1) <= |Concat(parts)|
    ensures parts[k] == Concat(parts)[Covered(parts, k)..Covered(parts, k + 1)]
    ensures k + 1 == |parts| ==> Covered(parts, k + 1) == |Concat(parts)|
  {
    assert parts[..k + 1] == parts[..k] + [parts[k]];
    ConcatSnoc(parts[..k], parts[k]);
    ConcatIsPrefix(parts, k + 1);
    assert k + 1 == |parts| ==> parts[..k + 1] == parts;
  }

  lemma SliceSnoc(s: seq<Item>, c: nat, d: nat)
    requires c <= d < |s|
    ensures s[c..d + 1] == s[c..d] + [s[d]]
  {
  }

  /** Nothing that fits reaches from within the j-th greedy group past the first item of the next. */
  lemma NextDoesNotFit(greedy: seq<seq<Item>>, j: nat, a: nat, b: nat)
    requires AllFit(greedy) && Tight(greedy) && j + 1 < |greedy|
    requires a <= Covered(greedy, j) <= Covered(greedy, j + 1) < b <= |Concat(greedy)|
    ensures Load(Concat(greedy)[a..b]) > LIMIT
  {
    var s, c, d := Concat(greedy), Covered(greedy, j), Covered(greedy, j + 1);
    ConcatPrefix(greedy, j);
    ConcatPrefix(greedy, j + 1);
    assert TightAt(greedy, j);
    assert greedy[j + 1][0] == s[d];
    SliceSnoc(s, c, d);
    LoadSnoc(greedy[j], s[d]);
    LoadWithin(s, a, b, c, d + 1);
  }

  /** After k groups, the greedy splitter is at least as far as any other split. */
  lemma {:induction false} GreedyIsAhead(greedy: seq<seq<Item>>, other: seq<seq<Item>>, k: nat)
    requires Concat(greedy) == Concat(other) && AllFit(greedy) && AllFit(other) && Tight(greedy)
    requires k <= |greedy| && k <= |other|
    ensures Covered(other, k) <= Covered(greedy, k)
  {
    if k > 0 {
      var j := k - 1;
      GreedyIsAhead(greedy, other, j);
      ConcatPrefix(greedy, j);
      ConcatPrefix(other, j);
      if Covered(other, k) > Covered(greedy, k) {
        assert Fits(other[j]);
        NextDoesNotFit(greedy, j, Covered(other, j), Covered(other, k));
      }
    }
  }

  /** Any ordered split of the same items into groups that fit by the splitter's charge has at least as many groups. */
  lemma FewestGroups(body: seq<Item>, other: seq<seq<Item>>)
    requires Concat(other) == Normals(body) && AllFit(other)
    ensures |Forwarded(body)| <= |other|
  {
    SplitsTightly(body);
    var greedy := Forwarded(body);
    if |other| < |greedy| {
      GreedyIsAhead(greedy, other, |other|);
      if |other| > 0 { ConcatPrefix(other, |other| - 1); }
      ConcatPrefix(greedy, |other|);
    }
  }

  // ------------------------------------------------ Measured by the bytes posted

  function Copies(item: Item, n: nat): (items: seq<Item>)
    ensures |items| == n && forall i | 0 <= i < n :: items[i] == item
  {
    seq(n, i => item)
  }

  lemma {:induction false} LoadOfCopies(item: Item, n: nat)
    ensures Load(Copies(item, n)) == n * Size(item)
  {
    if n > 0 {
      LoadOfCopies(item, n - 1);
      assert Copies(item, n)[..n - 1] == Copies(item, n - 1);
      assert n * Size(item) == (n - 1) * Size(item) + Size(item);
    }
  }

  lemma {:induction false} NormalCopies(item: Item, n: nat)
    requires !TooBig(item)
    ensures Normals(Copies(item, n)) == Copies(item, n)
  {
    if n > 0 {
      NormalCopies(item, n - 1);
      assert Copies(item, n)[..n - 1] == Copies(item, n - 1);
      assert Copies(item, n) == Copies(item, n - 1) + [item];
    }
  }

  lemma AtMostOne(parts: seq<seq<Item>>)
    requires |parts| <= 1
    ensures Concat(parts) == if |parts| == 0 then [] else parts[0]
  {
  }

  lemma SeveralNeeded(parts: seq<seq<Item>>)
    requires AllFit(parts) && |Concat(parts)| > 1 && Load(Concat(parts)) > LIMIT
    ensures |parts| > 1
  {
    if |parts| <= 1 { AtMostOne(parts); }
  }

  /** 105 items of 17 bytes would be posted in 1891 bytes as one group, but the splitter makes several. */
  lemma ChargeIsStricter(item: Item)
    requires |item.json| == 17
    ensures |JsonArray(Copies(item, 105))| == 1891 <= LIMIT
    ensures |Forwarded(Copies(item, 105))| > 1
  {
    var body := Copies(item, 105);
    LoadOfCopies(item, 105);
    ElementsLength(body);
    SplitsTightly(body);
    NormalCopies(item, 105);
    SeveralNeeded(Forwarded(body));
  }
}
