/** The thin client's cache of PKI documents by epoch. Epochs are 64-bit and subtraction wraps around. */
module ThinPkiCache {
  import opened Wrappers

  const TWO_64 := 0x1_0000_0000_0000_0000
  const MAX_CACHED_EPOCHS := 5

  type Epoch = e: int | 0 <= e < TWO_64
  datatype Document = Document(epoch: Epoch, body: nat)
  datatype Error = NoDocument

  /** The oldest epoch that a cleanup keeps: five less, in 64-bit arithmetic. */
  function Oldest(epoch: Epoch): Epoch {
    if epoch >= MAX_CACHED_EPOCHS then epoch - MAX_CACHED_EPOCHS else epoch - MAX_CACHED_EPOCHS + TWO_64
  }

  function Cleaned(cache: map<Epoch, Document>, oldest: Epoch): map<Epoch, Document> {
    map e | e in cache && e >= oldest :: cache[e]
  }

  /** The cache after one more document. */
  function Cache(cache: map<Epoch, Document>, doc: Document): map<Epoch, Document> {
    var added := cache[doc.epoch := doc];
    if |added| > MAX_CACHED_EPOCHS then Cleaned(added, Oldest(doc.epoch)) else added
  }

  /** The cache after the documents, in the order received. */
  function After(docs: seq<Document>): map<Epoch, Document> {
    if |docs| == 0 then map[] else Cache(After(docs[..|docs| - 1]), docs[|docs| - 1])
  }

  /** The document received last for an epoch. */
  function Latest(docs: seq<Document>, epoch: Epoch): Option<Document> {
    if |docs| == 0 then None
    else if docs[|docs| - 1].epoch == epoch then Some(docs[|docs| - 1])
    else Latest(docs[..|docs| - 1], epoch)
  }

  /** What a lookup answers: the cached document, else the current one, else an error. */
  function Lookup(docs: seq<Document>, epoch: Epoch): Result<Document, Error> {
    if epoch in After(docs) then Ok(After(docs)[epoch])
    else if |docs| > 0 then Ok(docs[|docs| - 1])
    else Err(NoDocument)
  }

  class DocumentCache {
    var pkidoc: Option<Document>
    var pkiDocCache: map<Epoch, Document>
    ghost var received: seq<Document>

    ghost predicate Valid()
      reads this
    {
      && pkiDocCache == After(received)
      && pkidoc == if |received| == 0 then None else Some(received[|received| - 1])
    }

    constructor ()
      ensures Valid() && received == []
    {
      pkidoc, pkiDocCache, received := None, map[], [];
    }

    /** Makes the document current and caches it, dropping old entries when there are too many. */
    method ParsePKIDoc(doc: Document)
      requires Valid()
      modifies this
      ensures Valid() && received == old(received) + [doc]
    {
      assert (received + [doc])[..|received|] == received;
      received := received + [doc];
      pkidoc := Some(doc);
      pkiDocCache := pkiDocCache[doc.epoch := doc];
      if |pkiDocCache| > MAX_CACHED_EPOCHS {
        DropBefore(Oldest(doc.epoch));
      }
    }

    method DropBefore(oldestEpoch: Epoch)
      modifies `pkiDocCache
      ensures pkiDocCache == Cleaned(old(pkiDocCache), oldestEpoch)
    {
      var todo := pkiDocCache.Keys;
      while todo != {}
        invariant todo <= old(pkiDocCache).Keys
        invariant forall e :: e in pkiDocCache <==> e in old(pkiDocCache) && (e >= oldestEpoch || e in todo)
        invariant forall e | e in pkiDocCache :: pkiDocCache[e] == old(pkiDocCache)[e]
        decreases |todo|
      {
        var epoch :| epoch in todo;
        if epoch < oldestEpoch { pkiDocCache := pkiDocCache - {epoch}; }
        todo := todo - {epoch};
      }
    }

    method PKIDocumentForEpoch(epoch: Epoch) returns (r: Result<Document, Error>)
      requires Valid()
      ensures r == Lookup(received, epoch)
      ensures r.Err? <==> received == []
      ensures epoch in pkiDocCache ==> r == Ok(pkiDocCache[epoch])
      ensures epoch !in pkiDocCache && |received| > 0 ==> r == Ok(received[|received| - 1])
    {
      if epoch in pkiDocCache { return Ok(pkiDocCache[epoch]); }
      if pkidoc.Some? { return Ok(pkidoc.value); }
      return Err(NoDocument);
    }
  }

  // ------------------------------------------------ Any order of epochs

  /** A cached document is the one received last for its epoch. */
  lemma {:induction false} CachedIsLatest(docs: seq<Document>)
    ensures forall e | e in After(docs) :: Latest(docs, e) == Some(After(docs)[e])
  {
    if |docs| > 0 {
      CachedIsLatest(docs[..|docs| - 1]);
    }
  }

  /** An epoch not cached is answered with the document received last; there is an error only if none was. */
  lemma LookupExactly(docs: seq<Document>, epoch: Epoch)
    ensures Lookup(docs, epoch).Err? <==> |docs| == 0
    ensures epoch in After(docs) ==>
      && Lookup(docs, epoch).Ok? && Lookup(docs, epoch).value.epoch == epoch
      && Latest(docs, epoch) == Some(Lookup(docs, epoch).value)
    ensures epoch !in After(docs) && |docs| > 0 ==> Lookup(docs, epoch) == Ok(docs[|docs| - 1])
  {
    CachedIsLatest(docs);
    LatestMatches(docs, epoch);
  }

  lemma {:induction false} LatestMatches(docs: seq<Document>, epoch: Epoch)
    ensures Latest(docs, epoch).Some? ==> Latest(docs, epoch).value.epoch == epoch
  {
    if |docs| > 0 {
      LatestMatches(docs[..|docs| - 1], epoch);
    }
  }

  /** An arrival drops a cached epoch exactly if more than five are cached then and it is more than five behind. */
  lemma DroppedExactly(cache: map<Epoch, Document>, doc: Document, e: Epoch)
    requires e in cache && e != doc.epoch
    ensures e !in Cache(cache, doc) <==>
      |cache.Keys + {doc.epoch}| > 5 && e < (if doc.epoch >= 5 then doc.epoch - 5 else doc.epoch - 5 + TWO_64)
    ensures e in Cache(cache, doc) ==> Cache(cache, doc)[e] == cache[e]
  {
    assert cache[doc.epoch := doc].Keys == cache.Keys + {doc.epoch};
    assert |cache[doc.epoch := doc]| == |cache[doc.epoch := doc].Keys|;
  }

  /**
   A document is dropped by the very call that delivers it exactly when its epoch is below 5,
   so that the subtraction wraps around, and more than five epochs are cached.
   */
  lemma NewestDroppedExactly(docs: seq<Document>, doc: Document)
    ensures doc.epoch !in After(docs + [doc]) <==>
      doc.epoch < MAX_CACHED_EPOCHS && |After(docs)[doc.epoch := doc]| > MAX_CACHED_EPOCHS
  {
    assert (docs + [doc])[..|docs|] == docs;
  }

  // ------------------------------------------------ Epochs that never go back

  ghost predicate Rising(docs: seq<Document>) {
    forall i, j | 0 <= i < j < |docs| :: docs[i].epoch <= docs[j].epoch
  }

  lemma {:induction false} SetWithin(s: set<Epoch>, lo: int, n: nat)
    requires forall e | e in s :: lo <= e < lo + n
    ensures |s| <= n
  {
    if n == 0 {
      assert s == {};
    } else {
      var rest := set e | e in s && e < lo + n - 1;
      SetWithin(rest, lo, n - 1);
      if lo + n - 1 in s {
        assert s == rest + {lo + n - 1};
      } else {
        assert s == rest;
      }
    }
  }

  /** While epochs rise, a cleanup never wraps around. */
  lemma CleanupIsSound(cache: map<Epoch, Document>, doc: Document)
    requires forall e | e in cache :: e <= doc.epoch
    ensures |cache[doc.epoch := doc]| > MAX_CACHED_EPOCHS ==> Oldest(doc.epoch) == doc.epoch - MAX_CACHED_EPOCHS
  {
    var added := cache[doc.epoch := doc];
    if doc.epoch < MAX_CACHED_EPOCHS {
      SetWithin(added.Keys, 0, MAX_CACHED_EPOCHS);
      assert |added| == |added.Keys|;
    }
  }

  /** Every epoch received that is at most five behind the newest one is cached. */
  ghost predicate RecentCached(docs: seq<Document>, newest: int) {
    forall d | d in docs && d.epoch >= newest - MAX_CACHED_EPOCHS :: d.epoch in After(docs)
  }

  ghost predicate NoneNewer(cache: map<Epoch, Document>, newest: int) {
    forall e | e in cache :: e <= newest
  }

  lemma RecentStep(p: seq<Document>, z: Document, newest: int)
    requires RecentCached(p, newest) && NoneNewer(After(p), newest) && newest <= z.epoch
    ensures RecentCached(p + [z], z.epoch) && NoneNewer(After(p + [z]), z.epoch)
  {
    assert (p + [z])[..|p|] == p;
    CleanupIsSound(After(p), z);
    forall d | d in p + [z] && d.epoch >= z.epoch - MAX_CACHED_EPOCHS ensures d.epoch in After(p + [z]) {
      if d in p { assert d.epoch in After(p); }
    }
  }

  /**
   While epochs rise, nothing newer than the current document is cached, and every epoch received
   that is at most five behind it is.
   */
  lemma {:induction false} RecentIsCached(docs: seq<Document>)
    requires Rising(docs) && |docs| > 0
    ensures NoneNewer(After(docs), docs[|docs| - 1].epoch)
    ensures RecentCached(docs, docs[|docs| - 1].epoch)
  {
    var p, z := docs[..|docs| - 1], docs[|docs| - 1];
    if |p| > 0 { RecentIsCached(p); }
    RecentStep(p, z, if |p| > 0 then p[|p| - 1].epoch else 0);
    assert docs == p + [z];
  }

  /** While epochs rise, at most six of them are cached: one more than the five the documentation names. */
  lemma AtMostSix(docs: seq<Document>)
    requires Rising(docs)
    ensures |After(docs)| <= MAX_CACHED_EPOCHS + 1
  {
    if |docs| > 0 {
      var p, z := docs[..|docs| - 1], docs[|docs| - 1];
      if |p| > 0 { RecentIsCached(p); }
      CleanupIsSound(After(p), z);
      if |After(p)[z.epoch := z]| > MAX_CACHED_EPOCHS {
        SetWithin(After(docs).Keys, z.epoch - MAX_CACHED_EPOCHS, MAX_CACHED_EPOCHS + 1);
        assert |After(docs)| == |After(docs).Keys|;
      }
    }
  }

  /** A set that misses an element of its range is smaller than the range. */
  lemma MissingOne(s: set<Epoch>, lo: int, n: nat, e: Epoch)
    requires forall x | x in s :: lo <= x < lo + n
    requires lo <= e < lo + n && e !in s
    ensures |s| < n
  {
    var below := set x | x in s && x < e;
    var above := set x | x in s && x > e;
    SetWithin(below, lo, e - lo);
    SetWithin(above, e + 1, lo + n - 1 - e);
    assert s == below + above;
  }

  lemma {:induction false} LatestWasReceived(docs: seq<Document>, epoch: Epoch)
    requires Latest(docs, epoch).Some?
    ensures exists d :: d in docs && d.epoch == epoch
  {
    var n := |docs| - 1;
    if docs[n].epoch == epoch {
      assert docs[n] in docs;
    } else {
      LatestWasReceived(docs[..n], epoch);
      var d :| d in docs[..n] && d.epoch == epoch;
      assert d in docs;
    }
  }

  /** A document of that epoch was received. */
  ghost predicate Received(docs: seq<Document>, epoch: int) {
    exists d :: d in docs && d.epoch == epoch
  }

  /** The newest epoch and the five before it were all received. */
  ghost predicate SixReceived(docs: seq<Document>)
    requires |docs| > 0
  {
    var newest := docs[|docs| - 1].epoch;
    forall e | newest - MAX_CACHED_EPOCHS <= e <= newest :: Received(docs, e)
  }

  /** With more than five epochs cached, nothing older than five behind the newest is among them. */
  lemma ManyAreRecent(docs: seq<Document>)
    requires Rising(docs) && |docs| > 0 && |After(docs)| > MAX_CACHED_EPOCHS
    ensures var newest := docs[|docs| - 1].epoch;
      forall e | e in After(docs) :: newest - MAX_CACHED_EPOCHS <= e < newest + 1
  {
    var p, z := docs[..|docs| - 1], docs[|docs| - 1];
    if |p| > 0 { RecentIsCached(p); }
    RecentIsCached(docs);
    CleanupIsSound(After(p), z);
  }

  lemma SixAreCached(docs: seq<Document>)
    requires Rising(docs) && |docs| > 0 && SixReceived(docs)
    ensures |After(docs)| > MAX_CACHED_EPOCHS
  {
    var newest := docs[|docs| - 1].epoch;
    RecentIsCached(docs);
    forall e | newest - MAX_CACHED_EPOCHS <= e <= newest ensures e in After(docs).Keys {
      assert Received(docs, e);
      var d :| d in docs && d.epoch == e;
      assert d.epoch in After(docs);
    }
    SetCovers(After(docs).Keys, newest - MAX_CACHED_EPOCHS, MAX_CACHED_EPOCHS + 1);
    assert |After(docs)| == |After(docs).Keys|;
  }

  /** A set with every element of a range is at least as large as the range. */
  lemma {:induction false} SetCovers(s: set<Epoch>, lo: int, n: nat)
    requires forall e | lo <= e < lo + n :: e in s
    ensures |s| >= n
  {
    if n > 0 {
      var last := lo + n - 1;
      var rest := s - {last};
      SetCovers(rest, lo, n - 1);
      assert s == rest + {last};
    }
  }

  /** While epochs rise, a sixth epoch is cached exactly if the newest one and the five before it were all received. */
  lemma SixCachedExactly(docs: seq<Document>)
    requires Rising(docs) && |docs| > 0
    ensures |After(docs)| > MAX_CACHED_EPOCHS <==> SixReceived(docs)
  {
    if |After(docs)| > MAX_CACHED_EPOCHS {
      ManyAreRecent(docs);
      CachedIsLatest(docs);
      var newest := docs[|docs| - 1].epoch;
      assert |After(docs).Keys| == |After(docs)|;
      SpanIsEpochs(docs);
      forall e | newest - MAX_CACHED_EPOCHS <= e <= newest ensures Received(docs, e) {
        if e !in After(docs).Keys {
          MissingOne(After(docs).Keys, newest - MAX_CACHED_EPOCHS, MAX_CACHED_EPOCHS + 1, e);
        }
        LatestWasReceived(docs, e);
      }
    }
    if SixReceived(docs) {
      SixAreCached(docs);
    }
  }

  /** Six cached epochs need six of them, so the newest is at least 5. */
  lemma SpanIsEpochs(docs: seq<Document>)
    requires Rising(docs) && |docs| > 0 && |After(docs)| > MAX_CACHED_EPOCHS
    ensures docs[|docs| - 1].epoch >= MAX_CACHED_EPOCHS
  {
    var newest: int := docs[|docs| - 1].epoch;
    ManyAreRecent(docs);
    assert |After(docs).Keys| == |After(docs)|;
    SetWithin(After(docs).Keys, 0, newest + 1);
  }

  /** A lookup of an epoch received at most five epochs ago answers with its latest document. */
  lemma LookupIsLatest(docs: seq<Document>, d: Document)
    requires Rising(docs) && d in docs && d.epoch >= docs[|docs| - 1].epoch - MAX_CACHED_EPOCHS
    ensures Lookup(docs, d.epoch).Ok? && Latest(docs, d.epoch) == Some(Lookup(docs, d.epoch).value)
  {
    RecentIsCached(docs);
    CachedIsLatest(docs);
  }

  // ------------------------------------------------ Both corners are reached

  function UpTo(n: nat): seq<Document>
    requires n <= 6
  {
    if n == 0 then [] else UpTo(n - 1) + [Document(n - 1, 0)]
  }

  function Full(n: nat): map<Epoch, Document>
    requires n <= 6
  {
    if n == 0 then map[] else Full(n - 1)[n - 1 := Document(n - 1, 0)]
  }

  lemma {:induction false} FullHolds(n: nat)
    requires n <= 6
    ensures forall e | e in Full(n) :: e < n
    ensures |Full(n)| == n
  {
    if n > 0 {
      FullHolds(n - 1);
      assert n - 1 !in Full(n - 1);
    }
  }

  lemma NothingToClean(cache: map<Epoch, Document>)
    ensures Cleaned(cache, 0) == cache
  {
  }

  lemma CacheFull(n: nat)
    requires 0 < n <= 6
    ensures Cache(Full(n - 1), Document(n - 1, 0)) == Full(n)
  {
    FullHolds(n);
    if n == 6 { NothingToClean(Full(n)); }
  }

  lemma AfterSnoc(p: seq<Document>, z: Document)
    ensures After(p + [z]) == Cache(After(p), z)
  {
    assert (p + [z])[..|p|] == p;
  }

  lemma {:induction false} AllCached(n: nat)
    requires n <= 6
    ensures After(UpTo(n)) == Full(n)
  {
    if n > 0 {
      AllCached(n - 1);
      AfterSnoc(UpTo(n - 1), Document(n - 1, 0));
      CacheFull(n);
    }
  }

  /** Six epochs can be cached; a document of epoch 4 then empties the cache, itself included. */
  lemma CornersAreReached()
    ensures |After(UpTo(6))| == 6
    ensures After(UpTo(6) + [Document(4, 1)]) == map[]
  {
    AllCached(6);
    FullHolds(6);
    var docs, doc := UpTo(6), Document(4, 1);
    AfterSnoc(docs, doc);
    var added := Full(6)[doc.epoch := doc];
    assert doc.epoch in Full(6);
    assert added.Keys == Full(6).Keys;
    assert |added| == 6;
  }
}
