/**
 The identity index of the POI store (hypothesis_store.py) on values: what merging a batch of
 detections does to the records, the index and the keys seen.
 */
module PoiIndex {
  import opened Common
  import opened PoiRecords

  /** The store's two dictionaries, the index holding ids for records. */
  datatype State = State(pois: View, index: map<string, string>)

  /** Records sit under their own id and the index points at records with the indexed key. */
  ghost predicate Sound(s: State) {
    && (forall id :: id in s.pois ==> s.pois[id].poiId == id)
    && (forall k :: k in s.index ==> s.index[k] in s.pois && s.pois[s.index[k]].identityKey == k)
  }

  predicate Indexed(s: State, id: string)
    requires id in s.pois
  {
    s.pois[id].identityKey in s.index && s.index[s.pois[id].identityKey] == id
  }

  /** Every record can be found under its key. */
  ghost predicate Complete(s: State) {
    forall id :: id in s.pois ==> Indexed(s, id)
  }

  /** Key and record determine each other, so there are as many keys as records. */
  lemma IndexIsBijection(s: State)
    requires Sound(s) && Complete(s)
    ensures |s.index| == |s.pois|
    ensures forall a, b :: a in s.pois && b in s.pois && s.pois[a].identityKey == s.pois[b].identityKey ==> a == b
  {
    AsManyKeys(s);
    forall a, b | a in s.pois && b in s.pois && s.pois[a].identityKey == s.pois[b].identityKey ensures a == b {
      assert Indexed(s, a) && Indexed(s, b);
    }
  }

  lemma {:induction false} AsManyKeys(s: State)
    requires Sound(s) && Complete(s)
    ensures |s.index| == |s.pois|
    decreases |s.pois|
  {
    if s.pois.Keys == {} {
      assert s.index.Keys == {};
    } else {
      var id :| id in s.pois;
      assert Indexed(s, id);
      var k := s.pois[id].identityKey;
      DropShrinks(s.pois, id);
      DropShrinks(s.index, k);
      var t := State(s.pois - {id}, s.index - {k});
      forall other | other in t.pois ensures Indexed(t, other) { assert Indexed(s, other); }
      AsManyKeys(t);
    }
  }

  // ---------------------------------------------------------------- one detection

  /** The hash behind the key of a SELF record, of its colours and its area bin. */
  type SelfKey = (multiset<int>, int) -> string

  function AreaBin(b: BBox): int {
    ((b.2 - b.0 + 1) * (b.3 - b.1 + 1)) / 4
  }

  /** A known record is re-keyed when a detection first tags it SELF. */
  predicate Rekeys(p: Poi, n: Poi) {
    p.tag != Self && n.tag == Self
  }

  function KeyAfter(selfKey: SelfKey, p: Poi, n: Poi): string {
    if Rekeys(p, n) then selfKey(multiset(n.colors), AreaBin(n.bbox)) else p.identityKey
  }

  /** Geometry, tag, reachability and version come from the detection; confidence and visits stay. */
  function Merged(selfKey: SelfKey, p: Poi, n: Poi, version: int): (r: Poi)
    ensures r.poiId == p.poiId && r.identityKey == KeyAfter(selfKey, p, n)
  {
    p.(bbox := n.bbox, colors := n.colors, identityKey := KeyAfter(selfKey, p, n),
       tag := if n.tag != Unknown then n.tag else p.tag,
       reachable := n.reachable || p.reachable, version := version, depriority := false)
  }

  /** A zero confidence counts as missing. */
  function Created(n: Poi, version: int): (r: Poi)
    ensures r.poiId == n.poiId && r.identityKey == n.identityKey
  {
    n.(confidence := if n.confidence == 0.0 then CONFIDENCE_NEW else n.confidence,
       version := version, depriority := false)
  }

  function MergeOne(selfKey: SelfKey, s: State, n: Poi, version: int): State
    requires forall k :: k in s.index ==> s.index[k] in s.pois
  {
    var key := n.identityKey;
    if key in s.index then
      var id := s.index[key];
      var p := s.pois[id];
      var after := KeyAfter(selfKey, p, n);
      State(s.pois[id := Merged(selfKey, p, n, version)],
            if after == p.identityKey then s.index else (s.index - {p.identityKey})[after := id])
    else State(s.pois[n.poiId := Created(n, version)], s.index[key := n.poiId])
  }

  /** The keys the batch has accounted for. */
  function SeenAfter(selfKey: SelfKey, s: State, n: Poi, seen: set<string>): set<string>
    requires forall k :: k in s.index ==> s.index[k] in s.pois
  {
    var key := n.identityKey;
    if key in s.index then
      var p := s.pois[s.index[key]];
      var after := KeyAfter(selfKey, p, n);
      if after == p.identityKey then seen + {key} else (seen + {key}) - {p.identityKey} + {after}
    else seen + {key}
  }

  /** The one step that loses a record: re-keying onto a key another record holds. */
  predicate Clobbers(selfKey: SelfKey, s: State, n: Poi)
    requires forall k :: k in s.index ==> s.index[k] in s.pois
  {
    var key := n.identityKey;
    key in s.index &&
    var p := s.pois[s.index[key]];
    var after := KeyAfter(selfKey, p, n);
    after != p.identityKey && after in s.index
  }

  /** The bin of an area takes four sizes together. */
  lemma AreaBinLaw(b: BBox)
    ensures var area := (b.3 - b.1 + 1) * (b.2 - b.0 + 1); 4 * AreaBin(b) <= area < 4 * AreaBin(b) + 4
  {
  }

  /** A record first tagged SELF moves to the key of its new colours and size; the old key is free again. */
  lemma RekeyMoves(selfKey: SelfKey, s: State, n: Poi, version: int)
    requires Sound(s) && n.identityKey in s.index && n.tag == Self && s.pois[s.index[n.identityKey]].tag != Self
    ensures var id, t := s.index[n.identityKey], MergeOne(selfKey, s, n, version);
      var k := selfKey(multiset(n.colors), AreaBin(n.bbox));
      && id in t.pois && t.pois[id].tag == Self && t.pois[id].identityKey == k && k in t.index && t.index[k] == id
      && (k != n.identityKey ==> t.index.Keys == s.index.Keys - {n.identityKey} + {k})
  {
  }

  /** Any other detection of a known key leaves the key and the index alone. */
  lemma PlainKeepsKey(selfKey: SelfKey, s: State, n: Poi, version: int)
    requires Sound(s) && n.identityKey in s.index && (n.tag != Self || s.pois[s.index[n.identityKey]].tag == Self)
    ensures var id, t := s.index[n.identityKey], MergeOne(selfKey, s, n, version);
      t.index == s.index && id in t.pois && t.pois[id].identityKey == n.identityKey
  {
  }

  lemma MergeOneKeepsSound(selfKey: SelfKey, s: State, n: Poi, version: int)
    requires Sound(s) && (n.identityKey in s.index || n.poiId !in s.pois)
    ensures Sound(MergeOne(selfKey, s, n, version))
  {
  }

  /** One detection keeps the index complete exactly when it does not re-key onto an occupied key. */
  lemma MergeOneKeepsIndex(selfKey: SelfKey, s: State, n: Poi, version: int)
    requires Sound(s) && Complete(s) && (n.identityKey in s.index || n.poiId !in s.pois)
    ensures Complete(MergeOne(selfKey, s, n, version)) <==> !Clobbers(selfKey, s, n)
  {
    var t := MergeOne(selfKey, s, n, version);
    forall id | id in s.pois ensures Indexed(s, id) {}
    if Clobbers(selfKey, s, n) {
      var id := s.index[n.identityKey];
      var lost := s.index[KeyAfter(selfKey, s.pois[id], n)];
      assert lost != id && !Indexed(t, lost);
    } else {
      forall id | id in t.pois ensures Indexed(t, id) {
        if id in s.pois { assert Indexed(s, id); }
      }
    }
  }

  /** A record that cannot be found under its key stays lost. */
  lemma LostStaysLost(selfKey: SelfKey, s: State, n: Poi, version: int, id: string)
    requires Sound(s) && id in s.pois && !Indexed(s, id) && (n.identityKey in s.index || n.poiId !in s.pois)
    ensures var t := MergeOne(selfKey, s, n, version);
      id in t.pois && t.pois[id] == s.pois[id] && !Indexed(t, id)
  {
  }

  // ---------------------------------------------------------------- a batch

  datatype Batch = Batch(state: State, seen: set<string>, merged: nat, created: nat)

  /** One more detection of a batch. */
  function Extended(selfKey: SelfKey, b: Batch, n: Poi, version: int): Batch
    requires forall k :: k in b.state.index ==> b.state.index[k] in b.state.pois
  {
    var known := n.identityKey in b.state.index;
    Batch(MergeOne(selfKey, b.state, n, version), SeenAfter(selfKey, b.state, n, b.seen),
          if known then b.merged + 1 else b.merged, if known then b.created else b.created + 1)
  }

  function MergeBatch(selfKey: SelfKey, s: State, batch: seq<Poi>, version: int): (b: Batch)
    requires Sound(s) && FreshIds(s, batch)
    ensures Sound(b.state)
    ensures forall id :: id in b.state.pois ==> id in s.pois || id in Ids(batch)
    ensures b.merged + b.created == |batch| && |b.state.pois| == |s.pois| + b.created
    ensures s.pois.Keys <= b.state.pois.Keys
  {
    if batch == [] then Batch(s, {}, 0, 0) else
      var k := |batch| - 1;
      var b := MergeBatch(selfKey, s, batch[..k], version);
      MergeOneKeepsSound(selfKey, b.state, batch[k], version);
      Extended(selfKey, b, batch[k], version)
  }

  function Ids(batch: seq<Poi>): set<string> {
    if batch == [] then {} else Ids(batch[..|batch| - 1]) + {batch[|batch| - 1].poiId}
  }

  /** Every detection carries an id of its own, unknown to the store and to the detections before it. */
  predicate FreshIds(s: State, batch: seq<Poi>) {
    batch == [] ||
    (&& FreshIds(s, batch[..|batch| - 1])
     && batch[|batch| - 1].poiId !in s.pois && batch[|batch| - 1].poiId !in Ids(batch[..|batch| - 1]))
  }

  lemma {:induction false} FreshPrefix(s: State, batch: seq<Poi>, i: nat)
    requires FreshIds(s, batch) && i <= |batch|
    ensures FreshIds(s, batch[..i])
  {
    if i < |batch| {
      FreshPrefix(s, batch[..|batch| - 1], i);
      assert batch[..|batch| - 1][..i] == batch[..i];
    } else {
      assert batch[..i] == batch;
    }
  }

  lemma BatchStep(selfKey: SelfKey, s: State, batch: seq<Poi>, version: int, i: nat)
    requires Sound(s) && FreshIds(s, batch) && i < |batch|
    ensures FreshIds(s, batch[..i]) && FreshIds(s, batch[..i + 1])
    ensures var b := MergeBatch(selfKey, s, batch[..i], version);
      && Sound(b.state) && batch[i].poiId !in b.state.pois
      && MergeBatch(selfKey, s, batch[..i + 1], version) == Extended(selfKey, b, batch[i], version)
  {
    FreshPrefix(s, batch, i);
    FreshPrefix(s, batch, i + 1);
    assert batch[..i + 1][..i] == batch[..i];
  }

  lemma {:induction false} IdsPrefix(batch: seq<Poi>, i: nat)
    requires i <= |batch|
    ensures Ids(batch[..i]) <= Ids(batch)
  {
    if i < |batch| {
      IdsPrefix(batch[..|batch| - 1], i);
      assert batch[..|batch| - 1][..i] == batch[..i];
    } else {
      assert batch[..i] == batch;
    }
  }

  lemma FreshAt(s: State, batch: seq<Poi>, j: nat)
    requires FreshIds(s, batch) && j < |batch|
    ensures batch[j].poiId !in s.pois && batch[j].poiId !in Ids(batch[..j])
  {
    FreshPrefix(s, batch, j + 1);
    assert batch[..j + 1][..j] == batch[..j];
  }

  /** A detection still waiting is unknown to the store so far. */
  lemma WaitingIsUnknown(selfKey: SelfKey, s: State, batch: seq<Poi>, version: int, i: nat, j: nat)
    requires Sound(s) && FreshIds(s, batch) && i <= j < |batch| && FreshIds(s, batch[..i])
    ensures batch[j].poiId !in MergeBatch(selfKey, s, batch[..i], version).state.pois
  {
    FreshAt(s, batch, j);
    IdsPrefix(batch[..j], i);
    assert batch[..j][..i] == batch[..i];
    var b := MergeBatch(selfKey, s, batch[..i], version);
    assert forall id :: id in b.state.pois ==> id in s.pois || id in Ids(batch[..i]);
  }

  /** What the loop over the batch needs at turn `i`. */
  lemma Turn(selfKey: SelfKey, s: State, batch: seq<Poi>, version: int, i: nat)
    requires Sound(s) && FreshIds(s, batch) && i < |batch|
    ensures FreshIds(s, batch[..i]) && FreshIds(s, batch[..i + 1])
    ensures var b := MergeBatch(selfKey, s, batch[..i], version);
      && Sound(b.state) && MergeBatch(selfKey, s, batch[..i + 1], version) == Extended(selfKey, b, batch[i], version)
      && forall j :: i <= j < |batch| ==> batch[j].poiId !in b.state.pois
  {
    BatchStep(selfKey, s, batch, version, i);
    forall j | i <= j < |batch|
      ensures batch[j].poiId !in MergeBatch(selfKey, s, batch[..i], version).state.pois
    {
      WaitingIsUnknown(selfKey, s, batch, version, i, j);
    }
  }

  /** Some detection of the batch re-keys onto an occupied key when its turn comes. */
  ghost predicate BatchClobbers(selfKey: SelfKey, s: State, batch: seq<Poi>, version: int)
    requires Sound(s) && FreshIds(s, batch)
  {
    batch != [] &&
    (BatchClobbers(selfKey, s, batch[..|batch| - 1], version) ||
     Clobbers(selfKey, MergeBatch(selfKey, s, batch[..|batch| - 1], version).state, batch[|batch| - 1]))
  }

  lemma BatchLast(selfKey: SelfKey, s: State, batch: seq<Poi>, version: int)
    returns (t: State, seen: set<string>, n: Poi)
    requires Sound(s) && FreshIds(s, batch) && batch != []
    ensures t == MergeBatch(selfKey, s, batch[..|batch| - 1], version).state && n == batch[|batch| - 1]
    ensures MergeBatch(selfKey, s, batch, version).state == MergeOne(selfKey, t, n, version)
    ensures seen == MergeBatch(selfKey, s, batch[..|batch| - 1], version).seen
    ensures MergeBatch(selfKey, s, batch, version).seen == SeenAfter(selfKey, t, n, seen)
    ensures Sound(t) && s.pois.Keys <= t.pois.Keys && (n.identityKey in t.index || n.poiId !in t.pois)
  {
    n := batch[|batch| - 1];
    var b := MergeBatch(selfKey, s, batch[..|batch| - 1], version);
    t, seen := b.state, b.seen;
  }

  /** A whole batch keeps the index a bijection exactly when none of its re-keyings hits an occupied key. */
  lemma {:induction false} BatchKeepsIndex(selfKey: SelfKey, s: State, batch: seq<Poi>, version: int)
    requires Sound(s) && Complete(s) && FreshIds(s, batch)
    ensures Complete(MergeBatch(selfKey, s, batch, version).state) <==> !BatchClobbers(selfKey, s, batch, version)
  {
    if batch != [] {
      BatchKeepsIndex(selfKey, s, batch[..|batch| - 1], version);
      var t, seen, n := BatchLast(selfKey, s, batch, version);
      if Complete(t) {
        MergeOneKeepsIndex(selfKey, t, n, version);
      } else {
        var id :| id in t.pois && !Indexed(t, id);
        LostStaysLost(selfKey, t, n, version, id);
      }
    }
  }

  /** What no detection ever changes on a known record: its confidence and its visit history. */
  predicate SameHistory(a: Poi, b: Poi) {
    && a.poiId == b.poiId && a.confidence == b.confidence && a.visited == b.visited && a.visitCount == b.visitCount
    && a.consequence == b.consequence && a.lastConsequence == b.lastConsequence
    && a.pixelHash == b.pixelHash && a.motionDetected == b.motionDetected
  }

  lemma {:induction false} BatchKeepsHistory(selfKey: SelfKey, s: State, batch: seq<Poi>, version: int, id: string)
    requires Sound(s) && FreshIds(s, batch) && id in s.pois
    ensures SameHistory(s.pois[id], MergeBatch(selfKey, s, batch, version).state.pois[id])
  {
    if batch != [] {
      BatchKeepsHistory(selfKey, s, batch[..|batch| - 1], version, id);
      var t, seen, n := BatchLast(selfKey, s, batch, version);
      MergeOneKeepsHistory(selfKey, t, n, version, id);
    }
  }

  lemma MergeOneKeepsHistory(selfKey: SelfKey, s: State, n: Poi, version: int, id: string)
    requires Sound(s) && (n.identityKey in s.index || n.poiId !in s.pois) && id in s.pois
    ensures id in MergeOne(selfKey, s, n, version).pois
    ensures SameHistory(s.pois[id], MergeOne(selfKey, s, n, version).pois[id])
  {
  }

  ghost predicate AllSane(v: View) {
    forall id :: id in v ==> Sane(v[id])
  }

  /** Merging and ageing keep every confidence in [0, 1] when the detections have it there. */
  lemma {:induction false} UpdateKeepsSane(selfKey: SelfKey, s: State, batch: seq<Poi>, version: int)
    requires Sound(s) && FreshIds(s, batch) && AllSane(s.pois)
    requires forall i :: 0 <= i < |batch| ==> Sane(batch[i])
    ensures AllSane(MergeBatch(selfKey, s, batch, version).state.pois)
    ensures AllSane(AfterUpdate(selfKey, s, batch, version).pois)
  {
    if batch != [] {
      UpdateKeepsSane(selfKey, s, batch[..|batch| - 1], version);
      var t, seen, n := BatchLast(selfKey, s, batch, version);
      MergeOneKeepsSane(selfKey, t, n, version);
    }
  }

  lemma MergeOneKeepsSane(selfKey: SelfKey, s: State, n: Poi, version: int)
    requires Sound(s) && AllSane(s.pois) && Sane(n)
    ensures AllSane(MergeOne(selfKey, s, n, version).pois)
  {
  }

  /** The identity keys of a batch. */
  ghost function KeysOf(batch: seq<Poi>): set<string> {
    if batch == [] then {} else KeysOf(batch[..|batch| - 1]) + {batch[|batch| - 1].identityKey}
  }

  /** No known record changes its key while the batch is merged. */
  ghost predicate NoRekeys(selfKey: SelfKey, s: State, batch: seq<Poi>, version: int)
    requires Sound(s) && FreshIds(s, batch)
  {
    batch == [] ||
    (NoRekeys(selfKey, s, batch[..|batch| - 1], version) &&
     KeepsKey(selfKey, MergeBatch(selfKey, s, batch[..|batch| - 1], version).state, batch[|batch| - 1]))
  }

  predicate KeepsKey(selfKey: SelfKey, s: State, n: Poi)
    requires forall k :: k in s.index ==> s.index[k] in s.pois
  {
    n.identityKey in s.index ==>
      var p := s.pois[s.index[n.identityKey]];
      KeyAfter(selfKey, p, n) == p.identityKey
  }

  /** Without re-keying the index gains exactly the batch's keys. */
  lemma {:induction false} BatchAddsItsKeys(selfKey: SelfKey, s: State, batch: seq<Poi>, version: int, k: string)
    requires Sound(s) && FreshIds(s, batch) && NoRekeys(selfKey, s, batch, version)
    ensures k in MergeBatch(selfKey, s, batch, version).state.index <==> k in s.index || k in KeysOf(batch)
  {
    if batch != [] {
      BatchAddsItsKeys(selfKey, s, batch[..|batch| - 1], version, k);
      var t, seen, n := BatchLast(selfKey, s, batch, version);
      MergeOneAddsItsKey(selfKey, t, n, version, seen);
    }
  }

  // ---------------------------------------------------------------- what a record shows after a batch

  /** The last detection of a key. */
  ghost function Latest(batch: seq<Poi>, k: string): Option<Poi> {
    if batch == [] then None
    else if batch[|batch| - 1].identityKey == k then Some(batch[|batch| - 1]) else Latest(batch[..|batch| - 1], k)
  }

  /** The last tag a key was detected with, not counting unknown ones. */
  ghost function LatestTag(batch: seq<Poi>, k: string, default: Tag): Tag {
    if batch == [] then default
    else if batch[|batch| - 1].identityKey == k && batch[|batch| - 1].tag != Unknown then batch[|batch| - 1].tag
    else LatestTag(batch[..|batch| - 1], k, default)
  }

  ghost predicate Reached(batch: seq<Poi>, k: string) {
    exists i :: 0 <= i < |batch| && batch[i].identityKey == k && batch[i].reachable
  }

  /**
   The record under `k` has the box and the colours of the key's last detection and its last known
   tag, can be reached if it could before or in some detection, and is up to date with full
   priority once detected.
   */
  ghost predicate ShowsLatest(q: Poi, batch: seq<Poi>, k: string, tag: Tag, reachable: bool, version: int) {
    && q.identityKey == k && (q.reachable <==> reachable || Reached(batch, k)) && q.tag == LatestTag(batch, k, tag)
    && var n := Latest(batch, k);
      n.Some? ==> q.bbox == n.value.bbox && q.colors == n.value.colors && q.version == version && !q.depriority
  }

  lemma ReachedOneMore(batch: seq<Poi>, n: Poi, k: string)
    ensures Reached(batch + [n], k) <==> Reached(batch, k) || (n.identityKey == k && n.reachable)
  {
    var more := batch + [n];
    if Reached(batch, k) {
      var i :| 0 <= i < |batch| && batch[i].identityKey == k && batch[i].reachable;
      assert more[i] == batch[i];
    }
    if n.identityKey == k && n.reachable { assert more[|batch|] == n; }
  }

  /** One more detection counts for its own key only. */
  lemma ShowsOneMore(q: Poi, r: Poi, batch: seq<Poi>, n: Poi, k: string, tag: Tag, reachable: bool, version: int)
    requires ShowsLatest(q, batch, k, tag, reachable, version)
    requires n.identityKey != k ==> r == q
    requires n.identityKey == k ==>
      && r.identityKey == k && r.bbox == n.bbox && r.colors == n.colors && r.version == version && !r.depriority
      && r.tag == (if n.tag == Unknown then q.tag else n.tag) && (r.reachable <==> q.reachable || n.reachable)
    ensures ShowsLatest(r, batch + [n], k, tag, reachable, version)
  {
    ReachedOneMore(batch, n, k);
    assert (batch + [n])[..|batch|] == batch;
  }

  lemma NothingNewToShow(selfKey: SelfKey, s: State, p: Poi, version: int)
    requires Sound(s)
    ensures MergeBatch(selfKey, s, [], version).state == s
    ensures ShowsLatest(p, [], p.identityKey, p.tag, p.reachable, version)
  {
  }

  /** A known record shows the latest of what the batch says about its key. */
  lemma {:induction false} BatchShowsLatest(selfKey: SelfKey, s: State, batch: seq<Poi>, version: int, id: string)
    requires Sound(s) && FreshIds(s, batch) && NoRekeys(selfKey, s, batch, version) && id in s.pois && Indexed(s, id)
    ensures var t, p := MergeBatch(selfKey, s, batch, version).state, s.pois[id];
      id in t.pois && Indexed(t, id) && ShowsLatest(t.pois[id], batch, p.identityKey, p.tag, p.reachable, version)
  {
    hide ShowsLatest, MergeOne, Indexed, KeepsKey, NoRekeys, MergeBatch, FreshIds;
    if batch == [] {
      NothingNewToShow(selfKey, s, s.pois[id], version);
    } else {
      var front, p := batch[..|batch| - 1], s.pois[id];
      PlainPrefix(selfKey, s, batch, version);
      BatchShowsLatest(selfKey, s, front, version, id);
      var t, seen, n := BatchLast(selfKey, s, batch, version);
      MergeShows(selfKey, t, n, version, id, front, p.identityKey, p.tag, p.reachable);
      assert batch == front + [n];
    }
  }

  lemma PlainPrefix(selfKey: SelfKey, s: State, batch: seq<Poi>, version: int)
    requires Sound(s) && FreshIds(s, batch) && NoRekeys(selfKey, s, batch, version) && batch != []
    ensures var front := batch[..|batch| - 1];
      && FreshIds(s, front) && NoRekeys(selfKey, s, front, version)
      && KeepsKey(selfKey, MergeBatch(selfKey, s, front, version).state, batch[|batch| - 1])
  {
  }

  lemma MergeShows(selfKey: SelfKey, s: State, n: Poi, version: int, id: string, batch: seq<Poi>, k: string, tag: Tag,
                   reachable: bool)
    requires Sound(s) && KeepsKey(selfKey, s, n) && (n.identityKey in s.index || n.poiId !in s.pois)
    requires id in s.pois && Indexed(s, id) && ShowsLatest(s.pois[id], batch, k, tag, reachable, version)
    ensures var t := MergeOne(selfKey, s, n, version);
      id in t.pois && Indexed(t, id) && ShowsLatest(t.pois[id], batch + [n], k, tag, reachable, version)
  {
    assert s.pois[id].identityKey == k;
    hide ShowsLatest;
    ShowsOneMore(s.pois[id], MergeOne(selfKey, s, n, version).pois[id], batch, n, k, tag, reachable, version);
  }

  /** The first detection of a key. */
  ghost function First(batch: seq<Poi>, k: string): Option<Poi> {
    if batch == [] then None
    else
      var earlier := First(batch[..|batch| - 1], k);
      if earlier.None? && batch[|batch| - 1].identityKey == k then Some(batch[|batch| - 1]) else earlier
  }

  /** A record as its first detection brings it; a zero confidence counts as missing. */
  ghost predicate StartsAs(q: Poi, n: Poi) {
    && q.poiId == n.poiId && q.visited == n.visited && q.visitCount == n.visitCount && q.pixelHash == n.pixelHash
    && q.consequence == n.consequence && q.lastConsequence == n.lastConsequence && q.motionDetected == n.motionDetected
    && q.confidence == if n.confidence == 0.0 then 0.5 else n.confidence
  }

  lemma {:induction false} UnseenKey(batch: seq<Poi>, k: string)
    requires k !in KeysOf(batch)
    ensures First(batch, k).None? && Latest(batch, k).None? && !Reached(batch, k)
    ensures forall tag :: LatestTag(batch, k, tag) == tag
  {
    if batch != [] {
      var front, n := batch[..|batch| - 1], batch[|batch| - 1];
      UnseenKey(front, k);
      ReachedOneMore(front, n, k);
      assert front + [n] == batch;
    }
  }

  /** The store knows a new key's record as its first detection brought it and as its latest one shows it. */
  ghost predicate Brought(t: State, batch: seq<Poi>, k: string, version: int) {
    && First(batch, k).Some? && k in t.index && t.index[k] in t.pois
    && t.index[k] == First(batch, k).value.poiId && StartsAs(t.pois[t.index[k]], First(batch, k).value)
    && ShowsLatest(t.pois[t.index[k]], batch, k, Unknown, false, version)
  }

  lemma FirstBrings(selfKey: SelfKey, s: State, n: Poi, version: int, batch: seq<Poi>)
    requires Sound(s) && n.identityKey !in s.index && n.poiId !in s.pois && n.identityKey !in KeysOf(batch)
    ensures Brought(MergeOne(selfKey, s, n, version), batch + [n], n.identityKey, version)
  {
    var k := n.identityKey;
    UnseenKey(batch, k);
    ReachedOneMore(batch, n, k);
    assert (batch + [n])[..|batch|] == batch;
  }

  lemma NextKeeps(selfKey: SelfKey, s: State, n: Poi, version: int, batch: seq<Poi>, k: string)
    requires Sound(s) && KeepsKey(selfKey, s, n) && (n.identityKey in s.index || n.poiId !in s.pois)
    requires Brought(s, batch, k, version)
    ensures Brought(MergeOne(selfKey, s, n, version), batch + [n], k, version)
  {
    assert s.pois[s.index[k]].identityKey == k;
    assert First(batch + [n], k) == First(batch, k) by { assert (batch + [n])[..|batch|] == batch; }
    hide ShowsLatest;
    MergeShows(selfKey, s, n, version, s.index[k], batch, k, Unknown, false);
  }

  lemma LastKey(batch: seq<Poi>, k: string)
    requires k in KeysOf(batch)
    ensures batch != [] && (k in KeysOf(batch[..|batch| - 1]) || k == batch[|batch| - 1].identityKey)
  {
  }

  /** A key the store did not know gets the record of its first detection, kept up to date by the later ones. */
  lemma {:induction false} BatchBrings(selfKey: SelfKey, s: State, batch: seq<Poi>, version: int, k: string)
    requires Sound(s) && FreshIds(s, batch) && NoRekeys(selfKey, s, batch, version)
    requires k !in s.index && k in KeysOf(batch)
    ensures Brought(MergeBatch(selfKey, s, batch, version).state, batch, k, version)
  {
    hide Brought, MergeOne, KeepsKey, NoRekeys, MergeBatch, FreshIds, Sound, KeysOf;
    LastKey(batch, k);
    var front := batch[..|batch| - 1];
    PlainPrefix(selfKey, s, batch, version);
    var t, seen, n := BatchLast(selfKey, s, batch, version);
    assert batch == front + [n];
    if k in KeysOf(front) {
      BatchBrings(selfKey, s, front, version, k);
      NextKeeps(selfKey, t, n, version, front, k);
    } else {
      BatchAddsItsKeys(selfKey, s, front, version, k);
      FirstBrings(selfKey, t, n, version, front);
    }
  }

  /** A known record moves to the key `k`. */
  predicate MovesOnto(selfKey: SelfKey, s: State, n: Poi, k: string)
    requires forall k :: k in s.index ==> s.index[k] in s.pois
  {
    n.identityKey in s.index &&
    var p := s.pois[s.index[n.identityKey]];
    p.identityKey != k && KeyAfter(selfKey, p, n) == k
  }

  /** While the batch is merged, some known record moves to the key `k`. */
  ghost predicate RekeysOnto(selfKey: SelfKey, s: State, batch: seq<Poi>, version: int, k: string)
    requires Sound(s) && FreshIds(s, batch)
  {
    batch != [] &&
    (RekeysOnto(selfKey, s, batch[..|batch| - 1], version, k) ||
     MovesOnto(selfKey, MergeBatch(selfKey, s, batch[..|batch| - 1], version).state, batch[|batch| - 1], k))
  }

  lemma MergeOneSeesKey(selfKey: SelfKey, s: State, n: Poi, seen: set<string>, k: string)
    requires Sound(s) && k != n.identityKey
    ensures k in SeenAfter(selfKey, s, n, seen) <==> k in seen || MovesOnto(selfKey, s, n, k)
  {
  }

  /** A key the batch does not bring counts as seen exactly when a record moves to it. */
  lemma {:induction false} BatchSeesKey(selfKey: SelfKey, s: State, batch: seq<Poi>, version: int, k: string)
    requires Sound(s) && FreshIds(s, batch) && k !in KeysOf(batch)
    ensures k in MergeBatch(selfKey, s, batch, version).seen <==> RekeysOnto(selfKey, s, batch, version, k)
  {
    if batch != [] {
      BatchSeesKey(selfKey, s, batch[..|batch| - 1], version, k);
      var t, seen, n := BatchLast(selfKey, s, batch, version);
      MergeOneSeesKey(selfKey, t, n, seen, k);
    }
  }

  /** And exactly those keys count as seen, so ageing spares them and no others. */
  lemma {:induction false} BatchSeesItsKeys(selfKey: SelfKey, s: State, batch: seq<Poi>, version: int)
    requires Sound(s) && FreshIds(s, batch) && NoRekeys(selfKey, s, batch, version)
    ensures MergeBatch(selfKey, s, batch, version).seen == KeysOf(batch)
  {
    if batch != [] {
      BatchSeesItsKeys(selfKey, s, batch[..|batch| - 1], version);
      var t, seen, n := BatchLast(selfKey, s, batch, version);
      MergeOneAddsItsKey(selfKey, t, n, version, seen);
    }
  }

  lemma {:induction false} NoRekeysNoClobbers(selfKey: SelfKey, s: State, batch: seq<Poi>, version: int)
    requires Sound(s) && FreshIds(s, batch) && NoRekeys(selfKey, s, batch, version)
    ensures !BatchClobbers(selfKey, s, batch, version)
  {
    if batch != [] {
      NoRekeysNoClobbers(selfKey, s, batch[..|batch| - 1], version);
      var t, seen, n := BatchLast(selfKey, s, batch, version);
      MergeOneAddsItsKey(selfKey, t, n, version, seen);
    }
  }

  lemma MergeOneAddsItsKey(selfKey: SelfKey, s: State, n: Poi, version: int, seen: set<string>)
    requires Sound(s) && KeepsKey(selfKey, s, n)
    ensures forall k :: k in MergeOne(selfKey, s, n, version).index <==> k in s.index || k == n.identityKey
    ensures SeenAfter(selfKey, s, n, seen) == seen + {n.identityKey}
    ensures !Clobbers(selfKey, s, n)
  {
  }

  /** Records absent from the batch lose priority once they are stale: visited ones sooner. */
  function Aged(p: Poi, seen: set<string>, version: int): Poi {
    if p.identityKey in seen then p else
      var absent := version - p.version;
      if absent >= (if p.visited then STALE_VERSIONS else STALE_VERSIONS_UNVISITED) then p.(depriority := true) else p
  }

  function AgeAll(v: View, seen: set<string>, version: int): (r: View)
    ensures r.Keys == v.Keys && |r| == |v|
  {
    var r := map id | id in v :: Aged(v[id], seen, version);
    assert r.Keys == v.Keys && |r| == |r.Keys|;
    r
  }

  lemma AgingKeepsIndex(s: State, seen: set<string>, version: int)
    ensures Sound(s) ==> Sound(State(AgeAll(s.pois, seen, version), s.index))
    ensures Complete(s) <==> Complete(State(AgeAll(s.pois, seen, version), s.index))
  {
    var t := State(AgeAll(s.pois, seen, version), s.index);
    forall id | id in s.pois ensures Indexed(s, id) <==> Indexed(t, id) {}
  }

  /** One call of update: the batch, then the ageing. */
  function AfterUpdate(selfKey: SelfKey, s: State, batch: seq<Poi>, version: int): State
    requires Sound(s) && FreshIds(s, batch)
  {
    var b := MergeBatch(selfKey, s, batch, version);
    State(AgeAll(b.state.pois, b.seen, version), b.state.index)
  }

  /**
   While nothing is re-keyed, an update of a complete store leaves one record for each identity
   key ever seen: those known before and those of the batch.
   */
  lemma OneRecordPerKey(selfKey: SelfKey, s: State, batch: seq<Poi>, version: int)
    requires Sound(s) && Complete(s) && FreshIds(s, batch) && NoRekeys(selfKey, s, batch, version)
    ensures var t := AfterUpdate(selfKey, s, batch, version);
      Sound(t) && Complete(t) && t.index.Keys == s.index.Keys + KeysOf(batch) && |t.pois| == |t.index.Keys|
  {
    hide MergeBatch, KeysOf, FreshIds, NoRekeys, BatchClobbers, AgeAll;
    forall k { BatchAddsItsKeys(selfKey, s, batch, version, k); }
    NoRekeysNoClobbers(selfKey, s, batch, version);
    BatchKeepsIndex(selfKey, s, batch, version);
    var b := MergeBatch(selfKey, s, batch, version);
    AgingKeepsIndex(b.state, b.seen, version);
    IndexIsBijection(AfterUpdate(selfKey, s, batch, version));
  }

  // ---------------------------------------------------------------- staleness over several updates

  /** One update that brings fresh ids. */
  ghost predicate Updates(selfKey: SelfKey, s: State, batch: seq<Poi>, version: int, t: State) {
    Sound(s) && FreshIds(s, batch) && t == AfterUpdate(selfKey, s, batch, version)
  }

  /** The store before and after each of several updates with consecutive versions. */
  ghost predicate Updated(selfKey: SelfKey, states: seq<State>, batches: seq<seq<Poi>>, version: int) {
    |states| == |batches| + 1 &&
    forall i: nat :: i < |batches| ==> Updates(selfKey, states[i], batches[i], version + 1 + i, states[i + 1])
  }

  /** An update that neither brings a key nor moves a record to it. */
  ghost predicate PassesOver(selfKey: SelfKey, s: State, batch: seq<Poi>, version: int, k: string) {
    Sound(s) && FreshIds(s, batch) && k !in KeysOf(batch) && !RekeysOnto(selfKey, s, batch, version, k)
  }

  /** A batch without a record's key leaves the record alone. */
  lemma {:induction false} BatchSpares(selfKey: SelfKey, s: State, batch: seq<Poi>, version: int, id: string)
    requires Sound(s) && FreshIds(s, batch) && id in s.pois && s.pois[id].identityKey !in KeysOf(batch)
    ensures MergeBatch(selfKey, s, batch, version).state.pois[id] == s.pois[id]
  {
    if batch != [] {
      BatchSpares(selfKey, s, batch[..|batch| - 1], version, id);
      var t, seen, n := BatchLast(selfKey, s, batch, version);
    }
  }

  /** An update that does not bring a record's key ages it, unless another record moves to that key. */
  lemma OneAbsence(selfKey: SelfKey, s: State, batch: seq<Poi>, version: int, t: State, id: string)
    requires Updates(selfKey, s, batch, version, t) && id in s.pois && s.pois[id].identityKey !in KeysOf(batch)
    ensures id in t.pois
    ensures t.pois[id] == if RekeysOnto(selfKey, s, batch, version, s.pois[id].identityKey) then s.pois[id]
                          else Aged(s.pois[id], {}, version)
  {
    hide MergeBatch, FreshIds, RekeysOnto, KeysOf;
    BatchSpares(selfKey, s, batch, version, id);
    BatchSeesKey(selfKey, s, batch, version, s.pois[id].identityKey);
  }

  function StaleLimit(p: Poi): nat {
    if p.visited then STALE_VERSIONS else STALE_VERSIONS_UNVISITED
  }

  /**
   A record no update mentions keeps everything but its priority, and loses that with the
   fourth update in a row when it was visited, with the eighth when it was not.
   */
  lemma {:induction false} AbsenceMakesStale(selfKey: SelfKey, states: seq<State>, batches: seq<seq<Poi>>,
                                             version: int, id: string, n: nat)
    requires Updated(selfKey, states, batches, version) && n <= |batches|
    requires id in states[0].pois && states[0].pois[id].version == version
    requires forall i: nat :: i < n ==>
      PassesOver(selfKey, states[i], batches[i], version + 1 + i, states[0].pois[id].identityKey)
    ensures id in states[n].pois
    ensures var p := states[0].pois[id];
      states[n].pois[id] == p.(depriority := p.depriority || n >= StaleLimit(p))
  {
    hide Updates, KeysOf, RekeysOnto;
    if n > 0 {
      assert PassesOver(selfKey, states[n - 1], batches[n - 1], version + n, states[0].pois[id].identityKey);
      AbsenceMakesStale(selfKey, states, batches, version, id, n - 1);
      OneAbsence(selfKey, states[n - 1], batches[n - 1], version + n, states[n], id);
    }
  }

  // ---------------------------------------------------------------- from the empty store on

  /** The keys of the first `n` batches. */
  ghost function KeysSeen(batches: seq<seq<Poi>>, n: nat): set<string>
    requires n <= |batches|
  {
    if n == 0 then {} else KeysSeen(batches, n - 1) + KeysOf(batches[n - 1])
  }

  /** One update that brings fresh ids and re-keys nothing. */
  ghost predicate UpdatesPlainly(selfKey: SelfKey, s: State, batch: seq<Poi>, version: int, t: State) {
    Updates(selfKey, s, batch, version, t) && NoRekeys(selfKey, s, batch, version)
  }

  /** The store before and after each of several such updates, from the empty store on. */
  ghost predicate PlainRun(selfKey: SelfKey, states: seq<State>, batches: seq<seq<Poi>>, version: int) {
    |states| == |batches| + 1 && states[0] == State(map[], map[]) &&
    forall i: nat :: i < |batches| ==> UpdatesPlainly(selfKey, states[i], batches[i], version + 1 + i, states[i + 1])
  }

  /** One record for each of the keys. */
  ghost predicate OneEach(s: State, keys: set<string>) {
    Sound(s) && Complete(s) && s.index.Keys == keys && |s.pois| == |keys|
  }

  lemma EmptyHasNone()
    ensures OneEach(State(map[], map[]), {})
  {
  }

  lemma OneMoreBatch(selfKey: SelfKey, s: State, batch: seq<Poi>, version: int, t: State, keys: set<string>)
    requires UpdatesPlainly(selfKey, s, batch, version, t) && OneEach(s, keys)
    ensures OneEach(t, keys + KeysOf(batch))
  {
    hide KeysOf, MergeBatch, AfterUpdate, FreshIds, NoRekeys;
    OneRecordPerKey(selfKey, s, batch, version);
  }

  /** After any such run there is one record for each identity key ever seen. */
  lemma {:induction false} OneRecordPerKeyEverSeen(selfKey: SelfKey, states: seq<State>, batches: seq<seq<Poi>>,
                                                   version: int, n: nat)
    requires PlainRun(selfKey, states, batches, version) && n <= |batches|
    ensures OneEach(states[n], KeysSeen(batches, n))
  {
    hide OneEach, UpdatesPlainly, KeysOf;
    if n == 0 {
      EmptyHasNone();
    } else {
      OneRecordPerKeyEverSeen(selfKey, states, batches, version, n - 1);
      OneMoreBatch(selfKey, states[n - 1], batches[n - 1], version + n, states[n], KeysSeen(batches, n - 1));
    }
  }

  /** Removing a record with its key keeps the rest findable. */
  lemma RemoveKeepsComplete(s: State, id: string)
    requires Sound(s) && Complete(s) && id in s.pois
    ensures Complete(State(s.pois - {id}, s.index - {s.pois[id].identityKey}))
  {
    var t := State(s.pois - {id}, s.index - {s.pois[id].identityKey});
    forall other | other in t.pois ensures Indexed(t, other) { assert Indexed(s, other) && Indexed(s, id); }
  }

  // ---------------------------------------------------------------- saving and loading

  /** A saved record: everything but motion_detected. */
  datatype SavedPoi = SavedPoi(
    poiId: string, bbox: BBox, colors: seq<int>, tag: Tag, reachable: bool, visited: bool,
    consequence: Option<Consequence>, confidence: real, version: int, identityKey: string, depriority: bool,
    pixelHash: Option<string>, visitCount: nat, lastConsequence: Option<Consequence>)

  datatype SavedStore = SavedStore(version: int, pois: seq<SavedPoi>)

  function ToSaved(p: Poi): SavedPoi {
    SavedPoi(p.poiId, p.bbox, p.colors, p.tag, p.reachable, p.visited, p.consequence, p.confidence, p.version,
             p.identityKey, p.depriority, p.pixelHash, p.visitCount, p.lastConsequence)
  }

  function FromSaved(s: SavedPoi): Poi {
    Poi(s.poiId, s.bbox, s.colors, s.tag, s.reachable, s.visited, s.consequence, s.confidence, s.version,
        s.identityKey, false, s.depriority, s.pixelHash, s.visitCount, s.lastConsequence)
  }

  ghost predicate DistinctIds(list: seq<SavedPoi>) {
    forall i, j :: 0 <= i < j < |list| ==> list[i].poiId != list[j].poiId
  }

  /** The list holds every record of the store once. */
  ghost predicate Lists(list: seq<SavedPoi>, pois: View) {
    && DistinctIds(list) && |list| == |pois|
    && forall i :: 0 <= i < |list| ==> list[i].poiId in pois && list[i] == ToSaved(pois[list[i].poiId])
  }

  /** One loaded record; an empty key is not indexed. */
  function LoadOne(s: State, r: SavedPoi): State {
    State(s.pois[r.poiId := FromSaved(r)], if r.identityKey != "" then s.index[r.identityKey := r.poiId] else s.index)
  }

  function LoadAll(list: seq<SavedPoi>): State {
    if list == [] then State(map[], map[]) else LoadOne(LoadAll(list[..|list| - 1]), list[|list| - 1])
  }

  ghost function IdsOf(list: seq<SavedPoi>): (r: set<string>)
    ensures forall id :: id in r <==> exists i :: 0 <= i < |list| && list[i].poiId == id
  {
    if list == [] then {} else IdsOf(list[..|list| - 1]) + {list[|list| - 1].poiId}
  }

  lemma {:induction false} LoadAllKeys(list: seq<SavedPoi>)
    ensures LoadAll(list).pois.Keys == IdsOf(list)
    ensures DistinctIds(list) ==> |IdsOf(list)| == |list|
  {
    if list != [] {
      LoadAllKeys(list[..|list| - 1]);
      assert DistinctIds(list) ==> list[|list| - 1].poiId !in IdsOf(list[..|list| - 1]);
    }
  }

  /** Loading distinct ids gives a sound store. */
  lemma LoadOneKeepsSound(s: State, r: SavedPoi)
    requires Sound(s) && r.poiId !in s.pois
    ensures Sound(LoadOne(s, r))
  {
  }

  lemma LoadStep(list: seq<SavedPoi>, i: nat)
    requires DistinctIds(list) && i < |list|
    ensures LoadAll(list[..i + 1]) == LoadOne(LoadAll(list[..i]), list[i]) && list[i].poiId !in LoadAll(list[..i]).pois
  {
    assert list[..i + 1][..i] == list[..i];
    LoadAllKeys(list[..i]);
  }

  /** Each record comes back, and each non-empty key finds the record that carries it. */
  lemma {:induction false} LoadAllRestores(s: State, list: seq<SavedPoi>)
    requires Sound(s) && Complete(s) && DistinctIds(list)
    requires forall i :: 0 <= i < |list| ==> list[i].poiId in s.pois && list[i] == ToSaved(s.pois[list[i].poiId])
    ensures forall id :: id in LoadAll(list).pois ==>
      id in s.pois && LoadAll(list).pois[id] == s.pois[id].(motionDetected := false)
    ensures forall k :: k in LoadAll(list).index ==>
      k != "" && k in s.index && LoadAll(list).index[k] == s.index[k] && s.index[k] in LoadAll(list).pois
    ensures forall id :: id in LoadAll(list).pois && s.pois[id].identityKey != "" ==>
        s.pois[id].identityKey in LoadAll(list).index
  {
    if list != [] {
      var r := list[|list| - 1];
      LoadAllRestores(s, list[..|list| - 1]);
      assert Indexed(s, r.poiId);
    }
  }

  /** The restored store: motion flags are reset and records with an empty key are no longer indexed. */
  ghost predicate IsRestored(s: State, t: State) {
    && t.pois.Keys == s.pois.Keys && (forall id :: id in s.pois ==> t.pois[id] == s.pois[id].(motionDetected := false))
    && t.index == s.index - {""}
  }

  lemma RestoredAll(s: State, t: State)
    requires Sound(s) && |t.pois| == |s.pois|
    requires forall id :: id in t.pois ==> id in s.pois && t.pois[id] == s.pois[id].(motionDetected := false)
    requires forall k :: k in t.index ==> k != "" && k in s.index && t.index[k] == s.index[k] && s.index[k] in t.pois
    requires forall id :: id in t.pois && s.pois[id].identityKey != "" ==> s.pois[id].identityKey in t.index
    ensures IsRestored(s, t)
  {
    FullSet(t.pois.Keys, s.pois.Keys);
    forall k | k in s.index && k != "" ensures k in t.index {
      assert s.index[k] in t.pois.Keys;
    }
    assert t.index.Keys == (s.index - {""}).Keys;
  }

  lemma SaveLoadRestores(s: State, list: seq<SavedPoi>)
    requires Sound(s) && Complete(s) && Lists(list, s.pois)
    ensures IsRestored(s, LoadAll(list))
  {
    LoadAllKeys(list);
    LoadAllRestores(s, list);
    RestoredAll(s, LoadAll(list));
  }

  /** The loaded index is complete again exactly when no record has an empty key. */
  lemma RestoredIsComplete(s: State, t: State)
    requires Sound(s) && Complete(s) && IsRestored(s, t)
    ensures Complete(t) <==> forall id :: id in s.pois ==> s.pois[id].identityKey != ""
  {
    forall id | id in s.pois ensures Indexed(t, id) <==> s.pois[id].identityKey != "" { assert Indexed(s, id); }
  }
}
