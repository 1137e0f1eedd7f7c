/**
 The POI store of hypothesis_store.py: records shared between the id dictionary and the identity
 index, updated in place.
 */
module HypothesisStores {
  import opened Common
  import opened PoiRecords
  import I = PoiIndex

  /** A record object; every field of the source's dataclass is in its value. */
  class PoiRecord {
    var v: Poi

    constructor (v: Poi)
      ensures this.v == v
    {
      this.v := v;
    }
  }

  predicate Sorted(s: seq<PoiRecord>)
    reads s
  {
    forall i, j :: 0 <= i < j < |s| ==> s[i].v.confidence >= s[j].v.confidence
  }

  /** The values of a batch of detections. */
  ghost function Values(batch: seq<PoiRecord>): (r: seq<Poi>)
    reads batch
    ensures |r| == |batch| && forall i :: 0 <= i < |batch| ==> r[i] == batch[i].v
  {
    seq(|batch|, i requires 0 <= i < |batch| reads batch => batch[i].v)
  }

  /** Each key leads to the record object with the id the index gives. */
  ghost predicate Linked(pois: map<string, PoiRecord>, byIdentity: map<string, PoiRecord>, index: map<string, string>) {
    byIdentity.Keys == index.Keys && forall k :: k in byIdentity ==> index[k] in pois && byIdentity[k] == pois[index[k]]
  }

  lemma Relink(pois: map<string, PoiRecord>, byIdentity: map<string, PoiRecord>, index: map<string, string>,
               k: string, next: string)
    requires Linked(pois, byIdentity, index) && k in index
    ensures Linked(pois, (byIdentity - {k})[next := byIdentity[k]], (index - {k})[next := index[k]])
  {
  }

  lemma LinkNew(pois: map<string, PoiRecord>, byIdentity: map<string, PoiRecord>, index: map<string, string>,
                id: string, k: string, p: PoiRecord)
    requires Linked(pois, byIdentity, index) && id !in pois
    ensures Linked(pois[id := p], byIdentity, index) && Linked(pois[id := p], byIdentity[k := p], index[k := id])
  {
  }

  class HypothesisStore {
    var pois: map<string, PoiRecord>
    var byIdentity: map<string, PoiRecord>
    var version: int
    const selfKey: I.SelfKey

    /** The two dictionaries on values, and every record they ever held or are about to be given. */
    ghost var state: I.State
    ghost var records: set<PoiRecord>

    /** Each dictionary holds the objects its values stand for, and the values are sound. */
    ghost predicate Valid()
      reads this`pois, this`byIdentity, this`state, this`records, records
    {
      && I.Sound(state)
      && Keeps(state.pois)
      && Linked(pois, byIdentity, state.index)
    }

    ghost predicate Keeps(v: View)
      reads this`pois, this`records, records
    {
      pois.Keys == v.Keys && forall id :: id in pois ==> pois[id] in records && pois[id].v == v[id]
    }

    ghost predicate Holds(p: PoiRecord)
      requires p in records
      reads this`pois, this`records, records
    {
      p.v.poiId in pois && pois[p.v.poiId] == p
    }

    constructor (selfKey: I.SelfKey)
      ensures Valid() && state == I.State(map[], map[]) && this.selfKey == selfKey && records == {}
    {
      this.selfKey := selfKey;
      pois, byIdentity, version := map[], map[], 0;
      state, records := I.State(map[], map[]), {};
    }

    /** One visit's consequence, on the record itself. */
    method RecordConsequence(id: string, result: Consequence)
      requires Valid()
      modifies this`state, records
      ensures Valid() && state == I.State(Apply(old(state.pois), Visit(id, result)), old(state.index))
    {
      if id !in pois { return; }
      var poi := pois[id];
      poi.v := Visited(poi.v, result);
      state := I.State(Apply(state.pois, Visit(id, result)), state.index);
    }

    method SetPixelHash(id: string, hash: string)
      requires Valid()
      modifies this`state, records
      ensures Valid() && state == I.State(Apply(old(state.pois), Rehash(id, hash)), old(state.index))
      ensures forall p {:trigger p.v} :: p in records ==> p.v == old(p.v) || p.v == old(p.v).(pixelHash := Some(hash))
    {
      if id !in pois { return; }
      var poi := pois[id];
      poi.v := poi.v.(pixelHash := Some(hash));
      state := I.State(Apply(state.pois, Rehash(id, hash)), state.index);
    }

    /** Puts a record behind every one of at least its confidence. */
    static method InsertByConfidence(s: seq<PoiRecord>, p: PoiRecord) returns (r: seq<PoiRecord>)
      requires Sorted(s) && Distinct(s) && p !in s
      ensures Sorted(r) && Distinct(r) && |r| == |s| + 1
      ensures forall q :: q in r <==> q == p || q in s
    {
      var i := 0;
      while i < |s| && s[i].v.confidence >= p.v.confidence
        invariant 0 <= i <= |s|
        invariant forall j :: 0 <= j < i ==> s[j].v.confidence >= p.v.confidence
      {
        i := i + 1;
      }
      r := s[..i] + [p] + s[i..];
    }

    /** The list holds the eligible records, except those that wait. */
    ghost predicate Lists(targets: seq<PoiRecord>, waiting: set<string>)
      reads this`pois, this`records, records
    {
      && (forall p :: p in targets ==> p in records && Holds(p) && Eligible(p.v) && p.v.poiId !in waiting)
      && (forall p :: p in records && Holds(p) && Eligible(p.v) && p.v.poiId !in waiting ==> p in targets)
    }

    lemma AllWait()
      requires Valid()
      ensures Lists([], pois.Keys)
    {
    }

    lemma WaitsUnlisted(targets: seq<PoiRecord>, waiting: set<string>, id: string)
      requires Valid() && id in waiting && waiting <= pois.Keys && Lists(targets, waiting)
      ensures pois[id] !in targets
    {
    }

    lemma ListsOneMore(targets: seq<PoiRecord>, waiting: set<string>, id: string, r: seq<PoiRecord>)
      requires Valid() && id in waiting && waiting <= pois.Keys && Lists(targets, waiting)
      requires forall p :: p in r <==> p in targets || (p == pois[id] && Eligible(p.v))
      ensures Lists(r, waiting - {id})
    {
      hide Linked, Eligible;
    }

    /** The eligible records, the most confident first. */
    method GetTargets() returns (targets: seq<PoiRecord>)
      requires Valid()
      ensures Sorted(targets) && Distinct(targets)
      ensures forall p :: p in targets <==> p in records && Holds(p) && Eligible(p.v)
    {
      hide Linked, Eligible, Keeps;
      targets := [];
      var rest := pois.Keys;
      AllWait();
      while rest != {}
        invariant rest <= pois.Keys && Sorted(targets) && Distinct(targets) && Lists(targets, rest)
        decreases |rest|
      {
        var id :| id in rest;
        WaitsUnlisted(targets, rest, id);
        ghost var before := targets;
        if Eligible(pois[id].v) {
          targets := InsertByConfidence(targets, pois[id]);
        }
        ListsOneMore(before, rest, id, targets);
        rest := rest - {id};
      }
    }

    /** Dropping a record drops the index entry of its key, whoever holds it. */
    method Remove(id: string)
      requires Valid()
      modifies this`pois, this`byIdentity, this`state
      ensures Valid()
      ensures id !in old(pois) ==> state == old(state)
      ensures id in old(pois) ==>
        state == I.State(old(state.pois) - {id}, old(state.index) - {old(state.pois)[id].identityKey})
    {
      if id in pois {
        var poi := pois[id];
        state := I.State(state.pois - {id}, state.index - {poi.v.identityKey});
        pois := pois - {id};
        byIdentity := byIdentity - {poi.v.identityKey};
      }
    }

    /** One more object is the store's. */
    ghost method Adopt(poi: PoiRecord)
      requires Keeps(state.pois)
      modifies this`records
      ensures records == old(records) + {poi} && Keeps(state.pois)
    {
      records := records + {poi};
    }

    /** A new record object, with its values as they are stored. */
    method AddRecord(n: PoiRecord, v: Poi)
      requires I.Sound(state) && Keeps(state.pois) && n.v.poiId == v.poiId && v.poiId !in pois && n in records
      modifies this`pois, n
      ensures n.v == v && pois == old(pois)[v.poiId := n] && Keeps(state.pois[v.poiId := v])
    {
      n.v := v;
      pois := pois[v.poiId := n];
    }

    /** A new record, indexed under its key. */
    method Insert(n: PoiRecord, version: int)
      requires Valid() && n.v.identityKey !in byIdentity && n.v.poiId !in pois && n in records
      modifies this`pois, this`byIdentity, this`state, n
      ensures Valid() && state == I.MergeOne(selfKey, old(state), old(n.v), version)
    {
      hide I.Sound, I.Created, Linked, Keeps;
      Indices();
      I.MergeOneKeepsSound(selfKey, state, n.v, version);
      LinkNew(pois, byIdentity, state.index, n.v.poiId, n.v.identityKey, n);
      AddRecord(n, I.Created(n.v, version));
      state := I.MergeOne(selfKey, state, old(n.v), version);
      byIdentity := byIdentity[n.v.identityKey := n];
    }

    lemma Indices()
      requires Valid()
      ensures pois.Keys == state.pois.Keys && byIdentity.Keys == state.index.Keys
      ensures forall k :: k in state.index ==> state.index[k] in state.pois
    {
    }

    lemma KnownRecord(key: string)
      requires Valid() && key in byIdentity
      ensures key in state.index && forall k :: k in state.index ==> state.index[k] in state.pois
      ensures var id := state.index[key]; id in pois && pois[id] == byIdentity[key]
      ensures var p := state.pois[state.index[key]];
        p == byIdentity[key].v && p.poiId == state.index[key] && p.identityKey == key
    {
    }

    /** The record object under an id takes new values of the same id. */
    method SetRecord(poi: PoiRecord, v: Poi)
      requires I.Sound(state) && Keeps(state.pois) && v.poiId in pois && poi == pois[v.poiId]
      modifies poi
      ensures poi.v == v && Keeps(state.pois[v.poiId := v])
    {
      poi.v := v;
    }

    /** The known record takes the detection's geometry; first tagged SELF, it moves to a new key. */
    method MergeInto(existing: PoiRecord, n: Poi, version: int, seen0: set<string>) returns (seen: set<string>)
      requires Valid() && n.identityKey in byIdentity && existing == byIdentity[n.identityKey]
      modifies this`byIdentity, this`state, existing
      ensures Valid()
      ensures state == I.MergeOne(selfKey, old(state), n, version)
      ensures seen == (var p := old(existing.v); var after := I.KeyAfter(selfKey, p, n);
                       if after == p.identityKey then seen0 else seen0 - {p.identityKey} + {after})
    {
      hide I.Sound, I.Merged, Linked, Keeps;
      seen := seen0;
      var p := existing.v;
      KnownRecord(n.identityKey);
      I.MergeOneKeepsSound(selfKey, state, n, version);
      Relink(pois, byIdentity, state.index, p.identityKey, I.KeyAfter(selfKey, p, n));
      SetRecord(existing, I.Merged(selfKey, p, n, version));
      state := I.MergeOne(selfKey, state, n, version);
      var after := existing.v.identityKey;
      if I.Rekeys(p, n) && after != p.identityKey {
        byIdentity := (byIdentity - {p.identityKey})[after := existing];
        seen := seen - {p.identityKey} + {after};
      }
    }

    /** A detection of a known identity updates the record there is, an unknown one joins the store. */
    method UpdateOne(n: PoiRecord, version: int, seen0: set<string>) returns (seen: set<string>, merged: bool)
      requires Valid() && n.v.poiId !in pois && n in records
      modifies this`pois, this`byIdentity, this`state, records
      ensures Valid() && records == old(records)
      ensures state == I.MergeOne(selfKey, old(state), old(n.v), version)
      ensures seen == I.SeenAfter(selfKey, old(state), old(n.v), seen0)
      ensures merged == (old(n.v.identityKey) in old(state.index))
      ensures forall p {:trigger p.v} :: p in records && p != n && old(p.v.poiId) !in old(pois) ==> p.v == old(p.v)
    {
      var key := n.v.identityKey;
      seen := seen0 + {key};
      if key in byIdentity {
        seen := MergeInto(byIdentity[key], n.v, version, seen);
        merged := true;
      } else {
        Insert(n, version);
        merged := false;
      }
    }

    /** Records that no detection accounted for lose priority once stale. */
    method AgeAbsent(seen: set<string>, version: int)
      requires Valid()
      modifies this`state, records
      ensures Valid() && state == I.State(I.AgeAll(old(state.pois), seen, version), old(state.index))
      ensures |state.pois| == |old(state.pois)| && this.version == old(this.version)
    {
      hide Linked, Keeps, I.Sound, I.AgeAll;
      AgeRecords(seen, version);
      I.AgingKeepsIndex(state, seen, version);
      state := I.State(I.AgeAll(state.pois, seen, version), state.index);
    }

    method AgeRecords(seen: set<string>, version: int)
      requires Valid()
      modifies records
      ensures Keeps(I.AgeAll(state.pois, seen, version))
    {
      hide Linked, I.Aged;
      var rest := pois.Keys;
      while rest != {}
        invariant rest <= pois.Keys == state.pois.Keys
        invariant forall id :: id in pois ==>
          pois[id].v == if id in rest then state.pois[id] else I.Aged(state.pois[id], seen, version)
        decreases |rest|
      {
        var id :| id in rest;
        rest := rest - {id};
        var poi := pois[id];
        poi.v := I.Aged(poi.v, seen, version);
      }
    }

    /** The loop over the detections. */
    method MergeAll(batch: seq<PoiRecord>, version: int)
      returns (seen: set<string>, merged: nat, created: nat)
      requires Valid() && I.FreshIds(state, Values(batch))
      requires Distinct(batch) && forall j :: 0 <= j < |batch| ==> batch[j] in records
      modifies this`pois, this`byIdentity, this`state, records
      ensures Valid()
      ensures I.Batch(state, seen, merged, created) == I.MergeBatch(selfKey, old(state), old(Values(batch)), version)
      ensures merged + created == |batch| && |state.pois| == |old(state.pois)| + created
      ensures records == old(records) && this.version == old(this.version)
    {
      hide I.Extended, I.MergeOne, I.SeenAfter;
      ghost var s, vals := state, Values(batch);
      seen, merged, created := {}, 0, 0;
      assert vals[..0] == [];
      var i := 0;
      while i < |batch|
        invariant 0 <= i <= |batch| && Valid() && records == old(records)
        invariant forall j :: i <= j < |batch| ==> batch[j].v == vals[j]
        invariant I.FreshIds(s, vals[..i])
        invariant I.Batch(state, seen, merged, created) == I.MergeBatch(selfKey, s, vals[..i], version)
      {
        I.Turn(selfKey, s, vals, version, i);
        seen, merged, created := MergeNext(batch, i, version, seen, merged, created);
        i := i + 1;
      }
      assert vals[..i] == vals;
    }

    /** One detection's turn; those still waiting stay as they are. */
    method MergeNext(batch: seq<PoiRecord>, i: nat, version: int, seen0: set<string>, merged0: nat, created0: nat)
      returns (seen: set<string>, merged: nat, created: nat)
      requires Valid() && i < |batch| && Distinct(batch)
      requires forall j :: i <= j < |batch| ==> batch[j] in records && batch[j].v.poiId !in pois
      modifies this`pois, this`byIdentity, this`state, records
      ensures Valid() && records == old(records)
      ensures forall j :: i < j < |batch| ==> batch[j].v == old(batch[j].v)
      ensures I.Batch(state, seen, merged, created) ==
              I.Extended(selfKey, I.Batch(old(state), seen0, merged0, created0), old(batch[i].v), version)
    {
      assert forall j :: i < j < |batch| ==> batch[j] != batch[i];
      var known;
      seen, known := UpdateOne(batch[i], version, seen0);
      merged, created := if known then merged0 + 1 else merged0, if known then created0 else created0 + 1;
    }

    /** Takes the new version; from here on the batch's objects are the store's, so that the merge may change them. */
    method Begin(batch: seq<PoiRecord>, version: int)
      requires Valid()
      modifies this`version, this`records
      ensures Valid() && this.version == version && (forall j :: 0 <= j < |batch| ==> batch[j] in records)
      ensures forall p :: p in records ==> p in old(records) || p in batch
    {
      this.version := version;
      records := records + set p | p in batch;
    }

    /** Merges the detections in order, then ages what they did not account for. */
    method Update(batch: seq<PoiRecord>, version: int) returns (merged: nat, created: nat)
      requires Valid() && I.FreshIds(state, Values(batch)) && Distinct(batch)
      modifies this, records, batch
      ensures Valid() && this.version == version
      ensures state == I.AfterUpdate(selfKey, old(state), old(Values(batch)), version)
      ensures merged + created == |batch| && |state.pois| == |old(state.pois)| + created
    {
      Begin(batch, version);
      var seen;
      seen, merged, created := MergeAll(batch, version);
      AgeAbsent(seen, version);
    }

    /** Objects for the given values; the index comes after. */
    method CopyRecords(values: View, version: int)
      requires pois == map[]
      modifies this
      ensures pois.Keys == values.Keys && this.version == version
      ensures forall id :: id in pois ==> pois[id] in records && pois[id].v == values[id]
      ensures forall p :: p in records ==> fresh(p)
    {
      this.version, records := version, {};
      var rest := values.Keys;
      while rest != {}
        invariant rest <= values.Keys && this.version == version
        invariant forall id :: id in pois <==> id in values && id !in rest
        invariant forall id :: id in pois ==> pois[id] in records && pois[id].v == values[id]
        invariant forall p :: p in records ==> fresh(p)
        decreases |rest|
      {
        var id :| id in rest;
        rest := rest - {id};
        AddCopy(id, values[id]);
      }
    }

    method AddCopy(id: string, v: Poi)
      modifies this`pois, this`records
      ensures id in pois && pois == old(pois)[id := pois[id]] && pois[id].v == v && fresh(pois[id])
      ensures records == old(records) + {pois[id]}
    {
      var poi := new PoiRecord(v);
      pois, records := pois[id := poi], records + {poi};
    }

    /** Points the copied index at the copied records. */
    method CopyIndex(store: HypothesisStore)
      requires store != this && store.Valid() && pois.Keys == store.pois.Keys
      requires forall id :: id in pois ==> pois[id] in records && pois[id].v == store.state.pois[id]
      modifies this`byIdentity, this`state
      ensures Valid() && state == store.state
    {
      state := store.state;
      byIdentity := map k | k in store.byIdentity :: pois[store.byIdentity[k].v.poiId];
    }

    /** Writes every record once, in the order of the dictionary. */
    method Save() returns (data: I.SavedStore)
      requires Valid()
      ensures data.version == version && I.Lists(data.pois, state.pois)
    {
      var list: seq<I.SavedPoi> := [];
      var rest := pois.Keys;
      while rest != {}
        invariant rest <= pois.Keys && |list| + |rest| == |pois.Keys|
        invariant I.DistinctIds(list)
        invariant forall i :: 0 <= i < |list| ==>
          list[i].poiId in pois && list[i].poiId !in rest && list[i] == I.ToSaved(state.pois[list[i].poiId])
        decreases |rest|
      {
        var id :| id in rest;
        rest := rest - {id};
        list := list + [I.ToSaved(pois[id].v)];
      }
      data := I.SavedStore(version, list);
    }

    /** Replaces the store by what was saved, in objects of its own. */
    method Load(data: I.SavedStore)
      requires I.DistinctIds(data.pois)
      modifies this
      ensures Valid() && version == data.version && state == I.LoadAll(data.pois)
      ensures forall p :: p in records ==> fresh(p)
    {
      version := data.version;
      pois, byIdentity := map[], map[];
      state, records := I.State(map[], map[]), {};
      assert data.pois[..0] == [];
      var i := 0;
      while i < |data.pois|
        invariant 0 <= i <= |data.pois| && Valid() && version == data.version
        invariant state == I.LoadAll(data.pois[..i])
        invariant forall p :: p in records ==> fresh(p)
      {
        I.LoadStep(data.pois, i);
        LoadRecord(data.pois[i]);
        i := i + 1;
      }
      assert data.pois[..i] == data.pois;
    }

    method LoadRecord(r: I.SavedPoi)
      requires Valid() && r.poiId !in state.pois
      modifies this`pois, this`byIdentity, this`state, this`records
      ensures Valid() && state == I.LoadOne(old(state), r)
      ensures forall p :: p in records ==> p in old(records) || fresh(p)
    {
      hide Linked, Keeps, I.Sound;
      Indices();
      I.LoadOneKeepsSound(state, r);
      var poi := new PoiRecord(I.FromSaved(r));
      LinkNew(pois, byIdentity, state.index, r.poiId, r.identityKey, poi);
      Adopt(poi);
      AddRecord(poi, poi.v);
      state := I.LoadOne(state, r);
      if r.identityKey != "" {
        byIdentity := byIdentity[r.identityKey := poi];
      }
    }
  }

  /** Saving a complete store and loading it into another restores it, up to motion flags and empty keys. */
  method SaveAndLoad(store: HypothesisStore, copy: HypothesisStore)
    requires store.Valid() && I.Complete(store.state) && store != copy
    modifies copy
    ensures copy.Valid() && copy.version == store.version && I.IsRestored(store.state, copy.state)
  {
    var data := store.Save();
    I.SaveLoadRestores(store.state, data.pois);
    copy.Load(data);
  }
}
