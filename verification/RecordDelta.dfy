/** Structured records: a delta of an order and the records that are new or changed. */
module RecordDelta {
  import opened Prelude

  /** A record with its id; equality of bodies stands for equality of canonical JSON. */
  datatype Record<V> = Record(id: string, body: V)

  datatype Delta<V> = Delta(order: seq<string>, upserts: seq<Record<V>>)

  datatype Bundle<V> = Bundle(delta: Delta<V>, baseDigest: string, sourceDigest: string)

  datatype RecordError = DuplicateRecordId | KeyError

  datatype Reply<V> = HoldBaseMismatch | Rebuilt(records: seq<Record<V>>, byteExact: bool)

  predicate UniqueIds<V>(rs: seq<Record<V>>) {
    forall i, j :: 0 <= i < j < |rs| ==> rs[i].id != rs[j].id
  }

  function Ids<V>(rs: seq<Record<V>>): (l: seq<string>)
    ensures |l| == |rs|
  {
    seq(|rs|, i requires 0 <= i < |rs| => rs[i].id)
  }

  /** The dictionary from ids to records after `rs` was stored into `m` in order. */
  function Stored<V>(m: map<string, Record<V>>, rs: seq<Record<V>>): map<string, Record<V>> {
    if rs == [] then m else Stored(m, rs[..|rs| - 1])[rs[|rs| - 1].id := rs[|rs| - 1]]
  }

  predicate IsChanged<V(==)>(known: map<string, Record<V>>, r: Record<V>) {
    r.id !in known || known[r.id] != r
  }

  function Changed<V(==)>(known: map<string, Record<V>>, target: seq<Record<V>>): seq<Record<V>> {
    if target == [] then []
    else Changed(known, target[..|target| - 1])
         + if IsChanged(known, target[|target| - 1]) then [target[|target| - 1]] else []
  }

  function Analyze<V(==)>(digest: seq<Record<V>> -> string, base: seq<Record<V>>, target: seq<Record<V>>): Result<Bundle<V>, RecordError> {
    if !UniqueIds(base) || !UniqueIds(target) then Err(DuplicateRecordId)
    else Ok(Bundle(Delta(Ids(target), Changed(Stored(map[], base), target)), digest(base), digest(target)))
  }

  function Picked<V>(m: map<string, Record<V>>, order: seq<string>): (rs: seq<Record<V>>)
    requires forall i :: i in order ==> i in m
    ensures |rs| == |order| && forall k :: 0 <= k < |order| ==> rs[k] == m[order[k]]
  {
    seq(|order|, k requires 0 <= k < |order| => m[order[k]])
  }

  /** `[by_id[i] for i in order]`. */
  function Select<V>(m: map<string, Record<V>>, order: seq<string>): Result<seq<Record<V>>, RecordError> {
    if forall i :: i in order ==> i in m then Ok(Picked(m, order)) else Err(KeyError)
  }

  function Apply<V>(base: seq<Record<V>>, d: Delta<V>): Result<seq<Record<V>>, RecordError> {
    Select(Stored(Stored(map[], base), d.upserts), d.order)
  }

  function Reconstruct<V>(digest: seq<Record<V>> -> string, base: seq<Record<V>>, b: Bundle<V>): Result<Reply<V>, RecordError> {
    if digest(base) != b.baseDigest then Ok(HoldBaseMismatch)
    else
      match Apply(base, b.delta)
      case Err(e) => Err(e)
      case Ok(rs) => Ok(Rebuilt(rs, digest(rs) == b.sourceDigest))
  }

  /** The decoder: a dictionary of the base, overwritten record by record, then read in order. */
  method ReconstructRecords<V>(digest: seq<Record<V>> -> string, base: seq<Record<V>>, b: Bundle<V>)
    returns (r: Result<Reply<V>, RecordError>)
    ensures r == Reconstruct(digest, base, b)
  {
    if digest(base) != b.baseDigest {
      return Ok(HoldBaseMismatch);
    }
    var byId := StoreAll(map[], base);
    byId := StoreAll(byId, b.delta.upserts);
    var order := b.delta.order;
    var rebuilt: seq<Record<V>> := [];
    for k := 0 to |order|
      invariant |rebuilt| == k
      invariant forall i :: 0 <= i < k ==> order[i] in byId && rebuilt[i] == byId[order[i]]
    {
      if order[k] !in byId {
        return Err(KeyError);
      }
      rebuilt := rebuilt + [byId[order[k]]];
    }
    assert forall i :: i in order ==> i in byId;
    assert Picked(byId, order) == rebuilt;
    r := Ok(Rebuilt(rebuilt, digest(rebuilt) == b.sourceDigest));
  }

  method StoreAll<V>(m: map<string, Record<V>>, rs: seq<Record<V>>) returns (byId: map<string, Record<V>>)
    ensures byId == Stored(m, rs)
  {
    byId := m;
    for k := 0 to |rs|
      invariant byId == Stored(m, rs[..k])
    {
      assert rs[..k + 1][..k] == rs[..k];
      byId := byId[rs[k].id := rs[k]];
    }
    assert rs[..|rs|] == rs;
  }

  // ----- what a dictionary of records holds ------------------------------------------------

  lemma {:induction false} StoredKeys<V>(m: map<string, Record<V>>, rs: seq<Record<V>>, id: string)
    ensures id in Stored(m, rs) <==> id in m || id in Ids(rs)
    ensures id in Ids(rs) ==> Stored(m, rs)[id] in rs && Stored(m, rs)[id].id == id
    ensures id !in Ids(rs) && id in m ==> Stored(m, rs)[id] == m[id]
  {
    if rs != [] {
      var init, last := rs[..|rs| - 1], rs[|rs| - 1];
      StoredKeys(m, init, id);
      assert Ids(rs) == Ids(init) + [last.id];
    }
  }

  lemma StoredRecord<V>(m: map<string, Record<V>>, rs: seq<Record<V>>, r: Record<V>)
    requires UniqueIds(rs) && r in rs
    ensures r.id in Stored(m, rs) && Stored(m, rs)[r.id] == r
  {
    var k :| 0 <= k < |rs| && rs[k] == r;
    assert Ids(rs)[k] == r.id;
    StoredKeys(m, rs, r.id);
    var q := Stored(m, rs)[r.id];
    var j :| 0 <= j < |rs| && rs[j] == q;
  }

  lemma {:induction false} ChangedMember<V>(known: map<string, Record<V>>, target: seq<Record<V>>, r: Record<V>)
    ensures r in Changed(known, target) <==> r in target && IsChanged(known, r)
  {
    if target != [] {
      var init, last := target[..|target| - 1], target[|target| - 1];
      ChangedMember(known, init, r);
      assert target == init + [last];
    }
  }

  lemma {:induction false} ChangedUnique<V>(known: map<string, Record<V>>, target: seq<Record<V>>)
    requires UniqueIds(target)
    ensures UniqueIds(Changed(known, target))
  {
    if target != [] {
      var init, last := target[..|target| - 1], target[|target| - 1];
      var before := Changed(known, init);
      ChangedUnique(known, init);
      forall j | 0 <= j < |before|
        ensures before[j].id != last.id
      {
        ChangedMember(known, init, before[j]);
        var k :| 0 <= k < |init| && init[k] == before[j];
        assert target[k] == before[j];
      }
    }
  }

  // ----- theorems ----------------------------------------------------------------------------

  /** Applying the delta to the base rebuilds the target, in order and byte-exactly. */
  lemma RoundTrip<V>(digest: seq<Record<V>> -> string, base: seq<Record<V>>, target: seq<Record<V>>)
    ensures Analyze(digest, base, target).Ok? <==> UniqueIds(base) && UniqueIds(target)
    ensures Analyze(digest, base, target).Ok? ==>
              Reconstruct(digest, base, Analyze(digest, base, target).value) == Ok(Rebuilt(target, true))
  {
    if UniqueIds(base) && UniqueIds(target) {
      var known := Stored(map[], base);
      var upserts := Changed(known, target);
      ChangedUnique(known, target);
      var m := Stored(known, upserts);
      forall k | 0 <= k < |target|
        ensures target[k].id in m && m[target[k].id] == target[k]
      {
        if IsChanged(known, target[k]) {
          ChangedMember(known, target, target[k]);
          StoredRecord(known, upserts, target[k]);
        } else {
          UnchangedStays(known, target, k);
        }
      }
      assert forall i :: i in Ids(target) ==> i in m;
      assert Picked(m, Ids(target)) == target;
    }
  }

  /** A record that did not change has no upsert with its id, so the base's record remains. */
  lemma UnchangedStays<V>(known: map<string, Record<V>>, target: seq<Record<V>>, k: nat)
    requires UniqueIds(target) && k < |target| && !IsChanged(known, target[k])
    ensures var m := Stored(known, Changed(known, target));
            target[k].id in m && m[target[k].id] == target[k]
  {
    var upserts := Changed(known, target);
    var id := target[k].id;
    forall j | 0 <= j < |upserts|
      ensures upserts[j].id != id
    {
      ChangedMember(known, target, upserts[j]);
      var i :| 0 <= i < |target| && target[i] == upserts[j];
    }
    StoredKeys(known, upserts, id);
  }

  /** Any delta that rebuilds the target from the base must upsert at least the same ids. */
  lemma DeltaIsMinimal<V>(base: seq<Record<V>>, target: seq<Record<V>>, other: Delta<V>)
    requires UniqueIds(base) && UniqueIds(target) && Apply(base, other) == Ok(target)
    ensures forall r :: r in Changed(Stored(map[], base), target) ==> r.id in Ids(other.upserts)
    ensures |other.order| == |target| && forall k :: 0 <= k < |target| ==> other.order[k] == target[k].id
  {
    hide Apply, Ids, Stored;
    var known := Stored(map[], base);
    OrderSize(base, target, other);
    forall k | 0 <= k < |target|
      ensures other.order[k] == target[k].id
    {
      NeedsUpsert(base, target, other, k);
    }
    forall r | r in Changed(known, target)
      ensures r.id in Ids(other.upserts)
    {
      ChangedMember(known, target, r);
      var k :| 0 <= k < |target| && target[k] == r;
      NeedsUpsert(base, target, other, k);
    }
  }

  lemma OrderSize<V>(base: seq<Record<V>>, target: seq<Record<V>>, other: Delta<V>)
    requires Apply(base, other) == Ok(target)
    ensures |other.order| == |target|
  {
    hide Stored;
  }

  lemma NeedsUpsert<V>(base: seq<Record<V>>, target: seq<Record<V>>, other: Delta<V>, k: nat)
    requires Apply(base, other) == Ok(target) && k < |target| == |other.order|
    ensures other.order[k] == target[k].id
    ensures IsChanged(Stored(map[], base), target[k]) ==> target[k].id in Ids(other.upserts)
  {
    hide Stored, Ids;
    var known := Stored(map[], base);
    var m := Stored(known, other.upserts);
    assert target == Picked(m, other.order);
    var id := other.order[k];
    assert id in other.order && m[id] == target[k];
    StoredKeys(known, other.upserts, id);
    StoredKeys(map[], base, id);
  }

  // ----- what the decoder makes of any delta ---------------------------------------------

  /** The record an id stands for: the last upsert with that id, or else the last record of the base. */
  ghost predicate Current<V(!new)>(base: seq<Record<V>>, upserts: seq<Record<V>>, id: string, r: Record<V>) {
    || IsLast(upserts, id, r)
    || ((forall u :: u in upserts ==> u.id != id) && IsLast(base, id, r))
  }

  ghost predicate IsLast<V(!new)>(rs: seq<Record<V>>, id: string, r: Record<V>) {
    exists k :: LastAt(rs, id, r, k)
  }

  predicate LastAt<V(==)>(rs: seq<Record<V>>, id: string, r: Record<V>, k: int) {
    0 <= k < |rs| && rs[k] == r && r.id == id && forall j :: k < j < |rs| ==> rs[j].id != id
  }

  lemma {:induction false} StoredIsLast<V(!new)>(m: map<string, Record<V>>, rs: seq<Record<V>>, id: string)
    ensures id in Stored(m, rs) <==> id in m || exists r :: r in rs && r.id == id
    ensures (forall r :: r in rs ==> r.id != id) && id in m ==> Stored(m, rs)[id] == m[id]
    ensures (exists r :: r in rs && r.id == id) ==> IsLast(rs, id, Stored(m, rs)[id])
  {
    if rs != [] {
      var init, last := rs[..|rs| - 1], rs[|rs| - 1];
      StoredIsLast(m, init, id);
      assert rs == init + [last];
      if last.id == id {
        assert LastAt(rs, id, last, |rs| - 1);
      } else if exists r :: r in rs && r.id == id {
        assert exists r :: r in init && r.id == id;
        var q := Stored(m, init)[id];
        var k :| LastAt(init, id, q, k);
        assert LastAt(rs, id, q, k);
      }
    }
  }

  /** Two lists are taken if and only if no id occurs twice in either; any other is a duplicate. */
  lemma AnalyzesIff<V>(digest: seq<Record<V>> -> string, base: seq<Record<V>>, target: seq<Record<V>>)
    ensures Analyze(digest, base, target) == Err(DuplicateRecordId) <==>
              || (exists i, j :: 0 <= i < j < |base| && base[i].id == base[j].id)
              || (exists i, j :: 0 <= i < j < |target| && target[i].id == target[j].id)
    ensures Analyze(digest, base, target) != Err(KeyError)
  {
    hide Stored, Changed;
  }

  /**
   * Applying any delta to any base: it fails exactly if an id of the order is neither in the base
   * nor upserted, and otherwise gives, in order, the record each id stands for.
   */
  lemma ApplyGives<V(!new)>(base: seq<Record<V>>, d: Delta<V>)
    ensures Apply(base, d) == Err(KeyError) <==>
              exists id :: id in d.order && (forall r :: r in base ==> r.id != id) && forall u :: u in d.upserts ==> u.id != id
    ensures Apply(base, d).Ok? ==>
              && |Apply(base, d).value| == |d.order|
              && forall k :: 0 <= k < |d.order| ==> Current(base, d.upserts, d.order[k], Apply(base, d).value[k])
  {
    hide Stored;
    var known := Stored(map[], base);
    var m := Stored(known, d.upserts);
    forall id
      ensures id in m <==> (exists r :: r in base && r.id == id) || exists u :: u in d.upserts && u.id == id
      ensures id in m ==> Current(base, d.upserts, id, m[id])
    {
      StoredIsLast(map[], base, id);
      StoredIsLast(known, d.upserts, id);
    }
    if Apply(base, d).Ok? {
      forall k | 0 <= k < |d.order|
        ensures Current(base, d.upserts, d.order[k], Apply(base, d).value[k])
      {
        assert d.order[k] in d.order;
      }
    }
  }

  /**
   * Another base, or another delta, in place of the encoder's: the decoder holds exactly if the
   * base has another digest, and reports exactness exactly if the result has the target's digest.
   */
  lemma ForeignDelta<V>(digest: seq<Record<V>> -> string, base: seq<Record<V>>, target: seq<Record<V>>,
                        other: seq<Record<V>>, d: Delta<V>)
    requires Analyze(digest, base, target).Ok?
    ensures var r := Reconstruct(digest, other, Analyze(digest, base, target).value.(delta := d));
            && (r == Ok(HoldBaseMismatch) <==> digest(other) != digest(base))
            && (digest(other) == digest(base) && Apply(other, d).Err? ==> r == Err(KeyError))
            && (digest(other) == digest(base) && Apply(other, d).Ok? ==>
                  r == Ok(Rebuilt(Apply(other, d).value, digest(Apply(other, d).value) == digest(target))))
  {
    hide Stored, Changed;
  }
}
