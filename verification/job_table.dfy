/** The store's `jobs` registry, a JavaScript `Map<string, TimerJob>`.
    A JavaScript Map iterates its entries in insertion order; `set` on a key
    already present replaces the value in place, and `delete` drops the entry.
    The registry is therefore modelled as the sequence of its entries in
    iteration order, with a plain Dafny `map` (`AsMap`) as its reference view. */
module JobTable {
  import opened Wrappers

  /** One `TimerJob`: the id it was registered under and its action. */
  datatype Job<A> = Job(id: string, fn: A)

  type Table<A> = seq<Job<A>>

  /** No id appears twice. */
  predicate UniqueIds<A>(t: Table<A>) {
    forall i, j :: 0 <= i < j < |t| ==> t[i].id != t[j].id
  }

  predicate HasId<A>(t: Table<A>, id: string) {
    exists i :: 0 <= i < |t| && t[i].id == id
  }

  /** Position of the first entry under `id`, if any. */
  function Find<A>(t: Table<A>, id: string): (r: Option<nat>)
    ensures r.Some? <==> HasId(t, id)
    ensures r.Some? ==> r.value < |t| && t[r.value].id == id
    ensures r.Some? ==> forall i :: 0 <= i < r.value ==> t[i].id != id
    decreases |t|
  {
    if |t| == 0 then None
    else if t[0].id == id then Some(0)
    else
      match Find(t[1..], id)
      case None =>
        assert forall i :: 1 <= i < |t| ==> t[i] == t[1..][i - 1];
        None
      case Some(k) =>
        assert t[k + 1] == t[1..][k];
        Some(k + 1)
  }

  /** `jobs.get(id)?.fn`. */
  function Get<A>(t: Table<A>, id: string): Option<A> {
    match Find(t, id)
    case None => None
    case Some(i) => Some(t[i].fn)
  }

  /** The registry as a plain map from id to action. */
  function AsMap<A>(t: Table<A>): map<string, A>
    decreases |t|
  {
    if |t| == 0 then map[] else AsMap(t[1..])[t[0].id := t[0].fn]
  }

  /** The map view has a key exactly when the table finds it, with the same action. */
  lemma {:induction false} AsMapLookup<A>(t: Table<A>, k: string)
    ensures k in AsMap(t) <==> Get(t, k).Some?
    ensures k in AsMap(t) ==> Get(t, k) == Some(AsMap(t)[k])
    decreases |t|
  {
    if |t| > 0 {
      GetCons(t);
      if k != t[0].id {
        AsMapLookup(t[1..], k);
      }
    }
  }

  /** Looking up in a non-empty table: the head answers for its own id and
      the tail answers for every other id. */
  lemma GetCons<A>(t: Table<A>)
    requires |t| > 0
    ensures Get(t, t[0].id) == Some(t[0].fn)
    ensures forall k :: k != t[0].id ==> Get(t, k) == Get(t[1..], k)
  {
  }

  /** `jobs.set(id, job)`: replaces the action in place when `id` is present,
      appends a new last entry otherwise. */
  function Put<A>(t: Table<A>, id: string, f: A): (r: Table<A>)
    ensures Get(r, id) == Some(f)
    ensures forall k :: k != id ==> Get(r, k) == Get(t, k)
    ensures |r| == if HasId(t, id) then |t| else |t| + 1
    ensures forall i :: 0 <= i < |t| && t[i].id != id ==> r[i] == t[i]
    ensures UniqueIds(t) ==> UniqueIds(r)
  {
    match Find(t, id)
    case Some(i) =>
      var r := t[i := Job(id, f)];
      forall k ensures Get(r, id) == Some(f) && (k != id ==> Get(r, k) == Get(t, k)) {
        PutAtFirst(t, i, id, f, k);
      }
      assert forall j :: 0 <= j < |t| ==> r[j].id == t[j].id;
      r
    case None =>
      var r := t + [Job(id, f)];
      AppendFresh(t, id, f);
      r
  }

  /** Replacing the first entry under `id` answers `f` for `id` and leaves the
      lookup of any other key `k` alone. */
  lemma {:induction false} PutAtFirst<A>(t: Table<A>, i: nat, id: string, f: A, k: string)
    requires Find(t, id) == Some(i)
    ensures Get(t[i := Job(id, f)], id) == Some(f)
    ensures k != id ==> Get(t[i := Job(id, f)], k) == Get(t, k)
    decreases |t|
  {
    var r := t[i := Job(id, f)];
    GetCons(t);
    GetCons(r);
    if i == 0 {
      assert r[1..] == t[1..];
    } else {
      assert r[1..] == t[1..][i - 1 := Job(id, f)];
      assert Find(t[1..], id) == Some(i - 1) by {
        assert t[1..][i - 1] == t[i];
      }
      PutAtFirst(t[1..], i - 1, id, f, k);
    }
  }

  lemma {:induction false} AppendFresh<A>(t: Table<A>, id: string, f: A)
    requires !HasId(t, id)
    ensures Get(t + [Job(id, f)], id) == Some(f)
    ensures forall k :: k != id ==> Get(t + [Job(id, f)], k) == Get(t, k)
    decreases |t|
  {
    var r := t + [Job(id, f)];
    if |t| > 0 {
      GetCons(t);
      GetCons(r);
      assert r[1..] == t[1..] + [Job(id, f)];
      assert !HasId(t[1..], id) by {
        forall i | 0 <= i < |t| - 1 ensures t[1..][i].id != id { assert t[1..][i] == t[i + 1]; }
      }
      AppendFresh(t[1..], id, f);
    }
  }

  /** `jobs.delete(id)`: drops the entry under `id`, keeping the order of the rest. */
  function Remove<A>(t: Table<A>, id: string): (r: Table<A>)
    ensures Get(r, id) == None
    ensures forall k :: k != id ==> Get(r, k) == Get(t, k)
    ensures forall i :: 0 <= i < |r| ==> r[i].id != id && HasId(t, r[i].id)
    ensures UniqueIds(t) ==> |r| == if HasId(t, id) then |t| - 1 else |t|
    ensures UniqueIds(t) ==> UniqueIds(r)
    ensures !HasId(t, id) ==> r == t
    ensures UniqueIds(t) && Find(t, id).Some? ==>
      r == t[..Find(t, id).value] + t[Find(t, id).value + 1..]
    decreases |t|
  {
    if |t| == 0 then []
    else
      var rest := Remove(t[1..], id);
      var r := if t[0].id == id then rest else [t[0]] + rest;
      RemoveConsLookups(t, id, rest, r);
      RemoveConsMembers(t, id, rest, r);
      RemoveConsUnique(t, id, rest, r);
      RemoveConsOrder(t, id, rest, r);
      r
  }

  /** A table with unique ids has a tail with unique ids that lacks the head's id. */
  lemma UniqueTail<A>(t: Table<A>)
    requires |t| > 0 && UniqueIds(t)
    ensures UniqueIds(t[1..]) && !HasId(t[1..], t[0].id)
  {
  }

  lemma RemoveConsLookups<A>(t: Table<A>, id: string, rest: Table<A>, r: Table<A>)
    requires |t| > 0
    requires r == if t[0].id == id then rest else [t[0]] + rest
    requires Get(rest, id) == None
    requires forall k :: k != id ==> Get(rest, k) == Get(t[1..], k)
    ensures Get(r, id) == None
    ensures forall k :: k != id ==> Get(r, k) == Get(t, k)
  {
    GetCons(t);
    if t[0].id != id {
      GetCons(r);
      assert r[1..] == rest;
    }
  }

  lemma RemoveConsMembers<A>(t: Table<A>, id: string, rest: Table<A>, r: Table<A>)
    requires |t| > 0
    requires r == if t[0].id == id then rest else [t[0]] + rest
    requires forall i :: 0 <= i < |rest| ==> rest[i].id != id && HasId(t[1..], rest[i].id)
    requires !HasId(t[1..], id) ==> rest == t[1..]
    ensures forall i :: 0 <= i < |r| ==> r[i].id != id && HasId(t, r[i].id)
    ensures !HasId(t, id) ==> r == t
  {
    assert forall i :: 1 <= i < |t| ==> t[i] == t[1..][i - 1];
    forall i | 0 <= i < |rest| ensures HasId(t, rest[i].id) {
      var j :| 0 <= j < |t| - 1 && t[1..][j].id == rest[i].id;
      assert t[j + 1].id == rest[i].id;
    }
  }

  lemma RemoveConsUnique<A>(t: Table<A>, id: string, rest: Table<A>, r: Table<A>)
    requires |t| > 0
    requires r == if t[0].id == id then rest else [t[0]] + rest
    requires forall i :: 0 <= i < |rest| ==> HasId(t[1..], rest[i].id)
    requires UniqueIds(t[1..]) ==> |rest| == if HasId(t[1..], id) then |t| - 2 else |t| - 1
    requires UniqueIds(t[1..]) ==> UniqueIds(rest)
    ensures UniqueIds(t) ==> |r| == if HasId(t, id) then |t| - 1 else |t|
    ensures UniqueIds(t) ==> UniqueIds(r)
  {
    if UniqueIds(t) {
      UniqueTail(t);
      assert HasId(t, id) <==> t[0].id == id || HasId(t[1..], id) by {
        assert forall i :: 1 <= i < |t| ==> t[i] == t[1..][i - 1];
      }
      if t[0].id != id {
        forall a, b | 0 <= a < b < |r| ensures r[a].id != r[b].id {
          if a > 0 {
            assert r[a] == rest[a - 1] && r[b] == rest[b - 1];
          } else {
            assert r[b] == rest[b - 1];
            assert HasId(t[1..], rest[b - 1].id);
          }
        }
      }
    }
  }

  /** Deleting from a table with unique ids cuts out exactly the entry under
      `id`: the entries before and after it stay, in their order. */
  lemma RemoveConsOrder<A>(t: Table<A>, id: string, rest: Table<A>, r: Table<A>)
    requires |t| > 0
    requires r == if t[0].id == id then rest else [t[0]] + rest
    requires !HasId(t[1..], id) ==> rest == t[1..]
    requires UniqueIds(t[1..]) && Find(t[1..], id).Some? ==>
      rest == t[1..][..Find(t[1..], id).value] + t[1..][Find(t[1..], id).value + 1..]
    ensures UniqueIds(t) && Find(t, id).Some? ==>
      r == t[..Find(t, id).value] + t[Find(t, id).value + 1..]
  {
    if UniqueIds(t) && Find(t, id).Some? {
      UniqueTail(t);
      if t[0].id == id {
        assert rest == t[1..];
        assert t[..0] + t[1..] == t[1..];
      } else {
        RemoveLaterOrder(t, id, rest);
      }
    }
  }

  /** The cons step of `RemoveConsOrder` when the entry under `id` lies in the tail. */
  lemma RemoveLaterOrder<A>(t: Table<A>, id: string, rest: Table<A>)
    requires |t| > 0 && t[0].id != id
    requires Find(t[1..], id).Some?
    requires rest == t[1..][..Find(t[1..], id).value] + t[1..][Find(t[1..], id).value + 1..]
    ensures Find(t, id).Some?
    ensures [t[0]] + rest == t[..Find(t, id).value] + t[Find(t, id).value + 1..]
  {
    var j := Find(t[1..], id).value;
    assert Find(t, id) == Some(j + 1);
    ConsSlices(t, j);
  }

  /** Slicing the tail of a sequence is slicing the sequence one place later. */
  lemma ConsSlices<T>(t: seq<T>, j: nat)
    requires j + 1 < |t|
    ensures t[..j + 1] == [t[0]] + t[1..][..j]
    ensures t[j + 2..] == t[1..][j + 1..]
  {
    assert t[..j + 1] == [t[0]] + t[1..][..j];
  }

  /** `set` agrees with updating the reference map. */
  lemma PutIsMapUpdate<A>(t: Table<A>, id: string, f: A)
    ensures AsMap(Put(t, id, f)) == AsMap(t)[id := f]
  {
    var r := Put(t, id, f);
    LookupsGiveUpdate(r, t, id, f);
  }

  lemma LookupsGiveUpdate<A>(r: Table<A>, t: Table<A>, id: string, f: A)
    requires Get(r, id) == Some(f)
    requires forall k :: k != id ==> Get(r, k) == Get(t, k)
    ensures AsMap(r) == AsMap(t)[id := f]
  {
    var m, m' := AsMap(r), AsMap(t)[id := f];
    forall k ensures (k in m <==> k in m') && (k in m ==> m[k] == m'[k]) {
      AsMapLookup(r, k);
      if k != id {
        AsMapLookup(t, k);
      }
    }
    assert m.Keys == m'.Keys;
  }

  /** `delete` agrees with removing the key from the reference map. */
  lemma {:induction false} RemoveIsMapRemove<A>(t: Table<A>, id: string)
    ensures AsMap(Remove(t, id)) == AsMap(t) - {id}
    decreases |t|
  {
    if |t| > 0 {
      var rest := Remove(t[1..], id);
      RemoveIsMapRemove(t[1..], id);
      var m := AsMap(t[1..]);
      assert AsMap(t) == m[t[0].id := t[0].fn];
      if t[0].id == id {
        assert Remove(t, id) == rest;
        UpdateThenRemove(m, id, t[0].fn);
      } else {
        var r := [t[0]] + rest;
        assert Remove(t, id) == r;
        assert r[1..] == rest;
        assert AsMap(r) == (m - {id})[t[0].id := t[0].fn];
        RemoveThenUpdate(m, id, t[0].id, t[0].fn);
      }
    }
  }

  lemma UpdateThenRemove<A>(m: map<string, A>, k: string, v: A)
    ensures m[k := v] - {k} == m - {k}
  {
  }

  lemma RemoveThenUpdate<A>(m: map<string, A>, gone: string, k: string, v: A)
    requires k != gone
    ensures (m - {gone})[k := v] == m[k := v] - {gone}
  {
  }
}
