/** The in-memory CRUD service of the mock layer: a list of entities held in
    a closure variable, with list, get-by-id, create, update and delete. An
    entity is a plain object; its id is the value under the key `idKey`, and
    ids are compared with `===`. A thrown "not found" error is an `Err` with
    the message. The optional `createId` generator is a call into code that
    is not shown: its next value is the parameter `generated`. */
module CrudStore {
  import opened Wrappers
  import opened Records
  import opened Json
  import Seqs

  /** `getId(item) === id`; an entity without the key has the id
      `undefined`, which equals no given id. */
  predicate HasId(item: Obj, idKey: string, id: Json) {
    var v := Get(item, idKey);
    v.Some? && StrictEquals(v.value, id)
  }

  function Matching(idKey: string, id: Json): Obj -> bool {
    item => HasId(item, idKey, id)
  }

  function Missing(idKey: string, id: Json): Obj -> bool {
    item => !HasId(item, idKey, id)
  }

  /** `Entity with id ${id} not found`. */
  function NotFound(id: Json): string {
    "Entity with id " + ToStr(id) + " not found"
  }

  /** `Number(item[idKey])` when it is a finite number; an absent key is
      `undefined`, which converts to NaN. */
  function IdNumber(item: Obj, idKey: string): Option<int> {
    var v := Get(item, idKey);
    if v.None? then None else ToNumber(v.value)
  }

  function IdNumberOf(idKey: string): Obj -> Option<int> {
    item => IdNumber(item, idKey)
  }

  /** The reduce of `create` over some numbering of the entities. */
  function MaxWith(s: seq<Obj>, num: Obj -> Option<int>): int
    decreases |s|
  {
    if s == [] then 0
    else
      var m := MaxWith(s[..|s| - 1], num);
      var v := num(s[|s| - 1]);
      if v.Some? && v.value > m then v.value else m
  }

  /** The reduce finds the largest finite number, and 0 when none is
      larger. */
  lemma {:induction false} MaxWithBounds(s: seq<Obj>, num: Obj -> Option<int>)
    ensures MaxWith(s, num) >= 0
    ensures forall i :: 0 <= i < |s| && num(s[i]).Some? ==> num(s[i]).value <= MaxWith(s, num)
    ensures MaxWith(s, num) == 0 || exists i :: 0 <= i < |s| && num(s[i]) == Some(MaxWith(s, num))
    decreases |s|
  {
    if s != [] {
      var init := s[..|s| - 1];
      MaxWithBounds(init, num);
      assert forall i :: 0 <= i < |init| ==> init[i] == s[i];
    }
  }

  /** `maxId`: the largest finite numeric id, floor 0 (the `|| 0` never
      changes it). */
  function MaxId(data: seq<Obj>, idKey: string): int {
    MaxWith(data, IdNumberOf(idKey))
  }

  /** The entity `create` appends: the payload with the generated id when
      there is a generator, with `maxId + 1` when its own id is `null` or
      absent, and as given otherwise. */
  function NewEntity(data: seq<Obj>, idKey: string, payload: Obj, generated: Option<Json>): Obj {
    if generated.Some? then Set(payload, idKey, generated.value)
    else
      var current := Get(payload, idKey);
      if current.None? || current.value == JNull then Set(payload, idKey, JNum(MaxId(data, idKey) + 1))
      else payload
  }

  /** `item => ({ ...item, ...payload })`. */
  function MergeWith(payload: Obj): Obj -> Obj {
    item => Merge(item, payload)
  }

  /** `s.map(item => hit(item) ? f(item) : item)`. */
  function MapWhere(s: seq<Obj>, hit: Obj -> bool, f: Obj -> Obj): (r: seq<Obj>)
    ensures |r| == |s|
    ensures forall i :: 0 <= i < |s| ==> r[i] == if hit(s[i]) then f(s[i]) else s[i]
  {
    seq(|s|, i requires 0 <= i < |s| => if hit(s[i]) then f(s[i]) else s[i])
  }

  /** The list after `update`: every entity with the id has the payload
      spread over it; the others stay. */
  function UpdateAll(data: seq<Obj>, idKey: string, id: Json, payload: Obj): seq<Obj> {
    MapWhere(data, Matching(idKey, id), MergeWith(payload))
  }

  /** The `map` of `update`, whose callback also records in `updated` the
      last entity it changed. */
  method MapTracking(s: seq<Obj>, hit: Obj -> bool, f: Obj -> Obj) returns (next: seq<Obj>, updated: Option<Obj>)
    ensures next == MapWhere(s, hit, f)
    ensures updated.None? <==> Seqs.LastKept(s, hit) < 0
    ensures updated.Some? ==> Seqs.LastKept(s, hit) >= 0 && updated.value == f(s[Seqs.LastKept(s, hit)])
  {
    next := [];
    updated := None;
    var i := 0;
    while i < |s|
      invariant 0 <= i <= |s|
      invariant |next| == i
      invariant forall j :: 0 <= j < i ==> next[j] == if hit(s[j]) then f(s[j]) else s[j]
      invariant updated.None? <==> Seqs.LastKept(s[..i], hit) < 0
      invariant updated.Some? ==> Seqs.LastKept(s[..i], hit) >= 0 && updated.value == f(s[Seqs.LastKept(s[..i], hit)])
    {
      var item := s[i];
      Seqs.LastKeptSnoc(s, i, hit);
      if hit(item) {
        var u := f(item);
        updated := Some(u);
        next := next + [u];
      } else {
        next := next + [item];
      }
      i := i + 1;
    }
    assert s[..i] == s;
  }

  /** The `reduce` of `create`, with `num` the callback's `Number(...)`. */
  method MaxOf(s: seq<Obj>, num: Obj -> Option<int>) returns (maxId: int)
    ensures maxId == MaxWith(s, num)
  {
    maxId := 0;
    var i := 0;
    while i < |s|
      invariant 0 <= i <= |s|
      invariant maxId == MaxWith(s[..i], num)
    {
      var v := num(s[i]);
      assert s[..i + 1][..i] == s[..i];
      if v.Some? && v.value > maxId {
        maxId := v.value;
      }
      i := i + 1;
    }
    assert s[..i] == s;
  }

  class Store {
    /** The closure variable `data`. */
    var data: seq<Obj>
    const idKey: string

    /** The service starts with a copy of the initial data. */
    constructor(initialData: seq<Obj>, idKey: string)
      ensures data == initialData && this.idKey == idKey
    {
      data := initialData;
      this.idKey := idKey;
    }

    /** `list`: a copy of the current data. */
    method List() returns (items: seq<Obj>)
      ensures items == data
    {
      items := data;
    }

    /** `getById`: the first entity with the id, or the not-found error. */
    method GetById(id: Json) returns (r: Result<Obj, string>)
      ensures r.Ok? <==> exists i :: 0 <= i < |data| && HasId(data[i], idKey, id)
      ensures r.Ok? ==> exists i :: 0 <= i < |data| && data[i] == r.value && HasId(data[i], idKey, id)
                                    && forall j :: 0 <= j < i ==> !HasId(data[j], idKey, id)
      ensures r.Err? ==> r.error == NotFound(id)
    {
      var found := Seqs.FirstWhere(data, Matching(idKey, id));
      if found < |data| {
        assert Matching(idKey, id)(data[found]);
        r := Ok(data[found]);
      } else {
        forall i | 0 <= i < |data| ensures !HasId(data[i], idKey, id) {
          assert !Matching(idKey, id)(data[i]);
        }
        r := Err(NotFound(id));
      }
    }

    /** `create`: exactly one entity is appended and returned. */
    method Create(payload: Obj, generated: Option<Json>) returns (e: Obj)
      modifies this
      ensures e == NewEntity(old(data), idKey, payload, generated)
      ensures data == old(data) + [e]
    {
      var current := Get(payload, idKey);
      if generated.Some? {
        e := Set(payload, idKey, generated.value);
      } else if current.None? || current.value == JNull {
        var maxId := MaxOf(data, IdNumberOf(idKey));
        assert maxId == MaxId(data, idKey);
        NewEntityDefault(data, idKey, payload, maxId);
        e := Set(payload, idKey, JNum(maxId + 1));
      } else {
        e := payload;
      }
      data := data + [e];
    }

    /** `update`: the payload is spread over every entity with the id, and the
        last one so updated is returned; with none, the data keeps its value
        and the not-found error is thrown. */
    method Update(id: Json, payload: Obj) returns (r: Result<Obj, string>)
      modifies this
      ensures data == UpdateAll(old(data), idKey, id, payload)
      ensures r.Ok? <==> exists i :: 0 <= i < |old(data)| && HasId(old(data)[i], idKey, id)
      ensures r.Ok? ==> Seqs.LastKept(old(data), Matching(idKey, id)) >= 0
                        && r.value == Merge(old(data)[Seqs.LastKept(old(data), Matching(idKey, id))], payload)
      ensures r.Err? ==> r.error == NotFound(id) && data == old(data)
    {
      var next, updated := MapTracking(data, Matching(idKey, id), MergeWith(payload));
      if updated.None? {
        NoMatchNoUpdate(data, idKey, id, payload);
        forall j | 0 <= j < |data| ensures !HasId(data[j], idKey, id) {
          assert !Matching(idKey, id)(data[j]);
        }
        data := next;
        r := Err(NotFound(id));
      } else {
        var last := Seqs.LastKept(data, Matching(idKey, id));
        assert Matching(idKey, id)(data[last]);
        data := next;
        r := Ok(updated.value);
      }
    }

    /** `delete`: every entity with the id is removed; when none was, the data
        keeps its value and the not-found error is thrown. */
    method Delete(id: Json) returns (r: Result<(), string>)
      modifies this
      ensures data == Seqs.Filter(old(data), Missing(idKey, id))
      ensures r.Err? <==> forall i :: 0 <= i < |old(data)| ==> !HasId(old(data)[i], idKey, id)
      ensures r.Err? ==> r.error == NotFound(id) && data == old(data)
    {
      var before := |data|;
      var kept := Seqs.Filter(data, Missing(idKey, id));
      if |kept| == before {
        forall i | 0 <= i < |data| ensures !HasId(data[i], idKey, id) {
          if HasId(data[i], idKey, id) {
            assert !Missing(idKey, id)(data[i]);
            Seqs.FilterShorter(data, Missing(idKey, id), i);
          }
        }
        NoMatchNoDelete(data, idKey, id);
        data := kept;
        r := Err(NotFound(id));
      } else {
        var i :| 0 <= i < |data| && HasId(data[i], idKey, id) by {
          if forall i :: 0 <= i < |data| ==> !HasId(data[i], idKey, id) {
            NoMatchNoDelete(data, idKey, id);
          }
        }
        data := kept;
        r := Ok(());
      }
    }
  }

  /** With no entity carrying the id, update changes nothing. */
  lemma NoMatchNoUpdate(data: seq<Obj>, idKey: string, id: Json, payload: Obj)
    requires Seqs.LastKept(data, Matching(idKey, id)) < 0
    ensures UpdateAll(data, idKey, id, payload) == data
  {
    forall j | 0 <= j < |data| ensures !HasId(data[j], idKey, id) {
      assert !Matching(idKey, id)(data[j]);
    }
  }

  /** With no entity carrying the id, delete keeps everything. */
  lemma NoMatchNoDelete(data: seq<Obj>, idKey: string, id: Json)
    requires forall i :: 0 <= i < |data| ==> !HasId(data[i], idKey, id)
    ensures Seqs.Filter(data, Missing(idKey, id)) == data
  {
    forall x | x in data ensures Missing(idKey, id)(x) {
      var i :| 0 <= i < |data| && data[i] == x;
    }
    Seqs.FilterKeepAll(data, Missing(idKey, id));
  }

  // ---------------------------------------------------------------------
  // What create, update and delete promise

  /** Without a generator, a payload whose id is `null` or absent gets an id
      one above every finite numeric id in the data, and at least 1. */
  lemma NewIdAboveAll(data: seq<Obj>, idKey: string, payload: Obj)
    requires Get(payload, idKey).None? || Get(payload, idKey) == Some(JNull)
    ensures var e := NewEntity(data, idKey, payload, None);
            && Get(e, idKey).Some? && Get(e, idKey).value.JNum?
            && Get(e, idKey).value.n >= 1
            && forall i :: (0 <= i < |data| && IdNumber(data[i], idKey).Some?)
                 ==> IdNumber(data[i], idKey).value < Get(e, idKey).value.n
  {
    NewEntityDefault(data, idKey, payload, MaxId(data, idKey));
    GetSet(payload, idKey, JNum(MaxId(data, idKey) + 1), idKey);
    MaxIdBound(data, idKey);
  }

  lemma NewEntityDefault(data: seq<Obj>, idKey: string, payload: Obj, m: int)
    requires Get(payload, idKey).None? || Get(payload, idKey) == Some(JNull)
    requires m == MaxId(data, idKey)
    ensures NewEntity(data, idKey, payload, None) == Set(payload, idKey, JNum(m + 1))
  {
  }

  lemma MaxIdBound(data: seq<Obj>, idKey: string)
    ensures MaxId(data, idKey) >= 0
    ensures forall i :: 0 <= i < |data| && IdNumber(data[i], idKey).Some? ==> IdNumber(data[i], idKey).value <= MaxId(data, idKey)
  {
    forall i | 0 <= i < |data| && IdNumber(data[i], idKey).Some?
      ensures IdNumber(data[i], idKey).value <= MaxId(data, idKey)
    {
      MaxWithBounds(data, IdNumberOf(idKey));
      assert IdNumberOf(idKey)(data[i]) == IdNumber(data[i], idKey);
    }
    MaxWithBounds(data, IdNumberOf(idKey));
  }

  /** A generated id is stored; a caller's own non-null id is kept as given,
      with no check that it is unused. Every other field is the payload's. */
  lemma NewEntityFields(data: seq<Obj>, idKey: string, payload: Obj, generated: Option<Json>, k: string)
    ensures generated.Some? ==> Get(NewEntity(data, idKey, payload, generated), idKey) == generated
    ensures (generated.None? && Get(payload, idKey).Some? && Get(payload, idKey) != Some(JNull))
              ==> NewEntity(data, idKey, payload, generated) == payload
    ensures k != idKey ==> Get(NewEntity(data, idKey, payload, generated), k) == Get(payload, k)
  {
    if generated.Some? {
      GetSet(payload, idKey, generated.value, idKey);
      GetSet(payload, idKey, generated.value, k);
    } else {
      GetSet(payload, idKey, JNum(MaxId(data, idKey) + 1), k);
    }
  }

  /** Creating with an id the data already holds makes two entities with
      that id. */
  lemma CreateAllowsDuplicate(data: seq<Obj>, idKey: string, payload: Obj, j: nat)
    requires j < |data| && Get(payload, idKey).Some? && IsPrimitive(Get(payload, idKey).value)
    requires Get(payload, idKey).value != JNull && HasId(data[j], idKey, Get(payload, idKey).value)
    ensures var after := data + [NewEntity(data, idKey, payload, None)];
            var id := Get(payload, idKey).value;
            HasId(after[j], idKey, id) && HasId(after[|data|], idKey, id)
  {
    NewEntityFields(data, idKey, payload, None, idKey);
  }

  /** An updated entity reads the payload's value for each key the payload
      has, and its old value for every other key; the rest of the list is
      unchanged. */
  lemma UpdateEffect(data: seq<Obj>, idKey: string, id: Json, payload: Obj, i: nat, k: string)
    requires i < |data| && WellFormed(payload)
    ensures HasId(data[i], idKey, id) ==>
              Get(UpdateAll(data, idKey, id, payload)[i], k) == if k in Keys(payload) then Get(payload, k) else Get(data[i], k)
    ensures !HasId(data[i], idKey, id) ==> UpdateAll(data, idKey, id, payload)[i] == data[i]
  {
    GetMerge(data[i], payload, k);
  }

  /** After delete no entity has the id, the survivors keep their order, and
      the list loses exactly the entities that had it. */
  lemma DeleteEffect(data: seq<Obj>, idKey: string, id: Json)
    ensures var kept := Seqs.Filter(data, Missing(idKey, id));
            && (forall i :: 0 <= i < |kept| ==> !HasId(kept[i], idKey, id))
            && (forall i :: 0 <= i < |data| && !HasId(data[i], idKey, id) ==> data[i] in kept)
            && Seqs.IsSubsequence(kept, data)
            && |kept| == |data| - Seqs.Count(data, Matching(idKey, id))
  {
    var kept := Seqs.Filter(data, Missing(idKey, id));
    forall i | 0 <= i < |kept| ensures !HasId(kept[i], idKey, id) {
      assert Missing(idKey, id)(kept[i]);
    }
    forall i | 0 <= i < |data| && !HasId(data[i], idKey, id) ensures data[i] in kept {
      assert Missing(idKey, id)(data[i]);
    }
    Seqs.FilterIsSubsequence(data, Missing(idKey, id));
    CountSplit(data, idKey, id);
  }

  /** Every entity either has the id or not. */
  lemma {:induction false} CountSplit(data: seq<Obj>, idKey: string, id: Json)
    ensures Seqs.Count(data, Matching(idKey, id)) + |Seqs.Filter(data, Missing(idKey, id))| == |data|
    decreases |data|
  {
    if data != [] {
      CountSplit(data[1..], idKey, id);
      assert Matching(idKey, id)(data[0]) == !Missing(idKey, id)(data[0]);
    }
  }
}
