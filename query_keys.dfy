/** The query keys `createCrudQueryKeys(resource)` hands out for one
    resource: `all`, `list(filters)` and `detail(id)`. A key is a list of
    values; `None` stands for an `undefined` element (a missing filter). */
module QueryKeys {
  import opened Wrappers
  import opened Json

  type Key = seq<Option<Json>>

  /** `all`: the root key `[resource]`. */
  function All(resource: string): (k: Key)
    ensures |k| == 1 && k[0] == Some(JStr(resource))
  {
    [Some(JStr(resource))]
  }

  /** `list(filters)`: `[resource, "list", filters]`. */
  function List(resource: string, filters: Option<Json>): (k: Key)
    ensures |k| == 3 && k[..1] == All(resource) && k[1] == Some(JStr("list")) && k[2] == filters
  {
    All(resource) + [Some(JStr("list")), filters]
  }

  /** `detail(id)`: `[resource, "detail", id]`. */
  function Detail(resource: string, id: Option<Json>): (k: Key)
    ensures |k| == 3 && k[..1] == All(resource) && k[1] == Some(JStr("detail")) && k[2] == id
  {
    All(resource) + [Some(JStr("detail")), id]
  }

  /** `prefix` is the start of `k`, element by element (an exact-element
      prefix; TanStack matches object elements partially, which agrees with
      this for the keys `all`, `detail(id)` and `list(undefined)` that the
      hooks invalidate with). */
  predicate IsPrefix(prefix: Key, k: Key) {
    |prefix| <= |k| && k[..|prefix|] == prefix
  }

  /** Invalidating `all` reaches exactly the keys of the same resource: every
      list and detail key of the resource, and none of another. */
  lemma AllCoversResource(r: string, r': string, filters: Option<Json>, id: Option<Json>)
    ensures IsPrefix(All(r), List(r', filters)) <==> r == r'
    ensures IsPrefix(All(r), Detail(r', id)) <==> r == r'
    ensures IsPrefix(All(r), All(r')) <==> r == r'
  {
    if IsPrefix(All(r), List(r', filters)) {
      assert List(r', filters)[0] == Some(JStr(r'));
    }
    if IsPrefix(All(r), Detail(r', id)) {
      assert Detail(r', id)[0] == Some(JStr(r'));
    }
  }

  /** A list key is never a detail key, and the keys of two resources or two
      arguments differ. */
  lemma KeysDistinct(r: string, r': string, filters: Option<Json>, id: Option<Json>)
    ensures List(r, filters) != Detail(r', id)
    ensures List(r, filters) == List(r', id) <==> r == r' && filters == id
    ensures Detail(r, filters) == Detail(r', id) <==> r == r' && filters == id
  {
    assert List(r, filters)[1] != Detail(r', id)[1];
    if List(r, filters) == List(r', id) {
      assert List(r, filters)[0] == List(r', id)[0];
    }
    if Detail(r, filters) == Detail(r', id) {
      assert Detail(r, filters)[0] == Detail(r', id)[0];
    }
  }

  /** A list key covers nothing but itself among the keys of the resource:
      invalidating `list(undefined)` does not reach `list(f)` for another
      `f`, nor any detail key. */
  lemma ListCoversOnlyItself(r: string, f: Option<Json>, g: Option<Json>, id: Option<Json>)
    ensures IsPrefix(List(r, f), List(r, g)) <==> f == g
    ensures !IsPrefix(List(r, f), Detail(r, id))
  {
    if IsPrefix(List(r, f), List(r, g)) {
      assert List(r, g)[..3] == List(r, g);
    }
  }
}
