/** Plain JavaScript objects with string keys, as an ordered list of entries.
    The order is the one `Object.keys`/`Object.entries` and object spread
    use: keys in the order they were first added. */
module Records {
  import opened Wrappers
  import Seqs

  datatype Entry<+V> = Entry(key: string, value: V)

  type Record<V> = seq<Entry<V>>

  /** `Object.keys(o)`. */
  function Keys<V>(o: Record<V>): (ks: seq<string>)
    ensures |ks| == |o|
    ensures forall i :: 0 <= i < |o| ==> ks[i] == o[i].key
    decreases |o|
  {
    if o == [] then [] else [o[0].key] + Keys(o[1..])
  }

  /** A JavaScript object never holds the same key twice. */
  predicate WellFormed<V>(o: Record<V>) {
    Seqs.Distinct(Keys(o))
  }

  /** `o[k]`, where `None` stands for `undefined` (no such key). */
  function Get<V>(o: Record<V>, k: string): (r: Option<V>)
    ensures r.None? <==> k !in Keys(o)
    ensures r.Some? ==> exists i :: 0 <= i < |o| && o[i] == Entry(k, r.value)
    decreases |o|
  {
    if o == [] then None
    else if o[0].key == k then Some(o[0].value)
    else Get(o[1..], k)
  }

  /** `o[k] = v`: an existing key keeps its place, a new key goes last. */
  function Set<V>(o: Record<V>, k: string, v: V): (r: Record<V>)
    ensures |r| == if k in Keys(o) then |o| else |o| + 1
    decreases |o|
  {
    if o == [] then [Entry(k, v)]
    else if o[0].key == k then [Entry(k, v)] + o[1..]
    else [o[0]] + Set(o[1..], k, v)
  }

  /** After `o[k] = v`, reading `k` gives `v` and every other key reads as before. */
  lemma {:induction false} GetSet<V>(o: Record<V>, k: string, v: V, k': string)
    ensures Get(Set(o, k, v), k') == if k' == k then Some(v) else Get(o, k')
    decreases |o|
  {
    if o != [] && o[0].key != k {
      GetSet(o[1..], k, v, k');
      assert ([o[0]] + Set(o[1..], k, v))[1..] == Set(o[1..], k, v);
    }
  }

  /** `o[k] = v` keeps the key order and appends a new key. */
  lemma {:induction false} KeysSet<V>(o: Record<V>, k: string, v: V)
    ensures Keys(Set(o, k, v)) == if k in Keys(o) then Keys(o) else Keys(o) + [k]
    decreases |o|
  {
    if o != [] {
      assert Keys(o) == [o[0].key] + Keys(o[1..]);
      if o[0].key != k {
        KeysSet(o[1..], k, v);
        var rest := Set(o[1..], k, v);
        assert ([o[0]] + rest)[1..] == rest;
      } else {
        assert ([Entry(k, v)] + o[1..])[1..] == o[1..];
      }
    }
  }

  lemma SetWellFormed<V>(o: Record<V>, k: string, v: V)
    requires WellFormed(o)
    ensures WellFormed(Set(o, k, v))
  {
    KeysSet(o, k, v);
    var ks := Keys(o);
    if k !in ks {
      var rs := ks + [k];
      forall i, j | 0 <= i < j < |rs| ensures rs[i] != rs[j] {
        if j == |ks| { assert rs[i] == ks[i]; }
      }
    }
  }

  /** `{ ...a, ...b }`: `b`'s entries are written over `a` in `b`'s order. */
  function Merge<V>(a: Record<V>, b: Record<V>): Record<V>
    decreases |b|
  {
    if b == [] then a else Merge(Set(a, b[0].key, b[0].value), b[1..])
  }

  /** A key of the merge reads from `b` when `b` has it, and from `a` otherwise. */
  lemma {:induction false} GetMerge<V>(a: Record<V>, b: Record<V>, k: string)
    requires WellFormed(b)
    ensures Get(Merge(a, b), k) == if k in Keys(b) then Get(b, k) else Get(a, k)
    decreases |b|
  {
    if b != [] {
      var a' := Set(a, b[0].key, b[0].value);
      assert Keys(b) == [b[0].key] + Keys(b[1..]);
      assert WellFormed(b[1..]) by {
        forall i, j | 0 <= i < j < |b[1..]| ensures Keys(b[1..])[i] != Keys(b[1..])[j] {
          assert Keys(b[1..])[i] == Keys(b)[i + 1];
          assert Keys(b[1..])[j] == Keys(b)[j + 1];
        }
      }
      GetMerge(a', b[1..], k);
      GetSet(a, b[0].key, b[0].value, k);
      if k == b[0].key {
        assert k !in Keys(b[1..]) by {
          forall i | 0 <= i < |b[1..]| ensures Keys(b[1..])[i] != k {
            assert Keys(b[1..])[i] == Keys(b)[i + 1];
          }
        }
      }
    }
  }

  /** `delete o[k]`. */
  function Delete<V>(o: Record<V>, k: string): (r: Record<V>)
    ensures Get(r, k) == None
    ensures forall k' :: k' != k ==> Get(r, k') == Get(o, k')
    ensures forall i :: 0 <= i < |r| ==> r[i] in o
    decreases |o|
  {
    if o == [] then []
    else if o[0].key == k then Delete(o[1..], k)
    else [o[0]] + Delete(o[1..], k)
  }
}
