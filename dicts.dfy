/** A Python `dict`, as far as the rules engine relies on one: at most one value per key,
    and the keys remembered in insertion order. Assigning to a key that is already present
    keeps its place; deleting a key drops it from the order. The order matters because the
    expiry sweep walks a snapshot of `rules.items()`, and that fixes the order of the
    expiry entries in the change list. */
module Dicts {

  /** No element occurs twice. */
  ghost predicate Distinct<T>(s: seq<T>) {
    forall i, j :: 0 <= i < j < |s| ==> s[i] != s[j]
  }

  lemma DistinctSnoc<T>(s: seq<T>, x: T)
    requires Distinct(s) && x !in s
    ensures Distinct(s + [x])
  {
  }

  lemma DistinctCons<T>(x: T, s: seq<T>)
    requires Distinct(s) && x !in s
    ensures Distinct([x] + s)
  {
  }

  /** `s` with `x` dropped, the other elements in their order. */
  function Without<T(==,!new)>(s: seq<T>, x: T): (r: seq<T>)
    ensures forall y :: y in r <==> y in s && y != x
    ensures x !in s ==> r == s
    ensures Distinct(s) ==> Distinct(r)
    ensures Distinct(s) && x in s ==> |r| == |s| - 1
  {
    if s == [] then []
    else
      var rest := Without(s[1..], x);
      assert Distinct(s) ==> s[0] !in s[1..] && Distinct(s[1..]);
      if s[0] == x then rest
      else
        assert Distinct(s) ==> Distinct([s[0]] + rest) by {
          if Distinct(s) { DistinctCons(s[0], rest); }
        }
        [s[0]] + rest
  }

  /** Dropping an element that occurs once keeps the others in their relative order. */
  lemma {:induction false} WithoutKeepsOrder<T(!new)>(s: seq<T>, x: T, i: nat)
    requires Distinct(s) && i < |s| && s[i] == x
    ensures Without(s, x) == s[..i] + s[i + 1..]
  {
    var tail := s[1..];
    assert Distinct(tail) by {
      forall a, b | 0 <= a < b < |tail| ensures tail[a] != tail[b] {
        assert tail[a] == s[a + 1] && tail[b] == s[b + 1];
      }
    }
    if i == 0 {
      assert x !in tail by {
        forall a | 0 <= a < |tail| ensures tail[a] != x {
          assert tail[a] == s[a + 1];
        }
      }
      assert Without(s, x) == Without(tail, x) == tail;
      assert s[..0] + s[1..] == tail;
    } else {
      assert s[0] != x;
      assert tail[i - 1] == x;
      WithoutKeepsOrder(tail, x, i - 1);
      assert Without(s, x) == [s[0]] + Without(tail, x);
      assert tail[..i - 1] == s[1..i] && tail[i..] == s[i + 1..];
      assert s[..i] == [s[0]] + s[1..i];
    }
  }

  datatype Dict<K(==,!new), V> = Dict(keys: seq<K>, values: map<K, V>) {

    /** The key order lists every key of the map exactly once. */
    ghost predicate Valid() {
      Distinct(keys) && forall k :: k in values <==> k in keys
    }

    /** `d[k] = v`: a new key goes to the end of the order, a present key keeps its place. */
    function Set(k: K, v: V): (d: Dict<K, V>)
      ensures d.values == values[k := v]
      ensures k in values ==> d.keys == keys
      ensures k !in values ==> d.keys == keys + [k]
      ensures Valid() ==> d.Valid() && |d.keys| == |keys| + (if k in values then 0 else 1)
    {
      if k in values then Dict(keys, values[k := v])
      else
        assert Valid() ==> Distinct(keys + [k]) by {
          if Valid() { DistinctSnoc(keys, k); }
        }
        Dict(keys + [k], values[k := v])
    }

    /** `del d[k]`; Python raises KeyError when `k` is absent, hence the precondition. */
    function Remove(k: K): (d: Dict<K, V>)
      requires k in values
      ensures d.values == values - {k} && k !in d.values
      ensures Valid() ==> d.Valid() && |d.keys| == |keys| - 1
      ensures Valid() ==> forall j :: j in d.keys <==> j in keys && j != k
      ensures d.keys == Without(keys, k)
    {
      Dict(Without(keys, k), values - {k})
    }
  }

  /** `{}` */
  function Empty<K(==,!new), V>(): (d: Dict<K, V>)
    ensures d.Valid() && d.keys == [] && d.values == map[]
  {
    Dict([], map[])
  }
}
