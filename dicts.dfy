/**
 * A Python `dict` with string keys, as the catalog uses it: the keys in
 * insertion order, and the value each maps to. Assigning to a present key
 * keeps its place; deleting a key closes the gap; `values()` follows the
 * key order.
 */
module Dicts {

  /** The keys, each once, in insertion order. */
  predicate Distinct(keys: seq<string>)
  {
    forall i, j :: 0 <= i < j < |keys| ==> keys[i] != keys[j]
  }

  datatype Dict<V> = Dict(keys: seq<string>, entries: map<string, V>)
  {
    /** The key list holds each key once, and exactly the keys of the map. */
    predicate Valid()
    {
      Distinct(keys) && (forall k :: k in entries ==> k in keys) && (forall k :: k in keys ==> k in entries)
    }

    /** `d[k] = v`: a new key goes at the end, a present one keeps its place. */
    function Put(k: string, v: V): (d: Dict<V>)
      requires Valid()
      ensures d.Valid()
      ensures d.entries == entries[k := v]
      ensures k in entries ==> d.keys == keys
      ensures k !in entries ==> d.keys == keys + [k]
    {
      if k in entries then Dict(keys, entries[k := v]) else Dict(keys + [k], entries[k := v])
    }

    /** `del d[k]` for a present key; the other keys keep their order. */
    function Remove(k: string): (d: Dict<V>)
      requires Valid()
      ensures d.Valid()
      ensures d.entries == entries - {k}
      ensures forall x :: x in d.keys <==> x in keys && x != k
      ensures k in keys ==> exists i :: 0 <= i < |keys| && keys[i] == k && d.keys == keys[..i] + keys[i + 1..]
      ensures k !in keys ==> d.keys == keys
    {
      WithoutKeepsDistinct(keys, k);
      if k in keys then
        ClosesSlot(keys, k);
        Dict(Without(keys, k), entries - {k})
      else
        WithoutAbsent(keys, k);
        Dict(Without(keys, k), entries - {k})
    }

    /** `list(d.values())`: one value per key, every value of the dict among them. */
    function Values(): (vs: seq<V>)
      requires Valid()
      ensures |vs| == |keys|
      ensures forall k :: k in entries ==> entries[k] in vs
      ensures forall v :: v in vs ==> exists k :: k in entries && entries[k] == v
    {
      var vs := seq(|keys|, i requires 0 <= i < |keys| && keys[i] in entries => entries[keys[i]]);
      assert forall k :: k in entries ==> entries[k] in vs by {
        forall k | k in entries ensures entries[k] in vs {
          var i :| 0 <= i < |keys| && keys[i] == k;
          assert vs[i] == entries[k];
        }
      }
      vs
    }
  }

  /** The list with every occurrence of `k` dropped and the rest in order. */
  function Without(s: seq<string>, k: string): (r: seq<string>)
    ensures |r| <= |s|
    ensures forall x :: x in r <==> x in s && x != k
  {
    if s == [] then []
    else if s[0] == k then Without(s[1..], k)
    else [s[0]] + Without(s[1..], k)
  }

  /** Dropping an absent key changes nothing. */
  lemma {:induction false} WithoutAbsent(s: seq<string>, k: string)
    requires k !in s
    ensures Without(s, k) == s
  {
    if s != [] {
      WithoutAbsent(s[1..], k);
      assert s == [s[0]] + s[1..];
    }
  }

  /** The tail of a list of distinct keys is distinct and does not hold the head. */
  lemma DistinctTail(s: seq<string>)
    requires Distinct(s) && s != []
    ensures Distinct(s[1..]) && s[0] !in s[1..]
  {
    var t := s[1..];
    forall a, b | 0 <= a < b < |t| ensures t[a] != t[b] {
      assert t[a] == s[a + 1] && t[b] == s[b + 1];
    }
    forall a | 0 <= a < |t| ensures t[a] != s[0] {
      assert t[a] == s[a + 1];
    }
  }

  /** In a list of distinct keys, dropping the key at `i` closes the gap it leaves. */
  lemma {:induction false} WithoutAt(s: seq<string>, k: string, i: nat)
    requires Distinct(s) && i < |s| && s[i] == k
    ensures Without(s, k) == s[..i] + s[i + 1..]
  {
    var t := s[1..];
    DistinctTail(s);
    if i == 0 {
      WithoutAbsent(t, k);
    } else {
      assert s[0] != k;
      WithoutAt(t, k, i - 1);
      assert s[..i] == [s[0]] + t[..i - 1];
      assert s[i + 1..] == t[i..];
    }
  }

  /** Dropping a present key from a list of distinct keys closes its slot. */
  lemma ClosesSlot(s: seq<string>, k: string)
    requires Distinct(s) && k in s
    ensures exists i :: 0 <= i < |s| && s[i] == k && Without(s, k) == s[..i] + s[i + 1..]
  {
    var i :| 0 <= i < |s| && s[i] == k;
    WithoutAt(s, k, i);
  }

  lemma {:induction false} WithoutKeepsDistinct(s: seq<string>, k: string)
    requires Distinct(s)
    ensures Distinct(Without(s, k))
  {
    if s != [] {
      assert Distinct(s[1..]) by {
        forall i, j | 0 <= i < j < |s[1..]| ensures s[1..][i] != s[1..][j] {
          assert s[1..][i] == s[i + 1] && s[1..][j] == s[j + 1];
        }
      }
      WithoutKeepsDistinct(s[1..], k);
      if s[0] != k {
        var rest := Without(s[1..], k);
        assert s[0] !in s[1..] by {
          forall i | 0 <= i < |s[1..]| ensures s[1..][i] != s[0] {
            assert s[1..][i] == s[i + 1];
          }
        }
        assert s[0] !in rest;
        var r := [s[0]] + rest;
        forall i, j | 0 <= i < j < |r| ensures r[i] != r[j] {
          if i == 0 {
            assert r[j] == rest[j - 1];
          } else {
            assert r[i] == rest[i - 1] && r[j] == rest[j - 1];
          }
        }
      }
    }
  }

  /** A list of distinct keys has as many elements as it has members. */
  lemma {:induction false} DistinctSize(s: seq<string>)
    requires Distinct(s)
    ensures |set x | x in s| == |s|
  {
    if s != [] {
      var init := s[..|s| - 1];
      var last := s[|s| - 1];
      assert Distinct(init);
      DistinctSize(init);
      assert last !in init;
      assert (set x | x in s) == (set x | x in init) + {last};
    }
  }

  /** `len(d)`: a valid dict has as many entries as keys listed. */
  lemma Size<V>(d: Dict<V>)
    requires d.Valid()
    ensures |d.entries| == |d.keys|
  {
    DistinctSize(d.keys);
    assert d.entries.Keys == set x | x in d.keys;
  }
}
