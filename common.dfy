/** Option and Result, the shapes every soft failure (an empty Optional, a null
    return) and every hard failure (an exception) of the system is modelled by. */
module Wrappers {

  datatype Option<+T> = None | Some(value: T) {
    function GetOr(default: T): T {
      match this
      case Some(v) => v
      case None => default
    }
  }

  datatype Result<+T, +E> = Ok(value: T) | Err(error: E)
}

/** An insertion-ordered map (Java's LinkedHashMap, and the order-preserving
    JSON object) as a sequence of key/value pairs. `Put` on a present key
    replaces the value and keeps the key's position, as LinkedHashMap.put does. */
module OrderedMaps {
  import opened Wrappers

  function KeysOf<K, V>(s: seq<(K, V)>): (r: seq<K>)
    ensures |r| == |s|
    ensures forall i :: 0 <= i < |s| ==> r[i] == s[i].0
  {
    if s == [] then [] else [s[0].0] + KeysOf(s[1..])
  }

  function ValuesOf<K, V>(s: seq<(K, V)>): (r: seq<V>)
    ensures |r| == |s|
    ensures forall i :: 0 <= i < |s| ==> r[i] == s[i].1
  {
    if s == [] then [] else [s[0].1] + ValuesOf(s[1..])
  }

  predicate DistinctKeys<K(==), V>(s: seq<(K, V)>) {
    forall i, j :: 0 <= i < j < |s| ==> s[i].0 != s[j].0
  }

  /** The value of the first pair whose key is `k`. */
  function Get<K(==), V>(s: seq<(K, V)>, k: K): (r: Option<V>)
    ensures r.Some? <==> k in KeysOf(s)
  {
    if s == [] then None
    else if s[0].0 == k then Some(s[0].1)
    else Get(s[1..], k)
  }

  /** Put(s, k, v): the pair for `k` gets the value `v` in place, or is appended. */
  function Put<K(==), V>(s: seq<(K, V)>, k: K, v: V): (r: seq<(K, V)>)
  {
    if s == [] then [(k, v)]
    else if s[0].0 == k then [(k, v)] + s[1..]
    else [s[0]] + Put(s[1..], k, v)
  }

  lemma {:induction false} PutKeys<K, V>(s: seq<(K, V)>, k: K, v: V)
    ensures k in KeysOf(s) ==> KeysOf(Put(s, k, v)) == KeysOf(s)
    ensures k !in KeysOf(s) ==> KeysOf(Put(s, k, v)) == KeysOf(s) + [k]
  {
    if s != [] && s[0].0 != k {
      PutKeys(s[1..], k, v);
      assert KeysOf(s) == [s[0].0] + KeysOf(s[1..]);
    }
  }

  lemma {:induction false} PutGet<K, V>(s: seq<(K, V)>, k: K, v: V, k': K)
    ensures Get(Put(s, k, v), k') == if k' == k then Some(v) else Get(s, k')
  {
    if s != [] && s[0].0 != k {
      PutGet(s[1..], k, v, k');
    }
  }

  lemma {:induction false} PutDistinct<K, V>(s: seq<(K, V)>, k: K, v: V)
    requires DistinctKeys(s)
    ensures DistinctKeys(Put(s, k, v))
  {
    PutKeys(s, k, v);
    var r := Put(s, k, v);
    forall i, j | 0 <= i < j < |r| ensures r[i].0 != r[j].0 {
      assert KeysOf(r)[i] == r[i].0 && KeysOf(r)[j] == r[j].0;
      assert KeysOf(s)[..] == KeysOf(s);
    }
  }

  lemma {:induction false} PutValuesUnchangedElsewhere<K, V>(s: seq<(K, V)>, k: K, v: V, i: int)
    requires 0 <= i < |s| && s[i].0 != k
    ensures i < |Put(s, k, v)| && Put(s, k, v)[i] == s[i]
  {
    if s[0].0 != k && i > 0 {
      PutValuesUnchangedElsewhere(s[1..], k, v, i - 1);
    }
  }

  lemma GetCons<K, V>(k0: K, v0: V, rest: seq<(K, V)>, k: K)
    ensures Get([(k0, v0)] + rest, k) == if k == k0 then Some(v0) else Get(rest, k)
  {
    assert ([(k0, v0)] + rest)[1..] == rest;
  }

  /** A key Get finds sits at some position, beside the value found. */
  lemma {:induction false} GetIndex<K, V>(s: seq<(K, V)>, k: K)
    requires Get(s, k).Some?
    ensures exists j :: 0 <= j < |s| && s[j].0 == k && Get(s, k) == Some(s[j].1)
  {
    if s[0].0 != k {
      GetIndex(s[1..], k);
      var j :| 0 <= j < |s[1..]| && s[1..][j].0 == k && Get(s[1..], k) == Some(s[1..][j].1);
      assert s[j + 1] == s[1..][j];
    } else {
      assert s[0].0 == k && Get(s, k) == Some(s[0].1);
    }
  }

  /** With no key repeated, the pair at each position is the one Get finds. */
  lemma {:induction false} GetAt<K, V>(s: seq<(K, V)>, i: int)
    requires DistinctKeys(s) && 0 <= i < |s|
    ensures Get(s, s[i].0) == Some(s[i].1)
  {
    if i > 0 {
      assert s[0].0 != s[i].0;
      assert s[1..][i - 1] == s[i];
      GetAt(s[1..], i - 1);
    }
  }

  /** Looking a key up in two pair lists laid end to end: the first list wins. */
  lemma {:induction false} GetAppend<K, V>(s: seq<(K, V)>, t: seq<(K, V)>, k: K)
    ensures Get(s + t, k) == if k in KeysOf(s) then Get(s, k) else Get(t, k)
  {
    if s != [] {
      var st := s + t;
      assert st[0] == s[0];
      assert st[1..] == s[1..] + t;
      assert KeysOf(s) == [s[0].0] + KeysOf(s[1..]);
      if s[0].0 == k {
        assert Get(st, k) == Some(s[0].1) == Get(s, k);
        assert k in KeysOf(s);
      } else {
        assert Get(st, k) == Get(s[1..] + t, k);
        assert Get(s, k) == Get(s[1..], k);
        assert k in KeysOf(s) <==> k in KeysOf(s[1..]);
        GetAppend(s[1..], t, k);
      }
    } else {
      assert s + t == t;
    }
  }
}

/** An insertion-ordered set (Java's LinkedHashSet over a type whose equals is
    value equality) as a sequence without repeats. */
module OrderedSets {

  predicate Distinct<T(==)>(s: seq<T>) {
    forall i, j :: 0 <= i < j < |s| ==> s[i] != s[j]
  }

  function Elements<T>(s: seq<T>): set<T> {
    set x | x in s
  }

  /** LinkedHashSet.add: appends `x` unless it is already there. */
  function Add<T(==)>(s: seq<T>, x: T): seq<T>
  {
    if x in s then s else s + [x]
  }

  /** new LinkedHashSet<>(s): the first occurrence of each element, in order. */
  function Dedup<T(==)>(s: seq<T>): (r: seq<T>)
    ensures Distinct(r)
    ensures Elements(r) == Elements(s)
  {
    if s == [] then []
    else
      var init, last := s[..|s| - 1], s[|s| - 1];
      var r := Dedup(init);
      assert s == init + [last];
      assert Elements(s) == Elements(init) + {last};
      assert Elements(r + [last]) == Elements(r) + {last};
      Add(r, last)
  }

  /** Copying a set that has no repeats keeps it as it is. */
  lemma {:induction false} DedupOfDistinct<T>(s: seq<T>)
    requires Distinct(s)
    ensures Dedup(s) == s
  {
    if s != [] {
      var init, last := s[..|s| - 1], s[|s| - 1];
      assert Distinct(init) by {
        forall i, j | 0 <= i < j < |init| ensures init[i] != init[j] {
          assert init[i] == s[i] && init[j] == s[j];
        }
      }
      DedupOfDistinct(init);
      assert last !in init by {
        forall i | 0 <= i < |init| ensures init[i] != last {
          assert init[i] == s[i];
        }
      }
      assert Dedup(s) == Add(Dedup(init), last);
      assert s == init + [last];
    }
  }

  /** A non-empty sequence is its initial part followed by its last element. */
  lemma SplitLast<T>(s: seq<T>)
    requires s != []
    ensures s == s[..|s| - 1] + [s[|s| - 1]]
  {
  }

  /** `x` occurs at `k` in `s` and nowhere before. */
  predicate FirstAt<T(==)>(s: seq<T>, x: T, k: nat)
  {
    k < |s| && s[k] == x && forall i :: 0 <= i < k ==> s[i] != x
  }

  /** `x` has a first occurrence in any sequence that holds it. */
  lemma {:induction false} FirstOccurrence<T>(s: seq<T>, x: T)
    requires x in s
    ensures exists k: nat :: FirstAt(s, x, k)
  {
    if s[0] == x {
      assert FirstAt(s, x, 0);
    } else {
      assert s == [s[0]] + s[1..];
      FirstOccurrence(s[1..], x);
      var k: nat :| FirstAt(s[1..], x, k);
      forall i | 0 <= i < k + 1 ensures s[i] != x {
        if i > 0 {
          assert s[i] == s[1..][i - 1];
        }
      }
      assert FirstAt(s, x, k + 1);
    }
  }

  /** The position of the first occurrence of `x` in `s`. */
  ghost function FirstIndex<T>(s: seq<T>, x: T): (r: nat)
    requires x in s
    ensures FirstAt(s, x, r)
  {
    FirstOccurrence(s, x);
    var k: nat :| FirstAt(s, x, k);
    k
  }

  lemma FirstIndexIs<T>(s: seq<T>, x: T, k: nat)
    requires FirstAt(s, x, k)
    ensures FirstIndex(s, x) == k
  {
    var f := FirstIndex(s, x);
  }

  /** `r` holds elements of `s` ordered by where each first occurs in `s`. */
  ghost predicate InFirstOrder<T>(s: seq<T>, r: seq<T>) {
    (forall i :: 0 <= i < |r| ==> r[i] in s) &&
    forall i, j :: 0 <= i < j < |r| ==> FirstIndex(s, r[i]) < FirstIndex(s, r[j])
  }

  /** Appending to `s` moves no first occurrence, and an element new to `s`
      first occurs at the end. */
  lemma FirstIndexAppend<T>(s: seq<T>, y: T)
    ensures forall x | x in s :: FirstIndex(s + [y], x) == FirstIndex(s, x)
    ensures y !in s ==> FirstIndex(s + [y], y) == |s|
  {
    var s' := s + [y];
    forall x | x in s
      ensures FirstIndex(s', x) == FirstIndex(s, x)
    {
      var k := FirstIndex(s, x);
      assert FirstAt(s', x, k);
      FirstIndexIs(s', x, k);
    }
    if y !in s {
      assert FirstAt(s', y, |s|);
      FirstIndexIs(s', y, |s|);
    }
  }

  /** Appending to `s` moves no first occurrence; an element new to `s` first
      occurs after all the others. */
  lemma InFirstOrderExtend<T>(s: seq<T>, r: seq<T>, y: T)
    requires InFirstOrder(s, r)
    ensures InFirstOrder(s + [y], r)
    ensures y !in s ==> InFirstOrder(s + [y], r + [y])
  {
    var s' := s + [y];
    forall x | x in s
      ensures FirstIndex(s', x) == FirstIndex(s, x)
    {
      var k := FirstIndex(s, x);
      assert FirstAt(s', x, k);
      FirstIndexIs(s', x, k);
    }
    forall i | 0 <= i < |r| ensures FirstIndex(s', r[i]) == FirstIndex(s, r[i]) {
      assert r[i] in s;
    }
    if y !in s {
      assert FirstAt(s', y, |s|);
      FirstIndexIs(s', y, |s|);
      var r' := r + [y];
      forall i, j | 0 <= i < j < |r'|
        ensures FirstIndex(s', r'[i]) < FirstIndex(s', r'[j])
      {
        if j < |r| {
          assert r'[i] == r[i] && r'[j] == r[j];
        } else {
          assert r'[i] == r[i] && r'[j] == y;
        }
      }
    }
  }

  /** The copy keeps first occurrences in the order they occur. */
  lemma {:induction false} DedupInFirstOrder<T>(s: seq<T>)
    ensures InFirstOrder(s, Dedup(s))
  {
    if s != [] {
      var init, last := s[..|s| - 1], s[|s| - 1];
      assert s == init + [last];
      DedupInFirstOrder(init);
      InFirstOrderExtend(init, Dedup(init), last);
      assert last in Dedup(init) <==> last in init by {
        assert Elements(Dedup(init)) == Elements(init);
        assert last in Dedup(init) <==> last in Elements(Dedup(init));
      }
    }
  }

  /** Dropping the last element keeps the order, and that element occurs
      nowhere else. */
  lemma InFirstOrderInit<T>(s: seq<T>, a: seq<T>)
    requires InFirstOrder(s, a) && a != []
    ensures InFirstOrder(s, a[..|a| - 1])
    ensures a[|a| - 1] !in a[..|a| - 1]
    ensures Elements(a[..|a| - 1]) == Elements(a) - {a[|a| - 1]}
  {
    var a', x := a[..|a| - 1], a[|a| - 1];
    assert a == a' + [x];
    forall i | 0 <= i < |a'| ensures a'[i] != x {
      assert FirstIndex(s, a[i]) < FirstIndex(s, a[|a| - 1]);
    }
  }

  /** The last element is the one whose first occurrence comes last. */
  lemma InFirstOrderLast<T>(s: seq<T>, a: seq<T>, y: T)
    requires InFirstOrder(s, a) && a != [] && y in a
    ensures FirstIndex(s, y) <= FirstIndex(s, a[|a| - 1])
  {
    var k :| 0 <= k < |a| && a[k] == y;
    if k < |a| - 1 {
      assert FirstIndex(s, a[k]) < FirstIndex(s, a[|a| - 1]);
    }
  }

  lemma ElementsEmpty<T>(a: seq<T>)
    ensures Elements(a) == {} <==> a == []
  {
    if a != [] {
      assert a[0] in Elements(a);
    }
  }

  /** Two sequences with the same elements, both in first-occurrence order of
      the same `s`, are equal. */
  lemma {:induction false} InFirstOrderUnique<T>(s: seq<T>, a: seq<T>, b: seq<T>)
    requires InFirstOrder(s, a) && InFirstOrder(s, b)
    requires Elements(a) == Elements(b)
    ensures a == b
    decreases |a|
  {
    ElementsEmpty(a);
    ElementsEmpty(b);
    if a != [] {
      var x, y := a[|a| - 1], b[|b| - 1];
      assert x in Elements(b) && y in Elements(a);
      InFirstOrderLast(s, a, y);
      InFirstOrderLast(s, b, x);
      assert x == y by {
        var fx, fy := FirstIndex(s, x), FirstIndex(s, y);
        assert s[fx] == x && s[fy] == y;
      }
      InFirstOrderInit(s, a);
      InFirstOrderInit(s, b);
      InFirstOrderUnique(s, a[..|a| - 1], b[..|b| - 1]);
      assert a == a[..|a| - 1] + [x] && b == b[..|b| - 1] + [y];
    }
  }

  /** The copy is characterised by its elements and their order: it is the one
      sequence of the elements of `s` in first-occurrence order. */
  lemma DedupCharacterized<T>(s: seq<T>, r: seq<T>)
    ensures r == Dedup(s) <==> Elements(r) == Elements(s) && InFirstOrder(s, r)
  {
    DedupInFirstOrder(s);
    if Elements(r) == Elements(s) && InFirstOrder(s, r) {
      InFirstOrderUnique(s, r, Dedup(s));
    }
  }
}
