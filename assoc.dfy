/**
 * PHP arrays with keys: association lists whose order is the order in which
 * the keys were first written, as `foreach` sees them.
 */
module Assoc {
  import opened Wrappers

  type Assoc<K, V> = seq<(K, V)>

  predicate HasKey<K(==), V>(m: Assoc<K, V>, k: K) {
    exists i :: 0 <= i < |m| && m[i].0 == k
  }

  function Keys<K, V>(m: Assoc<K, V>): seq<K> {
    if m == [] then [] else [m[0].0] + Keys(m[1..])
  }

  /** PHP arrays never hold a key twice. */
  predicate UniqueKeys<K(==), V>(m: Assoc<K, V>) {
    forall i, j :: 0 <= i < j < |m| ==> m[i].0 != m[j].0
  }

  /** `$m[$k] ?? null`. */
  function Get<K(==), V>(m: Assoc<K, V>, k: K): (r: Option<V>)
    ensures r.None? <==> !HasKey(m, k)
    ensures r.Some? ==> exists i :: 0 <= i < |m| && m[i] == (k, r.value)
  {
    if m == [] then None
    else if m[0].0 == k then Some(m[0].1)
    else
      var r := Get(m[1..], k);
      assert r.Some? ==> exists i :: 0 <= i < |m[1..]| && m[1..][i] == (k, r.value);
      assert HasKey(m[1..], k) ==> HasKey(m, k);
      assert HasKey(m, k) ==> HasKey(m[1..], k) by {
        if HasKey(m, k) {
          var i :| 0 <= i < |m| && m[i].0 == k;
          assert i > 0 && m[1..][i - 1].0 == k;
        }
      }
      r
  }

  lemma HasKeyTail<K, V>(m: Assoc<K, V>, k: K)
    requires m != []
    ensures HasKey(m, k) <==> m[0].0 == k || HasKey(m[1..], k)
  {
    if HasKey(m, k) && m[0].0 != k {
      var i :| 0 <= i < |m| && m[i].0 == k;
      assert m[1..][i - 1].0 == k;
    }
    if HasKey(m[1..], k) {
      var i :| 0 <= i < |m[1..]| && m[1..][i].0 == k;
      assert m[i + 1].0 == k;
    }
  }

  lemma UniqueKeysTail<K, V>(m: Assoc<K, V>)
    requires m != [] && UniqueKeys(m)
    ensures UniqueKeys(m[1..]) && !HasKey(m[1..], m[0].0)
  {
    forall i, j | 0 <= i < j < |m[1..]| ensures m[1..][i].0 != m[1..][j].0 {
      assert m[1..][i] == m[i + 1] && m[1..][j] == m[j + 1];
    }
    forall i | 0 <= i < |m[1..]| ensures m[1..][i].0 != m[0].0 {
      assert m[1..][i] == m[i + 1];
    }
  }

  /** `$m[$k][] = $v`: `v` appended to the list under `k`, a new key going last. */
  function AppendAt<K(==), V>(m: Assoc<K, seq<V>>, k: K, v: V): Assoc<K, seq<V>> {
    if m == [] then [(k, [v])]
    else if m[0].0 == k then [(k, m[0].1 + [v])] + m[1..]
    else [m[0]] + AppendAt(m[1..], k, v)
  }

  /** Appending keeps the key order; a key not yet present is added at the end. */
  lemma {:induction false} AppendAtKeys<K, V>(m: Assoc<K, seq<V>>, k: K, v: V)
    ensures Keys(AppendAt(m, k, v)) == if HasKey(m, k) then Keys(m) else Keys(m) + [k]
  {
    if m != [] {
      HasKeyTail(m, k);
      var r := AppendAt(m, k, v);
      if m[0].0 == k {
        assert r[1..] == m[1..];
      } else {
        AppendAtKeys(m[1..], k, v);
        assert r[1..] == AppendAt(m[1..], k, v);
      }
    }
  }

  /** The list under `k` gains `v` at its end; every other key keeps its value. */
  lemma {:induction false} AppendAtGet<K, V>(m: Assoc<K, seq<V>>, k: K, v: V, k': K)
    ensures Get(AppendAt(m, k, v), k') == if k' == k then Some(Get(m, k).GetOr([]) + [v]) else Get(m, k')
  {
    var r := AppendAt(m, k, v);
    if m == [] {
      assert r == [(k, [v])] && r[1..] == [];
      assert Get(m, k).GetOr([]) + [v] == [v];
      assert k' != k ==> Get(r, k') == Get(r[1..], k');
    } else {
      if m[0].0 == k {
        assert r[1..] == m[1..];
        assert k' != k ==> Get(r, k') == Get(r[1..], k') == Get(m[1..], k');
      } else {
        AppendAtGet(m[1..], k, v, k');
        assert r[1..] == AppendAt(m[1..], k, v);
      }
    }
  }

  /** Appending never creates a second entry for a key. */
  lemma {:induction false} AppendAtUnique<K, V>(m: Assoc<K, seq<V>>, k: K, v: V)
    requires UniqueKeys(m)
    ensures UniqueKeys(AppendAt(m, k, v))
  {
    if m != [] {
      var r := AppendAt(m, k, v);
      UniqueKeysTail(m);
      if m[0].0 == k {
        assert r[1..] == m[1..];
      } else {
        var t := AppendAt(m[1..], k, v);
        AppendAtUnique(m[1..], k, v);
        assert r[1..] == t;
        AppendAtGet(m[1..], k, v, m[0].0);
        assert !HasKey(t, m[0].0);
        forall j | 0 <= j < |t| ensures t[j].0 != m[0].0 {
        }
      }
    }
  }

  /** `array_intersect_key($m, [$k => null])`: only the entries under `k`. */
  function Restrict<K(==), V>(m: Assoc<K, V>, k: K): Assoc<K, V> {
    if m == [] then []
    else if m[0].0 == k then [m[0]] + Restrict(m[1..], k)
    else Restrict(m[1..], k)
  }

  lemma {:induction false} RestrictAbsent<K, V>(m: Assoc<K, V>, k: K)
    requires !HasKey(m, k)
    ensures Restrict(m, k) == []
  {
    if m != [] {
      HasKeyTail(m, k);
      RestrictAbsent(m[1..], k);
    }
  }

  /** Narrowing an array with unique keys to a present key leaves exactly that entry. */
  lemma {:induction false} RestrictPresent<K, V>(m: Assoc<K, V>, k: K)
    requires UniqueKeys(m) && HasKey(m, k)
    ensures Restrict(m, k) == [(k, Get(m, k).value)]
  {
    HasKeyTail(m, k);
    UniqueKeysTail(m);
    if m[0].0 == k {
      RestrictAbsent(m[1..], k);
    } else {
      RestrictPresent(m[1..], k);
    }
  }

  /** The entries' lists one after another, in key order. */
  function Flatten<K, V>(m: Assoc<K, seq<V>>): seq<V> {
    if m == [] then [] else m[0].1 + Flatten(m[1..])
  }

  lemma {:induction false} FlattenSnoc<K, V>(m: Assoc<K, seq<V>>, e: (K, seq<V>))
    ensures Flatten(m + [e]) == Flatten(m) + e.1
  {
    if m == [] {
      assert [e][1..] == [];
    } else {
      assert (m + [e])[1..] == m[1..] + [e];
      FlattenSnoc(m[1..], e);
    }
  }

  predicate NoDuplicates<V(==)>(s: seq<V>) {
    forall i, j :: 0 <= i < j < |s| ==> s[i] != s[j]
  }

  /** Position of the first occurrence of `x` in `s`. */
  function FirstIndex<V(==)>(s: seq<V>, x: V): (i: nat)
    requires x in s
    ensures i < |s| && s[i] == x && x !in s[..i]
  {
    if s[0] == x then 0 else 1 + FirstIndex(s[1..], x)
  }

  /** `array_unique($s)` read in order: each value at its first occurrence. */
  function Dedup<V(==)>(s: seq<V>): (r: seq<V>)
    ensures NoDuplicates(r)
    ensures forall i :: 0 <= i < |r| ==> r[i] in s
    ensures forall i :: 0 <= i < |s| ==> s[i] in r
  {
    if s == [] then []
    else
      var p := s[..|s| - 1];
      var d := Dedup(p);
      assert forall i :: 0 <= i < |p| ==> s[i] == p[i];
      if s[|s| - 1] in d then d else d + [s[|s| - 1]]
  }

  /** `array_unique` keeps the values in the order of their first occurrence. */
  lemma {:induction false} DedupKeepsFirstOccurrenceOrder<V>(s: seq<V>, i: nat, j: nat)
    requires i < j < |Dedup(s)|
    ensures FirstIndex(s, Dedup(s)[i]) < FirstIndex(s, Dedup(s)[j])
  {
    var n := |s| - 1;
    var p := s[..n];
    var d := Dedup(p);
    assert s == p + [s[n]];
    if j < |d| {
      assert Dedup(s)[i] == d[i] && Dedup(s)[j] == d[j];
      DedupKeepsFirstOccurrenceOrder(p, i, j);
      FirstIndexOfPrefix(p, s[n], d[i]);
      FirstIndexOfPrefix(p, s[n], d[j]);
    } else {
      assert Dedup(s) == d + [s[n]] && Dedup(s)[j] == s[n] && s[n] !in p;
      FirstIndexOfPrefix(p, s[n], d[i]);
      assert FirstIndex(s, s[n]) == n;
    }
  }

  lemma FirstIndexOfPrefix<V>(p: seq<V>, last: V, x: V)
    requires x in p
    ensures FirstIndex(p + [last], x) == FirstIndex(p, x)
  {
    var s := p + [last];
    var a, b := FirstIndex(s, x), FirstIndex(p, x);
    assert s[b] == x && s[..b] == p[..b];
  }

  /** `array_map('array_unique', $m)`. */
  function DedupValues<K, V(==)>(m: Assoc<K, seq<V>>): (r: Assoc<K, seq<V>>)
    ensures |r| == |m|
    ensures forall i :: 0 <= i < |m| ==> r[i] == (m[i].0, Dedup(m[i].1))
  {
    if m == [] then [] else [(m[0].0, Dedup(m[0].1))] + DedupValues(m[1..])
  }
}
