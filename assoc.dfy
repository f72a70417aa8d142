/**
 * PHP associative arrays with string keys: an ordered sequence of (key, value) entries,
 * no key twice. Iteration (`foreach`) follows the sequence order; writing an existing key
 * keeps its position, writing a new key appends it.
 */
module Assoc {
  import opened Values

  predicate UniqueKeys<V>(s: seq<(string, V)>) {
    forall i, j | 0 <= i < j < |s| :: s[i].0 != s[j].0
  }

  type Assoc<V> = s: seq<(string, V)> | UniqueKeys(s) witness []

  /** `array_keys`: the keys in iteration order. */
  function Keys<V>(s: seq<(string, V)>): (r: seq<string>)
    ensures |r| == |s|
    ensures forall i {:trigger r[i]} | 0 <= i < |s| :: r[i] == s[i].0
  {
    if s == [] then [] else [s[0].0] + Keys(s[1..])
  }

  /** `array_key_exists`. */
  predicate HasKey<V>(s: seq<(string, V)>, k: string) {
    k in Keys(s)
  }

  /** `$a[$k]`, None where the key is absent. */
  function Lookup<V>(s: seq<(string, V)>, k: string): (r: Option<V>)
    ensures r.Some? <==> HasKey(s, k)
  {
    if s == [] then None
    else if s[0].0 == k then Some(s[0].1)
    else Lookup(s[1..], k)
  }

  /** `$a[$k]` where the key is known to be present. */
  function Get<V>(s: seq<(string, V)>, k: string): V
    requires HasKey(s, k)
  {
    Lookup(s, k).value
  }

  /** Lookup finds the value stored at each position. */
  lemma {:induction false} LookupAt<V>(s: seq<(string, V)>, i: nat)
    requires UniqueKeys(s) && i < |s|
    ensures Lookup(s, s[i].0) == Some(s[i].1)
  {
    if i > 0 {
      assert s[1..][i - 1] == s[i];
      LookupAt(s[1..], i - 1);
    }
  }

  /** Entries with unique keys stay so after prepending an entry whose key is new. */
  lemma UniqueCons<V>(e: (string, V), t: seq<(string, V)>)
    requires UniqueKeys(t) && e.0 !in Keys(t)
    ensures UniqueKeys([e] + t)
  {
    var r := [e] + t;
    forall i, j | 0 <= i < j < |r| ensures r[i].0 != r[j].0 {
      assert r[j] == t[j - 1];
      if i == 0 {
        assert Keys(t)[j - 1] == t[j - 1].0;
      } else {
        assert r[i] == t[i - 1];
      }
    }
  }

  /** The tail of entries with unique keys has unique keys, none equal to the head's. */
  lemma UniqueTail<V>(s: seq<(string, V)>)
    requires UniqueKeys(s) && s != []
    ensures UniqueKeys(s[1..]) && s[0].0 !in Keys(s[1..])
  {
    var t := s[1..];
    forall i, j | 0 <= i < j < |t| ensures t[i].0 != t[j].0 {
      assert t[i] == s[i + 1] && t[j] == s[j + 1];
    }
    forall j | 0 <= j < |t| ensures Keys(t)[j] != s[0].0 {
      assert t[j] == s[j + 1];
    }
  }

  /** `$a[$k] = $v`. */
  function Put<V>(s: seq<(string, V)>, k: string, v: V): (r: seq<(string, V)>)
    ensures Lookup(r, k) == Some(v)
    ensures forall k' | k' != k :: Lookup(r, k') == Lookup(s, k')
    ensures UniqueKeys(s) ==> UniqueKeys(r)
    decreases |s|
  {
    if s == [] then [(k, v)]
    else if s[0].0 == k then
      var r := [(k, v)] + s[1..];
      assert r[1..] == s[1..] && Keys(s) == [k] + Keys(s[1..]);
      assert UniqueKeys(s) ==> UniqueKeys(r) by {
        if UniqueKeys(s) {
          UniqueTail(s);
          UniqueCons((k, v), s[1..]);
        }
      }
      r
    else
      var t := Put(s[1..], k, v);
      var r := [s[0]] + t;
      assert r[1..] == t && r[0] == s[0];
      assert Lookup(r, k) == Some(v) by {
        assert Lookup(r, k) == Lookup(t, k);
      }
      assert forall k' | k' != k :: Lookup(r, k') == Lookup(s, k') by {
        forall k' | k' != k ensures Lookup(r, k') == Lookup(s, k') {
          if k' != s[0].0 {
            assert Lookup(r, k') == Lookup(t, k') == Lookup(s[1..], k');
          }
        }
      }
      assert UniqueKeys(s) ==> UniqueKeys(r) by {
        if UniqueKeys(s) {
          UniqueTail(s);
          assert Lookup(t, s[0].0) == Lookup(s[1..], s[0].0);
          UniqueCons(s[0], t);
        }
      }
      r
  }

  /** Writing an existing key keeps the key order; writing a new key appends it. */
  lemma {:induction false} KeysPut<V>(s: seq<(string, V)>, k: string, v: V)
    ensures Keys(Put(s, k, v)) == if HasKey(s, k) then Keys(s) else Keys(s) + [k]
    decreases |s|
  {
    if s != [] {
      var r := Put(s, k, v);
      assert Keys(s) == [s[0].0] + Keys(s[1..]);
      if s[0].0 == k {
        assert r[1..] == s[1..];
        assert Keys(r) == [k] + Keys(r[1..]);
      } else {
        var t := Put(s[1..], k, v);
        KeysPut(s[1..], k, v);
        assert r == [s[0]] + t;
        assert r[1..] == t;
        assert Keys(r) == [s[0].0] + Keys(t);
        assert HasKey(s, k) == HasKey(s[1..], k);
        if !HasKey(s[1..], k) {
          assert [s[0].0] + (Keys(s[1..]) + [k]) == ([s[0].0] + Keys(s[1..])) + [k];
        }
      }
    }
  }

  /** Reading back after `$a[$k] = $v`. */
  lemma LookupPut<V>(s: seq<(string, V)>, k: string, v: V, k': string)
    ensures Lookup(Put(s, k, v), k') == if k' == k then Some(v) else Lookup(s, k')
  {
  }

  lemma KeysAppend<V>(s: seq<(string, V)>, e: (string, V))
    ensures Keys(s + [e]) == Keys(s) + [e.0]
  {
  }

  /** Looking up in an array whose last entry is `e`. */
  lemma {:induction false} LookupLast<V>(s: seq<(string, V)>, e: (string, V), k: string)
    requires UniqueKeys(s + [e])
    ensures Lookup(s + [e], k) == if k == e.0 then Some(e.1) else Lookup(s, k)
  {
    if s != [] {
      assert (s + [e])[1..] == s[1..] + [e];
      if s[0].0 != k {
        LookupLast(s[1..], e, k);
      } else {
        assert (s + [e])[0] == s[0];
        assert (s + [e])[|s|] == e;
      }
    }
  }

  /** `xs` is `ys` with some entries left out, the others kept in order. */
  predicate IsSubsequence<T(==)>(xs: seq<T>, ys: seq<T>)
    decreases |ys|
  {
    if ys == [] then xs == []
    else || (xs != [] && xs[|xs| - 1] == ys[|ys| - 1] && IsSubsequence(xs[..|xs| - 1], ys[..|ys| - 1]))
         || IsSubsequence(xs, ys[..|ys| - 1])
  }

  /** Every entry of a subsequence is an entry of the whole. */
  lemma {:induction false} SubsequenceMembers<T>(xs: seq<T>, ys: seq<T>)
    requires IsSubsequence(xs, ys)
    ensures forall i | 0 <= i < |xs| :: xs[i] in ys
    decreases |ys|
  {
    if ys != [] {
      var q := ys[..|ys| - 1];
      assert ys == q + [ys[|ys| - 1]];
      if xs != [] && xs[|xs| - 1] == ys[|ys| - 1] && IsSubsequence(xs[..|xs| - 1], q) {
        SubsequenceMembers(xs[..|xs| - 1], q);
        forall i | 0 <= i < |xs| ensures xs[i] in ys {
          if i < |xs| - 1 {
            assert xs[i] == xs[..|xs| - 1][i];
          }
        }
      } else {
        SubsequenceMembers(xs, q);
      }
    }
  }

  /** An entry kept from an array with unique keys is what the array holds at that key. */
  lemma SubsequenceLookup<V>(xs: seq<(string, V)>, ys: seq<(string, V)>)
    requires UniqueKeys(ys) && IsSubsequence(xs, ys)
    ensures forall i | 0 <= i < |xs| :: Lookup(ys, xs[i].0) == Some(xs[i].1)
  {
    SubsequenceMembers(xs, ys);
    forall i | 0 <= i < |xs| ensures Lookup(ys, xs[i].0) == Some(xs[i].1) {
      var j :| 0 <= j < |ys| && ys[j] == xs[i];
      LookupAt(ys, j);
    }
  }
}
