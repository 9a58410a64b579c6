/** PHP's ordered arrays with string keys, as sequences of key/value pairs.
    Writing an existing key keeps its position and replaces its value;
    writing a new key appends it, so keys are always distinct. */
module Assoc {
  import opened Wrappers

  type Entries<V> = seq<(string, V)>

  /** `array_keys`. */
  function Keys<V>(a: Entries<V>): (r: seq<string>)
    ensures |r| == |a|
  {
    if |a| == 0 then [] else [a[0].0] + Keys(a[1..])
  }

  lemma {:induction false} KeysAt<V>(a: Entries<V>, i: nat)
    requires i < |a|
    ensures Keys(a)[i] == a[i].0
  {
    if i > 0 { KeysAt(a[1..], i - 1); }
  }

  /** `array_key_exists`. */
  predicate HasKey<V>(a: Entries<V>, k: string) {
    k in Keys(a)
  }

  /** No key appears twice, as in every PHP array. */
  predicate UniqueKeys<V>(a: Entries<V>) {
    forall i, j :: 0 <= i < j < |a| ==> a[i].0 != a[j].0
  }

  lemma KeysCons<V>(x: (string, V), rest: Entries<V>)
    ensures Keys([x] + rest) == [x.0] + Keys(rest)
  {
    assert ([x] + rest)[1..] == rest;
  }

  /** `$a[$k]`, None when the key is missing. */
  function Lookup<V>(a: Entries<V>, k: string): (r: Option<V>)
    ensures r.Some? <==> HasKey(a, k)
    ensures r.Some? ==> (k, r.value) in a
  {
    if |a| == 0 then None
    else if a[0].0 == k then Some(a[0].1)
    else
      KeysCons(a[0], a[1..]);
      assert a == [a[0]] + a[1..];
      Lookup(a[1..], k)
  }

  lemma LookupCons<V>(x: (string, V), rest: Entries<V>, k: string)
    ensures Lookup([x] + rest, k) == if x.0 == k then Some(x.1) else Lookup(rest, k)
  {
    assert ([x] + rest)[1..] == rest;
  }

  /** In an array with distinct keys, the entry at a key is the one looked up. */
  lemma {:induction false} LookupAt<V>(a: Entries<V>, i: nat)
    requires UniqueKeys(a) && i < |a|
    ensures Lookup(a, a[i].0) == Some(a[i].1)
  {
    if i > 0 {
      assert a[0].0 != a[i].0;
      assert a[1..][i - 1] == a[i];
      LookupAt(a[1..], i - 1);
    }
  }

  /** A cons keeps distinct keys exactly when its head key is new. */
  lemma UniqueCons<V>(x: (string, V), rest: Entries<V>)
    ensures UniqueKeys([x] + rest) <==> UniqueKeys(rest) && !HasKey(rest, x.0)
  {
    var r := [x] + rest;
    assert r[1..] == rest;
    KeysCons(x, rest);
    if UniqueKeys(rest) && !HasKey(rest, x.0) {
      forall i, j | 0 <= i < j < |r| ensures r[i].0 != r[j].0 {
        if i > 0 {
          assert r[i] == rest[i - 1] && r[j] == rest[j - 1];
        } else {
          KeysAt(rest, j - 1);
          assert rest[j - 1] == r[j];
        }
      }
    }
    if UniqueKeys(r) {
      forall j | 0 <= j < |rest| ensures Keys(rest)[j] != x.0 {
        assert r[j + 1] == rest[j];
        KeysAt(rest, j);
      }
    }
  }

  /** The same, read off a non-empty array. */
  lemma UniqueTail<V>(a: Entries<V>)
    requires |a| > 0
    ensures UniqueKeys(a) <==> UniqueKeys(a[1..]) && !HasKey(a[1..], a[0].0)
    ensures Keys(a) == [a[0].0] + Keys(a[1..])
  {
    assert a == [a[0]] + a[1..];
    UniqueCons(a[0], a[1..]);
    KeysCons(a[0], a[1..]);
  }

  /** What writing `v` under `k` into `a` promises of its result `r`. */
  ghost predicate PutInto<V>(r: Entries<V>, a: Entries<V>, k: string, v: V) {
    && Lookup(r, k) == Some(v)
    && (forall k' :: k' != k ==> Lookup(r, k') == Lookup(a, k'))
    && (forall k' :: HasKey(r, k') <==> HasKey(a, k') || k' == k)
    && (HasKey(a, k) ==> |r| == |a|)
    && (!HasKey(a, k) ==> r == a + [(k, v)])
    && (UniqueKeys(a) ==> UniqueKeys(r))
  }

  /** `$a[$k] = $v`. */
  function Put<V>(a: Entries<V>, k: string, v: V): (r: Entries<V>)
    ensures Lookup(r, k) == Some(v)
    ensures forall k' :: k' != k ==> Lookup(r, k') == Lookup(a, k')
    ensures forall k' :: HasKey(r, k') <==> HasKey(a, k') || k' == k
    ensures HasKey(a, k) ==> |r| == |a|
    ensures !HasKey(a, k) ==> r == a + [(k, v)]
    ensures UniqueKeys(a) ==> UniqueKeys(r)
  {
    if |a| == 0 then [(k, v)]
    else if a[0].0 == k then
      PutAtHead(a, k, v);
      [(k, v)] + a[1..]
    else
      var rest := Put(a[1..], k, v);
      PutBehindHead(a, k, v, rest);
      [a[0]] + rest
  }

  /** Writing the first key replaces the first value. */
  lemma PutAtHead<V>(a: Entries<V>, k: string, v: V)
    requires |a| > 0 && a[0].0 == k
    ensures PutInto([(k, v)] + a[1..], a, k, v)
  {
    LookupCons((k, v), a[1..], k);
    assert a == [a[0]] + a[1..];
    forall k' | k' != k ensures Lookup([(k, v)] + a[1..], k') == Lookup(a, k') {
      LookupCons((k, v), a[1..], k');
      LookupCons(a[0], a[1..], k');
    }
    KeysCons((k, v), a[1..]);
    KeysCons(a[0], a[1..]);
    UniqueCons((k, v), a[1..]);
    UniqueCons(a[0], a[1..]);
  }

  /** Writing any other key writes into the rest and keeps the first entry. */
  lemma PutBehindHead<V>(a: Entries<V>, k: string, v: V, rest: Entries<V>)
    requires |a| > 0 && a[0].0 != k
    requires PutInto(rest, a[1..], k, v)
    ensures PutInto([a[0]] + rest, a, k, v)
  {
    var r := [a[0]] + rest;
    assert a == [a[0]] + a[1..];
    LookupCons(a[0], rest, k);
    forall k' | k' != k ensures Lookup(r, k') == Lookup(a, k') {
      LookupCons(a[0], rest, k');
      LookupCons(a[0], a[1..], k');
    }
    KeysCons(a[0], rest);
    KeysCons(a[0], a[1..]);
    forall k' ensures HasKey(r, k') <==> HasKey(a, k') || k' == k {
      assert HasKey(rest, k') <==> HasKey(a[1..], k') || k' == k;
    }
    if !HasKey(a, k) {
      assert rest == a[1..] + [(k, v)];
      assert r == a + [(k, v)];
    }
    if UniqueKeys(a) {
      UniqueTail(a);
      UniqueCons(a[0], rest);
    }
  }

  /** `unset($a[$k])`: the entries of `a` with any other key, in order. */
  function Remove<V>(a: Entries<V>, k: string): (r: Entries<V>)
    ensures !HasKey(r, k)
    ensures forall k' :: k' != k ==> Lookup(r, k') == Lookup(a, k')
    ensures forall k' :: k' != k ==> (HasKey(r, k') <==> HasKey(a, k'))
    ensures UniqueKeys(a) ==> UniqueKeys(r)
    ensures |r| <= |a|
  {
    if |a| == 0 then []
    else
      var rest := Remove(a[1..], k);
      UniqueTail(a);
      if a[0].0 == k then
        assert forall k' :: k' != k ==> Lookup(rest, k') == Lookup(a, k') by {
          forall k' | k' != k ensures Lookup(rest, k') == Lookup(a, k') {
            assert Lookup(rest, k') == Lookup(a[1..], k');
            LookupCons(a[0], a[1..], k');
            assert a == [a[0]] + a[1..];
          }
        }
        assert UniqueKeys(a) ==> UniqueKeys(rest);
        rest
      else
        var r := [a[0]] + rest;
        KeysCons(a[0], rest);
        assert forall k' :: k' != k ==> Lookup(r, k') == Lookup(a, k') by {
          forall k' | k' != k ensures Lookup(r, k') == Lookup(a, k') { LookupCons(a[0], rest, k'); LookupCons(a[0], a[1..], k'); assert a == [a[0]] + a[1..]; }
        }
        assert UniqueKeys(a) ==> UniqueKeys(r) by {
          if UniqueKeys(a) {
            assert !HasKey(rest, a[0].0);
            UniqueCons(a[0], rest);
          }
        }
        assert forall k' :: k' != k ==> (HasKey(r, k') <==> HasKey(a, k')) by {
          forall k' | k' != k ensures HasKey(r, k') <==> HasKey(a, k') {
            assert HasKey(rest, k') <==> HasKey(a[1..], k');
          }
        }
        r
  }

  /** The keys of an array, as a set. */
  function KeySet<V>(a: Entries<V>): set<string> {
    set i | 0 <= i < |a| :: a[i].0
  }

  /** The key set and `array_key_exists` agree. */
  lemma InKeySet<V>(a: Entries<V>, k: string)
    ensures k in KeySet(a) <==> HasKey(a, k)
  {
    if k in KeySet(a) {
      var i :| 0 <= i < |a| && a[i].0 == k;
      KeysAt(a, i);
    }
    if HasKey(a, k) {
      var i :| 0 <= i < |Keys(a)| && Keys(a)[i] == k;
      KeysAt(a, i);
    }
  }

  /** Every entry after `$a[$k] = $v` is the new one or was already there. */
  lemma PutEntries<V>(a: Entries<V>, k: string, v: V)
    requires UniqueKeys(a)
    ensures forall e :: e in Put(a, k, v) ==> e in a || e == (k, v)
  {
    var r := Put(a, k, v);
    forall e | e in r ensures e in a || e == (k, v) {
      var i :| 0 <= i < |r| && r[i] == e;
      LookupAt(r, i);
      if e.0 != k {
        assert Lookup(a, e.0) == Some(e.1);
      }
    }
  }

  /** The elements of a sequence in the opposite order. */
  function Reverse<T>(s: seq<T>): (r: seq<T>)
    ensures |r| == |s|
    ensures forall i :: 0 <= i < |s| ==> r[i] == s[|s| - 1 - i]
  {
    if |s| == 0 then [] else [s[|s| - 1]] + Reverse(s[..|s| - 1])
  }

  /** `$a[$k] = $v` adds `k` to the key set and nothing else. */
  lemma PutKeySet<V>(a: Entries<V>, k: string, v: V)
    ensures KeySet(Put(a, k, v)) == KeySet(a) + {k}
  {
    var r := Put(a, k, v);
    forall k' ensures k' in KeySet(r) <==> k' in KeySet(a) + {k} {
      InKeySet(r, k');
      InKeySet(a, k');
    }
  }

  /** `unset($a[$k])` takes `k` out of the key set and nothing else. */
  lemma RemoveKeySet<V>(a: Entries<V>, k: string)
    ensures KeySet(Remove(a, k)) == KeySet(a) - {k}
  {
    var r := Remove(a, k);
    forall k' ensures k' in KeySet(r) <==> k' in KeySet(a) - {k} {
      InKeySet(r, k');
      InKeySet(a, k');
    }
  }
}
