/** The ordering `getVersions` sorts by (PHP's `version_compare`), restricted to
    dotted numbers: each dot-separated segment is read as the natural number its
    leading decimal digits spell, segments are compared left to right, and a
    proper prefix sorts first ("1" < "1.0" < "1.5" < "1.10" < "2.0"). */
module VersionOrder {
  import opened Strings
  import opened Assoc

  predicate IsDigit(ch: char) {
    '0' <= ch <= '9'
  }

  /** The longest prefix of `s` made of decimal digits. */
  function LeadingDigits(s: string): (r: string)
    ensures |r| <= |s| && r == s[..|r|]
    ensures forall i :: 0 <= i < |r| ==> IsDigit(r[i])
    ensures |r| < |s| ==> !IsDigit(s[|r|])
  {
    if |s| > 0 && IsDigit(s[0]) then [s[0]] + LeadingDigits(s[1..]) else []
  }

  /** The number a string of decimal digits spells. */
  function DecimalValue(d: string): nat
    requires forall i :: 0 <= i < |d| ==> IsDigit(d[i])
  {
    if |d| == 0 then 0
    else
      assert IsDigit(d[|d| - 1]);
      DecimalValue(d[..|d| - 1]) * 10 + (d[|d| - 1] as int - '0' as int)
  }

  /** The numeric value of one segment (0 when it does not start with a digit). */
  function SegmentValue(s: string): nat {
    DecimalValue(LeadingDigits(s))
  }

  /** The numeric components of a version string. */
  function Components(v: string): (r: seq<nat>)
    ensures |r| == |Split(v, '.')|
  {
    var parts := Split(v, '.');
    seq(|parts|, i requires 0 <= i < |parts| => SegmentValue(parts[i]))
  }

  /** Component-wise comparison; a proper prefix is smaller. -1, 0 or 1. */
  function Compare(a: seq<nat>, b: seq<nat>): (r: int)
    ensures -1 <= r <= 1
  {
    if |a| == 0 && |b| == 0 then 0
    else if |a| == 0 then -1
    else if |b| == 0 then 1
    else if a[0] < b[0] then -1
    else if a[0] > b[0] then 1
    else Compare(a[1..], b[1..])
  }

  /** Swapping the arguments negates the comparison. */
  lemma {:induction false} CompareAntisymmetric(a: seq<nat>, b: seq<nat>)
    ensures Compare(a, b) == -Compare(b, a)
  {
    if |a| > 0 && |b| > 0 && a[0] == b[0] {
      CompareAntisymmetric(a[1..], b[1..]);
    }
  }

  /** The comparison is zero exactly on equal component sequences. */
  lemma {:induction false} CompareZeroIff(a: seq<nat>, b: seq<nat>)
    ensures Compare(a, b) == 0 <==> a == b
  {
    if |a| > 0 && |b| > 0 && a[0] == b[0] {
      CompareZeroIff(a[1..], b[1..]);
      assert a == [a[0]] + a[1..];
      assert b == [b[0]] + b[1..];
    }
  }

  /** "At most" is transitive. */
  lemma {:induction false} CompareTransitive(a: seq<nat>, b: seq<nat>, c: seq<nat>)
    requires Compare(a, b) <= 0 && Compare(b, c) <= 0
    ensures Compare(a, c) <= 0
  {
    if |a| > 0 && |b| > 0 && |c| > 0 && a[0] == b[0] && b[0] == c[0] {
      CompareTransitive(a[1..], b[1..], c[1..]);
    }
  }

  /** `version_compare($a, $b)` on dotted numbers. */
  function VersionCompare(a: string, b: string): int {
    Compare(Components(a), Components(b))
  }

  /** `a` sorts no later than `b`. */
  predicate VersionLeq(a: string, b: string) {
    VersionCompare(a, b) <= 0
  }

  /** `VersionLeq` is a total preorder: reflexive, total and transitive. */
  lemma VersionLeqTotalPreorder(a: string, b: string, c: string)
    ensures VersionLeq(a, a)
    ensures VersionLeq(a, b) || VersionLeq(b, a)
    ensures VersionLeq(a, b) && VersionLeq(b, c) ==> VersionLeq(a, c)
  {
    CompareZeroIff(Components(a), Components(a));
    CompareAntisymmetric(Components(a), Components(b));
    if VersionLeq(a, b) && VersionLeq(b, c) {
      CompareTransitive(Components(a), Components(b), Components(c));
    }
  }

  /** A two-segment version has the values of its two segments as components. */
  lemma ComponentsOfPair(a: string, b: string)
    requires '.' !in a && '.' !in b
    ensures Components(a + "." + b) == [SegmentValue(a), SegmentValue(b)]
  {
    SplitJoin([a, b], '.');
    assert Join([a, b], '.') == a + "." + b by {
      assert [a, b][..1] == [a];
    }
  }

  /** The components of the versions used as the running example. */
  lemma ExampleComponents()
    ensures Components("1.0") == [1, 0]
    ensures Components("1.5") == [1, 5]
    ensures Components("1.10") == [1, 10]
    ensures Components("2.0") == [2, 0]
  {
    SingleDigitComponents('1', '0');
    SingleDigitComponents('1', '5');
    SingleDigitComponents('2', '0');
    TenComponents();
  }

  /** A version of two one-digit segments has those digits as components. */
  lemma SingleDigitComponents(a: char, b: char)
    requires '0' <= a <= '9' && '0' <= b <= '9'
    ensures Components([a, '.', b]) == [a as int - '0' as int, b as int - '0' as int]
  {
    ComponentsOfPair([a], [b]);
    assert [a] + "." + [b] == [a, '.', b];
    DigitSegment(a);
    DigitSegment(b);
  }

  /** A one-digit segment has that digit's value. */
  lemma DigitSegment(a: char)
    requires '0' <= a <= '9'
    ensures SegmentValue([a]) == a as int - '0' as int
  {
    assert [a][1..] == [];
    assert LeadingDigits([a]) == [a];
    assert DecimalValue([a]) == DecimalValue([]) * 10 + (a as int - '0' as int) by {
      assert [a][..0] == [];
    }
  }

  /** The components of "1.10". */
  lemma TenComponents()
    ensures Components("1.10") == [1, 10]
  {
    ComponentsOfPair("1", "10");
    assert "1" + "." + "10" == "1.10";
    assert LeadingDigits("10") == "10";
    assert DecimalValue("10") == 10 by {
      assert "10"[..1] == "1";
    }
  }

  /** Versions compare numerically per segment, not as text:
      "1.0" < "1.5" < "1.10" < "2.0". */
  lemma ExampleOrder()
    ensures VersionCompare("1.0", "1.5") < 0
    ensures VersionCompare("1.5", "1.10") < 0
    ensures VersionCompare("1.10", "2.0") < 0
    ensures VersionCompare("2.0", "1.10") > 0
  {
    ExampleComponents();
  }

  /** Entries in non-decreasing version order of their keys. */
  predicate SortedByVersion<V>(a: Entries<V>) {
    forall i, j :: 0 <= i < j < |a| ==> VersionLeq(a[i].0, a[j].0)
  }

  /** Appending an entry keeps keys distinct exactly when its key is new. */
  lemma UniqueSnoc<V>(a: Entries<V>, x: (string, V))
    ensures UniqueKeys(a + [x]) <==> UniqueKeys(a) && x.0 !in KeySet(a)
    ensures KeySet(a + [x]) == KeySet(a) + {x.0}
  {
    var r := a + [x];
    assert forall i :: 0 <= i < |a| ==> r[i] == a[i];
    if UniqueKeys(r) {
      forall i | 0 <= i < |a| ensures a[i].0 != x.0 {
        assert r[|a|] == x;
      }
    }
    assert KeySet(r) == KeySet(a) + {x.0} by {
      assert forall k :: k in KeySet(r) ==> k in KeySet(a) + {x.0} by {
        forall k | k in KeySet(r) ensures k in KeySet(a) + {x.0} {
          var i :| 0 <= i < |r| && r[i].0 == k;
          if i < |a| { assert a[i].0 == k; }
        }
      }
      assert forall k :: k in KeySet(a) + {x.0} ==> k in KeySet(r) by {
        forall k | k in KeySet(a) + {x.0} ensures k in KeySet(r) {
          if k == x.0 { assert r[|a|].0 == k; }
          else {
            var i :| 0 <= i < |a| && a[i].0 == k;
            assert r[i].0 == k;
          }
        }
      }
    }
  }

  /** Every entry of a sorted array sorts no later than its last one. */
  lemma {:induction false} SortedBelowLast<V>(s: Entries<V>)
    requires SortedByVersion(s) && |s| > 0
    ensures forall i :: 0 <= i < |s| ==> VersionLeq(s[i].0, s[|s| - 1].0)
  {
    VersionLeqTotalPreorder(s[|s| - 1].0, s[|s| - 1].0, s[|s| - 1].0);
  }

  /** Appending an entry that sorts no earlier than every entry keeps the order. */
  lemma SortedSnoc<V>(s: Entries<V>, x: (string, V))
    requires SortedByVersion(s)
    requires forall i :: 0 <= i < |s| ==> VersionLeq(s[i].0, x.0)
    ensures SortedByVersion(s + [x])
  {
    var r := s + [x];
    forall i, j | 0 <= i < j < |r| ensures VersionLeq(r[i].0, r[j].0) {
      if j < |s| { assert r[i] == s[i] && r[j] == s[j]; }
      else { assert r[i] == s[i] && r[j] == x; }
    }
  }

  /** An entry sorting no earlier than the last of a sorted array may follow it. */
  lemma SortedAppendAfterLast<V>(s: Entries<V>, x: (string, V))
    requires SortedByVersion(s) && |s| > 0 && VersionLeq(s[|s| - 1].0, x.0)
    ensures SortedByVersion(s + [x])
  {
    SortedBelowLast(s);
    forall i | 0 <= i < |s| ensures VersionLeq(s[i].0, x.0) {
      VersionLeqTotalPreorder(s[i].0, s[|s| - 1].0, x.0);
    }
    SortedSnoc(s, x);
  }

  /** Dropping the last entry keeps a sorted array sorted. */
  lemma SortedFront<V>(s: Entries<V>)
    requires SortedByVersion(s) && |s| > 0
    ensures SortedByVersion(s[..|s| - 1])
  {
    var front := s[..|s| - 1];
    forall i, j | 0 <= i < j < |front| ensures VersionLeq(front[i].0, front[j].0) {
      assert front[i] == s[i] && front[j] == s[j];
    }
  }

  /** When `x` sorts strictly before the last entry of `s`, that entry may follow
      any sorted arrangement of the other entries together with `x`. */
  lemma SortedReappendLast<V>(s: Entries<V>, x: (string, V), mid: Entries<V>)
    requires SortedByVersion(s) && |s| > 0 && !VersionLeq(s[|s| - 1].0, x.0)
    requires SortedByVersion(mid)
    requires forall e :: e in mid ==> e in s[..|s| - 1] || e == x
    ensures SortedByVersion(mid + [s[|s| - 1]])
  {
    var last := s[|s| - 1];
    SortedBelowLast(s);
    VersionLeqTotalPreorder(last.0, x.0, x.0);
    forall i | 0 <= i < |mid| ensures VersionLeq(mid[i].0, last.0) {
      assert mid[i] in mid;
      if mid[i] != x {
        var k :| 0 <= k < |s| - 1 && s[..|s| - 1][k] == mid[i];
        assert s[k] == mid[i];
      }
    }
    SortedSnoc(mid, last);
  }

  /** What `Insert` promises, for a result `r` of inserting `x` into `s`. */
  ghost predicate InsertedInto<V>(r: Entries<V>, x: (string, V), s: Entries<V>) {
    && SortedByVersion(r)
    && multiset(r) == multiset(s) + multiset{x}
    && (forall e :: e in r ==> e in s || e == x)
    && |r| == |s| + 1
    && KeySet(r) == KeySet(s) + {x.0}
    && (UniqueKeys(s) && x.0 !in KeySet(s) ==> UniqueKeys(r))
  }

  /** Appending is an insertion when `x` sorts no earlier than the last entry. */
  lemma InsertAtEnd<V>(x: (string, V), s: Entries<V>)
    requires SortedByVersion(s)
    requires |s| == 0 || VersionLeq(s[|s| - 1].0, x.0)
    ensures InsertedInto(s + [x], x, s)
  {
    UniqueSnoc(s, x);
    if |s| > 0 {
      SortedAppendAfterLast(s, x);
    }
  }

  /** Otherwise inserting into all but the last entry and re-appending it is one. */
  lemma InsertBeforeLast<V>(x: (string, V), s: Entries<V>, mid: Entries<V>)
    requires SortedByVersion(s) && |s| > 0 && !VersionLeq(s[|s| - 1].0, x.0)
    requires InsertedInto(mid, x, s[..|s| - 1])
    ensures InsertedInto(mid + [s[|s| - 1]], x, s)
  {
    ReappendContents(x, s, mid);
    SortedReappendLast(s, x, mid);
  }

  /** Re-appending the last entry of `s` to an insertion into the others
      gives the entries of `s` and `x`, under the keys of both. */
  lemma ReappendContents<V>(x: (string, V), s: Entries<V>, mid: Entries<V>)
    requires |s| > 0
    requires InsertedInto(mid, x, s[..|s| - 1])
    ensures multiset(mid + [s[|s| - 1]]) == multiset(s) + multiset{x}
    ensures forall e :: e in mid + [s[|s| - 1]] ==> e in s || e == x
    ensures KeySet(mid + [s[|s| - 1]]) == KeySet(s) + {x.0}
    ensures UniqueKeys(s) && x.0 !in KeySet(s) ==> UniqueKeys(mid + [s[|s| - 1]])
  {
    var front, last := s[..|s| - 1], s[|s| - 1];
    assert s == front + [last];
    UniqueSnoc(front, last);
    UniqueSnoc(mid, last);
  }

  /** Inserts `x` after the last entry that sorts no later than it, so entries
      that compare equal keep their input order (PHP's sort is stable). */
  function Insert<V>(x: (string, V), s: Entries<V>): (r: Entries<V>)
    requires SortedByVersion(s)
    ensures InsertedInto(r, x, s)
  {
    if |s| == 0 || VersionLeq(s[|s| - 1].0, x.0) then
      InsertAtEnd(x, s);
      s + [x]
    else
      SortedFront(s);
      var mid := Insert(x, s[..|s| - 1]);
      InsertBeforeLast(x, s, mid);
      mid + [s[|s| - 1]]
  }

  /** `uksort($a, 'version_compare')`: the same entries in version order. */
  function SortByVersion<V>(a: Entries<V>): (r: Entries<V>)
    ensures SortedByVersion(r)
    ensures multiset(r) == multiset(a)
    ensures |r| == |a|
    ensures KeySet(r) == KeySet(a)
    ensures UniqueKeys(a) ==> UniqueKeys(r)
  {
    if |a| == 0 then []
    else
      var front := a[..|a| - 1];
      var x := a[|a| - 1];
      assert a == front + [x];
      UniqueSnoc(front, x);
      Insert(x, SortByVersion(front))
  }
}
