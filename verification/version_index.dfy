/** The versions of a product (`getVersions`) and the versions before a given
    one (`getVersionsBefore`), as ordered arrays from version name to version
    page. */
module VersionIndex {
  import opened Wrappers
  import opened Assoc
  import opened Utils
  import opened Pages
  import opened VersionOrder

  /** The Product's `userCanView`, which `getVersions` calls with a version
      status in place of a user: everyone may view a product page. */
  function ProductViewable(status: Option<string>): bool {
    true
  }

  /** The actual names of the pages whose status passes `viewable`. */
  ghost function ViewableNames(w: Wiki, pages: seq<PageName>, viewable: Option<string> -> bool): set<string> {
    set i | 0 <= i < |pages| && viewable(GetProp(w, pages[i], StatusKey)) :: ActualName(pages[i])
  }

  /** Extending the page list by one page extends the names by its name when
      its status passes, and not otherwise. */
  lemma ViewableNamesSnoc(w: Wiki, front: seq<PageName>, p: PageName, viewable: Option<string> -> bool)
    ensures ViewableNames(w, front + [p], viewable)
      == ViewableNames(w, front, viewable) + (if viewable(GetProp(w, p, StatusKey)) then {ActualName(p)} else {})
  {
    var pages := front + [p];
    var extra: set<string> := if viewable(GetProp(w, p, StatusKey)) then {ActualName(p)} else {};
    forall n ensures n in ViewableNames(w, pages, viewable) <==> n in ViewableNames(w, front, viewable) + extra {
      if n in ViewableNames(w, pages, viewable) {
        var i :| 0 <= i < |pages| && viewable(GetProp(w, pages[i], StatusKey)) && ActualName(pages[i]) == n;
        if i < |front| { assert front[i] == pages[i]; }
      }
      if n in ViewableNames(w, front, viewable) {
        var i :| 0 <= i < |front| && viewable(GetProp(w, front[i], StatusKey)) && ActualName(front[i]) == n;
        assert pages[i] == front[i];
      }
      if n in extra {
        assert pages[|front|] == p;
      }
    }
  }

  /** The loop of `getVersions` before sorting (and of `getAllManuals`, with
      a filter that keeps every page): each page whose status passes the
      filter is stored under its actual name, a later page with the same name
      replacing an earlier one. */
  function ByActualName(w: Wiki, pages: seq<PageName>, viewable: Option<string> -> bool): (r: Entries<PageName>)
    ensures UniqueKeys(r)
    ensures KeySet(r) == ViewableNames(w, pages, viewable)
    ensures forall e :: e in r ==> e.1 in pages && ActualName(e.1) == e.0
  {
    if |pages| == 0 then []
    else
      var front := pages[..|pages| - 1];
      var p := pages[|pages| - 1];
      var acc := ByActualName(w, front, viewable);
      assert pages == front + [p];
      ViewableNamesSnoc(w, front, p, viewable);
      if viewable(GetProp(w, p, StatusKey)) then
        PutKeySet(acc, ActualName(p), p);
        PutEntries(acc, ActualName(p), p);
        Put(acc, ActualName(p), p)
      else
        acc
  }

  /** The status filter of `getVersions` never drops a version: every page's
      actual name is a key. */
  lemma NoVersionDropped(w: Wiki, pages: seq<PageName>)
    ensures KeySet(ByActualName(w, pages, ProductViewable)) == set i | 0 <= i < |pages| :: ActualName(pages[i])
  {
  }

  /** Sorting the collected versions keeps their entries and their keys. */
  lemma SortedVersions(w: Wiki, pages: seq<PageName>)
    ensures forall e :: e in SortByVersion(ByActualName(w, pages, ProductViewable)) ==>
      e.1 in pages && ActualName(e.1) == e.0
    ensures forall i :: 0 <= i < |pages| ==>
      ActualName(pages[i]) in KeySet(SortByVersion(ByActualName(w, pages, ProductViewable)))
  {
    var collected := ByActualName(w, pages, ProductViewable);
    var r := SortByVersion(collected);
    forall e | e in r ensures e in collected {
      assert e in multiset(r);
    }
    NoVersionDropped(w, pages);
  }

  /** `getVersions`: the product's child pages keyed by actual name, sorted
      by version. */
  function GetVersions(w: Wiki, product: PageName): (r: Entries<PageName>)
    ensures SortedByVersion(r)
    ensures UniqueKeys(r)
    ensures forall e :: e in r ==> e.1 in Children(w, product) && ActualName(e.1) == e.0
    ensures forall i :: 0 <= i < |Children(w, product)| ==> ActualName(Children(w, product)[i]) in KeySet(r)
  {
    SortedVersions(w, Children(w, product));
    SortByVersion(ByActualName(w, Children(w, product), ProductViewable))
  }

  /** The position of the last entry with key `k`. */
  function LastKeyIndex<V>(a: Entries<V>, k: string): (r: Option<nat>)
    ensures r.Some? ==> r.value < |a| && a[r.value].0 == k
    ensures r.Some? ==> forall j :: r.value < j < |a| ==> a[j].0 != k
    ensures r.None? ==> forall j :: 0 <= j < |a| ==> a[j].0 != k
  {
    if |a| == 0 then None
    else if a[|a| - 1].0 == k then Some(|a| - 1)
    else LastKeyIndex(a[..|a| - 1], k)
  }

  /** `getVersionsBefore` on a version array: the entries before the one named
      `cur`, most recent first; nothing when `cur` is not a key. */
  function VersionsBefore<V>(a: Entries<V>, cur: string): (r: Entries<V>)
    ensures cur !in KeySet(a) ==> r == []
    ensures forall e :: e in r ==> e in a
  {
    match LastKeyIndex(a, cur)
    case None => []
    case Some(i) =>
      assert forall e :: e in Reverse(a[..i]) ==> e in a by {
        forall e | e in Reverse(a[..i]) ensures e in a {
          var j :| 0 <= j < i && Reverse(a[..i])[j] == e;
          assert e == a[i - 1 - j];
        }
      }
      Reverse(a[..i])
  }

  /** With distinct keys, the versions before the one at position `i` are the
      entries at positions i - 1, ..., 0, in that order. */
  lemma VersionsBeforeAt<V>(a: Entries<V>, i: nat)
    requires UniqueKeys(a) && i < |a|
    ensures |VersionsBefore(a, a[i].0)| == i
    ensures forall j :: 0 <= j < i ==> VersionsBefore(a, a[i].0)[j] == a[i - 1 - j]
  {
    var l := LastKeyIndex(a, a[i].0);
    assert l == Some(i);
  }

  /** On a sorted array with distinct keys, every version before `cur` sorts
      no later than `cur`, and they come most recent first. */
  lemma VersionsBeforeOrder<V>(a: Entries<V>, cur: string)
    requires UniqueKeys(a) && SortedByVersion(a)
    ensures forall e :: e in VersionsBefore(a, cur) ==> VersionLeq(e.0, cur) && e.0 != cur
    ensures forall j, k :: 0 <= j < k < |VersionsBefore(a, cur)| ==>
      VersionLeq(VersionsBefore(a, cur)[k].0, VersionsBefore(a, cur)[j].0)
  {
    match LastKeyIndex(a, cur)
    case None =>
    case Some(i) =>
      VersionsBeforeAt(a, i);
      var r := VersionsBefore(a, cur);
      forall e | e in r ensures VersionLeq(e.0, cur) && e.0 != cur {
        var j :| 0 <= j < |r| && r[j] == e;
        assert e == a[i - 1 - j];
      }
  }

  /** Reversing a slice one longer at the front appends that entry. */
  lemma ReverseExtend<V>(a: Entries<V>, i: nat, l: nat)
    requires i < l <= |a|
    ensures Reverse(a[i..l]) == Reverse(a[i + 1..l]) + [a[i]]
  {
  }

  /** A key found before the other entries of a slice is not among their keys
      when keys are distinct. */
  lemma KeyNotLater<V>(a: Entries<V>, i: nat, l: nat)
    requires UniqueKeys(a) && i < l <= |a|
    ensures !HasKey(Reverse(a[i + 1..l]), a[i].0)
  {
    var r := Reverse(a[i + 1..l]);
    forall j | 0 <= j < |r| ensures r[j].0 != a[i].0 {
      assert r[j] == a[l - 1 - j];
    }
    InKeySet(r, a[i].0);
  }

  /** The loop of `getVersionsBefore`: walk the keys from the last, skip until
      `cur` has been passed, then store each entry under its key. */
  method VersionsBeforeLoop<V>(a: Entries<V>, cur: string) returns (r: Entries<V>)
    requires UniqueKeys(a)
    ensures r == VersionsBefore(a, cur)
  {
    r := [];
    var reached := false;
    var i := |a| - 1;
    while i >= 0
      invariant -1 <= i < |a|
      invariant !reached ==> r == [] && forall j :: i < j < |a| ==> a[j].0 != cur
      invariant reached ==> LastKeyIndex(a, cur).Some? && i < LastKeyIndex(a, cur).value
      invariant reached ==> r == Reverse(a[i + 1..LastKeyIndex(a, cur).value])
      decreases i + 1
    {
      if !reached {
        if a[i].0 == cur {
          reached := true;
          assert LastKeyIndex(a, cur) == Some(i);
        }
      } else {
        var l := LastKeyIndex(a, cur).value;
        KeyNotLater(a, i, l);
        ReverseExtend(a, i, l);
        r := Put(r, a[i].0, a[i].1);
      }
      i := i - 1;
    }
  }
}
