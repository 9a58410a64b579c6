/** What a version page shows besides links: its name and status, its
    manuals, and how the `manuals list` parameter is reconciled with the
    manuals that actually sit under the version. */
module VersionPage {
  import opened Wrappers
  import opened Strings
  import opened Assoc
  import opened Utils
  import opened Pages
  import opened VersionIndex
  import opened Inheritance

  /** A version's `getDisplayName`: its actual name (no display title). */
  function VersionDisplayName(name: PageName): (r: string)
    ensures '/' !in r
  {
    ActualName(name)
  }

  /** The display name of the version `product/v` is `v`. */
  lemma VersionDisplayNameOfChild(product: PageName, v: string)
    requires product != "" && '/' !in v
    ensures VersionDisplayName(product + "/" + v) == v
  {
    ParentOfChild(product, v);
  }

  /** `getStatus`: the stored `ZDocsStatus`. */
  function VersionStatus(w: Wiki, name: PageName): Option<string> {
    GetProp(w, name, StatusKey)
  }

  /** Keeps every page. */
  function KeepAll(status: Option<string>): bool {
    true
  }

  /** `getAllManuals`: the version's child pages keyed by actual name. */
  function GetAllManuals(w: Wiki, version: PageName): (r: Entries<PageName>)
    ensures UniqueKeys(r)
    ensures forall e :: e in r ==> e.1 in Children(w, version) && ActualName(e.1) == e.0
    ensures KeySet(r) == set i | 0 <= i < |Children(w, version)| :: ActualName(Children(w, version)[i])
  {
    ByActualName(w, Children(w, version), KeepAll)
  }

  /** One item of the manuals list: a link to a manual, or the listed text
      shown as it is so that readers see something is wrong. */
  datatype ListItem = Link(manual: PageName) | Plain(text: string)

  /** The reconciled list and the manuals it never mentioned. */
  datatype Reconciled = Reconciled(items: seq<ListItem>, leftover: Entries<PageName>)

  /** The names in a list, as a set. */
  function NameSet(names: seq<string>): set<string> {
    set n | n in names
  }

  /** The loop over the exploded `manuals list`: a name that is still a key
      of the manuals is linked and removed from them; any other name is shown
      as plain text. */
  function Reconcile(names: seq<string>, manuals: Entries<PageName>): (r: Reconciled)
    requires UniqueKeys(manuals)
    ensures |r.items| == |names|
    ensures forall i :: 0 <= i < |names| ==>
      (r.items[i].Link? <==> HasKey(manuals, names[i]) && names[i] !in names[..i])
    ensures forall i :: 0 <= i < |names| && r.items[i].Link? ==> Lookup(manuals, names[i]) == Some(r.items[i].manual)
    ensures forall i :: 0 <= i < |names| && r.items[i].Plain? ==> r.items[i].text == names[i]
    ensures UniqueKeys(r.leftover)
    ensures KeySet(r.leftover) == KeySet(manuals) - NameSet(names)
    ensures forall k :: k in KeySet(r.leftover) ==> Lookup(r.leftover, k) == Lookup(manuals, k)
  {
    if |names| == 0 then Reconciled([], manuals)
    else
      var n := names[0];
      var remaining := if HasKey(manuals, n) then Remove(manuals, n) else manuals;
      RemoveKeySet(manuals, n);
      InKeySet(manuals, n);
      assert KeySet(remaining) == KeySet(manuals) - {n};
      assert forall k :: k != n ==> Lookup(remaining, k) == Lookup(manuals, k);
      assert forall k :: k != n ==> (HasKey(remaining, k) <==> HasKey(manuals, k)) by {
        forall k | k != n ensures HasKey(remaining, k) <==> HasKey(manuals, k) {
          InKeySet(remaining, k);
          InKeySet(manuals, k);
        }
      }
      var rest := Reconcile(names[1..], remaining);
      var item := if HasKey(manuals, n) then Link(Lookup(manuals, n).value) else Plain(n);
      ReconcileShiftItems(names, manuals, remaining, rest.items, item);
      ReconcileShiftLeftover(names, manuals, remaining, rest.leftover);
      Reconciled([item] + rest.items, rest.leftover)
  }

  /** The step of `Reconcile` for the items: the items for the other names,
      with the first name's item in front, are the items for all of them. */
  lemma ReconcileShiftItems(names: seq<string>, manuals: Entries<PageName>, remaining: Entries<PageName>,
                            items: seq<ListItem>, item: ListItem)
    requires |names| > 0
    requires forall k :: k != names[0] ==> (HasKey(remaining, k) <==> HasKey(manuals, k))
    requires forall k :: k != names[0] ==> Lookup(remaining, k) == Lookup(manuals, k)
    requires !HasKey(remaining, names[0])
    requires item == if HasKey(manuals, names[0]) then Link(Lookup(manuals, names[0]).value) else Plain(names[0])
    requires |items| == |names| - 1
    requires forall i :: 0 <= i < |names| - 1 ==>
      (items[i].Link? <==> HasKey(remaining, names[1..][i]) && names[1..][i] !in names[1..][..i])
    requires forall i :: 0 <= i < |names| - 1 && items[i].Link? ==>
      Lookup(remaining, names[1..][i]) == Some(items[i].manual)
    requires forall i :: 0 <= i < |names| - 1 && items[i].Plain? ==> items[i].text == names[1..][i]
    ensures forall i :: 0 <= i < |names| ==>
      (([item] + items)[i].Link? <==> HasKey(manuals, names[i]) && names[i] !in names[..i])
    ensures forall i :: 0 <= i < |names| && ([item] + items)[i].Link? ==>
      Lookup(manuals, names[i]) == Some(([item] + items)[i].manual)
    ensures forall i :: 0 <= i < |names| && ([item] + items)[i].Plain? ==>
      ([item] + items)[i].text == names[i]
  {
    var all := [item] + items;
    forall i | 1 <= i < |names|
      ensures (all[i].Link? <==> HasKey(manuals, names[i]) && names[i] !in names[..i])
      ensures all[i].Link? ==> Lookup(manuals, names[i]) == Some(all[i].manual)
      ensures all[i].Plain? ==> all[i].text == names[i]
    {
      ShiftedItem(names, items, item, i);
    }
  }

  /** Position `i` of the longer list is position `i - 1` of the shorter. */
  lemma ShiftedItem(names: seq<string>, items: seq<ListItem>, item: ListItem, i: nat)
    requires 1 <= i < |names| && |items| == |names| - 1
    ensures ([item] + items)[i] == items[i - 1]
    ensures names[1..][i - 1] == names[i]
    ensures names[..i] == [names[0]] + names[1..][..i - 1]
  {
  }

  /** The step of `Reconcile` for the leftover manuals. */
  lemma ReconcileShiftLeftover(names: seq<string>, manuals: Entries<PageName>, remaining: Entries<PageName>,
                               leftover: Entries<PageName>)
    requires |names| > 0
    requires forall k :: k != names[0] ==> Lookup(remaining, k) == Lookup(manuals, k)
    requires KeySet(remaining) == KeySet(manuals) - {names[0]}
    requires KeySet(leftover) == KeySet(remaining) - NameSet(names[1..])
    requires forall k :: k in KeySet(leftover) ==> Lookup(leftover, k) == Lookup(remaining, k)
    ensures KeySet(leftover) == KeySet(manuals) - NameSet(names)
    ensures forall k :: k in KeySet(leftover) ==> Lookup(leftover, k) == Lookup(manuals, k)
  {
    assert NameSet(names) == {names[0]} + NameSet(names[1..]) by {
      assert names == [names[0]] + names[1..];
    }
  }

  /** Every manual is linked at most once, however often the list names it:
      two links come from two different names and, when manuals are keyed
      by their actual names (as `getAllManuals` keys them), lead to two
      different manuals. */
  lemma LinkedAtMostOnce(names: seq<string>, manuals: Entries<PageName>, i: nat, j: nat)
    requires UniqueKeys(manuals)
    requires forall e :: e in manuals ==> ActualName(e.1) == e.0
    requires i < j < |names|
    requires Reconcile(names, manuals).items[i].Link? && Reconcile(names, manuals).items[j].Link?
    ensures names[i] != names[j]
    ensures Reconcile(names, manuals).items[i].manual != Reconcile(names, manuals).items[j].manual
  {
    assert names[i] in names[..j];
    var r := Reconcile(names, manuals);
    assert (names[i], r.items[i].manual) in manuals;
    assert (names[j], r.items[j].manual) in manuals;
  }

  /** The manuals list of a version page: the exploded (possibly inherited)
      `manuals list` reconciled with the version's manuals. A missing list
      explodes to one empty name. */
  function ManualsSection(w: Wiki, node: Node): (r: Reconciled)
    requires node.kind == Version
    ensures |r.items| == |Split(GetPossiblyInheritedParam(w, node, ManualsListKey).GetOr(""), ',')|
    ensures KeySet(r.leftover) == KeySet(GetAllManuals(w, node.name))
      - NameSet(Split(GetPossiblyInheritedParam(w, node, ManualsListKey).GetOr(""), ','))
  {
    Reconcile(Split(GetPossiblyInheritedParam(w, node, ManualsListKey).GetOr(""), ','), GetAllManuals(w, node.name))
  }

  /** The "extra manuals" warning: the names of the manuals the list never
      mentioned, or none when there are none. */
  function ExtraManualsWarning(r: Reconciled): (warning: Option<seq<string>>)
    ensures warning.None? <==> KeySet(r.leftover) == {}
    ensures warning.Some? ==> forall k :: k in warning.value <==> k in KeySet(r.leftover)
  {
    if |r.leftover| > 0 then
      assert r.leftover[0].0 in KeySet(r.leftover);
      forall k ensures k in Keys(r.leftover) <==> k in KeySet(r.leftover) {
        InKeySet(r.leftover, k);
      }
      Some(Keys(r.leftover))
    else None
  }

  /** A manual is in the warning exactly when the list never names it. */
  lemma WarningListsUnmentioned(names: seq<string>, manuals: Entries<PageName>, k: string)
    requires UniqueKeys(manuals)
    ensures ExtraManualsWarning(Reconcile(names, manuals)).Some? && k in ExtraManualsWarning(Reconcile(names, manuals)).value
      <==> k in KeySet(manuals) && k !in names
  {
    assert k in NameSet(names) <==> k in names;
  }
}
