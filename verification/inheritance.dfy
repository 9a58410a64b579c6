/** Inheritance between versions: the equivalent of a page in another version,
    the equivalents in earlier versions (most recent first), the page whose
    free text a page inherits, and inherited parameter values.

    Free text goes back to the first earlier equivalent that does not itself
    inherit. A parameter is taken from the first earlier equivalent that has
    it, but the search also ends, with no value, at an equivalent that lacks
    it and does not inherit. */
module Inheritance {
  import opened Wrappers
  import opened Assoc
  import opened Utils
  import opened Pages
  import opened VersionIndex

  /** The page asks to inherit (`ZDocsInherit` holds a true value). */
  predicate InheritsAt(w: Wiki, page: PageName) {
    Truthy(GetProp(w, page, InheritKey))
  }

  /** `inheritsPageContents`: never for products and versions. */
  function InheritsPageContents(w: Wiki, node: Node): (r: bool)
    ensures node.kind in {Product, Version} ==> !r
    ensures node.kind in {Manual, Topic} ==> (r <==> InheritsAt(w, node.name))
  {
    if node.kind == Product || node.kind == Version then false else InheritsAt(w, node.name)
  }

  /** `inheritsParams`: never for products; versions may inherit parameters. */
  function InheritsParams(w: Wiki, node: Node): (r: bool)
    ensures node.kind == Product ==> !r
    ensures node.kind != Product ==> (r <==> InheritsAt(w, node.name))
  {
    if node.kind == Product then false else InheritsAt(w, node.name)
  }

  /** `getEquivalentPageNameForVersion`: a manual's is the version page, "/",
      and its actual name; a topic's adds its manual's actual name between
      them. Other levels have none (and so has a topic with no manual). */
  function EquivalentPageNameForVersion(node: Node, versionPage: PageName): (r: Option<PageName>)
    ensures node.kind == Manual ==> r == Some(versionPage + "/" + ActualName(node.name))
    ensures node.kind == Topic && node.manual.Some? ==>
      r == Some(versionPage + "/" + ActualName(node.manual.value) + "/" + ActualName(node.name))
    ensures node.kind in {Product, Version} || (node.kind == Topic && node.manual.None?) ==> r.None?
  {
    match node.kind
    case Manual => Some(versionPage + "/" + ActualName(node.name))
    case Topic =>
      if node.manual.Some? then
        Some(versionPage + "/" + ActualName(node.manual.value) + "/" + ActualName(node.name))
      else None
    case _ => None
  }

  /** A manual's equivalent sits under the version page and keeps the
      manual's actual name. */
  lemma ManualEquivalentName(node: Node, versionPage: PageName)
    requires node.kind == Manual && versionPage != ""
    ensures ParentPage(EquivalentPageNameForVersion(node, versionPage).value) == Some(versionPage)
    ensures ActualName(EquivalentPageNameForVersion(node, versionPage).value) == ActualName(node.name)
  {
    ParentOfChild(versionPage, ActualName(node.name));
  }

  /** A topic's equivalent sits under the version's manual of the same actual
      name and keeps the topic's actual name. */
  lemma TopicEquivalentName(node: Node, versionPage: PageName)
    requires node.kind == Topic && node.manual.Some? && versionPage != ""
    ensures ParentPage(EquivalentPageNameForVersion(node, versionPage).value)
      == Some(versionPage + "/" + ActualName(node.manual.value))
    ensures ActualName(EquivalentPageNameForVersion(node, versionPage).value) == ActualName(node.name)
  {
    var m := versionPage + "/" + ActualName(node.manual.value);
    ParentOfChild(m, ActualName(node.name));
  }

  /** `getEquivalentPageForVersion`: a version's equivalent is the other
      version itself; a manual's or topic's is its equivalent name when that
      page exists and has the same stored type. */
  function EquivalentPageForVersion(w: Wiki, node: Node, versionPage: PageName): (r: Option<PageName>)
    ensures node.kind == Version ==> r == Some(versionPage)
    ensures node.kind != Version && r.Some? ==> Exists(w, r.value) && HasType(w, r.value, node.kind)
    ensures node.kind != Version && r.Some? ==> Some(r.value) == EquivalentPageNameForVersion(node, versionPage)
    ensures node.kind != Version && r.None? && EquivalentPageNameForVersion(node, versionPage).Some? ==>
      var n := EquivalentPageNameForVersion(node, versionPage).value;
      !Exists(w, n) || !HasType(w, n, node.kind)
  {
    if node.kind == Version then Some(versionPage)
    else
      match EquivalentPageNameForVersion(node, versionPage)
      case None => None
      case Some(n) =>
        if Exists(w, n) && GetPageType(w, n) == Some(TypeValue(node.kind)) then Some(n) else None
  }

  /** The equivalents of `node` in the version pages of `versions`, in order,
      skipping versions where it has none. */
  function EquivalentsAmong(w: Wiki, node: Node, versions: Entries<PageName>): (r: seq<PageName>)
    ensures |r| <= |versions|
    ensures forall p :: p in r ==> exists i :: 0 <= i < |versions| && EquivalentPageForVersion(w, node, versions[i].1) == Some(p)
    ensures forall i :: 0 <= i < |versions| && EquivalentPageForVersion(w, node, versions[i].1).Some? ==>
      EquivalentPageForVersion(w, node, versions[i].1).value in r
  {
    if |versions| == 0 then []
    else
      var rest := EquivalentsAmong(w, node, versions[1..]);
      assert forall p :: p in rest ==> exists i :: 0 <= i < |versions| && EquivalentPageForVersion(w, node, versions[i].1) == Some(p) by {
        forall p | p in rest ensures exists i :: 0 <= i < |versions| && EquivalentPageForVersion(w, node, versions[i].1) == Some(p) {
          var j :| 0 <= j < |versions[1..]| && EquivalentPageForVersion(w, node, versions[1..][j].1) == Some(p);
          assert versions[j + 1] == versions[1..][j];
        }
      }
      assert forall i :: 1 <= i < |versions| ==> versions[i] == versions[1..][i - 1];
      match EquivalentPageForVersion(w, node, versions[0].1)
      case None => rest
      case Some(e) => [e] + rest
  }

  /** One version contributes its equivalent, or nothing when it has none. */
  lemma EquivalentsAmongOne(w: Wiki, node: Node, v: (string, PageName))
    ensures EquivalentsAmong(w, node, [v]) ==
      if EquivalentPageForVersion(w, node, v.1).Some? then [EquivalentPageForVersion(w, node, v.1).value] else []
  {
    assert [v][1..] == [];
  }

  /** The equivalents of two runs of versions are those of the first run
      followed by those of the second: the versions' order is kept and a
      version without an equivalent is skipped. */
  lemma {:induction false} EquivalentsAmongAppend(w: Wiki, node: Node, a: Entries<PageName>, b: Entries<PageName>)
    ensures EquivalentsAmong(w, node, a + b) == EquivalentsAmong(w, node, a) + EquivalentsAmong(w, node, b)
    decreases |a|
  {
    if |a| == 0 {
      assert a + b == b;
    } else {
      assert (a + b)[0] == a[0];
      assert (a + b)[1..] == a[1..] + b;
      EquivalentsAmongAppend(w, node, a[1..], b);
    }
  }

  /** When no version lacks an equivalent, the equivalents follow the versions
      one for one. */
  lemma {:induction false} EquivalentsAmongAll(w: Wiki, node: Node, versions: Entries<PageName>)
    requires forall i :: 0 <= i < |versions| ==> EquivalentPageForVersion(w, node, versions[i].1).Some?
    ensures |EquivalentsAmong(w, node, versions)| == |versions|
    ensures forall i :: 0 <= i < |versions| ==>
      EquivalentsAmong(w, node, versions)[i] == EquivalentPageForVersion(w, node, versions[i].1).value
  {
    if |versions| > 0 {
      assert forall i :: 1 <= i < |versions| ==> versions[i] == versions[1..][i - 1];
      EquivalentsAmongAll(w, node, versions[1..]);
    }
  }

  /** `getEquivalentPagesForPreviousVersions`: the node's equivalents in the
      versions before its own, most recent first. None when its name does not
      give a product page. */
  function EquivalentsBefore(w: Wiki, node: Node): (r: seq<PageName>)
    ensures ProductAndVersionStrings(node.kind, node.name).None? ==> r == []
    ensures forall p :: p in r ==> exists i ::
      var before := VersionsBefore(GetVersions(w, ProductAndVersionStrings(node.kind, node.name).value.0),
                                   ProductAndVersionStrings(node.kind, node.name).value.1);
      0 <= i < |before| && EquivalentPageForVersion(w, node, before[i].1) == Some(p)
  {
    match ProductAndVersionStrings(node.kind, node.name)
    case None => []
    case Some((product, version)) =>
      if product == "" then []
      else EquivalentsAmong(w, node, VersionsBefore(GetVersions(w, product), version))
  }

  // ------------------------------------------------------------ free text

  /** The first page of `eqs` that does not inherit. */
  function FirstNonInheriting(w: Wiki, eqs: seq<PageName>): (r: Option<nat>)
    ensures r.Some? ==> r.value < |eqs| && !InheritsAt(w, eqs[r.value])
    ensures r.Some? ==> forall j :: 0 <= j < r.value ==> InheritsAt(w, eqs[j])
    ensures r.None? ==> forall j :: 0 <= j < |eqs| ==> InheritsAt(w, eqs[j])
  {
    if |eqs| == 0 then None
    else if !InheritsAt(w, eqs[0]) then Some(0)
    else
      match FirstNonInheriting(w, eqs[1..])
      case None =>
        assert forall j :: 1 <= j < |eqs| ==> eqs[j] == eqs[1..][j - 1];
        None
      case Some(i) =>
        assert forall j :: 1 <= j <= i ==> eqs[j] == eqs[1..][j - 1];
        Some(i + 1)
  }

  /** `getInheritedPage`: Absent when the node does not inherit its text
      (always for products and versions); otherwise the first earlier
      equivalent that does not inherit, or Exhausted (PHP throws "There is no
      version from which to inherit!") when every one of them inherits. */
  function GetInheritedPage(w: Wiki, node: Node): (r: Search<PageName>)
    ensures !InheritsPageContents(w, node) <==> r.Absent?
    ensures r.Found? ==> r.value in EquivalentsBefore(w, node) && !InheritsAt(w, r.value)
    ensures r.Exhausted? <==>
              && InheritsPageContents(w, node)
              && forall p :: p in EquivalentsBefore(w, node) ==> InheritsAt(w, p)
  {
    if !InheritsPageContents(w, node) then Absent
    else
      var eqs := EquivalentsBefore(w, node);
      match FirstNonInheriting(w, eqs)
      case None => Exhausted
      case Some(i) =>
        assert !InheritsAt(w, eqs[i]);
        Found(eqs[i])
  }

  /** The inherited page is the first of the earlier equivalents that does
      not inherit: every more recent one inherits. */
  lemma InheritedPageIsFirst(w: Wiki, node: Node, i: nat)
    requires InheritsPageContents(w, node)
    requires i < |EquivalentsBefore(w, node)|
    requires !InheritsAt(w, EquivalentsBefore(w, node)[i])
    requires forall j :: 0 <= j < i ==> InheritsAt(w, EquivalentsBefore(w, node)[j])
    ensures GetInheritedPage(w, node) == Found(EquivalentsBefore(w, node)[i])
  {
    FirstNonInheritingIs(w, EquivalentsBefore(w, node), i);
  }

  /** A page that does not inherit, behind only pages that do, is the first
      that does not inherit. */
  lemma FirstNonInheritingIs(w: Wiki, eqs: seq<PageName>, i: nat)
    requires i < |eqs| && !InheritsAt(w, eqs[i])
    requires forall j :: 0 <= j < i ==> InheritsAt(w, eqs[j])
    ensures FirstNonInheriting(w, eqs) == Some(i)
  {
  }

  // ----------------------------------------------------------- parameters

  /** Where the parameter search over `eqs` ends: the first page that has a
      value for `key` (even an empty one) or that does not inherit. */
  function ParamStop(w: Wiki, eqs: seq<PageName>, key: Key): (r: Option<nat>)
    ensures r.Some? ==> r.value < |eqs|
    ensures r.Some? ==> GetProp(w, eqs[r.value], key).Some? || !InheritsAt(w, eqs[r.value])
    ensures r.Some? ==> forall j :: 0 <= j < r.value ==>
      GetProp(w, eqs[j], key).None? && InheritsAt(w, eqs[j])
    ensures r.None? ==> forall j :: 0 <= j < |eqs| ==>
      GetProp(w, eqs[j], key).None? && InheritsAt(w, eqs[j])
  {
    if |eqs| == 0 then None
    else if GetProp(w, eqs[0], key).Some? || !InheritsAt(w, eqs[0]) then Some(0)
    else
      match ParamStop(w, eqs[1..], key)
      case None =>
        assert forall j :: 1 <= j < |eqs| ==> eqs[j] == eqs[1..][j - 1];
        None
      case Some(i) =>
        assert forall j :: 1 <= j <= i ==> eqs[j] == eqs[1..][j - 1];
        Some(i + 1)
  }

  /** The loop of `getInheritedParam` over `eqs`: Found with the first value,
      Absent when it stops at a page without the value that does not
      inherit, Exhausted when it runs out of pages. */
  function ParamSearch(w: Wiki, eqs: seq<PageName>, key: Key): (r: Search<string>)
    ensures r.Found? <==> exists i :: (0 <= i < |eqs| && GetProp(w, eqs[i], key).Some? &&
                                      forall j :: 0 <= j < i ==> GetProp(w, eqs[j], key).None? && InheritsAt(w, eqs[j]))
    ensures r.Found? ==> exists p :: p in eqs && GetProp(w, p, key) == Some(r.value)
    ensures r.Exhausted? <==> forall j :: 0 <= j < |eqs| ==> GetProp(w, eqs[j], key).None? && InheritsAt(w, eqs[j])
  {
    match ParamStop(w, eqs, key)
    case None => Exhausted
    case Some(i) =>
      if GetProp(w, eqs[i], key).Some? then
        assert eqs[i] in eqs;
        Found(GetProp(w, eqs[i], key).value)
      else
        assert forall k :: 0 <= k < |eqs| && GetProp(w, eqs[k], key).Some? ==>
          !(forall j :: 0 <= j < k ==> GetProp(w, eqs[j], key).None? && InheritsAt(w, eqs[j])) by {
          forall k | 0 <= k < |eqs| && GetProp(w, eqs[k], key).Some?
            ensures !(forall j :: 0 <= j < k ==> GetProp(w, eqs[j], key).None? && InheritsAt(w, eqs[j])) {
            assert !(GetProp(w, eqs[i], key).None? && InheritsAt(w, eqs[i]));
          }
        }
        Absent
  }

  /** The value found is that of the first equivalent that has one, when
      every more recent equivalent lacks it and inherits. */
  lemma ParamSearchFindsFirst(w: Wiki, eqs: seq<PageName>, key: Key, i: nat)
    requires i < |eqs| && GetProp(w, eqs[i], key).Some?
    requires forall j :: 0 <= j < i ==> GetProp(w, eqs[j], key).None? && InheritsAt(w, eqs[j])
    ensures ParamSearch(w, eqs, key) == Found(GetProp(w, eqs[i], key).value)
  {
    ParamStopIs(w, eqs, key, i);
  }

  /** The search stops at the first page that has a value or does not
      inherit. */
  lemma ParamStopIs(w: Wiki, eqs: seq<PageName>, key: Key, i: nat)
    requires i < |eqs| && (GetProp(w, eqs[i], key).Some? || !InheritsAt(w, eqs[i]))
    requires forall j :: 0 <= j < i ==> GetProp(w, eqs[j], key).None? && InheritsAt(w, eqs[j])
    ensures ParamStop(w, eqs, key) == Some(i)
  {
  }

  /** The parameter search never looks past the page free-text inheritance
      would use: it ends at or before the first page that does not inherit. */
  lemma ParamSearchStopsNoLater(w: Wiki, eqs: seq<PageName>, key: Key)
    requires FirstNonInheriting(w, eqs).Some?
    ensures ParamStop(w, eqs, key).Some?
    ensures ParamStop(w, eqs, key).value <= FirstNonInheriting(w, eqs).value
  {
    var i := FirstNonInheriting(w, eqs).value;
    assert !(GetProp(w, eqs[i], key).None? && InheritsAt(w, eqs[i]));
  }

  /** A page that lacks the value and does not inherit ends the search with
      no value, even when an older version has the value. */
  lemma ParamSearchCutOff(w: Wiki, eqs: seq<PageName>, key: Key, cut: nat, older: nat)
    requires cut < older < |eqs|
    requires forall j :: 0 <= j < cut ==> GetProp(w, eqs[j], key).None?
    requires GetProp(w, eqs[cut], key).None? && !InheritsAt(w, eqs[cut])
    requires GetProp(w, eqs[older], key).Some?
    ensures ParamSearch(w, eqs, key) == Absent
  {
    var s := ParamStop(w, eqs, key);
    assert !(GetProp(w, eqs[cut], key).None? && InheritsAt(w, eqs[cut]));
    assert s.Some? && s.value <= cut;
    assert GetProp(w, eqs[s.value], key).None?;
  }

  /** `getInheritedParam`: the value found, if any. */
  function GetInheritedParam(w: Wiki, node: Node, key: Key): (r: Option<string>)
    ensures r.Some? <==> ParamSearch(w, EquivalentsBefore(w, node), key).Found?
    ensures r.Some? ==> r.value == ParamSearch(w, EquivalentsBefore(w, node), key).value
    ensures r.Some? ==> exists p :: p in EquivalentsBefore(w, node) && GetProp(w, p, key) == r
  {
    ParamSearch(w, EquivalentsBefore(w, node), key).ToOption()
  }

  /** `getPossiblyInheritedParam`: the node's own value unless it is missing
      or empty; then nothing when the node does not inherit parameters, else
      the inherited value. */
  function GetPossiblyInheritedParam(w: Wiki, node: Node, key: Key): (r: Option<string>)
    ensures !Nullish(GetProp(w, node.name, key)) ==> r == GetProp(w, node.name, key)
    ensures Nullish(GetProp(w, node.name, key)) && !InheritsParams(w, node) ==> r.None?
    ensures Nullish(GetProp(w, node.name, key)) && InheritsParams(w, node) ==>
      (r.Some? <==> ParamSearch(w, EquivalentsBefore(w, node), key).Found?)
    ensures Nullish(GetProp(w, node.name, key)) && InheritsParams(w, node) ==> r == GetInheritedParam(w, node, key)
  {
    var own := GetProp(w, node.name, key);
    if !Nullish(own) then own
    else if !InheritsParams(w, node) then None
    else GetInheritedParam(w, node, key)
  }

  /** A version entry contributes to `getEquivalentsInOtherVersions` when it
      is not the node's own version and the node has an equivalent there. */
  predicate Contributes(w: Wiki, node: Node, thisVersion: string, v: (string, PageName)) {
    v.0 != thisVersion && EquivalentPageForVersion(w, node, v.1).Some?
  }

  /** An entry of the result: some contributing version entry with that key
      gives that equivalent. */
  ghost predicate FromVersions(w: Wiki, node: Node, versions: Entries<PageName>, thisVersion: string, e: (string, PageName)) {
    exists i :: 0 <= i < |versions| && versions[i].0 == e.0 && e.0 != thisVersion &&
      EquivalentPageForVersion(w, node, versions[i].1) == Some(e.1)
  }

  /** What `getEquivalentsInOtherVersions` promises for `versions`: distinct
      keys, the node's own version left out, every entry coming from a
      contributing version and every contributing version present. */
  ghost predicate OtherVersionsOf(w: Wiki, node: Node, versions: Entries<PageName>, thisVersion: string, r: Entries<PageName>) {
    && UniqueKeys(r)
    && thisVersion !in KeySet(r)
    && (forall e :: e in r ==> FromVersions(w, node, versions, thisVersion, e))
    && (forall i :: 0 <= i < |versions| && Contributes(w, node, thisVersion, versions[i]) ==>
          versions[i].0 in KeySet(r))
  }

  /** A version entry that does not contribute leaves the result as it is. */
  lemma OtherVersionsSkip(w: Wiki, node: Node, front: Entries<PageName>, last: (string, PageName),
                          thisVersion: string, acc: Entries<PageName>)
    requires OtherVersionsOf(w, node, front, thisVersion, acc)
    requires !Contributes(w, node, thisVersion, last)
    ensures OtherVersionsOf(w, node, front + [last], thisVersion, acc)
  {
    var versions := front + [last];
    forall e | e in acc ensures FromVersions(w, node, versions, thisVersion, e) {
      var i :| 0 <= i < |front| && front[i].0 == e.0 && e.0 != thisVersion &&
        EquivalentPageForVersion(w, node, front[i].1) == Some(e.1);
      assert versions[i] == front[i];
    }
    forall i | 0 <= i < |versions| && Contributes(w, node, thisVersion, versions[i])
      ensures versions[i].0 in KeySet(acc) {
      assert versions[i] == front[i];
    }
  }

  /** A contributing version entry is stored under its key. */
  lemma OtherVersionsAdd(w: Wiki, node: Node, front: Entries<PageName>, last: (string, PageName),
                         thisVersion: string, acc: Entries<PageName>)
    requires OtherVersionsOf(w, node, front, thisVersion, acc)
    requires Contributes(w, node, thisVersion, last)
    ensures OtherVersionsOf(w, node, front + [last], thisVersion,
                            Put(acc, last.0, EquivalentPageForVersion(w, node, last.1).value))
  {
    var versions := front + [last];
    var eq := EquivalentPageForVersion(w, node, last.1).value;
    var r := Put(acc, last.0, eq);
    PutKeySet(acc, last.0, eq);
    PutEntries(acc, last.0, eq);
    forall e | e in r ensures FromVersions(w, node, versions, thisVersion, e) {
      if e == (last.0, eq) {
        assert versions[|front|] == last;
      } else {
        var i :| 0 <= i < |front| && front[i].0 == e.0 && e.0 != thisVersion &&
          EquivalentPageForVersion(w, node, front[i].1) == Some(e.1);
        assert versions[i] == front[i];
      }
    }
    forall i | 0 <= i < |versions| && Contributes(w, node, thisVersion, versions[i])
      ensures versions[i].0 in KeySet(r) {
      if i < |front| { assert versions[i] == front[i]; }
    }
  }

  /** `getEquivalentsInOtherVersions` over a product's versions: each other
      version name with the node's equivalent there, in version order. */
  function EquivalentsInOtherVersions(w: Wiki, node: Node, versions: Entries<PageName>, thisVersion: string): (r: Entries<PageName>)
    ensures OtherVersionsOf(w, node, versions, thisVersion, r)
  {
    if |versions| == 0 then []
    else
      var front := versions[..|versions| - 1];
      var last := versions[|versions| - 1];
      var acc := EquivalentsInOtherVersions(w, node, front, thisVersion);
      assert versions == front + [last];
      if !Contributes(w, node, thisVersion, last) then
        OtherVersionsSkip(w, node, front, last, thisVersion, acc);
        acc
      else
        OtherVersionsAdd(w, node, front, last, thisVersion, acc);
        Put(acc, last.0, EquivalentPageForVersion(w, node, last.1).value)
  }
}
