/** ZDocsTopic beyond its constructor: the link a table of contents shows for
    a topic, the query that keeps a standalone topic inside its manual, and
    the children a page has (none, for a topic). */
module Topic {
  import opened Wrappers
  import opened Strings
  import opened Utils
  import opened Pages

  /** The query values a link adds so that a standalone topic opens inside
      a given manual. */
  datatype ManualQuery = ManualQuery(product: string, version: string, manual: string)

  /** A link in a table of contents. A missing label shows the page name. */
  datatype TocLink = TocLink(target: PageName, text: Option<string>, query: Option<ManualQuery>)

  /** The label of a topic's link: its stored TOC name when that is set and
      not empty, else its display title. */
  function TocLabel(w: Wiki, name: PageName): (r: Option<string>)
    ensures !Nullish(GetProp(w, name, TOCNameKey)) ==> r.Some? && r.value != "" && r == GetProp(w, name, TOCNameKey)
    ensures Nullish(GetProp(w, name, TOCNameKey)) ==> r == GetProp(w, name, DisplayTitleKey)
  {
    var toc := GetProp(w, name, TOCNameKey);
    if Nullish(toc) then GetProp(w, name, DisplayTitleKey) else toc
  }

  /** The query for a manual: the product name (a product's actual name is
      its whole name), the version's actual name and the manual's actual
      name. A manual whose name has too few segments gets empty product and
      version values. */
  function QueryOf(manual: PageName): (q: ManualQuery)
    ensures q.manual == ActualName(manual)
    ensures ProductAndVersionStrings(Manual, manual).Some? ==>
      q.product == ProductAndVersionStrings(Manual, manual).value.0
      && q.version == ProductAndVersionStrings(Manual, manual).value.1
  {
    match ProductAndVersionStrings(Manual, manual)
    case None => ManualQuery("", "", ActualName(manual))
    case Some((p, v)) =>
      PagePartsOfJoin(p, v);
      ManualQuery(p, ActualName(p + "/" + v), ActualName(manual))
  }

  /** The request a link with query `q` produces. */
  function RequestOf(q: ManualQuery): Request {
    Request(map["product" := q.product, "version" := q.version, "manual" := q.manual])
  }

  /** Following the query of a manual with a product part leads back to that
      very manual: the topic opened from the link is standalone in it. */
  lemma QueryLeadsToManual(manual: PageName)
    requires ProductAndVersionStrings(Manual, manual).Some?
    requires ProductAndVersionStrings(Manual, manual).value.0 != ""
    ensures QueryManual(RequestOf(QueryOf(manual))) == Some(manual)
  {
    var (p, v) := ProductAndVersionStrings(Manual, manual).value;
    ProductAndVersionAreAncestor(Manual, manual);
    assert PageParts(manual).0 == Some(p + "/" + v);
  }

  /** Conversely, the manual a request names (when its product is not empty
      and its version and manual values hold no `/`) has exactly that
      request's values as its query. */
  lemma QueryOfRequestedManual(req: Request)
    requires QueryManual(req).Some?
    requires req.params["product"] != ""
    requires '/' !in req.params["version"] && '/' !in req.params["manual"]
    ensures QueryOf(QueryManual(req).value)
      == ManualQuery(req.params["product"], req.params["version"], req.params["manual"])
  {
    var p, v, m := req.params["product"], req.params["version"], req.params["manual"];
    var pv := p + "/" + v;
    SplitAppend(p, '/', v);
    SplitAppend(pv, '/', m);
    assert pv + "/" + m == QueryManual(req).value;
    var parts := Split(pv + "/" + m, '/');
    assert parts == Split(p, '/') + [v] + [m];
    var n := |parts| - 2;
    assert parts[..n] == Split(p, '/');
    JoinSplit(p, '/');
    assert parts[n] == v;
    ParentOfChild(pv, m);
  }

  /** `getTOCLink`: a link to the topic under its label; only a standalone
      topic (with a manual) adds the query of its manual. */
  function TocLinkOf(w: Wiki, t: Node): (r: TocLink)
    ensures r.target == t.name && r.text == TocLabel(w, t.name)
    ensures r.query.Some? <==> t.standalone && t.manual.Some?
    ensures r.query.Some? ==> r.query.value == QueryOf(t.manual.value)
  {
    TocLink(t.name, TocLabel(w, t.name),
            if t.standalone && t.manual.Some? then Some(QueryOf(t.manual.value)) else None)
  }

  /** Opening a topic through the query of a manual places the topic in that
      manual, standalone exactly when the manual is typed Manual. */
  lemma LinkQueryReopensInManual(w: Wiki, name: PageName, manual: PageName)
    requires ProductAndVersionStrings(Manual, manual).Some?
    requires ProductAndVersionStrings(Manual, manual).value.0 != ""
    requires ParentPage(name).Some?
    ensures MakeTopic(w, RequestOf(QueryOf(manual)), name).manual == Some(manual)
    ensures MakeTopic(w, RequestOf(QueryOf(manual)), name).standalone <==> HasType(w, manual, Manual)
  {
    QueryLeadsToManual(manual);
  }

  /** `getChildrenPages` by level: a topic has none, even when pages name it
      as their parent; any other page has the pages that do. */
  function NodeChildren(w: Wiki, node: Node): (r: seq<PageName>)
    ensures forall p :: p in r <==>
      node.kind != Topic && p in w.pages && HasPropValue(w, p, ParentPageKey, node.name)
  {
    if node.kind == Topic then [] else Children(w, node.name)
  }
}
