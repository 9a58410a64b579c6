/** ZDocsUtils: the page-property store, the page-type tags, the split of a
    page name into parent and local part, and the "default page request" test.

    The store is an immutable value. `pages` lists the pages that exist, in the
    order the store returns its rows; `props` holds every stored value of a
    (page, property) pair in row order; `text` holds page source text. */
module Utils {
  import opened Wrappers
  import opened Strings

  type PageName = string

  datatype Wiki = Wiki(
    pages: seq<PageName>,
    props: map<PageName, map<Key, seq<string>>>,
    text: map<PageName, string>)

  /** The page properties the extension writes and reads, and the display
      title the host stores for every page. */
  datatype Key =
    | ZDocsPageType | ZDocsParentPage | ZDocsInherit | ZDocsStatus
    | ZDocsManualsList | ZDocsTopicsList | ZDocsDisplayName | ZDocsTOCName
    | ZDocsPagination | ZDocsProductAdmin | ZDocsProductEditor | ZDocsProductPreviewer
    | HostDisplayTitle

  /** The name each property is stored under. */
  function KeyName(k: Key): (r: string)
    ensures k != HostDisplayTitle ==> |r| > 5 && r[..5] == "ZDocs"
  {
    match k
    case ZDocsPageType => "ZDocsPageType"
    case ZDocsParentPage => "ZDocsParentPage"
    case ZDocsInherit => "ZDocsInherit"
    case ZDocsStatus => "ZDocsStatus"
    case ZDocsManualsList => "ZDocsManualsList"
    case ZDocsTopicsList => "ZDocsTopicsList"
    case ZDocsDisplayName => "ZDocsDisplayName"
    case ZDocsTOCName => "ZDocsTOCName"
    case ZDocsPagination => "ZDocsPagination"
    case ZDocsProductAdmin => "ZDocsProductAdmin"
    case ZDocsProductEditor => "ZDocsProductEditor"
    case ZDocsProductPreviewer => "ZDocsProductPreviewer"
    case HostDisplayTitle => "displaytitle"
  }

  const PageTypeKey: Key := ZDocsPageType
  const ParentPageKey: Key := ZDocsParentPage
  const InheritKey: Key := ZDocsInherit
  const StatusKey: Key := ZDocsStatus
  const ManualsListKey: Key := ZDocsManualsList
  const TopicsListKey: Key := ZDocsTopicsList
  const DisplayNameKey: Key := ZDocsDisplayName
  const TOCNameKey: Key := ZDocsTOCName
  const PaginationKey: Key := ZDocsPagination
  const ProductAdminKey: Key := ZDocsProductAdmin
  const ProductEditorKey: Key := ZDocsProductEditor
  const ProductPreviewerKey: Key := ZDocsProductPreviewer
  /** The key under which the host stores a page's display title. */
  const DisplayTitleKey: Key := HostDisplayTitle
  /** How the store keeps a boolean `true` written as a property. */
  const FlagValue: string := "1"

  /** The four levels of the hierarchy. */
  datatype PageType = Product | Version | Manual | Topic

  /** `pageClassesInOrder`: the levels from the top down. */
  const PageClassesInOrder: seq<PageType> := [Product, Version, Manual, Topic]

  /** The position of a level in `PageClassesInOrder`. */
  function Level(t: PageType): (n: nat)
    ensures n < |PageClassesInOrder| && PageClassesInOrder[n] == t
  {
    match t
    case Product => 0
    case Version => 1
    case Manual => 2
    case Topic => 3
  }

  /** `getPageTypeValue`: the tag a level is stored under. */
  function TypeValue(t: PageType): string {
    match t
    case Product => "Product"
    case Version => "Version"
    case Manual => "Manual"
    case Topic => "Topic"
  }

  /** The level a stored tag names, if it names one. */
  function ParseType(s: string): (r: Option<PageType>)
    ensures r.Some? ==> TypeValue(r.value) == s
  {
    if s == "Product" then Some(Product)
    else if s == "Version" then Some(Version)
    else if s == "Manual" then Some(Manual)
    else if s == "Topic" then Some(Topic)
    else None
  }

  /** Every level's tag is recognised as that level, so tags and levels are in
      one-to-one correspondence. */
  lemma TypeValueRoundTrip(t: PageType)
    ensures ParseType(TypeValue(t)) == Some(t)
  {
  }

  /** The level one above `t`, None for Product: `pageClassesInOrder[level - 1]`. */
  function ParentType(t: PageType): (r: Option<PageType>)
    ensures r.None? <==> t == Product
    ensures r.Some? ==> Level(r.value) + 1 == Level(t)
  {
    if Level(t) == 0 then None else Some(PageClassesInOrder[Level(t) - 1])
  }

  /** Every value stored for (page, key), in row order. */
  function PropValues(w: Wiki, page: PageName, key: Key): seq<string> {
    if page in w.props && key in w.props[page] then w.props[page][key] else []
  }

  /** `getPagePropForTitle`: the first stored row for (page, key), or None. */
  function GetProp(w: Wiki, page: PageName, key: Key): (r: Option<string>)
    ensures r.None? <==> |PropValues(w, page, key)| == 0
    ensures r.Some? ==> r.value == PropValues(w, page, key)[0]
  {
    var vs := PropValues(w, page, key);
    if |vs| == 0 then None else Some(vs[0])
  }

  /** The number of rows holding `v`: the `COUNT(*)` of `titleHasPagePropValue`. */
  function CountValue(vs: seq<string>, v: string): (n: nat)
    ensures n <= |vs|
  {
    if |vs| == 0 then 0 else (if vs[0] == v then 1 else 0) + CountValue(vs[1..], v)
  }

  /** The count is positive exactly when the value is stored. */
  lemma {:induction false} CountPositiveIff(vs: seq<string>, v: string)
    ensures CountValue(vs, v) > 0 <==> v in vs
  {
    if |vs| > 0 {
      CountPositiveIff(vs[1..], v);
      assert vs == [vs[0]] + vs[1..];
    }
  }

  /** `titleHasPagePropValue`: some row for (page, key) holds `value`. */
  function HasPropValue(w: Wiki, page: PageName, key: Key, value: string): (r: bool)
    ensures r <==> value in PropValues(w, page, key)
  {
    CountPositiveIff(PropValues(w, page, key), value);
    CountValue(PropValues(w, page, key), value) > 0
  }

  /** The first stored value is one of the stored values. */
  lemma GetPropHasValue(w: Wiki, page: PageName, key: Key)
    requires GetProp(w, page, key).Some?
    ensures HasPropValue(w, page, key, GetProp(w, page, key).value)
  {
  }

  /** `getPageType`: the stored type tag. */
  function GetPageType(w: Wiki, page: PageName): Option<string> {
    GetProp(w, page, PageTypeKey)
  }

  /** The page's stored tag is the one of level `t`. */
  predicate HasType(w: Wiki, page: PageName, t: PageType) {
    GetPageType(w, page) == Some(TypeValue(t))
  }

  /** Whether a page exists. */
  predicate Exists(w: Wiki, page: PageName) {
    page in w.pages
  }

  /** `getChildrenPages`: the existing pages with a `ZDocsParentPage` row equal to
      `parent`, in row order. Their stored type is not consulted. */
  function Children(w: Wiki, parent: PageName): (r: seq<PageName>)
    ensures forall p :: p in r <==> p in w.pages && HasPropValue(w, p, ParentPageKey, parent)
  {
    ChildrenAmong(w, w.pages, parent)
  }

  function ChildrenAmong(w: Wiki, pages: seq<PageName>, parent: PageName): (r: seq<PageName>)
    ensures forall p :: p in r <==> p in pages && HasPropValue(w, p, ParentPageKey, parent)
    ensures |r| <= |pages|
  {
    if |pages| == 0 then []
    else
      var rest := ChildrenAmong(w, pages[1..], parent);
      assert forall p :: p in pages <==> p == pages[0] || p in pages[1..] by {
        assert pages == [pages[0]] + pages[1..];
      }
      if HasPropValue(w, pages[0], ParentPageKey, parent) then [pages[0]] + rest else rest
  }

  /** PHP truthiness of a stored value: missing, "" and "0" are false. */
  predicate Truthy(v: Option<string>) {
    v.Some? && v.value != "" && v.value != "0"
  }

  /** PHP's `$v == null` on a string: missing or empty. */
  predicate Nullish(v: Option<string>) {
    v.None? || v.value == ""
  }

  /** `getPageParts`: the name split at its last `/` into parent and local part. */
  function PageParts(name: PageName): (r: (Option<PageName>, string))
    ensures r.0.None? ==> '/' !in name && r.1 == name
    ensures r.0.Some? ==> r.0.value + "/" + r.1 == name
    ensures '/' !in r.1
  {
    match LastIndexOf(name, '/')
    case None => (None, name)
    case Some(i) =>
      assert name == name[..i] + "/" + name[i + 1..];
      (Some(name[..i]), name[i + 1..])
  }

  /** Joining a parent and a slash-free local part is undone by `PageParts`. */
  lemma PagePartsOfJoin(parent: PageName, local: string)
    requires '/' !in local
    ensures PageParts(parent + "/" + local) == (Some(parent), local)
  {
    LastIndexOfAfter(parent, '/', local);
    var s := parent + "/" + local;
    assert s[..|parent|] == parent;
    assert s[|parent| + 1..] == local;
  }

  /** The query parameters of the current request (`$wgRequest`). */
  datatype Request = Request(params: map<string, string>)

  /** `getCheck`: the parameter is present. */
  predicate Check(req: Request, name: string) {
    name in req.params
  }

  /** `isDefaultPageRequest`: no `oldid`, and either no action or a plain viewing one. */
  function IsDefaultPageRequest(req: Request): (r: bool)
    ensures Check(req, "oldid") ==> !r
    ensures !Check(req, "oldid") && Check(req, "action") ==>
      (r <==> req.params["action"] in {"view", "purge", "render"})
    ensures !Check(req, "oldid") && !Check(req, "action") ==> r
  {
    if Check(req, "oldid") then false
    else if Check(req, "action") && req.params["action"] != "view"
      && req.params["action"] != "purge" && req.params["action"] != "render" then false
    else true
  }
}
