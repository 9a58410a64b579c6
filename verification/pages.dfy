/** ZDocsPage and its four subclasses, as values: which level a page is on,
    what its name says about its parent, product and version, how the page
    object for a stored page is built (including the topic constructor, which
    reads the request), and whether a page may be declared at a level. */
module Pages {
  import opened Wrappers
  import opened Strings
  import opened Utils

  /** A ZDocs page object. `manual`, `standalone` and `invalid` are what the
      topic constructor works out; they are None/false on the other levels. */
  datatype Node = Node(
    kind: PageType,
    name: PageName,
    manual: Option<PageName>,
    standalone: bool,
    invalid: bool)

  /** The page object of a product, version or manual page. */
  function PlainNode(kind: PageType, name: PageName): (n: Node)
    ensures n.kind == kind && n.name == name
    ensures n.manual.None? && !n.standalone && !n.invalid
  {
    Node(kind, name, None, false, false)
  }

  // ---------------------------------------------------------------- names

  /** `getActualName` as written: the text after the last `/`. With no `/`,
      `strrpos` gives false, `false + 1` is 1, and the first character is lost. */
  function ActualNameAsWritten(name: PageName): (r: string)
    ensures '/' in name ==> r == PageParts(name).1
    ensures '/' !in name ==> r == (if |name| == 0 then "" else name[1..])
  {
    match LastIndexOf(name, '/')
    case Some(i) => name[i + 1..]
    case None => if |name| == 0 then "" else name[1..]
  }

  /** A page name without a `/` loses its first character, e.g. "Intro" gives "ntro". */
  lemma ActualNameAsWrittenDropsFirst(name: PageName)
    requires '/' !in name && |name| > 0
    ensures ActualNameAsWritten(name) != name
    ensures ActualNameAsWritten(name) == name[1..]
  {
  }

  /** The counterexample: the name "Intro" comes out as "ntro". No declared
      page below the product level has a name without `/`, so the defect is
      latent. */
  lemma ActualNameAsWrittenIntro()
    ensures ActualNameAsWritten("Intro") == "ntro"
    ensures ActualName("Intro") == "Intro"
  {
    assert '/' !in "Intro";
  }

  /** `getActualName` as intended: the last `/`-separated segment of the name,
      the whole name when it has no `/`. */
  function ActualName(name: PageName): (r: string)
    ensures '/' !in r
    ensures |r| <= |name| && name[|name| - |r|..] == r
    ensures |r| < |name| ==> name[|name| - |r| - 1] == '/'
  {
    var parts := PageParts(name);
    if parts.0.Some? then
      assert name == parts.0.value + "/" + parts.1;
      assert name[|name| - |parts.1|..] == parts.1;
      parts.1
    else
      name
  }

  /** `getParentPage`: the text before the last `/`; no page when there is no
      `/` or when that text is empty (`Title::newFromText("")` is null). */
  function ParentPage(name: PageName): (r: Option<PageName>)
    ensures r.Some? ==> r.value != "" && r.value + "/" + ActualName(name) == name
    ensures r.None? <==> PageParts(name).0.None? || PageParts(name).0 == Some("")
  {
    match PageParts(name).0
    case None => None
    case Some(p) => if p == "" then None else Some(p)
  }

  /** Appending a slash-free segment to a non-empty name makes that name the
      parent and the segment the actual name. */
  lemma ParentOfChild(parent: PageName, local: string)
    requires parent != "" && '/' !in local
    ensures ParentPage(parent + "/" + local) == Some(parent)
    ensures ActualName(parent + "/" + local) == local
  {
    PagePartsOfJoin(parent, local);
  }

  /** The name `k` levels up, following `getPageParts`. */
  function Ancestor(name: PageName, k: nat): (r: Option<PageName>)
    decreases k
  {
    if k == 0 then Some(name)
    else
      match PageParts(name).0
      case None => None
      case Some(p) => Ancestor(p, k - 1)
  }

  /** Going up one level drops the last `/`-segment. */
  lemma SplitOfParent(name: PageName)
    requires PageParts(name).0.Some?
    ensures |Split(name, '/')| >= 2
    ensures Split(PageParts(name).0.value, '/') == Split(name, '/')[..|Split(name, '/')| - 1]
  {
  }

  /** Going up `k` levels drops the last `k` segments. */
  lemma {:induction false} AncestorSegments(name: PageName, k: nat)
    requires k < |Split(name, '/')|
    ensures Ancestor(name, k).Some?
    ensures Split(Ancestor(name, k).value, '/') == Split(name, '/')[..|Split(name, '/')| - k]
    decreases k
  {
    if k > 0 {
      assert PageParts(name).0.Some?;
      SplitOfParent(name);
      var p := PageParts(name).0.value;
      AncestorSegments(p, k - 1);
    }
  }

  /** `getProductAndVersionStrings`: with the page at level L (Version 1,
      Manual 2, Topic 3), the version is the L-th segment from the end and the
      product is everything before it, which may itself contain `/`. When the
      name has exactly L segments the product is empty; with fewer, PHP reads
      an undefined index and there is no answer. */
  function ProductAndVersionStrings(kind: PageType, name: PageName): (r: Option<(string, string)>)
    ensures r.Some? <==> kind != Product && Level(kind) <= |Split(name, '/')|
    ensures r.Some? ==> '/' !in r.value.1
    ensures r.Some? && r.value.0 != "" ==> |Split(name, '/')| > Level(kind)
  {
    var parts := Split(name, '/');
    if kind == Product || |parts| < Level(kind) then None
    else
      var n := |parts| - Level(kind);
      Some((if n == 0 then "" else Join(parts[..n], '/'), parts[n]))
  }

  /** The product and version strings name the version page above the node:
      product + "/" + version is the name L - 1 levels up, and splitting that
      name gives the product and version back. So product, version and the
      remaining L - 1 segments rebuild the name. */
  lemma ProductAndVersionAreAncestor(kind: PageType, name: PageName)
    requires ProductAndVersionStrings(kind, name).Some?
    requires ProductAndVersionStrings(kind, name).value.0 != ""
    ensures Ancestor(name, Level(kind) - 1)
      == Some(ProductAndVersionStrings(kind, name).value.0 + "/" + ProductAndVersionStrings(kind, name).value.1)
    ensures PageParts(Ancestor(name, Level(kind) - 1).value)
      == (Some(ProductAndVersionStrings(kind, name).value.0), ProductAndVersionStrings(kind, name).value.1)
  {
    var parts := Split(name, '/');
    var n := |parts| - Level(kind);
    var p := Join(parts[..n], '/');
    var v := parts[n];
    AncestorSegments(name, Level(kind) - 1);
    var a := Ancestor(name, Level(kind) - 1).value;
    JoinSplit(a, '/');
    assert Split(a, '/') == parts[..n + 1];
    assert parts[..n + 1][..n] == parts[..n];
    assert Join(parts[..n + 1], '/') == p + "/" + v;
    PagePartsOfJoin(p, v);
  }

  /** A version page's product and version strings are its parent and its
      actual name. */
  lemma VersionStringsOfVersion(name: PageName)
    requires ParentPage(name).Some?
    ensures ProductAndVersionStrings(Version, name) == Some((ParentPage(name).value, ActualName(name)))
  {
    SplitOfParent(name);
    var parts := Split(name, '/');
    assert ProductAndVersionStrings(Version, name).Some?;
    ProductAndVersionAreAncestor(Version, name);
  }

  // ------------------------------------------------------ building nodes

  /** The manual named by the `product`, `version` and `manual` query values,
      when all three are present. */
  function QueryManual(req: Request): (r: Option<PageName>)
    ensures r.Some? <==> Check(req, "product") && Check(req, "version") && Check(req, "manual")
  {
    if Check(req, "product") && Check(req, "version") && Check(req, "manual") then
      Some(req.params["product"] + "/" + req.params["version"] + "/" + req.params["manual"])
    else None
  }

  /** The ZDocsTopic constructor. A topic is standalone when the query names a
      page typed Manual; it is invalid when its parent page cannot be formed
      or is not typed Manual. Its manual is the query's page (typed Manual or
      not), else its parent page; when the parent cannot be formed the
      constructor returns early and no manual is recorded. */
  function MakeTopic(w: Wiki, req: Request, name: PageName): (t: Node)
    ensures t.kind == Topic && t.name == name
    ensures t.standalone <==> QueryManual(req).Some? && HasType(w, QueryManual(req).value, Manual)
    ensures t.invalid <==> ParentPage(name).None? || !HasType(w, ParentPage(name).value, Manual)
    ensures ParentPage(name).None? ==> t.manual.None?
    ensures ParentPage(name).Some? && QueryManual(req).Some? ==> t.manual == QueryManual(req)
    ensures ParentPage(name).Some? && QueryManual(req).None? ==> t.manual == ParentPage(name)
  {
    var fromQuery := QueryManual(req);
    var standalone := fromQuery.Some? && GetProp(w, fromQuery.value, PageTypeKey) == Some("Manual");
    match ParentPage(name)
    case None => Node(Topic, name, None, standalone, true)
    case Some(parent) =>
      var invalid := GetProp(w, parent, PageTypeKey) != Some("Manual");
      Node(Topic, name, if fromQuery.Some? then fromQuery else Some(parent), standalone, invalid)
  }

  /** `newStandalone`: the topic object for `name` placed in `manual`, provided
      the page is typed Topic. */
  function NewStandalone(w: Wiki, req: Request, name: PageName, manual: PageName): (r: Option<Node>)
    ensures r.Some? <==> HasType(w, name, Topic)
    ensures r.Some? ==> r.value.kind == Topic && r.value.name == name
    ensures r.Some? ==> r.value.manual == Some(manual) && r.value.standalone
    ensures r.Some? ==> r.value.invalid == MakeTopic(w, req, name).invalid
  {
    var topic := MakeTopic(w, req, name);
    if GetProp(w, name, PageTypeKey) != Some("Topic") then None
    else Some(topic.(manual := Some(manual), standalone := true))
  }

  /** `pageFactory`: the page object of the level the stored type tag names. */
  function PageFactory(w: Wiki, req: Request, name: PageName): (r: Option<Node>)
    ensures r.Some? <==> GetPageType(w, name).Some? && ParseType(GetPageType(w, name).value).Some?
    ensures r.Some? ==> r.value.name == name && HasType(w, name, r.value.kind)
    ensures r.Some? && r.value.kind == Topic ==> r.value == MakeTopic(w, req, name)
    ensures r.Some? && r.value.kind != Topic ==> r.value == PlainNode(r.value.kind, name)
  {
    match GetPageType(w, name)
    case None => None
    case Some(tag) =>
      match ParseType(tag)
      case None => None
      case Some(t) => if t == Topic then Some(MakeTopic(w, req, name)) else Some(PlainNode(t, name))
  }

  /** Every typed page gets the page object of its level. */
  lemma PageFactoryOfType(w: Wiki, req: Request, name: PageName, t: PageType)
    requires HasType(w, name, t)
    ensures PageFactory(w, req, name).Some?
    ensures PageFactory(w, req, name).value.kind == t
  {
    TypeValueRoundTrip(t);
  }

  // --------------------------------------------------------- eligibility

  /** Why a page may not be declared at a level. */
  datatype Ineligible =
    | NotRegistered                                        // product missing from the configured list
    | NoParentPage(pageType: string)                       // "zdocs-noparentpage"
    | InvalidParentPage(parent: PageName, expected: string) // "zdocs-invalidparentpage"

  /** `checkPageEligibility` for a page whose name splits into `parent` and
      `local`. A product must be listed (by its local name) in `registered`;
      any other page needs a parent (a missing or empty one is none) typed
      one level up. None means eligible. */
  function CheckPageEligibility(w: Wiki, registered: seq<string>, kind: PageType,
                                parent: Option<PageName>, local: string): (r: Option<Ineligible>)
    ensures kind == Product ==> (r.None? <==> local in registered)
    ensures kind != Product && Nullish(parent) ==> r == Some(NoParentPage(TypeValue(kind)))
    ensures kind != Product && !Nullish(parent) ==>
      (r.None? <==> HasType(w, parent.value, ParentType(kind).value))
  {
    if kind == Product then
      if local !in registered then Some(NotRegistered) else None
    else if parent.None? || parent.value == "" then
      Some(NoParentPage(TypeValue(kind)))
    else
      var expected := TypeValue(ParentType(kind).value);
      if GetPageType(w, parent.value) != Some(expected) then
        Some(InvalidParentPage(parent.value, expected))
      else None
  }

  /** Eligibility as the render functions ask it, from the page's own name. */
  function EligibilityOf(w: Wiki, registered: seq<string>, kind: PageType, name: PageName): Option<Ineligible> {
    CheckPageEligibility(w, registered, kind, PageParts(name).0, PageParts(name).1)
  }

  /** An eligible non-product page has a parent page (as `getParentPage`
      forms it) typed one level up, and its actual name is its local part. */
  lemma EligibleHasTypedParent(w: Wiki, registered: seq<string>, kind: PageType, name: PageName)
    requires kind != Product
    requires EligibilityOf(w, registered, kind, name).None?
    ensures ParentPage(name).Some?
    ensures HasType(w, ParentPage(name).value, ParentType(kind).value)
    ensures ActualName(name) == PageParts(name).1
  {
  }
}
