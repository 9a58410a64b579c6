/** The hooks ZDocs installs into MediaWiki: the permission check run before
    an action on a page, the decoration of a viewed page with its header,
    inherited text and footer, and the values of the three magic words that
    name the product, version and manual a page belongs to. */
module Hooks {
  import opened Wrappers
  import opened Strings
  import opened Utils
  import opened Pages
  import opened Permissions
  import opened Inheritance

  // --------------------------------------------------------- permissions

  /** What `checkPermissions` tells MediaWiki: whether the remaining checks
      proceed, and the result it forces when it stops them. */
  datatype Verdict = Verdict(proceed: bool, result: Option<bool>)

  /** The actions checked against `userCanEdit`. */
  predicate IsEditAction(action: string) {
    action == "edit" || action == "formedit"
  }

  /** `checkPermissions`: a page without a ZDocs type is left alone; an edit
      the user may not make, or a read the user may not make, is refused with
      the result false; any other action is left alone. */
  function CheckPermissions(w: Wiki, req: Request, name: PageName, u: User, action: string): (r: Verdict)
    ensures r.proceed <==> r.result.None?
    ensures r.result.Some? ==> !r.result.value
    ensures PageFactory(w, req, name).None? ==> r.proceed
    ensures PageFactory(w, req, name).Some? && IsEditAction(action) ==>
      (r.proceed <==> UserCanEdit(w, PageFactory(w, req, name).value, u))
    ensures PageFactory(w, req, name).Some? && action == "read" ==>
      (r.proceed <==> UserCanView(w, PageFactory(w, req, name).value, u))
    ensures !IsEditAction(action) && action != "read" ==> r.proceed
  {
    match PageFactory(w, req, name)
    case None => Verdict(true, None)
    case Some(node) =>
      if IsEditAction(action) && !UserCanEdit(w, node, u) then Verdict(false, Some(false))
      else if action == "read" && !UserCanView(w, node, u) then Verdict(false, Some(false))
      else Verdict(true, None)
  }

  /** Whoever is let through to edit a page is let through to read it. */
  lemma EditorsMayRead(w: Wiki, req: Request, name: PageName, u: User, action: string)
    requires IsEditAction(action)
    ensures CheckPermissions(w, req, name, u, action).proceed ==> CheckPermissions(w, req, name, u, "read").proceed
  {
    if PageFactory(w, req, name).Some? {
      CanEditImpliesCanView(w, PageFactory(w, req, name).value, u);
    }
  }

  /** A global administrator is never stopped. */
  lemma AdministratorsProceed(w: Wiki, req: Request, name: PageName, u: User, action: string)
    requires AdministerRight in u.rights
    ensures CheckPermissions(w, req, name, u, action).proceed
  {
    if PageFactory(w, req, name).Some? {
      AdministratorMayDoAll(w, PageFactory(w, req, name).value, u);
    }
  }

  /** Everyone may read a page typed Product. */
  lemma ProductPagesReadable(w: Wiki, req: Request, name: PageName, u: User)
    requires HasType(w, name, Product)
    ensures CheckPermissions(w, req, name, u, "read").proceed
  {
    PageFactoryOfType(w, req, name, Product);
  }

  // -------------------------------------------------------- page display

  /** One piece of a viewed page, in the order shown. `Header` is the level's
      `getHeader`; `ManualFooter` is a topic's footer, which shows its
      manual's name and table of contents. */
  datatype Piece = Header(node: Node) | PageText | InheritedText(page: PageName) | ManualFooter(manual: PageName)

  /** What `addTextToPage` does to the text of a page. `NoVersionToInherit`
      is the exception `getInheritedPage` throws when every earlier version
      inherits too. */
  datatype Display = Unchanged | Shown(pieces: seq<Piece>) | NoVersionToInherit

  /** `getHeader` by level: an invalid topic has none. */
  function HeaderOf(node: Node): (r: seq<Piece>)
    ensures r == [] <==> node.kind == Topic && node.invalid
  {
    if node.kind == Topic && node.invalid then [] else [Header(node)]
  }

  /** `getFooter` by level: only a topic that is not invalid has one, about
      its manual. */
  function FooterOf(node: Node): (r: seq<Piece>)
    ensures |r| <= 1
    ensures r != [] <==> node.kind == Topic && !node.invalid && node.manual.Some?
    ensures r != [] ==> r == [ManualFooter(node.manual.value)]
  {
    if node.kind == Topic && !node.invalid && node.manual.Some? then [ManualFooter(node.manual.value)] else []
  }

  /** The text inherited from another version, when there is some. */
  function InheritedPieces(inherited: Search<PageName>): (r: seq<Piece>)
    ensures r == [] <==> !inherited.Found?
    ensures forall x :: x in r <==> inherited.Found? && x == InheritedText(inherited.value)
  {
    if inherited.Found? then [InheritedText(inherited.value)] else []
  }

  /** The page's text wrapped for `node`, given what `getInheritedPage`
      answered: header, own text, inherited text, footer. */
  function Decorate(node: Node, inherited: Search<PageName>): (r: Display)
    ensures r.NoVersionToInherit? <==> inherited.Exhausted?
    ensures r.Shown? ==> r.pieces == HeaderOf(node) + [PageText] + InheritedPieces(inherited) + FooterOf(node)
  {
    if inherited.Exhausted? then NoVersionToInherit
    else Shown(HeaderOf(node) + [PageText] + InheritedPieces(inherited) + FooterOf(node))
  }

  /** `addTextToPage`: only when viewing a ZDocs page, the page's text is
      followed by the text of the page it inherits from (if any) and wrapped
      in the level's header and footer. */
  function AddTextToPage(w: Wiki, req: Request, name: PageName, action: string): (r: Display)
    ensures r.Unchanged? <==> action != "view" || PageFactory(w, req, name).None?
    ensures !r.Unchanged? ==>
      r == Decorate(PageFactory(w, req, name).value, GetInheritedPage(w, PageFactory(w, req, name).value))
  {
    if action != "view" then Unchanged
    else
      match PageFactory(w, req, name)
      case None => Unchanged
      case Some(node) => Decorate(node, GetInheritedPage(w, node))
  }

  /** In a decorated page the own text is shown exactly once, only the
      header comes before it, and the inherited text, when there is some,
      comes right after it. */
  lemma TextShownOnce(node: Node, inherited: Search<PageName>)
    requires Decorate(node, inherited).Shown?
    ensures multiset(Decorate(node, inherited).pieces)[PageText] == 1
    ensures forall i :: (0 <= i < |Decorate(node, inherited).pieces|
                         && Decorate(node, inherited).pieces[i] == PageText) ==>
              && Decorate(node, inherited).pieces[..i] == HeaderOf(node)
              && (inherited.Found? ==> Decorate(node, inherited).pieces[i + 1] == InheritedText(inherited.value))
  {
    var h := HeaderOf(node);
    var rest := InheritedPieces(inherited) + FooterOf(node);
    assert Decorate(node, inherited).pieces == h + [PageText] + rest;
    TextBetween(h, rest);
  }

  /** The own text between runs without it occurs once, and exactly where
      it was put. */
  lemma TextBetween(h: seq<Piece>, rest: seq<Piece>)
    requires PageText !in h && PageText !in rest
    ensures multiset(h + [PageText] + rest)[PageText] == 1
    ensures forall i :: 0 <= i < |h + [PageText] + rest| && (h + [PageText] + rest)[i] == PageText ==>
              && (h + [PageText] + rest)[..i] == h
              && (|rest| > 0 ==> (h + [PageText] + rest)[i + 1] == rest[0])
  {
    var pieces := h + [PageText] + rest;
    CountOfText(h, rest);
    forall i | 0 <= i < |pieces| && pieces[i] == PageText
      ensures pieces[..i] == h
      ensures |rest| > 0 ==> pieces[i + 1] == rest[0]
    {
      OnlyPlaceOfText(h, rest, i);
    }
  }

  /** The own text between runs without it occurs once. */
  lemma CountOfText(h: seq<Piece>, rest: seq<Piece>)
    requires PageText !in h && PageText !in rest
    ensures multiset(h + [PageText] + rest)[PageText] == 1
  {
    assert multiset(h + [PageText] + rest) == multiset(h) + multiset([PageText]) + multiset(rest);
  }

  /** A piece that occurs once, between runs without it, is found only
      between them. */
  lemma OnlyPlaceOfText(h: seq<Piece>, rest: seq<Piece>, i: nat)
    requires PageText !in h && PageText !in rest
    requires i < |h + [PageText] + rest| && (h + [PageText] + rest)[i] == PageText
    ensures i == |h|
  {
  }

  /** A topic typed Topic under a page typed Manual, opened without a manual
      in the request and not inheriting, shows its header, its text and the
      footer of its parent manual. */
  lemma ValidTopicShowsManual(w: Wiki, req: Request, name: PageName)
    requires HasType(w, name, Topic)
    requires ParentPage(name).Some? && HasType(w, ParentPage(name).value, Manual)
    requires QueryManual(req).None?
    requires !InheritsAt(w, name)
    ensures AddTextToPage(w, req, name, "view")
      == Shown([Header(MakeTopic(w, req, name)), PageText, ManualFooter(ParentPage(name).value)])
  {
    PageFactoryOfType(w, req, name, Topic);
    var node := MakeTopic(w, req, name);
    assert PageFactory(w, req, name) == Some(node);
    assert GetInheritedPage(w, node) == Absent;
    DecorateValidTopic(node, ParentPage(name).value);
  }

  /** The decoration of a valid topic that inherits nothing. */
  lemma DecorateValidTopic(node: Node, manual: PageName)
    requires node.kind == Topic && !node.invalid && node.manual == Some(manual)
    ensures Decorate(node, Absent) == Shown([Header(node), PageText, ManualFooter(manual)])
  {
  }

  /** A page that is not viewed is left as it is, whatever its type. */
  lemma OnlyViewedPagesChange(w: Wiki, req: Request, name: PageName, action: string)
    requires action != "view"
    ensures AddTextToPage(w, req, name, action) == Unchanged
  {
  }

  // --------------------------------------------------------- magic words

  /** The three magic words ZDocs defines. */
  datatype MagicWord = ProductWord | VersionWord | ManualWord

  /** The magic word behind a variable id; other ids are not ZDocs'. */
  function WordOf(id: string): (r: Option<MagicWord>)
    ensures r == Some(ProductWord) <==> id == "MAG_ZDOCSPRODUCT"
    ensures r == Some(VersionWord) <==> id == "MAG_ZDOCSVERSION"
    ensures r == Some(ManualWord) <==> id == "MAG_ZDOCSMANUAL"
  {
    if id == "MAG_ZDOCSPRODUCT" then Some(ProductWord)
    else if id == "MAG_ZDOCSVERSION" then Some(VersionWord)
    else if id == "MAG_ZDOCSMANUAL" then Some(ManualWord)
    else None
  }

  /** The level a magic word names. */
  function WordLevel(m: MagicWord): PageType {
    match m
    case ProductWord => Product
    case VersionWord => Version
    case ManualWord => Manual
  }

  /** What `assignAValue` makes of a variable. `Untouched` leaves it to other
      hooks; `Assigned(None)` is PHP's null; `Broken` is a method call on a
      page object that could not be formed, where PHP stops with a fatal
      error. */
  datatype Assignment = Untouched | Assigned(value: Option<string>) | Broken

  /** The word's value on a page below the word's level. The product is the
      version's parent, or the product part of a manual's or topic's name;
      its display name is its stored display title. The version word reads
      the version part of the name (null when the name has too few
      segments). The manual is the topic's manual object. */
  function WordValue(w: Wiki, node: Node, m: MagicWord): (r: Assignment)
    ensures !r.Untouched?
    ensures m == VersionWord ==>
      r == Assigned(if ProductAndVersionStrings(node.kind, node.name).Some?
                    then Some(ProductAndVersionStrings(node.kind, node.name).value.1) else None)
    ensures m == ProductWord ==>
      (r.Broken? <==> NodeProductAndVersion(node).0.None?)
    ensures m == ProductWord && r.Assigned? ==>
      r.value == GetProp(w, NodeProductAndVersion(node).0.value, DisplayTitleKey)
    ensures m == ManualWord ==> (r.Broken? <==> node.manual.None?)
    ensures m == ManualWord && r.Assigned? ==> r.value == GetProp(w, node.manual.value, DisplayTitleKey)
  {
    match m
    case ProductWord =>
      (match NodeProductAndVersion(node).0
       case None => Broken
       case Some(p) => Assigned(GetProp(w, p, DisplayTitleKey)))
    case VersionWord =>
      (match ProductAndVersionStrings(node.kind, node.name)
       case None => Assigned(None)
       case Some((_, v)) => Assigned(Some(v)))
    case ManualWord =>
      (match node.manual
       case None => Broken
       case Some(manual) => Assigned(GetProp(w, manual, DisplayTitleKey)))
  }

  /** `assignAValue`: a ZDocs magic word on a ZDocs page below the word's
      own level gets a value; on any other page, or for another id, the
      variable is left alone. */
  function AssignAValue(w: Wiki, req: Request, name: PageName, id: string): (r: Assignment)
    ensures r.Untouched? <==>
      WordOf(id).None? || PageFactory(w, req, name).None?
      || Level(PageFactory(w, req, name).value.kind) <= Level(WordLevel(WordOf(id).value))
  {
    match WordOf(id)
    case None => Untouched
    case Some(m) =>
      match PageFactory(w, req, name)
      case None => Untouched
      case Some(node) =>
        if Level(node.kind) <= Level(WordLevel(m)) then Untouched
        else WordValue(w, node, m)
  }

  /** A word is never given a value on a page of its own level or above,
      and always on a typed page below it. */
  lemma WordsOnlyBelowTheirLevel(w: Wiki, req: Request, name: PageName, id: string, t: PageType)
    requires WordOf(id).Some? && HasType(w, name, t)
    ensures AssignAValue(w, req, name, id).Untouched? <==> Level(t) <= Level(WordLevel(WordOf(id).value))
  {
    PageFactoryOfType(w, req, name, t);
  }

  /** The product and version strings of the manual `p/v/m`. */
  lemma StringsOfManual(p: string, v: string, m: string)
    requires p != "" && '/' !in v && '/' !in m
    ensures ProductAndVersionStrings(Manual, p + "/" + v + "/" + m) == Some((p, v))
  {
    var pv := p + "/" + v;
    SplitAppend(p, '/', v);
    SplitAppend(pv, '/', m);
    var parts := Split(pv + "/" + m, '/');
    assert parts == Split(p, '/') + [v] + [m];
    var n := |parts| - 2;
    assert parts[..n] == Split(p, '/');
    JoinSplit(p, '/');
    assert parts[n] == v;
  }

  /** On the manual page `p/v/m` the version word is `v` and the product
      word is the display title of the product page `p`. */
  lemma WordsOnManualPage(w: Wiki, req: Request, p: string, v: string, m: string)
    requires p != "" && '/' !in v && '/' !in m
    requires HasType(w, p + "/" + v + "/" + m, Manual)
    ensures AssignAValue(w, req, p + "/" + v + "/" + m, "MAG_ZDOCSVERSION") == Assigned(Some(v))
    ensures AssignAValue(w, req, p + "/" + v + "/" + m, "MAG_ZDOCSPRODUCT") == Assigned(GetProp(w, p, DisplayTitleKey))
  {
    var name := p + "/" + v + "/" + m;
    PageFactoryOfType(w, req, name, Manual);
    StringsOfManual(p, v, m);
  }

  /** On a version page the product word is the display title of its parent
      page. */
  lemma ProductWordOnVersionPage(w: Wiki, req: Request, name: PageName)
    requires HasType(w, name, Version) && ParentPage(name).Some?
    ensures AssignAValue(w, req, name, "MAG_ZDOCSPRODUCT") == Assigned(GetProp(w, ParentPage(name).value, DisplayTitleKey))
  {
    PageFactoryOfType(w, req, name, Version);
  }

  /** On a topic the manual word follows the manual the request names, when
      it names one, and is the topic's parent page otherwise. */
  lemma ManualWordOnTopic(w: Wiki, req: Request, name: PageName)
    requires HasType(w, name, Topic) && ParentPage(name).Some?
    ensures QueryManual(req).Some? ==>
      AssignAValue(w, req, name, "MAG_ZDOCSMANUAL") == Assigned(GetProp(w, QueryManual(req).value, DisplayTitleKey))
    ensures QueryManual(req).None? ==>
      AssignAValue(w, req, name, "MAG_ZDOCSMANUAL") == Assigned(GetProp(w, ParentPage(name).value, DisplayTitleKey))
  {
    PageFactoryOfType(w, req, name, Topic);
  }
}
