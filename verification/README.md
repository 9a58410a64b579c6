# ZDocs, modelled in Dafny

ZDocs is a MediaWiki extension for versioned product documentation. It lays
a four-level hierarchy over wiki pages:

- Product
- Version, named `product/version`
- Manual, named `product/version/manual`
- Topic, named `product/version/manual/topic`

A product name may itself contain `/`. Each page declares its level with a
parser function (`{{#zdocs_product:…}}`, `{{#zdocs_version:…}}` and so on).
The declaration stores facts about the page as page properties: its type
tag, its parent page, flags, role lists and lists. Everything else is
decided by reading those properties back:

- which page object a page gets;
- whether a page may be declared at a level;
- which versions a product has, and in what order;
- what a manual or topic inherits from an earlier version;
- the table of contents of a manual, and a topic's previous and next topic;
- who may view and edit a page;
- what the hooks add to a viewed page;
- what the `{{ZDOCSPRODUCT}}`-style magic words say.

The model is purely functional:

- The wiki is a value `Utils.Wiki`. It holds the existing pages in row
  order, a property store `map<PageName, map<Key, seq<string>>>`, and the
  text of pages.
- A page object is a `Pages.Node`.
- Every PHP method is a function of the store, the request's query values
  and the configuration it reads. Nothing is read from globals.
- PHP arrays, which are ordered maps, are `Assoc.Entries`: sequences of
  (key, value) pairs.

Modules, in dependency order:

- `Wrappers`: `Option`, and `Search` (Found / Absent / Exhausted).
- `Strings`: `explode`, `implode`, `strrpos`, `trim` and `str_replace` on
  characters.
- `Assoc`: PHP arrays.
- `Utils`: `ZDocsUtils`, the store, levels and type tags.
- `VersionOrder`: `version_compare` on dotted numbers, and insertion sort.
- `Pages`: names, the topic constructor, `pageFactory` and eligibility.
- `Permissions`: `userCanView` and `userCanEdit`.
- `VersionIndex`: `getVersions` and `getVersionsBefore`.
- `Inheritance`: equivalents in other versions, the inherited page, and
  inherited parameters.
- `VersionPage`: the version header's manuals list.
- `Topic`: TOC links, manual queries and children.
- `TableOfContents`: `generateTableOfContents`, its memo, and previous/next.
- `PropertyStore`: what saving a parsed page does to the store.
- `ParserFunctions`: `processParams` and the four render functions.
- `Hooks`: `checkPermissions`, `addTextToPage` and `assignAValue`.

The code does the following, which a reader might not expect; the model
does the same:

- The ordered topic list of a table of contents grows in the order the child
  topics are examined, not in the order of the template's lines
  (ZDocsManual.php:69-78).
- `getChildrenPages` does not filter children by their type: every page whose
  `ZDocsParentPage` names the page is a child.
- The `inherit` flag is set for `inherit` and also for `inherit=`. The test
  is `$value == null`, and PHP's loose comparison counts `""` as null.
- The status filter in `getVersions` asks the product's `userCanView`, which
  is constantly true, so no version is ever dropped.

## Model

| member | source | states |
|---|---|---|
| Utils.Level | ZDocsUtils.php:5 | levels are numbered by their position in the fixed order Product, Version, Manual, Topic |
| Utils.TypeValueRoundTrip | ZDocsUtils.php:43-60 | the tag stored for a level parses back to that level |
| Utils.ParentType | ZDocsUtils.php:5 | only a product has no parent level; otherwise the parent level is exactly one above |
| Utils.GetProp | ZDocsUtils.php:7-25 | the lookup gives the first stored value for (page, key), and none exactly when there is none |
| Utils.HasPropValue | ZDocsUtils.php:27-41 | true exactly when some stored value for (page, key) equals the value |
| Utils.CountPositiveIff | ZDocsUtils.php:27-41 | the count of matching rows is positive exactly when the value is stored |
| Utils.Children | ZDocsPage.php:43-62 | a page is a child exactly when it exists and has a `ZDocsParentPage` row naming the parent |
| Utils.PageParts | ZDocsUtils.php:62-71 | with no `/`, there is no parent and the whole name is local; otherwise parent + "/" + local rebuilds the name, and local has no `/` |
| Utils.PagePartsOfJoin | ZDocsUtils.php:62-71 | appending a `/`-free segment to a name splits back into that name and segment |
| Utils.IsDefaultPageRequest | ZDocsUtils.php:81-95 | false with `oldid`; with an action, true exactly for view, purge and render; true with neither |
| Strings.JoinSplit | ZDocsPage.php:82-87 | imploding the exploded name gives the name back |
| Strings.SplitJoin | ZDocsPage.php:82-87 | exploding the implode of `/`-free parts gives the parts back |
| Pages.ActualNameAsWritten | ZDocsPage.php:185-189 | as written: the text after the last `/`, and a name without `/` loses its first character |
| Pages.ActualNameAsWrittenIntro | ZDocsPage.php:185-189 | as written, the name "Intro" gives "ntro"; the corrected name is "Intro" |
| Pages.ActualName | ZDocsPage.php:185-189 | the local name is a `/`-free suffix of the name |
| Pages.ParentPage | ZDocsPage.php:195-200 | the parent is the non-empty text before the last `/`, so parent + "/" + local name is the name; none when there is no `/` or the text before it is empty |
| Pages.ParentOfChild | ZDocsPage.php:195-200 | the parent of `p/x` is `p` and its local name is `x` |
| Pages.ProductAndVersionStrings | ZDocsPage.php:80-92 | defined exactly for a non-product page with at least as many segments as its depth; the version has no `/` |
| Pages.ProductAndVersionAreAncestor | ZDocsPage.php:80-92 | product + "/" + version is the page's ancestor at the version level, and splits back into product and version |
| Pages.VersionStringsOfVersion | ZDocsVersion.php:84-87 | a version's product string is its parent page and its version string is its local name |
| Pages.QueryManual | ZDocsTopic.php:24-35 | the query names a manual exactly when product, version and manual are all present |
| Pages.MakeTopic | ZDocsTopic.php:7-52 | standalone iff the query names a page typed Manual; invalid iff the parent cannot be formed or is not typed Manual; the manual is the query's page when the query names one, else the parent |
| Pages.NewStandalone | ZDocsTopic.php:58-69 | none unless the page is typed Topic; otherwise standalone in the given manual, with the constructor's validity |
| Pages.PageFactory | ZDocsUtils.php:47-60 | a page object exactly when the stored tag names a level; the object is of that level, and a topic object is the constructor's |
| Pages.PageFactoryOfType | ZDocsUtils.php:47-60 | every page typed at a level gets an object of that level |
| Pages.CheckPageEligibility | ZDocsPage.php:10-29 | a missing or empty parent gives "no parent page"; otherwise eligible exactly when the parent is typed one level up; a product (ZDocsProduct.php:9-17) is eligible exactly when its local name is registered |
| Pages.EligibleHasTypedParent | ZDocsPage.php:10-29 | an eligible non-product page has a parent page typed one level up |
| Permissions.StandingOf | ZDocsProduct.php:38-48 | a user's standing combines global rights with the product's admin, editor and previewer lists |
| Permissions.ViewAllowed | ZDocsPage.php:240-271 | the view table (Released or other status: always; Unreleased: any global right or product role; Closed: global administer or product admin) is a clearance order: allowed exactly when the user's rank (administrator 3, editor 2, previewer 1) reaches the status's demand (Unreleased 1, Closed 3, else 0) |
| Permissions.EditAllowed | ZDocsPage.php:273-302 | the edit table is the same clearance order, except that Unreleased demands rank 2, dropping preview and previewers |
| Permissions.EditImpliesView | ZDocsPage.php:240-302 | for every status and standing, edit clearance implies view clearance |
| Permissions.NodeProductAndVersion | ZDocsVersion.php:84-87 | a version's product is its parent; a manual's or topic's product and version come from its name |
| Permissions.UserCanView | ZDocsProduct.php:50-53 | everyone may view a product page; other pages follow the status table |
| Permissions.UserCanEdit | ZDocsProduct.php:55-67 | a product page only with global administer or as one of its admins; other pages follow the status table |
| Permissions.CanEditImpliesCanView | ZDocsPage.php:240-302 | on every page, whoever may edit may view |
| Permissions.AdministratorMayDoAll | ZDocsPage.php:240-302 | global administer allows viewing and editing everywhere |
| Permissions.PreviewerOnUnreleased | ZDocsPage.php:247-289 | a user whose only standing is preview (the global right or the previewer role) may view an Unreleased page but not edit it |
| VersionOrder.CompareZeroIff | ZDocsProduct.php:104-107 | two component lists compare equal exactly when they are equal |
| VersionOrder.CompareAntisymmetric | ZDocsProduct.php:104-107 | swapping the arguments negates the comparison |
| VersionOrder.CompareTransitive | ZDocsProduct.php:104-107 | the comparison is transitive |
| VersionOrder.VersionLeqTotalPreorder | ZDocsProduct.php:104-107 | version order is reflexive, total and transitive |
| VersionOrder.ExampleOrder | ZDocsProduct.php:104-107 | "1.0" < "1.5" < "1.10" < "2.0" |
| VersionOrder.Insert | ZDocsProduct.php:104-107 | inserting into a sorted array keeps it sorted, adds exactly the entry, and keeps keys unique |
| VersionOrder.SortByVersion | ZDocsProduct.php:104-107 | the result is sorted, a permutation of the input, with the same keys |
| VersionIndex.ByActualName | ZDocsProduct.php:91-102 | keys are unique and are exactly the local names of the pages that pass the status filter, each mapped to such a page |
| VersionIndex.NoVersionDropped | ZDocsProduct.php:50-53 | with the product's constant view check, every child's local name is a key |
| VersionIndex.GetVersions | ZDocsProduct.php:86-108 | children keyed by local name, sorted ascending by version, keys unique, every child present |
| VersionIndex.VersionsBefore | ZDocsProduct.php:114-133 | empty when the version is not a key; every entry comes from the versions |
| VersionIndex.VersionsBeforeAt | ZDocsProduct.php:119-131 | for the version at position i, exactly the i earlier entries, most recent first |
| VersionIndex.VersionsBeforeOrder | ZDocsProduct.php:114-133 | every returned version sorts no later than the given one and has a different key, and the returned versions are in descending order |
| Inheritance.InheritsPageContents | ZDocsVersion.php:26-32 | products and versions never inherit contents; manuals and topics do when their flag is true |
| Inheritance.InheritsParams | ZDocsProduct.php:26-36 | products never inherit parameters; versions, manuals and topics do when their flag is true |
| Inheritance.EquivalentPageNameForVersion | ZDocsManual.php:155-158 | a manual's equivalent is version + "/" + its local name; a topic's is version + "/" + its manual's local name + "/" + its local name |
| Inheritance.ManualEquivalentName | ZDocsManual.php:155-158 | a manual's equivalent sits under the version and keeps the manual's local name |
| Inheritance.TopicEquivalentName | ZDocsTopic.php:153-156 | a topic's equivalent sits under the version's namesake manual and keeps the topic's local name |
| Inheritance.EquivalentPageForVersion | ZDocsPage.php:227-234 | a version's equivalent is the version; otherwise an equivalent exists and has the node's type, or there is none |
| Inheritance.EquivalentsAmong | ZDocsPage.php:103-118 | every equivalent comes from some version, and every version that has one contributes it |
| Inheritance.EquivalentsAmongOne | ZDocsPage.php:110-115 | one version gives its equivalent, or nothing when it has none |
| Inheritance.EquivalentsAmongAppend | ZDocsPage.php:103-118 | the equivalents of two runs of versions are the first run's followed by the second's, so the versions' order is kept |
| Inheritance.EquivalentsAmongAll | ZDocsPage.php:103-118 | when every version has an equivalent, they are listed one per version, in the versions' order |
| Inheritance.EquivalentsBefore | ZDocsPage.php:103-118 | none without product and version strings; otherwise only equivalents of strictly earlier versions |
| Inheritance.GetInheritedPage | ZDocsPage.php:120-136 | Absent when the node does not inherit; otherwise the first earlier equivalent that does not inherit, or Exhausted (the exception) when all do |
| Inheritance.InheritedPageIsFirst | ZDocsPage.php:120-136 | the inherited page is the earlier equivalent, most recent first, that does not inherit while every more recent one does |
| Inheritance.ParamSearch | ZDocsPage.php:159-173 | Found exactly when some equivalent has the value and every one before it lacks it and inherits; Exhausted when all lack it and inherit |
| Inheritance.ParamSearchFindsFirst | ZDocsPage.php:159-173 | the value found is that of the most recent equivalent with a value, when every more recent one lacks it and inherits |
| Inheritance.ParamSearchCutOff | ZDocsPage.php:138-146 | a non-inheriting equivalent without the value ends the search with none, even when an older one has it |
| Inheritance.ParamSearchStopsNoLater | ZDocsPage.php:138-173 | the parameter search stops no later than the page search |
| Inheritance.GetInheritedParam | ZDocsPage.php:159-173 | a value exactly when the search finds one, that value, stored on an earlier equivalent |
| Inheritance.GetPossiblyInheritedParam | ZDocsPage.php:147-157 | a non-empty local value is returned as is; a node that does not inherit gives none; otherwise exactly the inherited value |
| Inheritance.EquivalentsInOtherVersions | ZDocsPage.php:209-222 | exactly the versions other than the node's own that have an equivalent, each with its equivalent |
| VersionPage.VersionDisplayNameOfChild | ZDocsVersion.php:13-16 | the display name of `product/v` is `v` |
| VersionPage.GetAllManuals | ZDocsVersion.php:72-82 | child pages keyed by local name, unique keys, one key per child |
| VersionPage.Reconcile | ZDocsVersion.php:42-61 | item i is a link exactly when name i is a manual not named earlier, linking that manual; other items show the name; leftovers are the manuals never named |
| VersionPage.LinkedAtMostOnce | ZDocsVersion.php:44-54 | two links come from two different names and lead to two different manuals |
| VersionPage.ExtraManualsWarning | ZDocsVersion.php:57-61 | a warning exactly when manuals are left over, listing exactly those |
| VersionPage.WarningListsUnmentioned | ZDocsVersion.php:42-61 | a manual is in the warning exactly when it exists and the list never names it |
| Topic.TocLabel | ZDocsTopic.php:106-111 | the label is the stored TOC name when it is set and not empty, else the display title |
| Topic.TocLinkOf | ZDocsTopic.php:106-121 | a link to the topic under its label; it has a query exactly when the topic is standalone |
| Topic.QueryOf | ZDocsTopic.php:112-119 | the query holds the manual's product, version and local name |
| Topic.QueryLeadsToManual | ZDocsTopic.php:24-35 | following a manual's query leads back to that manual |
| Topic.QueryOfRequestedManual | ZDocsTopic.php:24-35 | the manual a request names has that request's values as its query |
| Topic.LinkQueryReopensInManual | ZDocsTopic.php:24-51 | a topic opened through a manual's query sits in that manual, standalone exactly when it is typed Manual |
| Topic.NodeChildren | ZDocsTopic.php:145-147 | a topic has no children; other pages have those naming them as parent |
| TableOfContents.TemplateText | ZDocsManual.php:52-67 | a list starting with `*` is the template; another non-empty list names the page whose text is the template, or an empty template when it has none; a missing or empty list is the fatal `new WikiPage(null)` |
| TableOfContents.Bullet | ZDocsManual.php:70-80 | a line starting with `*` splits into its stars and the rest |
| TableOfContents.ReplaceLabelled | ZDocsManual.php:72-74 | every line labelled with the name becomes its stars and the link; other lines are unchanged |
| TableOfContents.ReplaceChanges | ZDocsManual.php:72-74 | a replacement changes the lines exactly when the name is a label |
| TableOfContents.MatchPass | ZDocsManual.php:69-80 | each line gets the first candidate's link for its label; the ordered list and orphans follow the reference definitions |
| TableOfContents.FirstsLabelledMembers | ZDocsManual.php:70-80 | a name is ordered exactly when it is a label and some candidate has it |
| TableOfContents.FirstsLabelledDistinct | ZDocsManual.php:75-78 | the ordered list has no repeats and holds only labels |
| TableOfContents.OrphansUnlabelled | ZDocsManual.php:100-109 | with distinct names, a candidate is an orphan exactly when no label names it |
| TableOfContents.StandaloneShape | ZDocsManual.php:83-94 | a `!` line is its stars, blanks, `!`, blanks and the target |
| TableOfContents.ResolveStandalone | ZDocsManual.php:83-94 | a `!` line naming a page typed Topic becomes a link with the manual's query; another non-empty name keeps stars and name; an empty name is the fatal null title |
| TableOfContents.FailedStandaloneDropsBang | ZDocsManual.php:89 | a `!` line whose non-empty name is no topic loses the `!` and the blanks around it, and keeps its stars and name |
| TableOfContents.EmptyStandaloneIsFatal | ZDocsManual.php:86-87 | a `!` line with only blanks after the `!` stops the generation with the fatal error |
| TableOfContents.GenerateToc | ZDocsManual.php:49-110 | fatal exactly when the template is or a placed `!` line has an empty name; otherwise the lines, ordered list and warning are the matching pass, then the standalone pass, with a warning exactly when showing errors with orphans |
| TableOfContents.CandidateNames | ZDocsManual.php:39-47 | the candidates' names are exactly the local names of the manual's children |
| TableOfContents.OrderedDistinct | ZDocsManual.php:75-78 | every topic appears in the ordered list at most once |
| TableOfContents.OrderedNames | ZDocsManual.php:70-80 | a name is ordered exactly when it is a template label and the local name of some child |
| TableOfContents.OrphansAreUnlisted | ZDocsManual.php:100-109 | ordered and orphans together count the children; an orphan is exactly a candidate whose name is no label |
| TableOfContents.GetTableOfContents | ZDocsManual.php:112-117 | a remembered non-empty table is returned as is; a missing or empty one (`== null`) is generated again and remembered |
| TableOfContents.TocGeneratedOnce | ZDocsManual.php:112-117 | once a non-empty table is remembered, the next call returns it, with no warning, and does not generate again |
| TableOfContents.EmptyTocGeneratedAgain | ZDocsManual.php:112-117 | an empty remembered table counts as unset, so the next call generates the table again |
| TableOfContents.MissingTemplatePageWarnsEachTime | ZDocsManual.php:59-67 | a topics list naming a page without text, on a manual with children, gives the orphan warning on every call that shows errors |
| TableOfContents.LastPosition | ZDocsManual.php:127-151 | the last position of the name, or none when absent |
| TableOfContents.Neighbours | ZDocsManual.php:127-152 | none and none for an absent topic; otherwise manual + "/" + the neighbours, none at the ends |
| TableOfContents.NeighboursMutual | ZDocsManual.php:127-152 | with distinct names, the next of entry i is entry i+1, whose previous is entry i |
| TableOfContents.NextLeadsBack | ZDocsManual.php:127-152 | the next topic's page is under the manual, and its previous is the topic |
| TableOfContents.HasPagination | ZDocsManual.php:12-15 | a true local flag gives pagination and a local "0" none; an empty one without inheritance gives none; an empty one with inheritance follows the truth of the value found in earlier versions |
| TableOfContents.PreviousAndNext | ZDocsManual.php:119-153 | the neighbours in the remembered ordered list when it is not empty; otherwise in a newly generated one, fatal when the generation is |
| PropertyStore.ValuesOf | ZDocsParserFunctions.php:54-83 | the values written to a key are exactly those of the writes naming it |
| PropertyStore.ValuesOfAppend | ZDocsParserFunctions.php:54-83 | values of two runs of writes are the first run's, then the second's |
| PropertyStore.Save | ZDocsParserFunctions.php:54-83 | after saving every value written, the page holds the written values and no other page changes |
| PropertyStore.SaveAsWritten | ZDocsParserFunctions.php:54-83 | as the host saves: each property holds the last value written, and no other page changes |
| PropertyStore.SavesAgreeOnSingleWrites | ZDocsParserFunctions.php:54-83 | both ways of saving agree on a property written at most once |
| PropertyStore.SavedChild | ZDocsParserFunctions.php:101 | a page whose parent row names `parent` becomes a child of it |
| ParserFunctions.ParseParam | ZDocsParserFunctions.php:228-242 | split at the first `=`: a trimmed name and the rest verbatim; without `=`, the trimmed name and no value |
| ParserFunctions.ParseParamOfJoin | ZDocsParserFunctions.php:228-238 | `name=value` with `=`-free name parses to the trimmed name and the whole value |
| ParserFunctions.ProcessParams | ZDocsParserFunctions.php:223-247 | keys unique, exactly the parsed names; each name holds the value of its last occurrence |
| ParserFunctions.CleanName | ZDocsParserFunctions.php:62 | a cleaned name has no `_` and no surrounding blanks |
| ParserFunctions.RoleNames | ZDocsParserFunctions.php:60-62 | one cleaned name per comma-separated entry |
| ParserFunctions.RoleNamesOfJoin | ZDocsParserFunctions.php:60-62 | a list of already clean names, joined by commas, splits back into that list |
| ParserFunctions.RoleWritesValues | ZDocsParserFunctions.php:61-64 | the role writes store every name, in order |
| ParserFunctions.HandlingOf | ZDocsParserFunctions.php:56-77 | only products have role lists; the inherit flag is known on every other level and pagination only on manuals |
| ParserFunctions.HandlingKeysDistinct | ZDocsParserFunctions.php:56-195 | no two parameters write the same property |
| ParserFunctions.LoopValues | ZDocsParserFunctions.php:56-195 | a property only one parameter writes gets exactly that parameter's values |
| ParserFunctions.NoLoopValues | ZDocsParserFunctions.php:56-195 | the loop never writes the type, parent, TOC name or title, nor a product's inherit flag |
| ParserFunctions.Fallback | ZDocsParserFunctions.php:149-158 | the result is empty only when the fallback is |
| ParserFunctions.InheritedIfAsked | ZDocsParserFunctions.php:149-155 | the inherited value is consulted only when `inherit` was given bare |
| ParserFunctions.DisplayTitle | ZDocsParserFunctions.php:149-158 | explicit value; else the inherited value when inheriting (manuals and topics, lines 197-206 for topics); else the local name, as for products (lines 80-83) |
| ParserFunctions.TocName | ZDocsParserFunctions.php:209-220 | explicit value; else the inherited TOC name when inheriting; else the display title |
| ParserFunctions.Render | ZDocsParserFunctions.php:38-221 | rejected exactly when ineligible, with the reason; otherwise starts with the type tag, and has a title unless a version |
| ParserFunctions.RenderedWrites | ZDocsParserFunctions.php:38-221 | an eligible page stores the declaration of its processed parameters and titles |
| ParserFunctions.RejectedDeclaresNothing | ZDocsParserFunctions.php:40-43 | an ineligible page stores no property and gets no page object |
| ParserFunctions.DeclarationSetsLevel | ZDocsParserFunctions.php:54 | a declared page is typed at its level and `pageFactory` gives that level |
| ParserFunctions.DeclarationLinksParent | ZDocsParserFunctions.php:100-101 | a declared non-product page becomes a child of its parent; a product has no parent row |
| ParserFunctions.RoleListStored | ZDocsParserFunctions.php:59-76 | in the corrected store, a role list holds every listed name, in order |
| ParserFunctions.RoleListAsWritten | ZDocsParserFunctions.php:59-76 | as the host stores it, a role list holds only its last name |
| ParserFunctions.ListedAdminMayEditProduct | ZDocsParserFunctions.php:59-64 | every name in the admins list may edit the product page |
| ParserFunctions.AdminPairLosesFirst | ZDocsParserFunctions.php:59-64 | for `admins=a,b`, the corrected store holds [a, b] while the host keeps [b] |
| ParserFunctions.FirstAdminMayNotEdit | ZDocsParserFunctions.php:59-64 | as the host stores `admins=a,b`, admin a may not edit the product page |
| ParserFunctions.AdminListLosesAllButLast | ZDocsParserFunctions.php:59-64 | for `admins=Alice,Bob` on product Docs, the host keeps only Bob and Alice may not edit |
| ParserFunctions.InheritFlagStored | ZDocsParserFunctions.php:103-105 | the page inherits exactly when it is not a product and `inherit` was given bare |
| ParserFunctions.PaginationFlagStored | ZDocsParserFunctions.php:144-145 | a manual has a true pagination flag exactly when `pagination` was given bare |
| ParserFunctions.ParamValueStored | ZDocsParserFunctions.php:106-110 | a value parameter is stored as given, or not at all when absent |
| ParserFunctions.DisplayTitleStored | ZDocsParserFunctions.php:160 | the stored display title is the computed one; a version stores none |
| ParserFunctions.TopicLabelStored | ZDocsParserFunctions.php:220 | a declared topic's TOC label is its computed TOC name |
| Hooks.CheckPermissions | ZDocs.hooks.php:13-36 | a page with no ZDocs type passes; an edit or read the user may not make is refused with result false; all else passes |
| Hooks.EditorsMayRead | ZDocs.hooks.php:18-34 | whoever passes the check for editing passes it for reading |
| Hooks.AdministratorsProceed | ZDocs.hooks.php:13-36 | a global administrator is never refused |
| Hooks.ProductPagesReadable | ZDocs.hooks.php:25-33 | reading a product page is never refused |
| Hooks.HeaderOf | ZDocsTopic.php:71-74 | every page object has a header except an invalid topic |
| Hooks.FooterOf | ZDocsTopic.php:123-133 | only a topic that is not invalid has a footer, about its manual |
| Hooks.AddTextToPage | ZDocs.hooks.php:38-57 | unchanged exactly when not viewing or not a ZDocs page; otherwise the header, text, inherited text and footer, or the inheritance exception |
| Hooks.TextShownOnce | ZDocs.hooks.php:48-55 | the own text appears once, after just the header, with the inherited text right behind it |
| Hooks.ValidTopicShowsManual | ZDocs.hooks.php:38-57 | a valid topic that does not inherit shows its header, its text and its manual's footer |
| Hooks.OnlyViewedPagesChange | ZDocs.hooks.php:39-42 | any action other than view leaves the text alone |
| Hooks.WordOf | ZDocs.hooks.php:114-117 | exactly the three ZDocs ids are handled |
| Hooks.WordValue | ZDocs.hooks.php:124-145 | the product word is the product's display title; the version word is the version string (null when missing); the manual word is the topic's manual's display title |
| Hooks.AssignAValue | ZDocs.hooks.php:113-150 | untouched exactly for other ids, non-ZDocs pages, and pages at or above the word's own level |
| Hooks.WordsOnlyBelowTheirLevel | ZDocs.hooks.php:125-141 | on a typed page a word gets a value exactly when the page is below the word's level |
| Hooks.WordsOnManualPage | ZDocs.hooks.php:125-137 | on manual `p/v/m` the version word is v and the product word is p's display title |
| Hooks.ProductWordOnVersionPage | ZDocsVersion.php:84-87 | on a version page the product word is its parent's display title |
| Hooks.ManualWordOnTopic | ZDocs.hooks.php:139-144 | on a topic the manual word follows the manual the request names, else the parent page |

## Left out

- Database access: the property store and the page list are a value. The
  text of pages is a map, so fetching revisions becomes a lookup.
- HTML and wiki rendering are left out: links, messages, `Html::rawElement`,
  `doBlockLevels`, and the parsing of inherited text. A header and a footer
  are opaque pieces, and a table-of-contents line is (stars, link) or raw
  text.
- Globals become parameters: the request's query values, the action, and
  the registered product list.
- The full `version_compare` grammar is left out. Versions compare as dotted
  numbers, the leading digits of each segment, component by component, and
  a proper prefix is smaller.
- PHP loose equality is not modelled. A stored `null` is a missing value,
  and `== null` on a string means missing or empty.
- The TOC's regular expressions are replaced by a line grammar: leading
  stars, then a label.
- Title normalisation (capitalisation, underscores in page names) is not
  modelled.
- registerParserFunctions, declareVarIDs and setSearchText are registration
  glue and a no-op.
- getSidebarText is left out: it is rendering.
- Hooks.WordValue: on a manual or topic whose name has fewer segments than
  its depth, PHP slices the name from the end and may still read some page
  as the product. The model treats the product as missing, which is the
  fatal call on a null page object.
- Pages.ProductAndVersionStrings: PHP reads an undefined index when the name
  has fewer segments than the page's depth. The model returns no answer.
- TableOfContents.TemplateText: a non-empty topics list that is not a valid
  title (one containing `[`, say) also gives a null title and the fatal
  `new WikiPage(null)`. Title syntax is not modelled, so the model reads it
  as the name of a page without text.
- TableOfContents.ResolveStandalone: a non-empty `!` name that is not a valid
  title is also a fatal error in PHP. Title syntax is not modelled, so the
  model treats it as any other name that is not a topic.
- TableOfContents.GetTableOfContents: the remembered table is the text
  before `doBlockLevels`, which is left out. It counts as empty, and so as
  unset, when it has no lines or one empty line.
- Pages.ActualName: the rest of the model uses the corrected name. It agrees
  with the code on every name that contains `/`, which every page of a
  product reaches: a page without `/` has no parent, so it is never declared
  below the product level, and products override `getActualName`.
- Hooks.AddTextToPage: the exception `getInheritedPage` throws is a value,
  `NoVersionToInherit`. The model does not follow what MediaWiki does with
  it.

## Findings

| source | as written | input that shows it | evidently intended | confidence | as-written member | corrected member |
|---|---|---|---|---|---|---|
| ZDocsPage.php:185-189 | `getActualName` takes `substr($name, strrpos($name, '/') + 1)`; with no `/`, `strrpos` is false and `false + 1` is 1 | the name `Intro` comes out as `ntro`; the defect is latent, since no declared page below the product level has a name without `/` and products override the method | the whole name when it has no `/` | not executed | Pages.ActualNameAsWritten, Pages.ActualNameAsWrittenIntro | Pages.ActualName |
| ZDocsParserFunctions.php:59-76 | each name of a role list is stored with `setProperty`, which replaces the previous value of the same property | `{{#zdocs_product:admins=Alice,Bob}}` on product `Docs`: only Bob is stored, and Alice may not edit the page | every listed name stored, as `titleHasPagePropValue` reads them | not executed | ParserFunctions.RoleListAsWritten, ParserFunctions.AdminListLosesAllButLast, ParserFunctions.FirstAdminMayNotEdit | ParserFunctions.RoleListStored, ParserFunctions.ListedAdminMayEditProduct |
