/** The parser functions `#zdocs_product`, `#zdocs_version`, `#zdocs_manual`
    and `#zdocs_topic`: how a page declares its level, which properties the
    declaration writes, and which display title and TOC name it chooses.
    A rendering is a list of property writes and a display title; saving it
    is left to `PropertyStore`. */
module ParserFunctions {
  import opened Wrappers
  import opened Strings
  import opened Assoc
  import opened Utils
  import opened Pages
  import opened Inheritance
  import opened Topic
  import opened TableOfContents
  import opened PropertyStore
  import opened Permissions

  // ------------------------------------------------------- processParams

  /** Processed parameters: trimmed name to value. A parameter given without
      `=` has no value (PHP null). */
  type Params = Entries<Option<string>>

  /** One parameter split at its first `=`: the trimmed name, and the value
      exactly as written. Without `=`, the trimmed text and no value. */
  function ParseParam(p: string): (r: (string, Option<string>))
    ensures '=' !in p ==> r == (Trim(p), None)
    ensures '=' in p ==> (r.1.Some? && |r.1.value| < |p|
      && p == p[..|p| - |r.1.value| - 1] + "=" + r.1.value
      && '=' !in p[..|p| - |r.1.value| - 1]
      && r.0 == Trim(p[..|p| - |r.1.value| - 1]))
  {
    match IndexOf(p, '=')
    case None => (Trim(p), None)
    case Some(i) =>
      assert p == p[..i] + "=" + p[i + 1..];
      (Trim(p[..i]), Some(p[i + 1..]))
  }

  /** A name without `=`, an `=` and any value (which may hold `=` itself)
      parse back into the trimmed name and that value. */
  lemma ParseParamOfJoin(n: string, v: string)
    requires '=' !in n
    ensures ParseParam(n + "=" + v) == (Trim(n), Some(v))
  {
    var s := n + "=" + v;
    IndexOfBefore(n, '=', v);
    assert s[..|n|] == n;
    assert s[|n| + 1..] == v;
  }

  /** The same for a name with no white space at either end: it parses
      back into itself. */
  lemma ParseParamOfPlainName(n: string, v: string)
    requires '=' !in n && |n| > 0 && !IsSpace(n[0]) && !IsSpace(n[|n| - 1])
    ensures ParseParam(n + "=" + v) == (n, Some(v))
  {
    ParseParamOfJoin(n, v);
    TrimOfUnpadded(n);
  }

  /** Parameter `i` is the last one with its name. */
  predicate LastNamed(params: seq<string>, i: nat)
    requires i < |params|
  {
    forall j :: i < j < |params| ==> ParseParam(params[j]).0 != ParseParam(params[i]).0
  }

  /** `processParams`: each parameter name once, holding the value of the
      last parameter with that name. */
  function ProcessParams(params: seq<string>): (r: Params)
    ensures UniqueKeys(r)
    ensures forall k :: HasKey(r, k) <==> exists i :: 0 <= i < |params| && ParseParam(params[i]).0 == k
    ensures forall i :: 0 <= i < |params| && LastNamed(params, i) ==>
      Lookup(r, ParseParam(params[i]).0) == Some(ParseParam(params[i]).1)
    decreases |params|
  {
    if |params| == 0 then []
    else
      var front := params[..|params| - 1];
      var (n, v) := ParseParam(params[|params| - 1]);
      var rest := ProcessParams(front);
      ProcessParamsStep(params, front, rest);
      Put(rest, n, v)
  }

  /** The step of `ProcessParams`: the last parameter written over the
      processed others. */
  lemma ProcessParamsStep(params: seq<string>, front: seq<string>, rest: Params)
    requires |params| > 0 && front == params[..|params| - 1]
    requires UniqueKeys(rest)
    requires forall k :: HasKey(rest, k) <==>
      exists i :: 0 <= i < |front| && ParseParam(front[i]).0 == k
    requires forall i :: 0 <= i < |front| && LastNamed(front, i) ==>
      Lookup(rest, ParseParam(front[i]).0) == Some(ParseParam(front[i]).1)
    ensures var r := Put(rest, ParseParam(params[|params| - 1]).0, ParseParam(params[|params| - 1]).1);
      && (forall k :: HasKey(r, k) <==> exists i :: 0 <= i < |params| && ParseParam(params[i]).0 == k)
      && (forall i :: 0 <= i < |params| && LastNamed(params, i) ==>
            Lookup(r, ParseParam(params[i]).0) == Some(ParseParam(params[i]).1))
  {
    var (n, v) := ParseParam(params[|params| - 1]);
    var r := Put(rest, n, v);
    forall k ensures HasKey(r, k) <==> exists i :: 0 <= i < |params| && ParseParam(params[i]).0 == k {
      if k == n {
        assert ParseParam(params[|params| - 1]).0 == k;
      } else if HasKey(r, k) {
        var i :| 0 <= i < |params| - 1 && ParseParam(front[i]).0 == k;
        assert front[i] == params[i];
      } else {
        forall i | 0 <= i < |params| ensures ParseParam(params[i]).0 != k {
          if i < |params| - 1 {
            assert front[i] == params[i];
          }
        }
      }
    }
    forall i | 0 <= i < |params| && LastNamed(params, i)
      ensures Lookup(r, ParseParam(params[i]).0) == Some(ParseParam(params[i]).1)
    {
      if i < |params| - 1 {
        assert ParseParam(params[i]).0 != n;
        assert front[i] == params[i];
        assert LastNamed(front, i) by {
          forall j | i < j < |front| ensures ParseParam(front[j]).0 != ParseParam(front[i]).0 {
            assert front[j] == params[j];
          }
        }
      }
    }
  }

  /** The value of a parameter: None when it is missing or has no `=`. */
  function Given(pp: Params, name: string): Option<string> {
    if Lookup(pp, name).Some? then Lookup(pp, name).value else None
  }

  /** `$paramName == name && $value == null`: the parameter is present with
      no value or an empty one. */
  predicate Bare(pp: Params, name: string) {
    Lookup(pp, name).Some? && Nullish(Lookup(pp, name).value)
  }

  // ------------------------------------------------------------ role lists

  /** One name of a role list, cleaned: underscores become spaces, then the
      name is trimmed. */
  function CleanName(s: string): (r: string)
    ensures '_' !in r && Trim(r) == r
    ensures ',' !in s ==> ',' !in r
  {
    var t := ReplaceChar(s, '_', ' ');
    ReplaceCharMembers(s, '_', ' ', '_');
    ReplaceCharMembers(s, '_', ' ', ',');
    TrimIdempotent(t);
    Trim(t)
  }

  /** A role list split on `,`, each name cleaned. A missing value is one
      empty name. */
  function RoleNames(value: Option<string>): (r: seq<string>)
    ensures |r| >= 1 && |r| == |Split(value.GetOr(""), ',')|
    ensures forall i :: 0 <= i < |r| ==> ',' !in r[i] && '_' !in r[i]
  {
    var parts := Split(value.GetOr(""), ',');
    seq(|parts|, i requires 0 <= i < |parts| => CleanName(parts[i]))
  }

  /** A list of clean names joined with `,` splits back into those names. */
  lemma RoleNamesOfJoin(names: seq<string>)
    requires |names| >= 1
    requires forall i :: 0 <= i < |names| ==> ',' !in names[i] && '_' !in names[i] && Trim(names[i]) == names[i]
    ensures RoleNames(Some(Join(names, ','))) == names
  {
    SplitJoin(names, ',');
    var r := RoleNames(Some(Join(names, ',')));
    forall i | 0 <= i < |names| ensures r[i] == names[i] {
      CleanNameOfClean(names[i]);
    }
  }

  /** A clean name stays as it is. */
  lemma CleanNameOfClean(n: string)
    requires '_' !in n && Trim(n) == n
    ensures CleanName(n) == n
  {
    assert ReplaceChar(n, '_', ' ') == n;
  }

  /** One `setProperty( key, name )` per name. */
  function RoleWrites(key: Key, names: seq<string>): (r: seq<(Key, string)>)
    ensures forall e :: e in r ==> e.0 == key
  {
    if |names| == 0 then [] else RoleWrites(key, names[..|names| - 1]) + [(key, names[|names| - 1])]
  }

  /** The role property receives the names in list order. */
  lemma {:induction false} RoleWritesValues(key: Key, names: seq<string>)
    ensures ValuesOf(RoleWrites(key, names), key) == names
  {
    if |names| > 0 {
      var front := names[..|names| - 1];
      var last := names[|names| - 1];
      ValuesOfAppend(RoleWrites(key, front), [(key, last)], key);
      ValuesOfOne((key, last), key);
      RoleWritesValues(key, front);
      FrontAndLast(names);
    }
  }

  /** A list of names is its names but the last, then the last. */
  lemma FrontAndLast(names: seq<string>)
    requires |names| > 0
    ensures names == names[..|names| - 1] + [names[|names| - 1]]
  {
  }

  /** The role property a product parameter fills. */
  function RoleKey(param: string): (r: Option<Key>)
    ensures r.Some? ==> r.value in {ProductAdminKey, ProductEditorKey, ProductPreviewerKey}
  {
    if param == "admins" then Some(ProductAdminKey)
    else if param == "editors" then Some(ProductEditorKey)
    else if param == "previewers" then Some(ProductPreviewerKey)
    else None
  }

  // ------------------------------------------------------ the param loop

  /** The properties the parameter loop of a level can write. */
  function LoopKeys(kind: PageType): set<Key> {
    match kind
    case Product => {ProductAdminKey, ProductEditorKey, ProductPreviewerKey}
    case Version => {InheritKey, StatusKey, ManualsListKey}
    case Manual => {DisplayNameKey, InheritKey, TopicsListKey, PaginationKey}
    case Topic => {DisplayNameKey, InheritKey}
  }

  /** How the loop treats a parameter it knows: a role list, split into one
      write per name; a value stored as given; a flag, set when the
      parameter has no value or an empty one. */
  datatype Handling = ListOf(key: Key) | AsGiven(key: Key) | Flag(key: Key)

  /** The `if`/`elseif` chain of each level's loop: which parameters it
      knows and how it stores them. */
  function HandlingOf(kind: PageType, param: string): (r: Option<Handling>)
    ensures r.Some? ==> r.value.key in LoopKeys(kind)
    ensures r.Some? && r.value.ListOf? <==> kind == Product && RoleKey(param).Some?
    ensures r.Some? && r.value.ListOf? ==> r.value.key == RoleKey(param).value
    ensures r == Some(Flag(InheritKey)) <==> kind != Product && param == "inherit"
    ensures r == Some(Flag(PaginationKey)) <==> kind == Manual && param == "pagination"
  {
    match kind
    case Product => if RoleKey(param).Some? then Some(ListOf(RoleKey(param).value)) else None
    case Version =>
      if param == "inherit" then Some(Flag(InheritKey))
      else if param == "status" then Some(AsGiven(StatusKey))
      else if param == "manuals list" then Some(AsGiven(ManualsListKey))
      else None
    case Manual =>
      if param == "display name" then Some(AsGiven(DisplayNameKey))
      else if param == "inherit" then Some(Flag(InheritKey))
      else if param == "topics list" then Some(AsGiven(TopicsListKey))
      else if param == "pagination" then Some(Flag(PaginationKey))
      else None
    case Topic =>
      if param == "display name" then Some(AsGiven(DisplayNameKey))
      else if param == "inherit" then Some(Flag(InheritKey))
      else None
  }

  /** Two parameters a level knows fill two different properties. */
  lemma HandlingKeysDistinct(kind: PageType, p: string, q: string)
    requires HandlingOf(kind, p).Some? && HandlingOf(kind, q).Some?
    requires HandlingOf(kind, p).value.key == HandlingOf(kind, q).value.key
    ensures p == q
  {
  }

  /** What the parameter loop of a level writes for one processed parameter.
      A missing value is written as "" and a flag (`true`) as `FlagValue`. */
  function EntryWrites(kind: PageType, param: string, value: Option<string>): (r: seq<(Key, string)>)
    ensures forall e :: e in r ==> HandlingOf(kind, param).Some? && e.0 == HandlingOf(kind, param).value.key
  {
    match HandlingOf(kind, param)
    case None => []
    case Some(ListOf(key)) => RoleWrites(key, RoleNames(value))
    case Some(AsGiven(key)) => [(key, value.GetOr(""))]
    case Some(Flag(key)) => if Nullish(value) then [(key, FlagValue)] else []
  }

  /** The `foreach` over the processed parameters. */
  function LoopWrites(kind: PageType, pp: Params): (r: seq<(Key, string)>)
    ensures forall e :: e in r ==> e.0 in LoopKeys(kind)
  {
    if |pp| == 0 then [] else EntryWrites(kind, pp[0].0, pp[0].1) + LoopWrites(kind, pp[1..])
  }

  /** Only the parameter `param` makes the loop of `kind` write `key`. */
  ghost predicate OnlyFrom(kind: PageType, param: string, key: Key) {
    forall p, v, e :: p != param && e in EntryWrites(kind, p, v) ==> e.0 != key
  }

  /** A property a known parameter fills is filled by that parameter only. */
  lemma KnownOnlyFrom(kind: PageType, param: string)
    requires HandlingOf(kind, param).Some?
    ensures OnlyFrom(kind, param, HandlingOf(kind, param).value.key)
  {
    forall p, v, e | p != param && e in EntryWrites(kind, p, v)
      ensures e.0 != HandlingOf(kind, param).value.key
    {
      if e.0 == HandlingOf(kind, param).value.key {
        HandlingKeysDistinct(kind, p, param);
      }
    }
  }

  /** What the loop writes to a property only one parameter fills: what that
      parameter writes, or nothing when it is missing. */
  lemma {:induction false} LoopValues(kind: PageType, pp: Params, param: string, key: Key)
    requires UniqueKeys(pp)
    requires OnlyFrom(kind, param, key)
    ensures ValuesOf(LoopWrites(kind, pp), key)
      == if Lookup(pp, param).Some? then ValuesOf(EntryWrites(kind, param, Lookup(pp, param).value), key) else []
  {
    if |pp| > 0 {
      var head := EntryWrites(kind, pp[0].0, pp[0].1);
      ValuesOfAppend(head, LoopWrites(kind, pp[1..]), key);
      UniqueTail(pp);
      LoopValues(kind, pp[1..], param, key);
      LookupCons(pp[0], pp[1..], param);
      assert pp == [pp[0]] + pp[1..];
      if pp[0].0 == param {
        assert Lookup(pp[1..], param).None?;
      } else {
        NoValues(head, key);
      }
    }
  }

  /** What the loop writes for a known parameter: its writes when present,
      nothing when missing. */
  lemma KnownLoopValues(kind: PageType, pp: Params, param: string)
    requires UniqueKeys(pp)
    requires HandlingOf(kind, param).Some?
    ensures var key := HandlingOf(kind, param).value.key;
      ValuesOf(LoopWrites(kind, pp), key)
      == if Lookup(pp, param).Some? then ValuesOf(EntryWrites(kind, param, Lookup(pp, param).value), key) else []
  {
    KnownOnlyFrom(kind, param);
    LoopValues(kind, pp, param, HandlingOf(kind, param).value.key);
  }

  /** The loop never writes the type tag, the parent page, the TOC name or
      the display title, and a product's loop never writes the `inherit`
      flag. */
  lemma NoLoopValues(kind: PageType, pp: Params)
    ensures ValuesOf(LoopWrites(kind, pp), PageTypeKey) == []
    ensures ValuesOf(LoopWrites(kind, pp), ParentPageKey) == []
    ensures ValuesOf(LoopWrites(kind, pp), TOCNameKey) == []
    ensures ValuesOf(LoopWrites(kind, pp), DisplayTitleKey) == []
    ensures kind == Product ==> ValuesOf(LoopWrites(kind, pp), InheritKey) == []
  {
    NoLoopValue(kind, pp, PageTypeKey);
    NoLoopValue(kind, pp, ParentPageKey);
    NoLoopValue(kind, pp, TOCNameKey);
    NoLoopValue(kind, pp, DisplayTitleKey);
    if kind == Product {
      NoLoopValue(kind, pp, InheritKey);
    }
  }

  /** The loop writes nothing to a property outside its level's keys. */
  lemma NoLoopValue(kind: PageType, pp: Params, key: Key)
    requires key !in LoopKeys(kind)
    ensures ValuesOf(LoopWrites(kind, pp), key) == []
  {
    NoValues(LoopWrites(kind, pp), key);
  }

  // ------------------------------------------------------------- titles

  /** The object the render function builds for the page when it needs an
      inherited value: a topic goes through the topic constructor. */
  function DeclaredNode(w: Wiki, req: Request, kind: PageType, name: PageName): Node {
    if kind == Topic then MakeTopic(w, req, name) else PlainNode(kind, name)
  }

  /** An explicit value unless it is null or empty; then an inherited value
      unless that is null or empty; then the fallback. */
  function Fallback(explicit: Option<string>, inherited: Option<string>, otherwise: string): (r: string)
    ensures r == "" ==> r == otherwise
  {
    if !Nullish(explicit) then explicit.value
    else if !Nullish(inherited) then inherited.value
    else otherwise
  }

  /** The value of `key` the page inherits, consulted only when the page
      declares the `inherit` flag. */
  function InheritedIfAsked(w: Wiki, req: Request, kind: PageType, name: PageName, pp: Params, key: Key)
    : (r: Option<string>)
    ensures !Bare(pp, "inherit") ==> r.None?
    ensures Bare(pp, "inherit") ==> r == GetInheritedParam(w, DeclaredNode(w, req, kind, name), key)
  {
    if Bare(pp, "inherit") then GetInheritedParam(w, DeclaredNode(w, req, kind, name), key) else None
  }

  /** The display title of a product, manual or topic: the `display name`
      value; for a manual or topic that inherits, the display name of the
      page it inherits from; the page's own local name otherwise. Products
      never look at other versions. */
  function DisplayTitle(w: Wiki, req: Request, kind: PageType, name: PageName, pp: Params): (r: string)
    ensures !Nullish(Given(pp, "display name")) ==> r == Given(pp, "display name").value
    ensures Nullish(Given(pp, "display name")) && kind != Product && Bare(pp, "inherit")
      && !Nullish(GetInheritedParam(w, DeclaredNode(w, req, kind, name), DisplayNameKey))
      ==> r == GetInheritedParam(w, DeclaredNode(w, req, kind, name), DisplayNameKey).value
    ensures Nullish(Given(pp, "display name"))
      && (kind == Product || !Bare(pp, "inherit")
          || Nullish(GetInheritedParam(w, DeclaredNode(w, req, kind, name), DisplayNameKey)))
      ==> r == PageParts(name).1
  {
    Fallback(Given(pp, "display name"),
             if kind == Product then None else InheritedIfAsked(w, req, kind, name, pp, DisplayNameKey),
             PageParts(name).1)
  }

  /** A topic's TOC name: the `toc name` value; when the topic inherits, the
      TOC name of the page it inherits from; its display title otherwise. */
  function TocName(w: Wiki, req: Request, name: PageName, pp: Params): (r: string)
    ensures !Nullish(Given(pp, "toc name")) ==> r == Given(pp, "toc name").value
    ensures Nullish(Given(pp, "toc name")) && Bare(pp, "inherit")
      && !Nullish(GetInheritedParam(w, MakeTopic(w, req, name), TOCNameKey))
      ==> r == GetInheritedParam(w, MakeTopic(w, req, name), TOCNameKey).value
    ensures Nullish(Given(pp, "toc name"))
      && (!Bare(pp, "inherit") || Nullish(GetInheritedParam(w, MakeTopic(w, req, name), TOCNameKey)))
      ==> r == DisplayTitle(w, req, Topic, name, pp)
    ensures r == "" ==> r == DisplayTitle(w, req, Topic, name, pp)
  {
    Fallback(Given(pp, "toc name"), InheritedIfAsked(w, req, Topic, name, pp, TOCNameKey),
             DisplayTitle(w, req, Topic, name, pp))
  }

  // ------------------------------------------------------------ rendering

  /** The result of a render function: the eligibility message, or the
      property writes and the display title (versions set none). */
  datatype Rendered =
    | Rejected(reason: Ineligible)
    | Defined(writes: seq<(Key, string)>, displayTitle: Option<string>)

  /** The writes before the loop: the page type, and the parent page for
      every level below products. */
  function HeadWrites(kind: PageType, name: PageName): seq<(Key, string)> {
    [(PageTypeKey, TypeValue(kind))]
      + (if kind == Product then [] else [(ParentPageKey, PageParts(name).0.GetOr(""))])
  }

  /** The writes after the loop: a topic always stores its TOC name. */
  function TailWrites(kind: PageType, toc: string): seq<(Key, string)> {
    if kind == Topic then [(TOCNameKey, toc)] else []
  }

  /** The display title, which the host stores after the properties; a
      version sets none. */
  function TitleWrites(kind: PageType, title: string): seq<(Key, string)> {
    if kind == Version then [] else [(DisplayTitleKey, title)]
  }

  /** Everything the declaration of an eligible page with processed
      parameters `pp`, TOC name `toc` and display title `title` has the host
      store, in order. */
  function Declared(kind: PageType, name: PageName, pp: Params, toc: string, title: string): seq<(Key, string)> {
    HeadWrites(kind, name) + LoopWrites(kind, pp) + TailWrites(kind, toc) + TitleWrites(kind, title)
  }

  /** `renderProduct`, `renderVersion`, `renderManual`, `renderTopic`. An
      ineligible page gets the message and nothing else. */
  function Render(w: Wiki, req: Request, registered: seq<string>, kind: PageType, name: PageName,
                  params: seq<string>): (r: Rendered)
    ensures r.Rejected? <==> EligibilityOf(w, registered, kind, name).Some?
    ensures r.Rejected? ==> r.reason == EligibilityOf(w, registered, kind, name).value
    ensures r.Defined? ==> (r.displayTitle.None? <==> kind == Version)
    ensures r.Defined? ==> |r.writes| > 0 && r.writes[0] == (PageTypeKey, TypeValue(kind))
  {
    match EligibilityOf(w, registered, kind, name)
    case Some(reason) => Rejected(reason)
    case None =>
      var pp := ProcessParams(params);
      assert (HeadWrites(kind, name) + LoopWrites(kind, pp))[0] == (PageTypeKey, TypeValue(kind));
      Defined(HeadWrites(kind, name) + LoopWrites(kind, pp) + TailWrites(kind, TocName(w, req, name, pp)),
              if kind == Version then None else Some(DisplayTitle(w, req, kind, name, pp)))
  }

  /** Everything a rendering has the host store: its properties, then the
      display title. A rejected rendering stores nothing. */
  function AllWrites(r: Rendered): seq<(Key, string)> {
    match r
    case Rejected(_) => []
    case Defined(writes, title) =>
      writes + (if title.Some? then [(DisplayTitleKey, title.value)] else [])
  }

  /** A rendering of an eligible page stores what its processed parameters
      and its titles declare. */
  lemma RenderedWrites(w: Wiki, req: Request, registered: seq<string>, kind: PageType, name: PageName,
                       params: seq<string>)
    requires EligibilityOf(w, registered, kind, name).None?
    ensures var pp := ProcessParams(params);
      AllWrites(Render(w, req, registered, kind, name, params))
      == Declared(kind, name, pp, TocName(w, req, name, pp), DisplayTitle(w, req, kind, name, pp))
  {
  }

  /** The values of the writes before and after the loop. */
  lemma HeadTailValues(kind: PageType, name: PageName, toc: string, title: string, key: Key)
    ensures ValuesOf(HeadWrites(kind, name), key)
      == (if key == PageTypeKey then [TypeValue(kind)] else [])
         + (if key == ParentPageKey && kind != Product then [PageParts(name).0.GetOr("")] else [])
    ensures ValuesOf(TailWrites(kind, toc), key) == if key == TOCNameKey && kind == Topic then [toc] else []
    ensures ValuesOf(TitleWrites(kind, title), key) == if key == DisplayTitleKey && kind != Version then [title] else []
  {
    ValuesOfOne((PageTypeKey, TypeValue(kind)), key);
    ValuesOfOne((ParentPageKey, PageParts(name).0.GetOr("")), key);
    ValuesOfOne((TOCNameKey, toc), key);
    ValuesOfOne((DisplayTitleKey, title), key);
    ValuesOfAppend([(PageTypeKey, TypeValue(kind))],
                   if kind == Product then [] else [(ParentPageKey, PageParts(name).0.GetOr(""))], key);
  }

  /** The values a declaration stores under `key`: the type tag, the parent
      page, what the loop writes, the TOC name and the display title, each
      under its own property. */
  lemma DeclaredValues(kind: PageType, name: PageName, pp: Params, toc: string, title: string, key: Key)
    ensures ValuesOf(Declared(kind, name, pp, toc, title), key)
      == (if key == PageTypeKey then [TypeValue(kind)] else [])
         + (if key == ParentPageKey && kind != Product then [PageParts(name).0.GetOr("")] else [])
         + ValuesOf(LoopWrites(kind, pp), key)
         + (if key == TOCNameKey && kind == Topic then [toc] else [])
         + (if key == DisplayTitleKey && kind != Version then [title] else [])
  {
    var h, l, t, d := HeadWrites(kind, name), LoopWrites(kind, pp), TailWrites(kind, toc), TitleWrites(kind, title);
    ValuesOfAppend(h + l + t, d, key);
    ValuesOfAppend(h + l, t, key);
    ValuesOfAppend(h, l, key);
    HeadTailValues(kind, name, toc, title, key);
  }

  /** The properties the loop fills are filled by the loop alone. */
  lemma LoopOnlyValues(kind: PageType, name: PageName, pp: Params, toc: string, title: string, key: Key)
    requires key in LoopKeys(kind) || key == InheritKey
    ensures ValuesOf(Declared(kind, name, pp, toc, title), key) == ValuesOf(LoopWrites(kind, pp), key)
  {
    LoopKeyNotFixed(kind, key);
    DeclaredValues(kind, name, pp, toc, title, key);
  }

  /** The loop never fills the properties written before and after it. */
  lemma LoopKeyNotFixed(kind: PageType, key: Key)
    requires key in LoopKeys(kind) || key == InheritKey
    ensures key != PageTypeKey && key != ParentPageKey && key != TOCNameKey && key != DisplayTitleKey
  {
  }

  // ------------------------------------------------------ saved declarations

  /** What a product declares for a role: the names of the role's list, in
      list order, or nothing when the parameter is missing. */
  lemma RoleValues(name: PageName, pp: Params, toc: string, title: string, role: string, key: Key)
    requires UniqueKeys(pp)
    requires RoleKey(role) == Some(key)
    ensures ValuesOf(Declared(Product, name, pp, toc, title), key)
      == if Lookup(pp, role).Some? then RoleNames(Lookup(pp, role).value) else []
  {
    KnownLoopValues(Product, pp, role);
    if Lookup(pp, role).Some? {
      RoleWritesValues(key, RoleNames(Lookup(pp, role).value));
    }
    LoopOnlyValues(Product, name, pp, toc, title, key);
  }

  /** What a page declares under the `inherit` flag: `FlagValue` when a
      level below products has the parameter with no value or an empty
      one, else nothing. */
  lemma InheritValues(kind: PageType, name: PageName, pp: Params, toc: string, title: string)
    requires UniqueKeys(pp)
    ensures ValuesOf(Declared(kind, name, pp, toc, title), InheritKey)
      == if kind != Product && Bare(pp, "inherit") then [FlagValue] else []
  {
    LoopOnlyValues(kind, name, pp, toc, title, InheritKey);
    if kind == Product {
      NoLoopValue(kind, pp, InheritKey);
    } else {
      KnownLoopValues(kind, pp, "inherit");
      ValuesOfOne((InheritKey, FlagValue), InheritKey);
    }
  }
  /** What a manual declares under the pagination flag. */
  lemma PaginationValues(name: PageName, pp: Params, toc: string, title: string)
    requires UniqueKeys(pp)
    ensures ValuesOf(Declared(Manual, name, pp, toc, title), PaginationKey)
      == if Bare(pp, "pagination") then [FlagValue] else []
  {
    LoopOnlyValues(Manual, name, pp, toc, title, PaginationKey);
    KnownLoopValues(Manual, pp, "pagination");
    ValuesOfOne((PaginationKey, FlagValue), PaginationKey);
  }
  /** What a page declares under a property stored as given: the
      parameter's value ("" without `=`), or nothing when it is missing. */
  lemma PlainValues(kind: PageType, name: PageName, pp: Params, toc: string, title: string, param: string, key: Key)
    requires UniqueKeys(pp)
    requires HandlingOf(kind, param) == Some(AsGiven(key))
    ensures ValuesOf(Declared(kind, name, pp, toc, title), key)
      == if Lookup(pp, param).Some? then [Lookup(pp, param).value.GetOr("")] else []
  {
    KnownLoopValues(kind, pp, param);
    if Lookup(pp, param).Some? {
      ValuesOfOne((key, Lookup(pp, param).value.GetOr("")), key);
    }
    LoopOnlyValues(kind, name, pp, toc, title, key);
  }
  /** The store after saving a rendering, every value kept. */
  function SaveRendered(w: Wiki, name: PageName, r: Rendered): Wiki {
    Save(w, name, AllWrites(r))
  }

  /** The store after saving a rendering as the host does. */
  function SaveRenderedAsWritten(w: Wiki, name: PageName, r: Rendered): Wiki {
    SaveAsWritten(w, name, AllWrites(r))
  }

  /** Saving the rendering of an eligible page is saving its declaration. */
  lemma SavedRendering(w: Wiki, req: Request, registered: seq<string>, kind: PageType, name: PageName,
                       params: seq<string>)
    requires EligibilityOf(w, registered, kind, name).None?
    ensures var pp := ProcessParams(params);
      var writes := Declared(kind, name, pp, TocName(w, req, name, pp), DisplayTitle(w, req, kind, name, pp));
      && SaveRendered(w, name, Render(w, req, registered, kind, name, params)) == Save(w, name, writes)
      && SaveRenderedAsWritten(w, name, Render(w, req, registered, kind, name, params)) == SaveAsWritten(w, name, writes)
  {
    RenderedWrites(w, req, registered, kind, name, params);
  }

  /** An ineligible page declares nothing: once saved it has no properties,
      so no page object is built for it. */
  lemma RejectedDeclaresNothing(w: Wiki, req: Request, registered: seq<string>, kind: PageType,
                                name: PageName, params: seq<string>)
    requires EligibilityOf(w, registered, kind, name).Some?
    ensures var saved := SaveRendered(w, name, Render(w, req, registered, kind, name, params));
      && (forall k :: PropValues(saved, name, k) == [])
      && PageFactory(saved, req, name).None?
  {
  }

  /** A declaration stores exactly its level's type tag (by either way of
      saving), so the page object built for it is of that level. */
  lemma DeclaredLevel(w: Wiki, req: Request, kind: PageType, name: PageName, pp: Params, toc: string, title: string)
    ensures var writes := Declared(kind, name, pp, toc, title);
      && PropValues(Save(w, name, writes), name, PageTypeKey) == [TypeValue(kind)]
      && PropValues(SaveAsWritten(w, name, writes), name, PageTypeKey) == [TypeValue(kind)]
      && PageFactory(Save(w, name, writes), req, name).Some?
      && PageFactory(Save(w, name, writes), req, name).value.kind == kind
  {
    var writes := Declared(kind, name, pp, toc, title);
    NoLoopValues(kind, pp);
    DeclaredValues(kind, name, pp, toc, title, PageTypeKey);
    assert ValuesOf(writes, PageTypeKey) == [TypeValue(kind)];
    PageFactoryOfType(Save(w, name, writes), req, name, kind);
  }

  /** A declared page is stored with exactly its level's type tag, so the
      page object built for it is of that level. */
  lemma DeclarationSetsLevel(w: Wiki, req: Request, registered: seq<string>, kind: PageType,
                             name: PageName, params: seq<string>)
    requires EligibilityOf(w, registered, kind, name).None?
    ensures var r := Render(w, req, registered, kind, name, params);
      && PropValues(SaveRendered(w, name, r), name, PageTypeKey) == [TypeValue(kind)]
      && PropValues(SaveRenderedAsWritten(w, name, r), name, PageTypeKey) == [TypeValue(kind)]
      && PageFactory(SaveRendered(w, name, r), req, name).Some?
      && PageFactory(SaveRendered(w, name, r), req, name).value.kind == kind
  {
    var pp := ProcessParams(params);
    SavedRendering(w, req, registered, kind, name, params);
    DeclaredLevel(w, req, kind, name, pp, TocName(w, req, name, pp), DisplayTitle(w, req, kind, name, pp));
  }

  /** The parent page a declaration stores: none for a product, the part of
      the name before its last `/` for any other level. */
  lemma ParentValues(kind: PageType, name: PageName, pp: Params, toc: string, title: string)
    ensures ValuesOf(Declared(kind, name, pp, toc, title), ParentPageKey)
      == if kind == Product then [] else [PageParts(name).0.GetOr("")]
  {
    NoLoopValue(kind, pp, ParentPageKey);
    DeclaredValues(kind, name, pp, toc, title, ParentPageKey);
  }

  /** A declaration below the product level makes the page a child of its
      parent page; a product's names no parent. */
  lemma DeclaredParent(w: Wiki, kind: PageType, name: PageName, pp: Params, toc: string, title: string)
    requires kind != Product ==> ParentPage(name).Some?
    ensures var saved := Save(w, name, Declared(kind, name, pp, toc, title));
      kind == Product ==> PropValues(saved, name, ParentPageKey) == []
    ensures var saved := Save(w, name, Declared(kind, name, pp, toc, title));
      kind != Product ==> name in Children(saved, ParentPage(name).value)
    ensures var saved := Save(w, name, Declared(kind, name, pp, toc, title));
      kind != Product ==>
        PropValues(saved, ParentPage(name).value, PageTypeKey) == PropValues(w, ParentPage(name).value, PageTypeKey)
  {
    ParentValues(kind, name, pp, toc, title);
    if kind != Product {
      var parent := ParentPage(name).value;
      ParentIsShorter(name);
      SavedChild(w, name, Declared(kind, name, pp, toc, title), parent);
    }
  }

  /** A page's parent is a shorter name than the page's own. */
  lemma ParentIsShorter(name: PageName)
    requires ParentPage(name).Some?
    ensures PageParts(name).0 == ParentPage(name)
    ensures ParentPage(name).value != name
  {
    assert |ParentPage(name).value| < |name|;
  }


  /** A declared page below the product level becomes a child of its parent
      page, which is typed one level up; a product names no parent. */
  lemma DeclarationLinksParent(w: Wiki, req: Request, registered: seq<string>, kind: PageType,
                               name: PageName, params: seq<string>)
    requires EligibilityOf(w, registered, kind, name).None?
    ensures var saved := SaveRendered(w, name, Render(w, req, registered, kind, name, params));
      kind == Product ==> PropValues(saved, name, ParentPageKey) == []
    ensures var saved := SaveRendered(w, name, Render(w, req, registered, kind, name, params));
      kind != Product ==>
        && ParentPage(name).Some?
        && name in Children(saved, ParentPage(name).value)
        && HasType(saved, ParentPage(name).value, ParentType(kind).value)
  {
    var pp := ProcessParams(params);
    if kind != Product {
      EligibleHasTypedParent(w, registered, kind, name);
    }
    SavedRendering(w, req, registered, kind, name, params);
    DeclaredParent(w, kind, name, pp, TocName(w, req, name, pp), DisplayTitle(w, req, kind, name, pp));
  }

  /** A product's role list, as declared and kept in full: the role
      property holds every name of the list in list order, and nothing when
      the parameter is missing. */
  lemma DeclaredRoleList(w: Wiki, name: PageName, pp: Params, toc: string, title: string, role: string, key: Key)
    requires UniqueKeys(pp)
    requires RoleKey(role) == Some(key)
    ensures PropValues(Save(w, name, Declared(Product, name, pp, toc, title)), name, key)
      == if Lookup(pp, role).Some? then RoleNames(Lookup(pp, role).value) else []
  {
    RoleValues(name, pp, toc, title, role, key);
  }

  /** The same list saved as the host saves it: only its last name. */
  lemma DeclaredRoleListAsWritten(w: Wiki, name: PageName, pp: Params, toc: string, title: string,
                                  role: string, key: Key)
    requires UniqueKeys(pp)
    requires RoleKey(role) == Some(key)
    ensures var saved := SaveAsWritten(w, name, Declared(Product, name, pp, toc, title));
      Lookup(pp, role).Some? ==> PropValues(saved, name, key) == LastOf(RoleNames(Lookup(pp, role).value))
    ensures var saved := SaveAsWritten(w, name, Declared(Product, name, pp, toc, title));
      Lookup(pp, role).None? ==> PropValues(saved, name, key) == []
  {
    RoleValues(name, pp, toc, title, role, key);
  }

  /** The role parameters of a product, kept in full: the role property holds
      every name of the list, in list order. */
  lemma RoleListStored(w: Wiki, req: Request, registered: seq<string>, name: PageName,
                       params: seq<string>, role: string, key: Key)
    requires EligibilityOf(w, registered, Product, name).None?
    requires RoleKey(role) == Some(key)
    ensures var pp := ProcessParams(params);
      PropValues(SaveRendered(w, name, Render(w, req, registered, Product, name, params)), name, key)
      == if Lookup(pp, role).Some? then RoleNames(Lookup(pp, role).value) else []
  {
    var pp := ProcessParams(params);
    SavedRendering(w, req, registered, Product, name, params);
    DeclaredRoleList(w, name, pp, TocName(w, req, name, pp), DisplayTitle(w, req, Product, name, pp), role, key);
  }

  /** The same, saved as the host saves it: only the last name of the list
      is kept. */
  lemma RoleListAsWritten(w: Wiki, req: Request, registered: seq<string>, name: PageName,
                          params: seq<string>, role: string, key: Key)
    requires EligibilityOf(w, registered, Product, name).None?
    requires RoleKey(role) == Some(key)
    ensures var pp := ProcessParams(params);
      var saved := SaveRenderedAsWritten(w, name, Render(w, req, registered, Product, name, params));
      Lookup(pp, role).Some? ==> PropValues(saved, name, key) == LastOf(RoleNames(Lookup(pp, role).value))
    ensures var pp := ProcessParams(params);
      var saved := SaveRenderedAsWritten(w, name, Render(w, req, registered, Product, name, params));
      Lookup(pp, role).None? ==> PropValues(saved, name, key) == []
  {
    var pp := ProcessParams(params);
    SavedRendering(w, req, registered, Product, name, params);
    DeclaredRoleListAsWritten(w, name, pp, TocName(w, req, name, pp), DisplayTitle(w, req, Product, name, pp), role, key);
  }

  /** Everyone a product's `admins` list names may edit the product page. */
  lemma ListedAdminMayEditProduct(w: Wiki, req: Request, registered: seq<string>, name: PageName,
                                  params: seq<string>, u: User)
    requires EligibilityOf(w, registered, Product, name).None?
    requires Lookup(ProcessParams(params), "admins").Some?
    requires u.name in RoleNames(Lookup(ProcessParams(params), "admins").value)
    ensures UserCanEdit(SaveRendered(w, name, Render(w, req, registered, Product, name, params)),
                        PlainNode(Product, name), u)
  {
    RoleListStored(w, req, registered, name, params, "admins", ProductAdminKey);
  }

  /** The processed parameters of `admins=a,b`: the whole list under
      `admins`. */
  lemma AdminsParams(a: string, b: string)
    ensures Lookup(ProcessParams(["admins=" + a + "," + b]), "admins") == Some(Some(a + "," + b))
  {
    var params := ["admins=" + a + "," + b];
    AdminsParam(a + "," + b);
    assert params[0] == "admins=" + (a + "," + b);
    assert LastNamed(params, 0);
  }

  /** `admins=v` parses into the name `admins` and the value `v`. */
  lemma AdminsParam(v: string)
    ensures ParseParam("admins=" + v) == ("admins", Some(v))
  {
    ParseParamOfPlainName("admins", v);
    assert "admins" + "=" + v == "admins=" + v;
  }

  /** A name a role list keeps as it is: not empty, without `,` or `_`, and
      not padded with white space. */
  predicate PlainListName(n: string) {
    |n| > 0 && ',' !in n && '_' !in n && !IsSpace(n[0]) && !IsSpace(n[|n| - 1])
  }

  /** A list of two clean names splits into those names. */
  lemma RoleNamesOfPair(a: string, b: string)
    requires PlainListName(a) && PlainListName(b)
    ensures RoleNames(Some(a + "," + b)) == [a, b]
  {
    JoinPair(a, b, ',');
    TrimOfUnpadded(a);
    TrimOfUnpadded(b);
    RoleNamesOfJoin([a, b]);
  }

  /** A product declaring `admins=a,b` for two clean names: kept in full,
      both are admins; saved as the host saves it, only `b` is. */
  lemma DeclaredAdminPair(w: Wiki, name: PageName, pp: Params, toc: string, title: string, a: string, b: string)
    requires UniqueKeys(pp)
    requires Lookup(pp, "admins") == Some(Some(a + "," + b))
    requires PlainListName(a) && PlainListName(b)
    ensures var writes := Declared(Product, name, pp, toc, title);
      && PropValues(Save(w, name, writes), name, ProductAdminKey) == [a, b]
      && PropValues(SaveAsWritten(w, name, writes), name, ProductAdminKey) == [b]
  {
    RoleNamesOfPair(a, b);
    DeclaredRoleList(w, name, pp, toc, title, "admins", ProductAdminKey);
    DeclaredRoleListAsWritten(w, name, pp, toc, title, "admins", ProductAdminKey);
    LastOfNonEmpty([a, b]);
  }

  /** Hence the first of two different listed admins, unless a global
      administrator, may not edit the product so declared. */
  lemma DeclaredFirstAdminMayNotEdit(w: Wiki, name: PageName, pp: Params, toc: string, title: string,
                                     a: string, b: string, rights: set<string>)
    requires UniqueKeys(pp)
    requires Lookup(pp, "admins") == Some(Some(a + "," + b))
    requires PlainListName(a) && PlainListName(b)
    requires a != b && AdministerRight !in rights
    ensures !UserCanEdit(SaveAsWritten(w, name, Declared(Product, name, pp, toc, title)),
                         PlainNode(Product, name), User(a, rights))
  {
    var saved := SaveAsWritten(w, name, Declared(Product, name, pp, toc, title));
    DeclaredAdminPair(w, name, pp, toc, title, a, b);
    SoleAdminOnly(saved, name, b, User(a, rights));
  }

  /** A product page declared with `admins=a,b` for two clean names: kept
      in full, both are admins; saved as the host saves it, only `b` is. */
  lemma AdminPairLosesFirst(w: Wiki, req: Request, registered: seq<string>, name: PageName, a: string, b: string)
    requires EligibilityOf(w, registered, Product, name).None?
    requires PlainListName(a) && PlainListName(b)
    ensures var r := Render(w, req, registered, Product, name, ["admins=" + a + "," + b]);
      && r.Defined?
      && PropValues(SaveRendered(w, name, r), name, ProductAdminKey) == [a, b]
      && PropValues(SaveRenderedAsWritten(w, name, r), name, ProductAdminKey) == [b]
  {
    var params := ["admins=" + a + "," + b];
    var pp := ProcessParams(params);
    AdminsParams(a, b);
    SavedRendering(w, req, registered, Product, name, params);
    DeclaredAdminPair(w, name, pp, TocName(w, req, name, pp), DisplayTitle(w, req, Product, name, pp), a, b);
  }

  /** Hence the first of two different listed admins, unless a global
      administrator, may not edit the product page saved as the host saves
      it. */
  lemma FirstAdminMayNotEdit(w: Wiki, req: Request, registered: seq<string>, name: PageName,
                             a: string, b: string, rights: set<string>)
    requires EligibilityOf(w, registered, Product, name).None?
    requires PlainListName(a) && PlainListName(b)
    requires a != b && AdministerRight !in rights
    ensures var r := Render(w, req, registered, Product, name, ["admins=" + a + "," + b]);
      !UserCanEdit(SaveRenderedAsWritten(w, name, r), PlainNode(Product, name), User(a, rights))
  {
    var params := ["admins=" + a + "," + b];
    var pp := ProcessParams(params);
    AdminsParams(a, b);
    SavedRendering(w, req, registered, Product, name, params);
    DeclaredFirstAdminMayNotEdit(w, name, pp, TocName(w, req, name, pp), DisplayTitle(w, req, Product, name, pp),
                                 a, b, rights);
  }

  /** When a product lists one admin, nobody else but a global administrator
      may edit the product page. */
  lemma SoleAdminOnly(w: Wiki, name: PageName, admin: string, u: User)
    requires PropValues(w, name, ProductAdminKey) == [admin]
    requires u.name != admin && AdministerRight !in u.rights
    ensures !UserCanEdit(w, PlainNode(Product, name), u)
  {
    UnlistedMayNotEditProduct(w, name, u);
  }

  /** Someone who is neither a global administrator nor listed among a
      product's admins may not edit the product page. */
  lemma UnlistedMayNotEditProduct(w: Wiki, name: PageName, u: User)
    requires AdministerRight !in u.rights
    requires u.name !in PropValues(w, name, ProductAdminKey)
    ensures !UserCanEdit(w, PlainNode(Product, name), u)
  {
  }

  /** `{{#zdocs_product:admins=Alice,Bob}}` on the registered product page
      `Docs`: kept in full, Alice is an admin; saved as the host saves it,
      only Bob is, and Alice may not edit the page. */
  lemma AdminListLosesAllButLast()
    ensures var w := Wiki([], map[], map[]);
      var r := Render(w, Request(map[]), ["Docs"], Product, "Docs", ["admins=Alice,Bob"]);
      && r.Defined?
      && HasPropValue(SaveRendered(w, "Docs", r), "Docs", ProductAdminKey, "Alice")
      && !HasPropValue(SaveRenderedAsWritten(w, "Docs", r), "Docs", ProductAdminKey, "Alice")
      && HasPropValue(SaveRenderedAsWritten(w, "Docs", r), "Docs", ProductAdminKey, "Bob")
      && !UserCanEdit(SaveRenderedAsWritten(w, "Docs", r), PlainNode(Product, "Docs"), User("Alice", {}))
  {
    var w := Wiki([], map[], map[]);
    assert PageParts("Docs") == (None, "Docs");
    assert EligibilityOf(w, ["Docs"], Product, "Docs").None?;
    assert "admins=Alice,Bob" == "admins=" + "Alice" + "," + "Bob";
    AdminPairLosesFirst(w, Request(map[]), ["Docs"], "Docs", "Alice", "Bob");
    FirstAdminMayNotEdit(w, Request(map[]), ["Docs"], "Docs", "Alice", "Bob", {});
  }

  /** The `inherit` flag is stored exactly when a level below products
      declares it without a value (or with an empty one). */
  lemma DeclaredInheritFlag(w: Wiki, kind: PageType, name: PageName, pp: Params, toc: string, title: string)
    requires UniqueKeys(pp)
    ensures InheritsAt(Save(w, name, Declared(kind, name, pp, toc, title)), name)
      <==> kind != Product && Bare(pp, "inherit")
  {
    InheritValues(kind, name, pp, toc, title);
    SavedFlag(w, name, Declared(kind, name, pp, toc, title), InheritKey);
  }

  /** The `inherit` flag is stored exactly when a level below products
      declares it without a value (or with an empty one). */
  lemma InheritFlagStored(w: Wiki, req: Request, registered: seq<string>, kind: PageType,
                          name: PageName, params: seq<string>)
    requires EligibilityOf(w, registered, kind, name).None?
    ensures InheritsAt(SaveRendered(w, name, Render(w, req, registered, kind, name, params)), name)
      <==> kind != Product && Bare(ProcessParams(params), "inherit")
  {
    var pp := ProcessParams(params);
    SavedRendering(w, req, registered, kind, name, params);
    DeclaredInheritFlag(w, kind, name, pp, TocName(w, req, name, pp), DisplayTitle(w, req, kind, name, pp));
  }

  /** The `pagination` flag of a manual is stored exactly when declared
      without a value (or with an empty one), and then the manual paginates. */
  lemma DeclaredPaginationFlag(w: Wiki, name: PageName, pp: Params, toc: string, title: string)
    requires UniqueKeys(pp)
    ensures var saved := Save(w, name, Declared(Manual, name, pp, toc, title));
      && (Truthy(GetProp(saved, name, PaginationKey)) <==> Bare(pp, "pagination"))
      && (Bare(pp, "pagination") ==> HasPagination(saved, PlainNode(Manual, name)))
  {
    PaginationValues(name, pp, toc, title);
    SavedFlag(w, name, Declared(Manual, name, pp, toc, title), PaginationKey);
  }

  /** The `pagination` flag of a manual is stored exactly when declared
      without a value (or with an empty one), and then the manual paginates. */
  lemma PaginationFlagStored(w: Wiki, req: Request, registered: seq<string>, name: PageName,
                             params: seq<string>)
    requires EligibilityOf(w, registered, Manual, name).None?
    ensures var saved := SaveRendered(w, name, Render(w, req, registered, Manual, name, params));
      && (Truthy(GetProp(saved, name, PaginationKey)) <==> Bare(ProcessParams(params), "pagination"))
      && (Bare(ProcessParams(params), "pagination") ==> HasPagination(saved, PlainNode(Manual, name)))
  {
    var pp := ProcessParams(params);
    SavedRendering(w, req, registered, Manual, name, params);
    DeclaredPaginationFlag(w, name, pp, TocName(w, req, name, pp), DisplayTitle(w, req, Manual, name, pp));
  }

  /** A parameter stored as given holds its value ("" when the parameter has
      no `=`), and nothing when the parameter is missing. */
  lemma DeclaredParamValue(w: Wiki, kind: PageType, name: PageName, pp: Params, toc: string, title: string,
                           param: string, key: Key)
    requires UniqueKeys(pp)
    requires HandlingOf(kind, param) == Some(AsGiven(key))
    ensures GetProp(Save(w, name, Declared(kind, name, pp, toc, title)), name, key)
      == if Lookup(pp, param).Some? then Some(Lookup(pp, param).value.GetOr("")) else None
  {
    PlainValues(kind, name, pp, toc, title, param, key);
  }

  /** A parameter stored as given holds its value ("" when the parameter has
      no `=`), and nothing when the parameter is missing. */
  lemma ParamValueStored(w: Wiki, req: Request, registered: seq<string>, kind: PageType,
                         name: PageName, params: seq<string>, param: string, key: Key)
    requires EligibilityOf(w, registered, kind, name).None?
    requires HandlingOf(kind, param) == Some(AsGiven(key))
    ensures var pp := ProcessParams(params);
      GetProp(SaveRendered(w, name, Render(w, req, registered, kind, name, params)), name, key)
      == if Lookup(pp, param).Some? then Some(Lookup(pp, param).value.GetOr("")) else None
  {
    var pp := ProcessParams(params);
    SavedRendering(w, req, registered, kind, name, params);
    DeclaredParamValue(w, kind, name, pp, TocName(w, req, name, pp), DisplayTitle(w, req, kind, name, pp), param, key);
  }

  /** The display title is stored for every level but versions. */
  lemma DisplayTitleStored(w: Wiki, req: Request, registered: seq<string>, kind: PageType,
                           name: PageName, params: seq<string>)
    requires EligibilityOf(w, registered, kind, name).None?
    ensures GetProp(SaveRendered(w, name, Render(w, req, registered, kind, name, params)), name, DisplayTitleKey)
      == if kind == Version then None else Some(DisplayTitle(w, req, kind, name, ProcessParams(params)))
  {
    var pp := ProcessParams(params);
    var toc, title := TocName(w, req, name, pp), DisplayTitle(w, req, kind, name, pp);
    SavedRendering(w, req, registered, kind, name, params);
    NoLoopValues(kind, pp);
    DeclaredValues(kind, name, pp, toc, title, DisplayTitleKey);
  }

  /** A declared topic is listed in tables of contents under the TOC name
      its declaration chose. */
  lemma TopicLabelStored(w: Wiki, req: Request, registered: seq<string>, name: PageName, params: seq<string>)
    requires EligibilityOf(w, registered, Topic, name).None?
    ensures TocLabel(SaveRendered(w, name, Render(w, req, registered, Topic, name, params)), name)
      == Some(TocName(w, req, name, ProcessParams(params)))
  {
    var pp := ProcessParams(params);
    var toc, title := TocName(w, req, name, pp), DisplayTitle(w, req, Topic, name, pp);
    SavedRendering(w, req, registered, Topic, name, params);
    NoLoopValues(Topic, pp);
    DeclaredValues(Topic, name, pp, toc, title, TOCNameKey);
    DeclaredValues(Topic, name, pp, toc, title, DisplayTitleKey);
  }
}
