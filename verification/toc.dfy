/** A manual's table of contents (`generateTableOfContents`,
    `getTableOfContents`, `getPreviousAndNextTopics`).

    The template is read line by line. A bullet line is a run of `*`
    followed by a label; a child topic whose actual name equals a label has
    every such line replaced by its link, and its name is appended to the
    ordered list. Child topics that match no line are orphans. Then every
    bullet line of the form `* ! name` becomes the link of `name` as a
    standalone topic of this manual, or, when `name` is not a topic page, the
    bullets followed by the name. A missing topics list and an empty `!` name
    are fatal errors in PHP; here they make the generation give None. */
module TableOfContents {
  import opened Wrappers
  import opened Strings
  import opened Utils
  import opened Pages
  import opened Inheritance
  import opened Topic

  // ------------------------------------------------------------ template

  /** `getPossiblyInheritedParam('ZDocsTopicsList')` decides the template: a
      value starting with `*` is the template itself; any other value names
      the page whose text is the template, and a page with no text gives an
      empty template. A missing or empty value gives no title, and
      `new WikiPage(null)` is a fatal error: None. */
  function TemplateText(w: Wiki, manual: Node): (r: Option<string>)
    ensures r.None? <==> Nullish(TopicsList(w, manual))
    ensures IsLiteralList(TopicsList(w, manual)) ==> r == TopicsList(w, manual)
    ensures (!IsLiteralList(TopicsList(w, manual)) && !Nullish(TopicsList(w, manual))
      && TopicsList(w, manual).value in w.text) ==> r == Some(w.text[TopicsList(w, manual).value])
    ensures (!IsLiteralList(TopicsList(w, manual)) && !Nullish(TopicsList(w, manual))
      && TopicsList(w, manual).value !in w.text) ==> r == Some("")
  {
    var list := TopicsList(w, manual);
    if IsLiteralList(list) then list
    else if Nullish(list) then None
    else if list.value in w.text then Some(w.text[list.value])
    else Some("")
  }

  /** The manual's (possibly inherited) topics list. */
  function TopicsList(w: Wiki, manual: Node): Option<string> {
    GetPossiblyInheritedParam(w, manual, TopicsListKey)
  }

  /** A topics list that starts with `*` is a table, not a page name. */
  predicate IsLiteralList(list: Option<string>) {
    list.Some? && |list.value| > 0 && list.value[0] == '*'
  }

  /** Leading `*` of a line. */
  function StarCount(s: string): (n: nat)
    ensures n <= |s|
    ensures forall i :: 0 <= i < n ==> s[i] == '*'
    ensures n < |s| ==> s[n] != '*'
  {
    if |s| > 0 && s[0] == '*' then 1 + StarCount(s[1..]) else 0
  }

  /** A bullet line split into its run of `*` and the rest of the line. */
  function Bullet(line: string): (r: Option<(string, string)>)
    ensures r.Some? <==> |line| > 0 && line[0] == '*'
    ensures r.Some? ==> r.value.0 + r.value.1 == line && |r.value.0| > 0
    ensures r.Some? ==> forall i :: 0 <= i < |r.value.0| ==> r.value.0[i] == '*'
    ensures r.Some? && |r.value.1| > 0 ==> r.value.1[0] != '*'
  {
    var n := StarCount(line);
    if n == 0 then None
    else
      assert line[..n] + line[n..] == line;
      Some((line[..n], line[n..]))
  }

  /** A line of the table being built: template text, or bullets followed by
      a link. */
  datatype TocLine = Raw(text: string) | Entry(stars: string, link: TocLink)

  /** The template as lines. */
  function TemplateLines(template: string): (r: seq<TocLine>)
    ensures |r| == |Split(template, '\n')|
    ensures forall i :: 0 <= i < |r| ==> r[i] == Raw(Split(template, '\n')[i])
  {
    var parts := Split(template, '\n');
    seq(|parts|, i requires 0 <= i < |parts| => Raw(parts[i]))
  }

  /** The label of a bullet line that has not been replaced: the text after
      the bullets with surrounding white space dropped. */
  function LabelOf(l: TocLine): (r: Option<string>)
    ensures r.Some? <==> l.Raw? && Bullet(l.text).Some?
  {
    if l.Raw? && Bullet(l.text).Some? then Some(Trim(Bullet(l.text).value.1)) else None
  }

  /** The labels of a list of lines. */
  function Labels(lines: seq<TocLine>): set<string> {
    set i | 0 <= i < |lines| && LabelOf(lines[i]).Some? :: LabelOf(lines[i]).value
  }

  // ------------------------------------------------------- matching pass

  /** A child topic as the matching pass sees it: its actual name and its link. */
  datatype Candidate = Candidate(name: string, link: TocLink)

  /** One `preg_replace` of the matching pass: every line labelled `name`
      becomes its bullets followed by `link`. */
  function ReplaceLabelled(lines: seq<TocLine>, name: string, link: TocLink): (r: seq<TocLine>)
    ensures |r| == |lines|
    ensures forall i :: 0 <= i < |lines| && LabelOf(lines[i]) == Some(name) ==>
      r[i] == Entry(Bullet(lines[i].text).value.0, link)
    ensures forall i :: 0 <= i < |lines| && LabelOf(lines[i]) != Some(name) ==> r[i] == lines[i]
  {
    seq(|lines|, i requires 0 <= i < |lines| =>
      if LabelOf(lines[i]) == Some(name) then Entry(Bullet(lines[i].text).value.0, link) else lines[i])
  }

  /** The label of a line is one of the labels. */
  lemma LabelInLabels(lines: seq<TocLine>, i: nat)
    requires i < |lines| && LabelOf(lines[i]).Some?
    ensures LabelOf(lines[i]).value in Labels(lines)
  {
  }

  /** A replacement consumes exactly one label. */
  lemma ReplaceLabels(lines: seq<TocLine>, name: string, link: TocLink)
    ensures Labels(ReplaceLabelled(lines, name, link)) == Labels(lines) - {name}
  {
    var r := ReplaceLabelled(lines, name, link);
    forall n | n in Labels(r) ensures n in Labels(lines) - {name} {
      var i :| 0 <= i < |r| && LabelOf(r[i]).Some? && LabelOf(r[i]).value == n;
      assert r[i] == lines[i];
      LabelInLabels(lines, i);
    }
    forall n | n in Labels(lines) - {name} ensures n in Labels(r) {
      var i :| 0 <= i < |lines| && LabelOf(lines[i]).Some? && LabelOf(lines[i]).value == n;
      assert r[i] == lines[i];
      LabelInLabels(r, i);
    }
  }

  /** A replacement changes the lines exactly when its label is present
      (the `$toc != $tocBeforeReplace` test). */
  lemma ReplaceChanges(lines: seq<TocLine>, name: string, link: TocLink)
    ensures ReplaceLabelled(lines, name, link) != lines <==> name in Labels(lines)
  {
    var r := ReplaceLabelled(lines, name, link);
    if name in Labels(lines) {
      var i :| 0 <= i < |lines| && LabelOf(lines[i]).Some? && LabelOf(lines[i]).value == name;
      assert r[i].Entry? && lines[i].Raw?;
    } else {
      forall i | 0 <= i < |lines| ensures r[i] == lines[i] {
        if LabelOf(lines[i]).Some? {
          LabelInLabels(lines, i);
        }
      }
    }
  }

  /** The link of the first candidate called `name`. */
  function FirstLink(topics: seq<Candidate>, name: string): (r: Option<TocLink>)
    ensures r.Some? ==> exists j :: 0 <= j < |topics| && topics[j] == Candidate(name, r.value)
    ensures r.None? ==> forall j :: 0 <= j < |topics| ==> topics[j].name != name
  {
    if |topics| == 0 then None
    else if topics[0].name == name then Some(topics[0].link)
    else
      var r := FirstLink(topics[1..], name);
      assert forall j :: 1 <= j < |topics| ==> topics[j] == topics[1..][j - 1];
      r
  }

  /** What a template line becomes after the whole matching pass: the first
      candidate named by its label replaces it; otherwise it stays. */
  function Placed(l: TocLine, topics: seq<Candidate>): TocLine {
    if LabelOf(l).Some? && FirstLink(topics, LabelOf(l).value).Some? then
      Entry(Bullet(l.text).value.0, FirstLink(topics, LabelOf(l).value).value)
    else l
  }

  /** Reference for the ordered list: in examination order, the name of each
      candidate whose name is still an unconsumed label. */
  function FirstsLabelled(topics: seq<Candidate>, labels: set<string>): seq<string> {
    if |topics| == 0 then []
    else if topics[0].name in labels then
      [topics[0].name] + FirstsLabelled(topics[1..], labels - {topics[0].name})
    else FirstsLabelled(topics[1..], labels)
  }

  /** Reference for the orphans: the candidates that find no unconsumed label. */
  function Unmatched(topics: seq<Candidate>, labels: set<string>): seq<Candidate> {
    if |topics| == 0 then []
    else if topics[0].name in labels then Unmatched(topics[1..], labels - {topics[0].name})
    else [topics[0]] + Unmatched(topics[1..], labels)
  }

  /** The result of the matching pass. */
  datatype Matched = Matched(lines: seq<TocLine>, ordered: seq<string>, orphans: seq<Candidate>)

  /** The loop of the matching pass over the child topics, in the order they
      are examined. */
  function MatchPass(lines: seq<TocLine>, topics: seq<Candidate>): (r: Matched)
    ensures |r.lines| == |lines|
    ensures forall i :: 0 <= i < |lines| ==> r.lines[i] == Placed(lines[i], topics)
    ensures r.ordered == FirstsLabelled(topics, Labels(lines))
    ensures r.orphans == Unmatched(topics, Labels(lines))
    decreases |topics|
  {
    if |topics| == 0 then Matched(lines, [], [])
    else
      var t := topics[0];
      var next := ReplaceLabelled(lines, t.name, t.link);
      ReplaceLabels(lines, t.name, t.link);
      ReplaceChanges(lines, t.name, t.link);
      var rest := MatchPass(next, topics[1..]);
      PlacedStep(lines, topics, next, rest.lines);
      if next != lines then Matched(rest.lines, [t.name] + rest.ordered, rest.orphans)
      else Matched(rest.lines, rest.ordered, [t] + rest.orphans)
  }

  /** The step of `MatchPass` for the lines: replacing the first candidate's
      lines and then placing the others is placing them all. */
  lemma PlacedStep(lines: seq<TocLine>, topics: seq<Candidate>, next: seq<TocLine>, after: seq<TocLine>)
    requires |topics| > 0
    requires next == ReplaceLabelled(lines, topics[0].name, topics[0].link)
    requires |after| == |next|
    requires forall i :: 0 <= i < |next| ==> after[i] == Placed(next[i], topics[1..])
    ensures forall i :: 0 <= i < |lines| ==> after[i] == Placed(lines[i], topics)
  {
    forall i | 0 <= i < |lines| ensures after[i] == Placed(lines[i], topics) {
      if LabelOf(lines[i]) == Some(topics[0].name) {
        assert LabelOf(next[i]).None?;
      } else {
        assert next[i] == lines[i];
        if LabelOf(lines[i]).Some? {
          assert FirstLink(topics, LabelOf(lines[i]).value) == FirstLink(topics[1..], LabelOf(lines[i]).value);
        }
      }
    }
  }

  /** A name is in the ordered list exactly when it labels a template line
      and some candidate carries it. */
  lemma {:induction false} FirstsLabelledMembers(topics: seq<Candidate>, labels: set<string>, n: string)
    ensures n in FirstsLabelled(topics, labels) <==>
      n in labels && exists j :: 0 <= j < |topics| && topics[j].name == n
  {
    if |topics| > 0 {
      var t := topics[0];
      var rest := if t.name in labels then labels - {t.name} else labels;
      FirstsLabelledMembers(topics[1..], rest, n);
      assert forall j :: 1 <= j < |topics| ==> topics[j] == topics[1..][j - 1];
      if n in labels && n != t.name && (exists j :: 0 <= j < |topics| && topics[j].name == n) {
        var j :| 0 <= j < |topics| && topics[j].name == n;
        assert topics[1..][j - 1].name == n;
      }
    }
  }

  /** No name enters the ordered list twice, and each one is a label. */
  lemma {:induction false} FirstsLabelledDistinct(topics: seq<Candidate>, labels: set<string>)
    ensures forall i, j :: 0 <= i < j < |FirstsLabelled(topics, labels)| ==>
      FirstsLabelled(topics, labels)[i] != FirstsLabelled(topics, labels)[j]
    ensures forall n :: n in FirstsLabelled(topics, labels) ==> n in labels
  {
    if |topics| > 0 {
      var t := topics[0];
      if t.name in labels {
        var rest := FirstsLabelled(topics[1..], labels - {t.name});
        FirstsLabelledDistinct(topics[1..], labels - {t.name});
        assert t.name !in rest;
        var r := [t.name] + rest;
        forall i, j | 0 <= i < j < |r| ensures r[i] != r[j] {
          if i == 0 {
            assert r[j] == rest[j - 1];
            assert rest[j - 1] in rest;
          } else {
            assert r[i] == rest[i - 1] && r[j] == rest[j - 1];
          }
        }
      } else {
        FirstsLabelledDistinct(topics[1..], labels);
      }
    }
  }

  /** Every candidate is either matched or an orphan. */
  lemma {:induction false} MatchedOrOrphan(topics: seq<Candidate>, labels: set<string>)
    ensures |FirstsLabelled(topics, labels)| + |Unmatched(topics, labels)| == |topics|
    ensures forall c :: c in Unmatched(topics, labels) ==> c in topics
  {
    if |topics| > 0 {
      var rest := if topics[0].name in labels then labels - {topics[0].name} else labels;
      MatchedOrOrphan(topics[1..], rest);
      assert forall c :: c in topics[1..] ==> c in topics;
    }
  }

  /** The candidates' names are pairwise different. */
  predicate DistinctNames(topics: seq<Candidate>) {
    forall i, j :: 0 <= i < j < |topics| ==> topics[i].name != topics[j].name
  }

  /** With pairwise different names, the orphans are exactly the candidates
      whose name labels no template line. */
  lemma {:induction false} OrphansUnlabelled(topics: seq<Candidate>, labels: set<string>, c: Candidate)
    requires DistinctNames(topics)
    ensures c in Unmatched(topics, labels) <==> c in topics && c.name !in labels
  {
    if |topics| > 0 {
      var t := topics[0];
      var rest := if t.name in labels then labels - {t.name} else labels;
      assert DistinctNames(topics[1..]) by {
        forall i, j | 0 <= i < j < |topics[1..]| ensures topics[1..][i].name != topics[1..][j].name {
          assert topics[1..][i] == topics[i + 1] && topics[1..][j] == topics[j + 1];
        }
      }
      OrphansUnlabelled(topics[1..], rest, c);
      assert topics == [t] + topics[1..];
      if c in topics[1..] {
        var j :| 0 <= j < |topics[1..]| && topics[1..][j] == c;
        assert topics[j + 1] == c;
        assert c.name != t.name;
      }
    }
  }

  // ----------------------------------------------------- standalone pass

  /** White space only. */
  predicate Blank(s: string) {
    forall i :: 0 <= i < |s| ==> IsSpace(s[i])
  }

  /** The white space `ltrim` removes. */
  function LeadingSpace(s: string): (r: string)
    ensures Blank(r) && s == r + TrimStart(s)
  {
    s[..|s| - |TrimStart(s)|]
  }

  /** A `* ! name` line: its bullets and the text after the `!` with
      leading white space dropped. */
  function StandaloneTarget(l: TocLine): (r: Option<(string, string)>)
    ensures r.Some? <==> (l.Raw? && Bullet(l.text).Some?
      && |TrimStart(Bullet(l.text).value.1)| > 0 && TrimStart(Bullet(l.text).value.1)[0] == '!')
    ensures r.Some? ==> r.value.0 == Bullet(l.text).value.0
  {
    if l.Raw? && Bullet(l.text).Some? then
      var t := TrimStart(Bullet(l.text).value.1);
      if |t| > 0 && t[0] == '!' then Some((Bullet(l.text).value.0, TrimStart(t[1..])))
      else None
    else None
  }

  /** Four pieces joined in two steps are the four pieces joined. */
  lemma JoinBang(text: string, stars: string, rest: string, a: string, b: string, target: string)
    requires text == stars + rest && rest == a + ("!" + (b + target))
    ensures text == stars + a + "!" + b + target
  {
  }

  /** The line of a `!` entry is its bullets, white space, the `!`, white
      space and the target, which starts with no white space. */
  lemma StandaloneShape(l: TocLine)
    requires StandaloneTarget(l).Some?
    ensures exists a, b :: (Blank(a) && Blank(b)
      && l.text == StandaloneTarget(l).value.0 + a + "!" + b + StandaloneTarget(l).value.1)
    ensures |StandaloneTarget(l).value.1| > 0 ==> !IsSpace(StandaloneTarget(l).value.1[0])
  {
    var stars := Bullet(l.text).value.0;
    var rest := Bullet(l.text).value.1;
    var u := TrimStart(rest)[1..];
    BangSplit(rest);
    JoinBang(l.text, stars, rest, LeadingSpace(rest), LeadingSpace(u), TrimStart(u));
  }

  /** Text whose first non-blank character is `!` is white space, the `!`,
      white space and the rest. */
  lemma BangSplit(rest: string)
    requires |TrimStart(rest)| > 0 && TrimStart(rest)[0] == '!'
    ensures var u := TrimStart(rest)[1..];
      rest == LeadingSpace(rest) + ("!" + (LeadingSpace(u) + TrimStart(u)))
  {
    var t := TrimStart(rest);
    assert t == "!" + t[1..];
  }

  /** A `!` line whose target is empty once trimmed. */
  predicate EmptyTarget(l: TocLine) {
    StandaloneTarget(l).Some? && Trim(StandaloneTarget(l).value.1) == ""
  }

  /** The `preg_replace_callback` for one line: a `!` line whose name is a
      page typed Topic becomes that topic's link, as a standalone topic of
      this manual; otherwise the bullets followed by the name, `!` removed.
      An empty name gives no title, and the topic constructor then reads the
      text of a null title, a fatal error: None. */
  function ResolveStandalone(w: Wiki, req: Request, manual: PageName, l: TocLine): (r: Option<TocLine>)
    ensures r.None? <==> EmptyTarget(l)
    ensures StandaloneTarget(l).None? ==> r == Some(l)
    ensures StandaloneTarget(l).Some? && !EmptyTarget(l) && HasType(w, Trim(StandaloneTarget(l).value.1), Topic) ==>
      var name := Trim(StandaloneTarget(l).value.1);
      && r.Some? && r.value.Entry? && r.value.stars == StandaloneTarget(l).value.0
      && r.value.link.target == name && r.value.link.text == TocLabel(w, name)
      && r.value.link.query == Some(QueryOf(manual))
    ensures StandaloneTarget(l).Some? && !EmptyTarget(l) && !HasType(w, Trim(StandaloneTarget(l).value.1), Topic) ==>
      r == Some(Raw(StandaloneTarget(l).value.0 + StandaloneTarget(l).value.1))
  {
    match StandaloneTarget(l)
    case None => Some(l)
    case Some((stars, target)) =>
      if Trim(target) == "" then None
      else
        match NewStandalone(w, req, Trim(target), manual)
        case None => Some(Raw(stars + target))
        case Some(topic) => Some(Entry(stars, TocLinkOf(w, topic)))
  }

  /** A `!` line with a non-empty name that is not a topic keeps its bullets
      and its name and loses only the `!` and the white space around it. */
  lemma FailedStandaloneDropsBang(w: Wiki, req: Request, manual: PageName, l: TocLine)
    requires StandaloneTarget(l).Some? && !EmptyTarget(l)
    requires !HasType(w, Trim(StandaloneTarget(l).value.1), Topic)
    ensures var (stars, target) := StandaloneTarget(l).value;
      && ResolveStandalone(w, req, manual, l) == Some(Raw(stars + target))
      && exists a, b :: Blank(a) && Blank(b) && l.text == stars + a + "!" + b + target
  {
    StandaloneShape(l);
  }

  /** A `!` line with nothing but white space after the `!` stops the
      table's generation. */
  lemma EmptyStandaloneIsFatal(w: Wiki, req: Request, manual: PageName, stars: string, gap: string)
    requires |stars| > 0 && (forall i :: 0 <= i < |stars| ==> stars[i] == '*')
    requires Blank(gap)
    ensures ResolveStandalone(w, req, manual, Raw(stars + "!" + gap)).None?
  {
    var l := Raw(stars + "!" + gap);
    var rest := "!" + gap;
    assert l.text == stars + rest;
    StarsThenOther(stars, rest);
    BulletOf(stars, rest);
    assert TrimStart(rest) == rest;
    assert rest[1..] == gap;
    BlankTrims(gap);
    assert StandaloneTarget(l) == Some((stars, ""));
  }

  /** A line of bullets followed by text not starting with `*` splits there. */
  lemma BulletOf(stars: string, rest: string)
    requires StarCount(stars + rest) == |stars| > 0
    ensures Bullet(stars + rest) == Some((stars, rest))
  {
    assert (stars + rest)[..|stars|] == stars;
    assert (stars + rest)[|stars|..] == rest;
  }

  /** `StarCount` stops at the first character that is not `*`. */
  lemma {:induction false} StarsThenOther(stars: string, rest: string)
    requires forall i :: 0 <= i < |stars| ==> stars[i] == '*'
    requires |rest| > 0 && rest[0] != '*'
    ensures StarCount(stars + rest) == |stars|
    decreases |stars|
  {
    if |stars| > 0 {
      assert (stars + rest)[1..] == stars[1..] + rest;
      StarsThenOther(stars[1..], rest);
    }
  }

  /** White space trims away entirely. */
  lemma BlankTrims(s: string)
    requires Blank(s)
    ensures TrimStart(s) == "" && Trim(s) == ""
  {
  }

  /** The standalone pass over all lines: None when some line is fatal. */
  function StandalonePass(w: Wiki, req: Request, manual: PageName, lines: seq<TocLine>): (r: Option<seq<TocLine>>)
    ensures r.None? <==> exists i :: 0 <= i < |lines| && EmptyTarget(lines[i])
    ensures r.Some? ==> |r.value| == |lines|
    ensures r.Some? ==> forall i :: 0 <= i < |lines| ==> Some(r.value[i]) == ResolveStandalone(w, req, manual, lines[i])
  {
    if exists i :: 0 <= i < |lines| && EmptyTarget(lines[i]) then None
    else Some(seq(|lines|, i requires 0 <= i < |lines| => ResolveStandalone(w, req, manual, lines[i]).value))
  }

  // ------------------------------------------------------------- tables

  /** `getAllTopics`: a topic object for each child page, in child order. */
  function AllTopics(w: Wiki, req: Request, manual: PageName): (r: seq<Node>)
    ensures |r| == |Children(w, manual)|
    ensures forall i :: 0 <= i < |r| ==> r[i] == MakeTopic(w, req, Children(w, manual)[i])
  {
    var cs := Children(w, manual);
    seq(|cs|, i requires 0 <= i < |cs| => MakeTopic(w, req, cs[i]))
  }

  /** The child topics as the matching pass sees them. */
  function CandidatesOf(w: Wiki, topics: seq<Node>): (r: seq<Candidate>)
    ensures |r| == |topics|
    ensures forall i :: 0 <= i < |r| ==> r[i] == Candidate(ActualName(topics[i].name), TocLinkOf(w, topics[i]))
  {
    seq(|topics|, i requires 0 <= i < |topics| => Candidate(ActualName(topics[i].name), TocLinkOf(w, topics[i])))
  }

  /** A generated table: its lines, the ordered topic names, and the links
      of the orphan topics when errors are shown and there are orphans. */
  datatype Toc = Toc(lines: seq<TocLine>, ordered: seq<string>, warning: Option<seq<TocLink>>)

  /** The links of some candidates. */
  function LinksOf(cs: seq<Candidate>): (r: seq<TocLink>)
    ensures |r| == |cs| && forall i :: 0 <= i < |cs| ==> r[i] == cs[i].link
  {
    seq(|cs|, i requires 0 <= i < |cs| => cs[i].link)
  }

  /** `generateTableOfContents` for the manual `manual`: None when PHP stops
      with a fatal error, for want of a topics list or at a `!` line with an
      empty name. */
  function GenerateToc(w: Wiki, req: Request, manual: Node, showErrors: bool): (r: Option<Toc>)
    ensures TemplateText(w, manual).None? ==> r.None?
    ensures TemplateText(w, manual).Some? ==>
      var lines := TemplateLines(TemplateText(w, manual).value);
      var cands := CandidatesOf(w, AllTopics(w, req, manual.name));
      (r.None? <==> exists i :: 0 <= i < |lines| && EmptyTarget(Placed(lines[i], cands)))
    ensures r.Some? ==>
      var lines := TemplateLines(TemplateText(w, manual).value);
      var cands := CandidatesOf(w, AllTopics(w, req, manual.name));
      && r.value.ordered == FirstsLabelled(cands, Labels(lines))
      && (r.value.warning.Some? <==> showErrors && |Unmatched(cands, Labels(lines))| > 0)
      && (r.value.warning.Some? ==> r.value.warning.value == LinksOf(Unmatched(cands, Labels(lines))))
      && |r.value.lines| == |lines|
      && forall i :: 0 <= i < |lines| ==>
           Some(r.value.lines[i]) == ResolveStandalone(w, req, manual.name, Placed(lines[i], cands))
  {
    match TemplateText(w, manual)
    case None => None
    case Some(text) =>
      var lines := TemplateLines(text);
      var cands := CandidatesOf(w, AllTopics(w, req, manual.name));
      var m := MatchPass(lines, cands);
      var warning := if showErrors && |m.orphans| > 0 then Some(LinksOf(m.orphans)) else None;
      match StandalonePass(w, req, manual.name, m.lines)
      case None => None
      case Some(resolved) => Some(Toc(resolved, m.ordered, warning))
  }

  /** Some candidate carries `n` exactly when some child's actual name is `n`. */
  lemma CandidateNames(w: Wiki, req: Request, manual: PageName, n: string)
    ensures (exists j :: 0 <= j < |CandidatesOf(w, AllTopics(w, req, manual))|
               && CandidatesOf(w, AllTopics(w, req, manual))[j].name == n)
      <==> exists c :: c in Children(w, manual) && ActualName(c) == n
  {
    ChildGivesCandidate(w, req, manual, n);
    CandidateGivesChild(w, req, manual, n);
  }

  /** A child with actual name `n` gives a candidate named `n`. */
  lemma ChildGivesCandidate(w: Wiki, req: Request, manual: PageName, n: string)
    ensures (exists c :: c in Children(w, manual) && ActualName(c) == n) ==>
      exists j :: 0 <= j < |CandidatesOf(w, AllTopics(w, req, manual))|
        && CandidatesOf(w, AllTopics(w, req, manual))[j].name == n
  {
    var cs := Children(w, manual);
    if exists c :: c in cs && ActualName(c) == n {
      var c :| c in cs && ActualName(c) == n;
      var j :| 0 <= j < |cs| && cs[j] == c;
      CandidateName(w, req, manual, j);
    }
  }

  /** A candidate named `n` comes from a child with actual name `n`. */
  lemma CandidateGivesChild(w: Wiki, req: Request, manual: PageName, n: string)
    ensures (exists j :: 0 <= j < |CandidatesOf(w, AllTopics(w, req, manual))|
               && CandidatesOf(w, AllTopics(w, req, manual))[j].name == n) ==>
      exists c :: c in Children(w, manual) && ActualName(c) == n
  {
    var cands := CandidatesOf(w, AllTopics(w, req, manual));
    if exists j :: 0 <= j < |cands| && cands[j].name == n {
      var j :| 0 <= j < |cands| && cands[j].name == n;
      CandidateName(w, req, manual, j);
    }
  }

  /** The candidate at position `j` is the child at position `j`, named by
      its actual name. */
  lemma CandidateName(w: Wiki, req: Request, manual: PageName, j: nat)
    requires j < |Children(w, manual)|
    ensures |CandidatesOf(w, AllTopics(w, req, manual))| == |Children(w, manual)|
    ensures CandidatesOf(w, AllTopics(w, req, manual))[j].name == ActualName(Children(w, manual)[j])
  {
  }

  /** The ordered list holds each name at most once. */
  lemma OrderedDistinct(w: Wiki, req: Request, manual: Node, showErrors: bool)
    ensures GenerateToc(w, req, manual, showErrors).Some? ==>
      var o := GenerateToc(w, req, manual, showErrors).value.ordered;
      forall i, j :: 0 <= i < j < |o| ==> o[i] != o[j]
  {
    if GenerateToc(w, req, manual, showErrors).Some? {
      var lines := TemplateLines(TemplateText(w, manual).value);
      var cands := CandidatesOf(w, AllTopics(w, req, manual.name));
      FirstsLabelledDistinct(cands, Labels(lines));
    }
  }

  /** A name is in the ordered list exactly when it labels a template line
      and a child topic has it as its actual name. */
  lemma OrderedNames(w: Wiki, req: Request, manual: Node, showErrors: bool, n: string)
    ensures GenerateToc(w, req, manual, showErrors).Some? ==>
      (n in GenerateToc(w, req, manual, showErrors).value.ordered <==>
        && n in Labels(TemplateLines(TemplateText(w, manual).value))
        && exists c :: c in Children(w, manual.name) && ActualName(c) == n)
  {
    if GenerateToc(w, req, manual, showErrors).Some? {
      var lines := TemplateLines(TemplateText(w, manual).value);
      var cands := CandidatesOf(w, AllTopics(w, req, manual.name));
      FirstsLabelledMembers(cands, Labels(lines), n);
      CandidateNames(w, req, manual.name, n);
    }
  }

  /** Every child topic is either in the ordered list or in the warning, and
      when the children's actual names differ, the warning (when shown)
      lists exactly the children whose name labels no template line. */
  lemma OrphansAreUnlisted(w: Wiki, req: Request, manual: Node, text: string, c: Candidate)
    requires TemplateText(w, manual) == Some(text)
    ensures var lines := TemplateLines(text);
            var cands := CandidatesOf(w, AllTopics(w, req, manual.name));
      |FirstsLabelled(cands, Labels(lines))| + |Unmatched(cands, Labels(lines))| == |Children(w, manual.name)|
    ensures var lines := TemplateLines(text);
            var cands := CandidatesOf(w, AllTopics(w, req, manual.name));
      DistinctNames(cands) ==>
        (c in Unmatched(cands, Labels(lines)) <==> c in cands && c.name !in Labels(lines))
  {
    var lines := TemplateLines(text);
    var cands := CandidatesOf(w, AllTopics(w, req, manual.name));
    MatchedOrOrphan(cands, Labels(lines));
    if DistinctNames(cands) {
      OrphansUnlabelled(cands, Labels(lines), c);
    }
  }

  // ---------------------------------------------------------------- memo

  /** The memo a manual object keeps: the generated table and ordered list. */
  datatype Memo = Memo(toc: Option<seq<TocLine>>, ordered: Option<seq<string>>)

  /** The memo after a generation. */
  function Remember(t: Toc): Memo {
    Memo(Some(t.lines), Some(t.ordered))
  }

  /** A table whose text is empty: no lines, or one empty line (the table an
      empty template gives). */
  predicate EmptyTable(lines: seq<TocLine>) {
    lines == [] || lines == [Raw("")]
  }

  /** `$this->mTOC == null`: no table remembered, or an empty one, which
      PHP's loose comparison counts as null. */
  predicate TocUnset(memo: Memo) {
    memo.toc.None? || EmptyTable(memo.toc.value)
  }

  /** `getTableOfContents`: the remembered table, or a newly generated one
      (with its warning) that is then remembered. None when the generation
      is a fatal error. */
  function GetTableOfContents(w: Wiki, req: Request, manual: Node, showErrors: bool, memo: Memo)
    : (r: Option<(seq<TocLine>, Option<seq<TocLink>>, Memo)>)
    ensures !TocUnset(memo) ==> r == Some((memo.toc.value, None, memo))
    ensures TocUnset(memo) ==>
      && (r.None? <==> GenerateToc(w, req, manual, showErrors).None?)
      && (r.Some? ==>
            var t := GenerateToc(w, req, manual, showErrors).value;
            r.value.0 == t.lines && r.value.1 == t.warning && r.value.2 == Remember(t))
  {
    if !TocUnset(memo) then Some((memo.toc.value, None, memo))
    else
      match GenerateToc(w, req, manual, showErrors)
      case None => None
      case Some(t) => Some((t.lines, t.warning, Remember(t)))
  }

  /** Once a non-empty table is remembered, asking again returns it without
      generating it again: no second warning, and the memo stays as it is. */
  lemma TocGeneratedOnce(w: Wiki, req: Request, manual: Node, first: bool, second: bool, memo: Memo)
    ensures var r := GetTableOfContents(w, req, manual, first, memo);
      r.Some? && !EmptyTable(r.value.0) ==>
        GetTableOfContents(w, req, manual, second, r.value.2) == Some((r.value.0, None, r.value.2))
  {
  }

  /** An empty table is not remembered: asking again generates it again,
      with a fresh warning when errors are shown. */
  lemma EmptyTocGeneratedAgain(w: Wiki, req: Request, manual: Node, first: bool, second: bool, memo: Memo)
    ensures var r := GetTableOfContents(w, req, manual, first, memo);
      r.Some? && EmptyTable(r.value.0) ==>
        GetTableOfContents(w, req, manual, second, r.value.2) == GetTableOfContents(w, req, manual, second, Memo(None, None))
  {
  }

  /** A manual whose topics list names a page without text, with at least
      one child topic, warns about its orphans on every call that shows
      errors: the empty table is generated each time. */
  lemma MissingTemplatePageWarnsEachTime(w: Wiki, req: Request, manual: Node)
    requires TopicsList(w, manual).Some? && !Nullish(TopicsList(w, manual))
    requires TopicsList(w, manual).value[0] != '*' && TopicsList(w, manual).value !in w.text
    requires |Children(w, manual.name)| > 0
    ensures var r := GetTableOfContents(w, req, manual, true, Memo(None, None));
      && r.Some? && r.value.1.Some?
      && GetTableOfContents(w, req, manual, true, r.value.2).Some?
      && GetTableOfContents(w, req, manual, true, r.value.2).value.1.Some?
  {
    assert TemplateText(w, manual) == Some("");
    var lines := TemplateLines("");
    EmptyTemplateLines();
    var cands := CandidatesOf(w, AllTopics(w, req, manual.name));
    assert Labels(lines) == {} by {
      assert LabelOf(lines[0]).None?;
    }
    UnmatchedNoLabels(cands);
    assert !EmptyTarget(Placed(lines[0], cands));
    var t := GenerateToc(w, req, manual, true);
    assert t.Some?;
    assert t.value.lines == [Raw("")];
  }

  /** An empty template is one empty line. */
  lemma EmptyTemplateLines()
    ensures TemplateLines("") == [Raw("")]
  {
    assert Split("", '\n') == [""];
  }

  /** With no labels every candidate is an orphan. */
  lemma {:induction false} UnmatchedNoLabels(topics: seq<Candidate>)
    ensures Unmatched(topics, {}) == topics
  {
    if |topics| > 0 {
      UnmatchedNoLabels(topics[1..]);
      assert topics == [topics[0]] + topics[1..];
    }
  }

  // ----------------------------------------------------- previous / next

  /** The last position of `name` in `ordered`. */
  function LastPosition(ordered: seq<string>, name: string): (r: Option<nat>)
    ensures r.Some? ==> (r.value < |ordered| && ordered[r.value] == name
      && forall j :: r.value < j < |ordered| ==> ordered[j] != name)
    ensures r.None? ==> name !in ordered
  {
    if |ordered| == 0 then None
    else if ordered[|ordered| - 1] == name then Some(|ordered| - 1)
    else
      var r := LastPosition(ordered[..|ordered| - 1], name);
      assert ordered == ordered[..|ordered| - 1] + [ordered[|ordered| - 1]];
      r
  }

  /** The pages before and after position `i` of the ordered list of the
      manual `manual`, none at the ends. */
  function PairAt(ordered: seq<string>, manual: PageName, i: nat): (Option<PageName>, Option<PageName>)
    requires i < |ordered|
  {
    (if i == 0 then None else Some(manual + "/" + ordered[i - 1]),
     if i == |ordered| - 1 then None else Some(manual + "/" + ordered[i + 1]))
  }

  /** Position `i` holds the last copy of `name`. */
  predicate LastAt(ordered: seq<string>, i: nat, name: string)
    requires i < |ordered|
  {
    ordered[i] == name && forall j :: i < j < |ordered| ==> ordered[j] != name
  }

  /** The pages before and after `name` in the ordered list of the manual
      `manual`: none at the ends, none at all when the name is absent. */
  function Neighbours(ordered: seq<string>, manual: PageName, name: string): (r: (Option<PageName>, Option<PageName>))
    ensures name !in ordered ==> r == (None, None)
    ensures forall i :: 0 <= i < |ordered| && LastAt(ordered, i, name) ==>
      && r.0 == (if i == 0 then None else Some(manual + "/" + ordered[i - 1]))
      && r.1 == (if i == |ordered| - 1 then None else Some(manual + "/" + ordered[i + 1]))
  {
    match LastPosition(ordered, name)
    case None => (None, None)
    case Some(i) => PairAt(ordered, manual, i)
  }

  /** The loop of `getPreviousAndNextTopics`: every position holding the
      name overwrites both neighbours, so the last one decides. */
  method NeighboursLoop(ordered: seq<string>, manual: PageName, name: string)
    returns (prev: Option<PageName>, next: Option<PageName>)
    ensures (prev, next) == Neighbours(ordered, manual, name)
  {
    prev, next := None, None;
    var i := 0;
    while i < |ordered|
      invariant 0 <= i <= |ordered|
      invariant LastPosition(ordered[..i], name).None? ==> prev.None? && next.None?
      invariant LastPosition(ordered[..i], name).Some? ==>
        (prev, next) == PairAt(ordered, manual, LastPosition(ordered[..i], name).value)
    {
      assert ordered[..i + 1][..i] == ordered[..i];
      if ordered[i] == name {
        prev := if i == 0 then None else Some(manual + "/" + ordered[i - 1]);
        next := if i == |ordered| - 1 then None else Some(manual + "/" + ordered[i + 1]);
      }
      i := i + 1;
    }
    assert ordered[..i] == ordered;
  }

  /** The ordered list holds pairwise different names. */
  predicate Distinct(s: seq<string>) {
    forall i, j :: 0 <= i < j < |s| ==> s[i] != s[j]
  }

  /** Neighbours are mutual: the page after a topic has that topic as the
      page before it. */
  lemma NeighboursMutual(ordered: seq<string>, manual: PageName, i: nat)
    requires Distinct(ordered)
    requires i + 1 < |ordered|
    ensures Neighbours(ordered, manual, ordered[i]).1 == Some(manual + "/" + ordered[i + 1])
    ensures Neighbours(ordered, manual, ordered[i + 1]).0 == Some(manual + "/" + ordered[i])
  {
  }

  /** `hasPagination`: the possibly inherited `ZDocsPagination` is true. A
      manual that sets it has pagination; one that neither sets it nor
      inherits has none; one that inherits and does not set it follows the
      value found in the earlier versions. */
  function HasPagination(w: Wiki, manual: Node): (r: bool)
    ensures Truthy(GetProp(w, manual.name, PaginationKey)) ==> r
    ensures GetProp(w, manual.name, PaginationKey) == Some("0") ==> !r
    ensures Nullish(GetProp(w, manual.name, PaginationKey)) && !InheritsParams(w, manual) ==> !r
    ensures Nullish(GetProp(w, manual.name, PaginationKey)) && InheritsParams(w, manual) ==>
      (r <==> var found := ParamSearch(w, EquivalentsBefore(w, manual), PaginationKey);
              found.Found? && Truthy(Some(found.value)))
  {
    Truthy(GetPossiblyInheritedParam(w, manual, PaginationKey))
  }

  /** `getPreviousAndNextTopics`: the ordered list comes from the memo unless
      it is missing or empty (an empty array is `null` to `==`), in which
      case the table is generated and remembered; None when that generation
      is a fatal error. */
  function PreviousAndNext(w: Wiki, req: Request, manual: Node, showErrors: bool, memo: Memo, topic: Node)
    : (r: Option<(Option<PageName>, Option<PageName>, Memo)>)
    ensures memo.ordered.Some? && |memo.ordered.value| > 0 ==>
      r == Some((Neighbours(memo.ordered.value, manual.name, ActualName(topic.name)).0,
                 Neighbours(memo.ordered.value, manual.name, ActualName(topic.name)).1, memo))
    ensures !(memo.ordered.Some? && |memo.ordered.value| > 0) ==>
      && (r.None? <==> GenerateToc(w, req, manual, showErrors).None?)
      && (r.Some? ==>
            var t := GenerateToc(w, req, manual, showErrors).value;
            r.value == (Neighbours(t.ordered, manual.name, ActualName(topic.name)).0,
                        Neighbours(t.ordered, manual.name, ActualName(topic.name)).1, Remember(t)))
  {
    if memo.ordered.Some? && |memo.ordered.value| > 0 then
      var (prev, next) := Neighbours(memo.ordered.value, manual.name, ActualName(topic.name));
      Some((prev, next, memo))
    else
      match GenerateToc(w, req, manual, showErrors)
      case None => None
      case Some(t) =>
        var (prev, next) := Neighbours(t.ordered, manual.name, ActualName(topic.name));
        Some((prev, next, Remember(t)))
  }

  /** The page after a topic is a topic of the same manual whose actual name
      is the next ordered name, so asking for its neighbours leads back. */
  lemma NextLeadsBack(ordered: seq<string>, manual: PageName, i: nat)
    requires Distinct(ordered)
    requires manual != ""
    requires i + 1 < |ordered|
    requires forall k :: 0 <= k < |ordered| ==> '/' !in ordered[k]
    ensures var next := Neighbours(ordered, manual, ordered[i]).1.value;
      ParentPage(next) == Some(manual)
      && Neighbours(ordered, manual, ActualName(next)).0 == Some(manual + "/" + ordered[i])
  {
    NeighboursMutual(ordered, manual, i);
    ParentOfChild(manual, ordered[i + 1]);
  }
}
