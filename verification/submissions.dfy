/*******************************************************************************
 *  The organisers' submissions page: the fetched submissions are grouped by
 *  team, the team names sorted, and each team's projects shown as numbered
 *  cards whose texts go through `escapeHtml`.
 *******************************************************************************/

module Submissions {
  import opened Js
  import Html
  import LexOrder

  datatype Submission = Submission(
    id: int,
    teamName: string,
    projectName: string,
    description: string,
    githubLink: string)

  /** One entry of the grouping object: a team name and its submissions. */
  datatype Group = Group(team: string, items: seq<Submission>)

  // ---------------------------------------------------------------------------
  // Reference definitions
  // ---------------------------------------------------------------------------

  /** The submissions of one team, in input order. */
  function OfTeam(s: seq<Submission>, team: string): (r: seq<Submission>)
    ensures |r| <= |s|
    ensures forall i | 0 <= i < |r| :: r[i].teamName == team
    ensures forall x :: x in r <==> x in s && x.teamName == team
    ensures team !in NameSet(s) ==> r == []
    decreases |s|
  {
    if |s| == 0 then []
    else OfTeam(s[..|s| - 1], team) + (if s[|s| - 1].teamName == team then [s[|s| - 1]] else [])
  }

  /** The team names occurring in the input. */
  function NameSet(s: seq<Submission>): set<string> {
    set x | x in s :: x.teamName
  }

  function TeamSet(gs: seq<Group>): set<string> {
    set g | g in gs :: g.team
  }

  predicate DistinctTeams(gs: seq<Group>) {
    forall i, j | 0 <= i < j < |gs| :: gs[i].team != gs[j].team
  }

  /** How many submissions the groups hold altogether. */
  function Size(gs: seq<Group>): nat
    decreases |gs|
  {
    if |gs| == 0 then 0 else Size(gs[..|gs| - 1]) + |gs[|gs| - 1].items|
  }

  // ---------------------------------------------------------------------------
  // groupByTeam
  // ---------------------------------------------------------------------------

  /** Where the entry for a team sits, if the grouping has one. */
  function IndexOf(gs: seq<Group>, team: string): (r: Option<nat>)
    ensures r.Some? ==> r.value < |gs| && gs[r.value].team == team
    ensures r.None? ==> forall i | 0 <= i < |gs| :: gs[i].team != team
    decreases |gs|
  {
    if |gs| == 0 then None
    else if gs[|gs| - 1].team == team then Some(|gs| - 1)
    else IndexOf(gs[..|gs| - 1], team)
  }

  /** The forEach body: the submission is appended to its team's entry, which
      is created (at the end) when the team is new. */
  function Add(gs: seq<Group>, x: Submission): seq<Group> {
    match IndexOf(gs, x.teamName)
    case Some(k) => gs[k := Group(x.teamName, gs[k].items + [x])]
    case None => gs + [Group(x.teamName, [x])]
  }

  /** `groupByTeam(submissions)`, keyed by own entries only. One entry per team
      name in the input and no other; each entry holds exactly that team's
      submissions in input order; nothing is lost or duplicated. */
  function GroupByTeam(s: seq<Submission>): (gs: seq<Group>)
    ensures DistinctTeams(gs)
    ensures TeamSet(gs) == NameSet(s)
    ensures forall i | 0 <= i < |gs| :: gs[i].items == OfTeam(s, gs[i].team)
    ensures Size(gs) == |s|
    decreases |s|
  {
    if |s| == 0 then []
    else
      var init, x := s[..|s| - 1], s[|s| - 1];
      var gs := GroupByTeam(init);
      assert init + [x] == s;
      AddTeams(gs, x);
      AddSize(gs, x);
      NameSetSnoc(init, x);
      AddItems(init, gs, x);
      Add(gs, x)
  }

  lemma {:induction false} SizeUpdate(gs: seq<Group>, k: nat, g: Group)
    requires k < |gs|
    ensures Size(gs[k := g]) + |gs[k].items| == Size(gs) + |g.items|
    decreases |gs|
  {
    if k < |gs| - 1 {
      SizeUpdate(gs[..|gs| - 1], k, g);
      assert gs[k := g][..|gs| - 1] == gs[..|gs| - 1][k := g];
    } else {
      assert gs[k := g][..|gs| - 1] == gs[..|gs| - 1];
    }
  }

  lemma NameSetSnoc(s: seq<Submission>, x: Submission)
    ensures NameSet(s + [x]) == NameSet(s) + {x.teamName}
  {
    assert forall y :: y in s + [x] <==> y in s || y == x;
  }

  lemma OfTeamSnoc(s: seq<Submission>, x: Submission, team: string)
    ensures OfTeam(s + [x], team) == OfTeam(s, team) + (if x.teamName == team then [x] else [])
  {
    assert (s + [x])[..|s|] == s;
  }

  /** Adding keeps one entry per team and adds the submission's team. */
  lemma AddTeams(gs: seq<Group>, x: Submission)
    requires DistinctTeams(gs)
    ensures DistinctTeams(Add(gs, x))
    ensures TeamSet(Add(gs, x)) == TeamSet(gs) + {x.teamName}
  {
    var r := Add(gs, x);
    match IndexOf(gs, x.teamName)
    case Some(k) =>
      assert forall i | 0 <= i < |gs| :: r[i].team == gs[i].team;
      assert TeamSet(r) == TeamSet(gs) by {
        forall t | t in TeamSet(gs) ensures t in TeamSet(r) {
          var g :| g in gs && g.team == t;
          var i :| 0 <= i < |gs| && gs[i] == g;
          assert r[i] in r;
        }
      }
    case None =>
      assert forall g :: g in r <==> g in gs || g == Group(x.teamName, [x]);
  }

  /** Adding grows the total by exactly one. */
  lemma AddSize(gs: seq<Group>, x: Submission)
    ensures Size(Add(gs, x)) == Size(gs) + 1
  {
    var r := Add(gs, x);
    match IndexOf(gs, x.teamName)
    case Some(k) =>
      SizeUpdate(gs, k, r[k]);
    case None =>
      assert r[..|gs|] == gs;
  }

  /** Adding to a correct grouping of s gives each entry the filtered
      submissions of s + [x]. */
  lemma AddItems(s: seq<Submission>, gs: seq<Group>, x: Submission)
    requires DistinctTeams(gs) && TeamSet(gs) == NameSet(s)
    requires forall i | 0 <= i < |gs| :: gs[i].items == OfTeam(s, gs[i].team)
    ensures forall i | 0 <= i < |Add(gs, x)| :: Add(gs, x)[i].items == OfTeam(s + [x], Add(gs, x)[i].team)
  {
    match IndexOf(gs, x.teamName)
    case Some(k) => AddToExisting(s, gs, x, k);
    case None => AddNew(s, gs, x);
  }

  lemma AddToExisting(s: seq<Submission>, gs: seq<Group>, x: Submission, k: nat)
    requires DistinctTeams(gs) && k < |gs| && gs[k].team == x.teamName
    requires forall i | 0 <= i < |gs| :: gs[i].items == OfTeam(s, gs[i].team)
    ensures var r := gs[k := Group(x.teamName, gs[k].items + [x])];
      forall i | 0 <= i < |r| :: r[i].items == OfTeam(s + [x], r[i].team)
  {
    var r := gs[k := Group(x.teamName, gs[k].items + [x])];
    forall i | 0 <= i < |r| ensures r[i].items == OfTeam(s + [x], r[i].team) {
      OfTeamSnoc(s, x, r[i].team);
      if i != k {
        assert gs[i].team != x.teamName;
      }
    }
  }

  lemma AddNew(s: seq<Submission>, gs: seq<Group>, x: Submission)
    requires TeamSet(gs) == NameSet(s)
    requires forall i | 0 <= i < |gs| :: gs[i].team != x.teamName
    requires forall i | 0 <= i < |gs| :: gs[i].items == OfTeam(s, gs[i].team)
    ensures var r := gs + [Group(x.teamName, [x])];
      forall i | 0 <= i < |r| :: r[i].items == OfTeam(s + [x], r[i].team)
  {
    var r := gs + [Group(x.teamName, [x])];
    assert x.teamName !in TeamSet(gs) by {
      forall g | g in gs ensures g.team != x.teamName {
        var j :| 0 <= j < |gs| && gs[j] == g;
      }
    }
    forall i | 0 <= i < |r| ensures r[i].items == OfTeam(s + [x], r[i].team) {
      OfTeamSnoc(s, x, r[i].team);
    }
  }

  /** Filtering distributes over concatenation: a team's earlier submissions
      come before its later ones. */
  lemma {:induction false} OfTeamAppend(a: seq<Submission>, b: seq<Submission>, team: string)
    ensures OfTeam(a + b, team) == OfTeam(a, team) + OfTeam(b, team)
    decreases |b|
  {
    if |b| == 0 {
      assert a + b == a;
    } else {
      assert (a + b)[..|a + b| - 1] == a + b[..|b| - 1];
      OfTeamAppend(a, b[..|b| - 1], team);
    }
  }

  /** Within a group, the submissions keep their relative order: grouping a
      longer list only appends to what the shorter prefix already grouped. */
  lemma GroupsKeepOrder(a: seq<Submission>, b: seq<Submission>, team: string, i: nat, j: nat)
    requires i < |GroupByTeam(a)| && j < |GroupByTeam(a + b)|
    requires GroupByTeam(a)[i].team == team && GroupByTeam(a + b)[j].team == team
    ensures GroupByTeam(a + b)[j].items == GroupByTeam(a)[i].items + OfTeam(b, team)
  {
    OfTeamAppend(a, b, team);
  }

  // ---------------------------------------------------------------------------
  // Sorting the team names (`Object.keys(grouped).sort()`)
  // ---------------------------------------------------------------------------

  predicate Ascending(ts: seq<string>) {
    forall i, j | 0 <= i < j < |ts| :: LexOrder.Less(ts[i], ts[j])
  }

  predicate Distinct(ts: seq<string>) {
    forall i, j | 0 <= i < j < |ts| :: ts[i] != ts[j]
  }

  function Teams(gs: seq<Group>): (ts: seq<string>)
    ensures |ts| == |gs| && forall i | 0 <= i < |gs| :: ts[i] == gs[i].team
  {
    seq(|gs|, i requires 0 <= i < |gs| => gs[i].team)
  }

  /** Inserts a new name into an ascending list. */
  function Insert(t: string, ts: seq<string>): (r: seq<string>)
    requires Ascending(ts) && t !in ts
    ensures Ascending(r) && multiset(r) == multiset(ts) + multiset{t}
    decreases |ts|
  {
    if |ts| == 0 then [t]
    else if LexOrder.Less(t, ts[0]) then
      InsertFront(t, ts);
      [t] + ts
    else
      LexOrder.Total(t, ts[0]);
      var rest := Insert(t, ts[1..]);
      assert ts == [ts[0]] + ts[1..];
      InsertBehind(ts[0], t, ts[1..], rest);
      [ts[0]] + rest
  }

  lemma InsertFront(t: string, ts: seq<string>)
    requires Ascending(ts) && |ts| > 0 && LexOrder.Less(t, ts[0])
    ensures Ascending([t] + ts)
  {
    forall j | 0 < j < |ts| ensures LexOrder.Less(t, ts[j]) {
      LexOrder.Transitive(t, ts[0], ts[j]);
    }
  }

  lemma InsertBehind(h: string, t: string, tail: seq<string>, rest: seq<string>)
    requires Ascending([h] + tail) && LexOrder.Less(h, t)
    requires Ascending(rest) && multiset(rest) == multiset(tail) + multiset{t}
    ensures Ascending([h] + rest)
  {
    forall j | 0 <= j < |rest| ensures LexOrder.Less(h, rest[j]) {
      assert rest[j] in multiset(rest);
      if rest[j] != t {
        assert rest[j] in multiset(tail);
        var k :| 0 <= k < |tail| && tail[k] == rest[j];
        assert ([h] + tail)[0] == h && ([h] + tail)[k + 1] == tail[k];
        assert LexOrder.Less(([h] + tail)[0], ([h] + tail)[k + 1]);
      }
    }
  }

  /** The team names in ascending order: a permutation of the input. */
  function Sort(ts: seq<string>): (r: seq<string>)
    requires Distinct(ts)
    ensures Ascending(r) && multiset(r) == multiset(ts)
    decreases |ts|
  {
    if |ts| == 0 then []
    else
      var rest := Sort(ts[1..]);
      assert ts[0] !in rest by {
        assert ts[0] !in ts[1..];
        assert ts[0] !in multiset(rest);
      }
      assert ts == [ts[0]] + ts[1..];
      Insert(ts[0], rest)
  }

  // ---------------------------------------------------------------------------
  // displaySubmissions and createProjectCard
  // ---------------------------------------------------------------------------

  /** A project card: its number within the team and the escaped texts. The
      delete button carries the call it runs when clicked. */
  datatype Card = Card(
    number: nat,
    id: int,
    title: string,
    description: string,
    link: string,
    deleteCall: string)

  datatype Section = Section(team: string, heading: string, cards: seq<Card>)

  /** How the delete button's handler carries the project name: only escaped
      for the attribute, as the page writes it, or first quoted for a
      JavaScript literal and then escaped. */
  datatype Quoting = EscapeOnly | QuoteThenEscape

  /** The delete button's `onclick` value under the given quoting. */
  function OnClick(q: Quoting, id: int, name: string): string {
    match q
    case EscapeOnly => DeleteCallAsWritten(id, name)
    case QuoteThenEscape => DeleteCall(id, name)
  }

  /** `createProjectCard(submission, index)`. */
  function CardOf(q: Quoting, x: Submission, number: nat): (c: Card)
    ensures c.number == number && c.id == x.id
  {
    Card(number, x.id, Html.EscapeHtml(x.projectName), Html.EscapeHtml(x.description),
         Html.EscapeHtml(x.githubLink), OnClick(q, x.id, x.projectName))
  }

  /** The browser shows a card's title, description and link as exactly the
      submitted texts. With the name quoted first, the delete handler receives
      exactly the project name; with it only escaped, the handler lexes the
      raw name. */
  lemma CardShowsSubmission(q: Quoting, x: Submission, number: nat)
    ensures var c := CardOf(q, x, number);
      && Html.DecodeEntities(c.title) == x.projectName
      && Html.DecodeEntities(c.description) == x.description
      && Html.DecodeEntities(c.link) == x.githubLink
      && (q == QuoteThenEscape ==> NameArgument(x.id, c.deleteCall) == Some(Html.Lexed(x.projectName, ")")))
      && (q == EscapeOnly ==> NameArgument(x.id, c.deleteCall) == Html.ReadQuoted(x.projectName + "')"))
  {
    Html.EscapeRoundTrip(x.projectName);
    Html.EscapeRoundTrip(x.description);
    Html.EscapeRoundTrip(x.githubLink);
    DeleteCallPassesName(x.id, x.projectName);
    AsWrittenLexesRawName(x.id, x.projectName);
  }

  /** The cards of one team, numbered from 1 in group order. */
  function Cards(q: Quoting, items: seq<Submission>): (cs: seq<Card>)
    ensures |cs| == |items|
    ensures forall k | 0 <= k < |cs| :: cs[k].number == k + 1 && cs[k].id == items[k].id
  {
    seq(|items|, k requires 0 <= k < |items| => CardOf(q, items[k], k + 1))
  }

  /** `groupedSubmissions[teamName]`. */
  function ItemsOf(gs: seq<Group>, team: string): seq<Submission> {
    match IndexOf(gs, team)
    case Some(k) => gs[k].items
    case None => []
  }

  /** `displaySubmissions(grouped)`: one section per team, in sorted order of
      the team names. */
  function DisplaySubmissions(q: Quoting, gs: seq<Group>): (r: seq<Section>)
    requires DistinctTeams(gs)
    ensures |r| == |gs|
    ensures forall i, j | 0 <= i < j < |r| :: LexOrder.Less(r[i].team, r[j].team)
  {
    var ts := Sort(Teams(gs));
    assert |ts| == |gs| by {
      assert |multiset(ts)| == |multiset(Teams(gs))|;
    }
    seq(|ts|, i requires 0 <= i < |ts| =>
      Section(ts[i], Html.EscapeHtml(ts[i]), Cards(q, ItemsOf(gs, ts[i]))))
  }

  /** Section i shows the entry of the team it names. */
  lemma SectionShowsItsGroup(q: Quoting, gs: seq<Group>, i: nat) returns (k: nat)
    requires DistinctTeams(gs) && i < |DisplaySubmissions(q, gs)|
    ensures k < |gs| && gs[k].team == DisplaySubmissions(q, gs)[i].team
    ensures DisplaySubmissions(q, gs)[i].cards == Cards(q, gs[k].items)
  {
    var ts := Sort(Teams(gs));
    assert ts[i] in multiset(Teams(gs));
    k :| 0 <= k < |gs| && Teams(gs)[k] == ts[i];
    ItemsOfIndex(gs, k);
  }

  /** With one entry per team, looking a team up finds its own entry. */
  lemma ItemsOfIndex(gs: seq<Group>, k: nat)
    requires DistinctTeams(gs) && k < |gs|
    ensures ItemsOf(gs, gs[k].team) == gs[k].items
  {
    assert IndexOf(gs, gs[k].team).Some?;
  }

  /** Every entry has a section. */
  lemma GroupHasSection(q: Quoting, gs: seq<Group>, k: nat) returns (i: nat)
    requires DistinctTeams(gs) && k < |gs|
    ensures i < |DisplaySubmissions(q, gs)| && DisplaySubmissions(q, gs)[i].team == gs[k].team
  {
    var ts := Sort(Teams(gs));
    assert Teams(gs)[k] == gs[k].team;
    assert gs[k].team in multiset(ts);
    i :| 0 <= i < |ts| && ts[i] == gs[k].team;
  }

  /** The listing of a whole input: ascending team sections, exactly one per
      team name in the input, whose cards are that team's submissions in input
      order, numbered 1..n. */
  lemma ListingOfSubmissions(q: Quoting, s: seq<Submission>)
    ensures var r := DisplaySubmissions(q, GroupByTeam(s));
      && (forall i, j | 0 <= i < j < |r| :: LexOrder.Less(r[i].team, r[j].team))
      && (set i | 0 <= i < |r| :: r[i].team) == NameSet(s)
      && (forall i | 0 <= i < |r| :: r[i].cards == Cards(q, OfTeam(s, r[i].team)))
  {
    SectionsFromInput(q, s);
    InputHasSections(q, s);
  }

  /** Every section names a team of the input and shows its submissions. */
  lemma SectionsFromInput(q: Quoting, s: seq<Submission>)
    ensures var r := DisplaySubmissions(q, GroupByTeam(s));
      forall i | 0 <= i < |r| :: r[i].team in NameSet(s) && r[i].cards == Cards(q, OfTeam(s, r[i].team))
  {
    var gs := GroupByTeam(s);
    var r := DisplaySubmissions(q, gs);
    forall i | 0 <= i < |r| ensures r[i].team in NameSet(s) && r[i].cards == Cards(q, OfTeam(s, r[i].team)) {
      var k := SectionShowsItsGroup(q, gs, i);
      assert gs[k] in gs;
    }
  }

  /** Every team of the input has a section. */
  lemma InputHasSections(q: Quoting, s: seq<Submission>)
    ensures var r := DisplaySubmissions(q, GroupByTeam(s));
      NameSet(s) <= set i | 0 <= i < |r| :: r[i].team
  {
    var gs := GroupByTeam(s);
    var r := DisplaySubmissions(q, gs);
    var shown := set i | 0 <= i < |r| :: r[i].team;
    forall t | t in NameSet(s) ensures t in shown {
      var i := TeamHasSection(q, gs, t);
      assert r[i].team == t;
    }
  }

  /** A team of the grouping has a section. */
  lemma TeamHasSection(q: Quoting, gs: seq<Group>, t: string) returns (i: nat)
    requires DistinctTeams(gs) && t in TeamSet(gs)
    ensures i < |DisplaySubmissions(q, gs)| && DisplaySubmissions(q, gs)[i].team == t
  {
    var g :| g in gs && g.team == t;
    var k :| 0 <= k < |gs| && gs[k] == g;
    i := GroupHasSection(q, gs, k);
  }

  /** The quoting of the delete handler changes the delete calls and nothing
      else on the page. */
  lemma QuotingOnlyChangesDeleteCalls(gs: seq<Group>)
    requires DistinctTeams(gs)
    ensures var a, b := DisplaySubmissions(EscapeOnly, gs), DisplaySubmissions(QuoteThenEscape, gs);
      && |a| == |b|
      && forall i | 0 <= i < |a| ::
        && a[i].team == b[i].team && a[i].heading == b[i].heading && |a[i].cards| == |b[i].cards|
        && forall k | 0 <= k < |a[i].cards| :: a[i].cards[k].(deleteCall := "") == b[i].cards[k].(deleteCall := "")
  {
    var a, b := DisplaySubmissions(EscapeOnly, gs), DisplaySubmissions(QuoteThenEscape, gs);
    var ts := Sort(Teams(gs));
    forall i | 0 <= i < |a|
      ensures && a[i].team == b[i].team && a[i].heading == b[i].heading && |a[i].cards| == |b[i].cards|
              && forall k | 0 <= k < |a[i].cards| :: a[i].cards[k].(deleteCall := "") == b[i].cards[k].(deleteCall := "")
    {
      var items := ItemsOf(gs, ts[i]);
      assert a[i] == Section(ts[i], Html.EscapeHtml(ts[i]), Cards(EscapeOnly, items));
      assert b[i] == Section(ts[i], Html.EscapeHtml(ts[i]), Cards(QuoteThenEscape, items));
      CardsDifferOnlyInCall(items);
    }
  }

  lemma CardsDifferOnlyInCall(items: seq<Submission>)
    ensures forall k | 0 <= k < |items| ::
      Cards(EscapeOnly, items)[k].(deleteCall := "") == Cards(QuoteThenEscape, items)[k].(deleteCall := "")
  {
    forall k | 0 <= k < |items|
      ensures Cards(EscapeOnly, items)[k].(deleteCall := "") == Cards(QuoteThenEscape, items)[k].(deleteCall := "")
    {
      CardAtWithoutCall(items, k);
    }
  }

  lemma CardAtWithoutCall(items: seq<Submission>, k: nat)
    requires k < |items|
    ensures Cards(EscapeOnly, items)[k].(deleteCall := "") == Cards(QuoteThenEscape, items)[k].(deleteCall := "")
  {
    assert Cards(EscapeOnly, items)[k] == CardOf(EscapeOnly, items[k], k + 1);
    assert Cards(QuoteThenEscape, items)[k] == CardOf(QuoteThenEscape, items[k], k + 1);
    CardWithoutCall(items[k], k + 1);
  }

  lemma CardWithoutCall(x: Submission, number: nat)
    ensures CardOf(EscapeOnly, x, number).(deleteCall := "") == CardOf(QuoteThenEscape, x, number).(deleteCall := "")
  {
  }

  // ---------------------------------------------------------------------------
  // The delete button
  // ---------------------------------------------------------------------------

  /** The text in front of the project name in the delete button's handler. */
  function CallPrefix(id: int): string {
    "deleteSubmission(" + NumberToString(id) + ", '"
  }

  /** The `onclick` value: the name is quoted for a JavaScript literal, then
      escaped for the attribute. */
  function DeleteCall(id: int, name: string): string {
    CallPrefix(id) + Html.EscapeHtml(Html.JsQuote(name)) + "')"
  }

  /** The project name the handler passes, read as the browser does: the
      attribute value is entity-decoded, then the string literal after the
      prefix is lexed. */
  function NameArgument(id: int, onclick: string): Option<Html.Lexed> {
    var script := Html.DecodeEntities(onclick);
    var p := CallPrefix(id);
    if |p| <= |script| && script[..|p|] == p then Html.ReadQuoted(script[|p|..]) else None
  }

  lemma PrefixPlain(id: int)
    ensures forall i | 0 <= i < |CallPrefix(id)| :: CallPrefix(id)[i] != '&'
  {
    var n := NumberToString(id);
    assert forall i | 0 <= i < |n| :: n[i] == '-' || IsDecimal(n[i]) by {
      if id < 0 {
        assert n == "-" + Digits(-id);
      }
    }
    assert CallPrefix(id) == "deleteSubmission(" + n + ", '";
  }

  /** The browser's view of an onclick value built around an escaped text:
      the prefix and the closing `')` decode to themselves and the escaped
      text to the text itself. */
  lemma DecodeOnclick(id: int, x: string)
    ensures Html.DecodeEntities(CallPrefix(id) + Html.EscapeHtml(x) + "')") == CallPrefix(id) + (x + "')")
  {
    var p, e := CallPrefix(id), Html.EscapeHtml(x);
    Html.Assoc(p, e, "')");
    PrefixPlain(id);
    Html.DecodePlain(p, e + "')");
    Html.DecodeEscaped(x, "')");
    DecodeCloser();
  }

  lemma DecodeCloser()
    ensures Html.DecodeEntities("')") == "')"
  {
    Html.DecodePlain("')", []);
    assert "')" + [] == "')";
  }

  /** The handler lexes the text that was escaped into the onclick value. */
  lemma NameArgumentOf(id: int, x: string)
    ensures NameArgument(id, CallPrefix(id) + Html.EscapeHtml(x) + "')") == Html.ReadQuoted(x + "')")
  {
    DecodeOnclick(id, x);
    var p := CallPrefix(id);
    var script := p + (x + "')");
    assert script[..|p|] == p && script[|p|..] == x + "')";
  }

  /** Whatever the project name, the delete call receives exactly that name,
      and the literal closes where the markup closes it. */
  lemma DeleteCallPassesName(id: int, name: string)
    ensures NameArgument(id, DeleteCall(id, name)) == Some(Html.Lexed(name, ")"))
  {
    var q := Html.JsQuote(name);
    NameArgumentOf(id, q);
    assert q + "')" == q + "'" + ")";
    Html.ReadJsQuoted(name, ")");
  }

  /** A name without a backslash, quote or line break needs no quoting: for
      it both ways of writing the delete call agree. */
  lemma PlainNameSameCall(id: int, name: string)
    requires forall i | 0 <= i < |name| :: name[i] !in {'\\', '\'', '\n', '\r'}
    ensures DeleteCall(id, name) == DeleteCallAsWritten(id, name)
  {
    QuoteKeepsPlain(name);
  }

  lemma {:induction false} QuoteKeepsPlain(name: string)
    requires forall i | 0 <= i < |name| :: name[i] !in {'\\', '\'', '\n', '\r'}
    ensures Html.JsQuote(name) == name
    decreases |name|
  {
    if |name| > 0 {
      QuoteKeepsPlain(name[1..]);
      assert name == [name[0]] + name[1..];
    }
  }

  // ---------------------------------------------------------------------------
  // fetchSubmissions and checkAuthAndFetch
  // ---------------------------------------------------------------------------

  /** The answer of `/api/submissions`; a body that is not a JSON list of
      submissions is None. */
  datatype Response = Response(status: int, body: Option<seq<Submission>>)

  predicate Ok(r: Response) {
    200 <= r.status <= 299
  }

  datatype Page = LoginPage | ErrorPanel | NoSubmissions | Listing(sections: seq<Section>)

  /** `fetchSubmissions()` with both corrections: the grouping keyed by own
      entries only and the delete call quoted; a request that fails outright
      is None. */
  function FetchSubmissions(resp: Option<Response>): (p: Page)
    ensures p == LoginPage <==> resp.Some? && resp.value.status == 401
    ensures p == NoSubmissions <==> resp.Some? && Ok(resp.value) && resp.value.body == Some([])
    ensures p.Listing? <==> resp.Some? && Ok(resp.value) && resp.value.body.Some? && resp.value.body.value != []
    ensures p.Listing? ==> |p.sections| > 0
    ensures p.Listing? ==> p.sections == DisplaySubmissions(QuoteThenEscape, GroupByTeam(resp.value.body.value))
  {
    match resp
    case None => ErrorPanel
    case Some(r) =>
      if r.status == 401 then LoginPage
      else if !Ok(r) then ErrorPanel
      else match r.body
        case None => ErrorPanel
        case Some(s) =>
          if |s| == 0 then NoSubmissions
          else
            var gs := GroupByTeam(s);
            assert s[0].teamName in NameSet(s);
            Listing(DisplaySubmissions(QuoteThenEscape, gs))
  }

  /** `checkAuthAndFetch()`: `loggedIn` is the status answer's `logged_in`,
      None when that request fails. Only a signed-in organiser reaches the
      listing. */
  function CheckAuthAndFetch(loggedIn: Option<bool>, resp: Option<Response>): (p: Page)
    ensures loggedIn != Some(true) ==> p == LoginPage
    ensures loggedIn == Some(true) ==> p == FetchSubmissions(resp)
  {
    if loggedIn == Some(true) then FetchSubmissions(resp) else LoginPage
  }

  // ---------------------------------------------------------------------------
  // The grouping as written, on a plain object
  // ---------------------------------------------------------------------------

  /** The names every plain object inherits from `Object.prototype`. */
  const PrototypeMembers: set<string> := {
    "constructor", "hasOwnProperty", "isPrototypeOf", "propertyIsEnumerable",
    "toLocaleString", "toString", "valueOf", "__defineGetter__",
    "__defineSetter__", "__lookupGetter__", "__lookupSetter__", "__proto__"
  }

  /** The forEach body on `{}`: for an inherited name the lookup is truthy, so
      no array is created and `.push` is called on a function or on
      `Object.prototype`, which throws (None). */
  function AddAsWritten(gs: seq<Group>, x: Submission): Option<seq<Group>> {
    match IndexOf(gs, x.teamName)
    case Some(k) => Some(gs[k := Group(x.teamName, gs[k].items + [x])])
    case None =>
      if x.teamName in PrototypeMembers then None
      else Some(gs + [Group(x.teamName, [x])])
  }

  function GroupByTeamAsWritten(s: seq<Submission>): Option<seq<Group>>
    decreases |s|
  {
    if |s| == 0 then Some([])
    else match GroupByTeamAsWritten(s[..|s| - 1])
      case None => None
      case Some(gs) => AddAsWritten(gs, s[|s| - 1])
  }

  /** Without inherited names in the input, no entry is named after one. */
  lemma NoInheritedEntry(s: seq<Submission>)
    requires forall i | 0 <= i < |s| :: s[i].teamName !in PrototypeMembers
    ensures forall t | t in PrototypeMembers :: IndexOf(GroupByTeam(s), t).None?
  {
  }

  /** Some team of init + [x] is named in names exactly when some team of
      init is, or x's is. */
  lemma SomeNameInSnoc(init: seq<Submission>, x: Submission, names: set<string>)
    ensures var s := init + [x];
      (exists i | 0 <= i < |s| :: s[i].teamName in names)
        <==> (exists i | 0 <= i < |init| :: init[i].teamName in names) || x.teamName in names
  {
    var s := init + [x];
    if exists i | 0 <= i < |s| :: s[i].teamName in names {
      var i :| 0 <= i < |s| && s[i].teamName in names;
      if i < |init| {
        assert init[i] == s[i];
      }
    }
    if exists i | 0 <= i < |init| :: init[i].teamName in names {
      var i :| 0 <= i < |init| && init[i].teamName in names;
      assert s[i] == init[i];
    }
    assert s[|init|] == x;
  }

  /** The grouping as written throws exactly when some team is named after an
      inherited member, and otherwise agrees with GroupByTeam. */
  lemma {:induction false} AsWrittenThrowsOnInheritedNames(s: seq<Submission>)
    ensures GroupByTeamAsWritten(s).None? <==> exists i | 0 <= i < |s| :: s[i].teamName in PrototypeMembers
    ensures GroupByTeamAsWritten(s).Some? ==> GroupByTeamAsWritten(s).value == GroupByTeam(s)
    decreases |s|
  {
    if |s| > 0 {
      var init, x := s[..|s| - 1], s[|s| - 1];
      AsWrittenThrowsOnInheritedNames(init);
      assert init + [x] == s;
      SomeNameInSnoc(init, x, PrototypeMembers);
      match GroupByTeamAsWritten(init)
      case None =>
        assert GroupByTeamAsWritten(s) == None;
      case Some(gs) =>
        assert gs == GroupByTeam(init);
        if x.teamName in PrototypeMembers {
          NoInheritedEntry(init);
          assert GroupByTeamAsWritten(s) == None;
        } else {
          assert GroupByTeamAsWritten(s) == Some(Add(gs, x));
          assert GroupByTeam(s) == Add(gs, x);
        }
    }
  }

  /** `fetchSubmissions()` as written: a throw inside the grouping lands in the
      catch and shows the error panel, and the cards carry the delete call the
      page writes. */
  function FetchSubmissionsAsWritten(resp: Option<Response>): (p: Page)
    ensures p == LoginPage <==> resp.Some? && resp.value.status == 401
    ensures p == NoSubmissions <==> resp.Some? && Ok(resp.value) && resp.value.body == Some([])
    ensures p.Listing? <==> && resp.Some? && Ok(resp.value) && resp.value.body.Some? && resp.value.body.value != []
                            && forall i | 0 <= i < |resp.value.body.value| :: resp.value.body.value[i].teamName !in PrototypeMembers
    ensures p.Listing? ==> p.sections == DisplaySubmissions(EscapeOnly, GroupByTeam(resp.value.body.value))
  {
    match resp
    case None => ErrorPanel
    case Some(r) =>
      if r.status == 401 then LoginPage
      else if !Ok(r) then ErrorPanel
      else match r.body
        case None => ErrorPanel
        case Some(s) =>
          if |s| == 0 then NoSubmissions
          else
            AsWrittenThrowsOnInheritedNames(s);
            match GroupByTeamAsWritten(s)
            case None => ErrorPanel
            case Some(gs) => Listing(DisplaySubmissions(EscapeOnly, gs))
  }

  /** A team called "constructor" makes the whole listing fail. */
  lemma ConstructorTeamBreaksListing()
    ensures var s := [Submission(1, "constructor", "Bot", "A bot", "https://github.com/a/b")];
      && FetchSubmissionsAsWritten(Some(Response(200, Some(s)))) == ErrorPanel
      && FetchSubmissions(Some(Response(200, Some(s)))).Listing?
  {
    var x := Submission(1, "constructor", "Bot", "A bot", "https://github.com/a/b");
    var s := [x];
    assert s[..|s| - 1] == [];
    assert IndexOf([], x.teamName).None?;
    assert AddAsWritten([], x) == None;
    assert GroupByTeamAsWritten(s) == None;
  }

  // ---------------------------------------------------------------------------
  // The delete button as written
  // ---------------------------------------------------------------------------

  /** The `onclick` value as written: the name is only HTML-escaped. */
  function DeleteCallAsWritten(id: int, name: string): string {
    CallPrefix(id) + Html.EscapeHtml(name) + "')"
  }

  /** As written, the handler lexes the raw project name. */
  lemma AsWrittenLexesRawName(id: int, name: string)
    ensures NameArgument(id, DeleteCallAsWritten(id, name)) == Html.ReadQuoted(name + "')")
  {
    NameArgumentOf(id, name);
  }

  lemma ReadCutName()
    ensures Html.ReadQuoted("a'b')") == Some(Html.Lexed("a", "b')"))
  {
    var u := "a'b')";
    assert u[0] == 'a' && u[1..] == "'b')" && u[1..][1..] == "b')";
    assert Html.ReadQuoted(u[1..]) == Some(Html.Lexed([], "b')"));
    assert ['a'] + [] == "a";
  }

  /** A quote in the project name ends the literal early: for "a'b" the
      literal holds "a" and is followed by `b')`, which cannot continue the
      call, so the handler does not compile and the button does nothing. */
  lemma QuoteInNameBreaksDeleteCall()
    ensures NameArgument(7, DeleteCallAsWritten(7, "a'b")) == Some(Html.Lexed("a", "b')"))
  {
    AsWrittenLexesRawName(7, "a'b");
    assert "a'b" + "')" == "a'b')";
    ReadCutName();
  }

  lemma ReadInjected()
    ensures Html.ReadQuoted("x');alert(1);('" + "')") == Some(Html.Lexed("x", ");alert(1);('')"))
  {
    var u := "x');alert(1);('" + "')";
    assert u[0] == 'x' && u[1] == '\'' && u[1..][1..] == ");alert(1);('')";
    assert Html.ReadQuoted(u[1..]) == Some(Html.Lexed([], ");alert(1);('')"));
    assert ['x'] + [] == "x";
  }

  /** For the name "x');alert(1);('" the call closes after "x", and
      `alert(1)` follows as a statement of its own: clicking Delete runs it. */
  lemma QuoteInNameInjectsCode()
    ensures NameArgument(7, DeleteCallAsWritten(7, "x');alert(1);('")) == Some(Html.Lexed("x", ");alert(1);('')"))
  {
    AsWrittenLexesRawName(7, "x');alert(1);('");
    ReadInjected();
  }
}
