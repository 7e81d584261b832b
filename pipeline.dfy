/** One run of `fetch_news` over a page of headlines, and the module-level
    state it updates: the set of headlines already forwarded (loaded from the
    sent file at start-up), the set of headlines evaluated in this run, the
    sent file itself, the classifier requests made and the alerts sent.

    `Process` and `Run` state what one article and a whole page do to that
    state; `NewsAnalyzer.FetchNews` is the loop itself, proved to do what
    `Cycle` says. The classifier is a function from headline to reply; the
    chat service is modelled by the list of alerts it receives. */
module Pipeline {
  import opened Text
  import opened ReplyParser
  import opened Gate
  import opened Timestamp
  import opened SentFile
  import opened Message

  /** An entry of the news service's `articles` list. */
  datatype Article = Article(title: string, publishedAt: Option<string>)

  /** The news service's reply: its `status` field (absent is `None`) and
      its articles. */
  datatype Feed = Feed(status: Option<string>, articles: seq<Article>)

  /** A message handed to the chat service, with what it was built from. */
  datatype Alert = Alert(title: string, published: string, verdict: Verdict, message: string)

  /** The analyzer's state: `SENT_HEADLINES`, `EVALUATED_HEADLINES`, the sent
      file, the headlines given to the classifier and the alerts sent, in order. */
  datatype State = State(sent: set<string>, evaluated: set<string>, file: File,
                         requests: seq<string>, alerts: seq<Alert>)

  /** The state at start-up: the sent set is loaded from the file. */
  function Start(file: File): (s: State)
    ensures s.sent == Load(file) && s.evaluated == {} && s.file == file
    ensures s.requests == [] && s.alerts == []
  {
    State(Load(file), {}, file, [], [])
  }

  /** The state after forwarding an alert for `title`: the message is sent,
      the title appended to the file and added to the sent set. */
  function Forward(s: State, title: string, published: string, v: Verdict): State {
    s.(alerts := s.alerts + [Alert(title, published, v, FormatResult(title, v, published))],
       file := Save(s.file, title), sent := s.sent + {title})
  }

  /** One iteration of the loop over the articles. */
  function Process(s: State, a: Article, classify: string -> Reply): (r: State)
    ensures s.evaluated <= r.evaluated && s.sent <= r.sent
    ensures r.sent <= s.sent + {a.title}
    ensures a.title in r.sent - s.sent ==> a.title in r.evaluated
    ensures r.evaluated == if a.title in s.evaluated || a.title in s.sent then s.evaluated
                           else s.evaluated + {a.title}
    ensures r.requests == s.requests || (r.requests == s.requests + [a.title] && IsRelevant(a.title)
                                         && a.title !in s.evaluated && a.title !in s.sent)
    ensures r.requests != s.requests <==> a.title !in s.evaluated && a.title !in s.sent && IsRelevant(a.title)
    ensures r.alerts != s.alerts <==>
      a.title !in s.evaluated && a.title !in s.sent && IsRelevant(a.title)
      && Dispatches(a.title, Analysis(classify(a.title)))
    ensures r.alerts == s.alerts ==> r.sent == s.sent && r.file == s.file
    ensures r.alerts != s.alerts ==>
      |r.alerts| == |s.alerts| + 1 && r.alerts[..|s.alerts|] == s.alerts
      && r.requests == s.requests + [a.title]
      && r.alerts[|s.alerts|].title == a.title
      && r.alerts[|s.alerts|].published == Reformat(a.publishedAt)
      && r.alerts[|s.alerts|].verdict == Analysis(classify(a.title))
      && r.alerts[|s.alerts|].message == FormatResult(a.title, Analysis(classify(a.title)), Reformat(a.publishedAt))
      && Dispatches(a.title, Analysis(classify(a.title)))
      && r.sent == s.sent + {a.title} && r.file == Save(s.file, a.title)
  {
    var title := a.title;
    var published := Reformat(a.publishedAt);
    if title in s.evaluated || title in s.sent then s
    else
      var s1 := s.(evaluated := s.evaluated + {title});
      if IsRelevant(title) then
        var v := Analysis(classify(title));
        var s2 := s1.(requests := s1.requests + [title]);
        if Dispatches(title, v) then Forward(s2, title, published, v) else s2
      else s1
  }

  /** The loop over a list of articles, one `Process` per article in order. */
  function Run(s: State, articles: seq<Article>, classify: string -> Reply): (r: State)
    ensures s.evaluated <= r.evaluated && s.sent <= r.sent
    ensures r.sent <= s.sent + r.evaluated
    ensures s.requests <= r.requests && s.alerts <= r.alerts
    ensures forall i :: |s.requests| <= i < |r.requests| ==> r.requests[i] in r.evaluated
    decreases |articles|
  {
    if articles == [] then s
    else Process(Run(s, articles[..|articles| - 1], classify), articles[|articles| - 1], classify)
  }

  /** `fetch_news`: a reply whose status is not "ok" ends the run unchanged. */
  function Cycle(s: State, feed: Feed, classify: string -> Reply): State {
    if feed.status == Some("ok") then Run(s, feed.articles, classify) else s
  }

  lemma RunSnoc(s: State, articles: seq<Article>, a: Article, classify: string -> Reply)
    ensures Run(s, articles + [a], classify) == Process(Run(s, articles, classify), a, classify)
  {
    assert (articles + [a])[..|articles|] == articles;
  }

  /** The titles of a list of alerts, in order. */
  function Titles(alerts: seq<Alert>): (ts: seq<string>)
    ensures |ts| == |alerts|
    ensures forall j :: 0 <= j < |alerts| ==> ts[j] == alerts[j].title
  {
    if alerts == [] then [] else Titles(alerts[..|alerts| - 1]) + [alerts[|alerts| - 1].title]
  }

  /** The titles of a list of articles, in order. */
  function ArticleTitles(articles: seq<Article>): (ts: seq<string>)
    ensures |ts| == |articles|
    ensures forall j :: 0 <= j < |articles| ==> ts[j] == articles[j].title
  {
    seq(|articles|, j requires 0 <= j < |articles| => articles[j].title)
  }

  /** The file after saving each title in turn. */
  function SaveAll(file: File, titles: seq<string>): File {
    if titles == [] then file else Save(SaveAll(file, titles[..|titles| - 1]), titles[|titles| - 1])
  }

  // ---------------------------------------------------------------------------
  // Properties of a run

  /** Every request made since `s` is for a relevant headline that was
      neither evaluated nor sent in `s`. */
  predicate RequestsFresh(s: State, r: State) {
    |s.requests| <= |r.requests|
    && forall i :: |s.requests| <= i < |r.requests| ==>
         IsRelevant(r.requests[i]) && r.requests[i] !in s.evaluated && r.requests[i] !in s.sent
  }

  /** No headline is requested twice since `s`. */
  predicate RequestsDistinct(s: State, r: State) {
    forall i, j :: |s.requests| <= i < j < |r.requests| ==> r.requests[i] != r.requests[j]
  }

  /** Only relevant headlines reach the classifier, none already evaluated or
      already sent when the run began, and none twice in a run. */
  lemma {:induction false} RequestsAreFreshAndDistinct(s: State, articles: seq<Article>, classify: string -> Reply)
    ensures RequestsFresh(s, Run(s, articles, classify))
    ensures RequestsDistinct(s, Run(s, articles, classify))
  {
    if articles != [] {
      var init, a := articles[..|articles| - 1], articles[|articles| - 1];
      RequestsAreFreshAndDistinct(s, init, classify);
      RequestsStep(s, Run(s, init, classify), a, classify);
    }
  }

  /** One article keeps the requests of a run fresh and distinct. */
  lemma RequestsStep(s: State, m: State, a: Article, classify: string -> Reply)
    requires s.evaluated <= m.evaluated && s.sent <= m.sent
    requires forall i :: |s.requests| <= i < |m.requests| ==> m.requests[i] in m.evaluated
    requires RequestsFresh(s, m) && RequestsDistinct(s, m)
    ensures RequestsFresh(s, Process(m, a, classify)) && RequestsDistinct(s, Process(m, a, classify))
  {
    var r := Process(m, a, classify);
    if r.requests != m.requests {
      assert r.requests == m.requests + [a.title];
      forall i | |s.requests| <= i < |m.requests|
        ensures r.requests[i] == m.requests[i] && r.requests[i] != a.title
      {
        assert m.requests[i] in m.evaluated;
      }
    }
  }

  /** What an alert of a run satisfies: it is for a headline of the page that
      was given to the classifier in that run, carries the classifier's
      verdict on it and the message built from it, and passed the gate (at
      least 60 percent and not neutral). */
  predicate AlertPassed(al: Alert, requested: seq<string>, titles: seq<string>, classify: string -> Reply) {
    al.title in requested && al.title in titles
    && al.verdict == Analysis(classify(al.title))
    && al.message == FormatResult(al.title, al.verdict, al.published)
    && Dispatches(al.title, al.verdict)
    && al.verdict.confidence >= ForceThreshold && al.verdict.direction != "neutral"
  }

  /** Every alert added since `s` passed, against the requests made since `s`. */
  predicate AlertsPassed(s: State, r: State, titles: seq<string>, classify: string -> Reply) {
    |s.requests| <= |r.requests|
    && forall j :: |s.alerts| <= j < |r.alerts| ==>
         AlertPassed(r.alerts[j], r.requests[|s.requests|..], titles, classify)
  }

  /** Every alert of a run passed the gate on the classifier's verdict for a
      headline of the page classified in that run. */
  lemma {:induction false} AlertsPassGate(s: State, articles: seq<Article>, classify: string -> Reply)
    ensures AlertsPassed(s, Run(s, articles, classify), ArticleTitles(articles), classify)
  {
    if articles != [] {
      var init, a := articles[..|articles| - 1], articles[|articles| - 1];
      AlertsPassGate(s, init, classify);
      AlertsPassStep(s, Run(s, init, classify), a, ArticleTitles(init), classify);
      assert ArticleTitles(articles) == ArticleTitles(init) + [a.title];
    }
  }

  /** One article keeps every alert of the run passed. */
  lemma AlertsPassStep(s: State, m: State, a: Article, titles: seq<string>, classify: string -> Reply)
    requires AlertsPassed(s, m, titles, classify)
    ensures AlertsPassed(s, Process(m, a, classify), titles + [a.title], classify)
  {
    var r := Process(m, a, classify);
    EarlierAlertsPass(s, m, r, titles, a.title, classify);
    if r.alerts != m.alerts {
      NewAlertPasses(s, m, r, a, titles, classify);
    }
  }

  /** The alert an article adds passes. */
  lemma NewAlertPasses(s: State, m: State, r: State, a: Article, titles: seq<string>, classify: string -> Reply)
    requires |s.requests| <= |m.requests| && |r.alerts| == |m.alerts| + 1
    requires r.requests == m.requests + [a.title]
    requires r.alerts[|m.alerts|].title == a.title
    requires r.alerts[|m.alerts|].verdict == Analysis(classify(a.title))
    requires r.alerts[|m.alerts|].message
          == FormatResult(a.title, r.alerts[|m.alerts|].verdict, r.alerts[|m.alerts|].published)
    requires Dispatches(a.title, Analysis(classify(a.title)))
    ensures AlertPassed(r.alerts[|m.alerts|], r.requests[|s.requests|..], titles + [a.title], classify)
  {
    var v := Analysis(classify(a.title));
    assert Decide(a.title, v, ForceReview) != Skip;
    assert r.requests[|s.requests|..][|m.requests| - |s.requests|] == a.title;
  }

  /** Alerts that passed still pass once the run goes on. */
  lemma EarlierAlertsPass(s: State, m: State, r: State, titles: seq<string>, t: string, classify: string -> Reply)
    requires AlertsPassed(s, m, titles, classify)
    requires m.alerts <= r.alerts && m.requests <= r.requests
    ensures forall j :: |s.alerts| <= j < |m.alerts| ==>
      AlertPassed(r.alerts[j], r.requests[|s.requests|..], titles + [t], classify)
  {
    assert m.requests[|s.requests|..] <= r.requests[|s.requests|..];
    forall j | |s.alerts| <= j < |m.alerts|
      ensures AlertPassed(r.alerts[j], r.requests[|s.requests|..], titles + [t], classify)
    {
      assert r.alerts[j] == m.alerts[j];
    }
  }

  lemma TitlesSnoc(alerts: seq<Alert>, al: Alert)
    ensures Titles(alerts + [al]) == Titles(alerts) + [al.title]
  {
    assert (alerts + [al])[..|alerts|] == alerts;
  }

  lemma SaveAllSnoc(file: File, titles: seq<string>, t: string)
    ensures SaveAll(file, titles + [t]) == Save(SaveAll(file, titles), t)
  {
    assert (titles + [t])[..|titles|] == titles;
  }

  /** The sent set holds what it held in `s` and the titles alerted since,
      and nothing else; the file is that of `s` with those titles appended
      in order. */
  ghost predicate SentMatchesAlerts(s: State, r: State) {
    s.alerts <= r.alerts
    && r.file == SaveAll(s.file, Titles(r.alerts[|s.alerts|..]))
    && forall t :: t in r.sent <==> t in s.sent || t in Titles(r.alerts[|s.alerts|..])
  }

  /** The sent set grows by exactly the titles alerted, and the file by
      those titles appended in order. */
  lemma {:induction false} SentFollowsAlerts(s: State, articles: seq<Article>, classify: string -> Reply)
    ensures SentMatchesAlerts(s, Run(s, articles, classify))
  {
    if articles != [] {
      var init, a := articles[..|articles| - 1], articles[|articles| - 1];
      SentFollowsAlerts(s, init, classify);
      SentFollowsStep(s, Run(s, init, classify), a, classify);
    }
  }

  /** One article keeps the sent set and the file in step with the alerts. */
  lemma SentFollowsStep(s: State, m: State, a: Article, classify: string -> Reply)
    requires SentMatchesAlerts(s, m)
    ensures SentMatchesAlerts(s, Process(m, a, classify))
  {
    var r := Process(m, a, classify);
    if r.alerts != m.alerts {
      SentFollowsNewAlert(s, m, r, r.alerts[|m.alerts|]);
    } else {
      assert r.alerts[|s.alerts|..] == m.alerts[|s.alerts|..];
    }
  }

  /** An alert, the title it adds to the sent set and to the file. */
  lemma SentFollowsNewAlert(s: State, m: State, r: State, al: Alert)
    requires SentMatchesAlerts(s, m)
    requires r.alerts == m.alerts + [al]
    requires r.sent == m.sent + {al.title} && r.file == Save(m.file, al.title)
    ensures SentMatchesAlerts(s, r)
  {
    var before := m.alerts[|s.alerts|..];
    assert r.alerts[|s.alerts|..] == before + [al];
    TitlesSnoc(before, al);
    SaveAllSnoc(s.file, Titles(before), al.title);
  }

  /** No headline is forwarded twice in a run, and none that was already
      sent when it began. */
  lemma AlertTitlesDistinct(s: State, articles: seq<Article>, classify: string -> Reply)
    ensures var r := Run(s, articles, classify);
      forall i, j :: |s.alerts| <= i < j < |r.alerts| ==> r.alerts[i].title != r.alerts[j].title
    ensures var r := Run(s, articles, classify);
      forall j :: |s.alerts| <= j < |r.alerts| ==> r.alerts[j].title !in s.sent
  {
    var r := Run(s, articles, classify);
    AlertsPassGate(s, articles, classify);
    RequestsAreFreshAndDistinct(s, articles, classify);
    forall i, j | |s.alerts| <= i < j < |r.alerts|
      ensures r.alerts[i].title != r.alerts[j].title
    {
      AlertTitleStep(s, articles, classify, i, j);
    }
  }

  /** An earlier alert of a run is for a different headline than a later one. */
  lemma {:induction false} AlertTitleStep(s: State, articles: seq<Article>, classify: string -> Reply, i: nat, j: nat)
    requires |s.alerts| <= i < j < |Run(s, articles, classify).alerts|
    ensures Run(s, articles, classify).alerts[i].title != Run(s, articles, classify).alerts[j].title
  {
    var init, a := articles[..|articles| - 1], articles[|articles| - 1];
    var m := Run(s, init, classify);
    var r := Process(m, a, classify);
    assert r == Run(s, articles, classify);
    if j < |m.alerts| {
      AlertTitleStep(s, init, classify, i, j);
      assert r.alerts[i] == m.alerts[i] && r.alerts[j] == m.alerts[j];
    } else {
      SentFollowsAlerts(s, init, classify);
      assert r.alerts[i] == m.alerts[i];
      assert m.alerts[|s.alerts|..][i - |s.alerts|] == m.alerts[i];
      assert m.alerts[i].title in Titles(m.alerts[|s.alerts|..]);
    }
  }

  /** After a run, the evaluated set holds what it held before and every
      headline of the page that was not already sent. */
  lemma {:induction false} EvaluatedHeadlines(s: State, articles: seq<Article>, classify: string -> Reply)
    ensures forall t :: t in Run(s, articles, classify).evaluated <==>
      t in s.evaluated || (t in ArticleTitles(articles) && t !in s.sent)
  {
    if articles != [] {
      var init, a := articles[..|articles| - 1], articles[|articles| - 1];
      EvaluatedHeadlines(s, init, classify);
      var m := Run(s, init, classify);
      var r := Process(m, a, classify);
      assert r == Run(s, articles, classify);
      assert ArticleTitles(articles) == ArticleTitles(init) + [a.title];
    }
  }

  /** A headline already sent when the run begins is never classified nor
      forwarded again, and not marked as evaluated. */
  lemma SentHeadlineSkipped(s: State, articles: seq<Article>, classify: string -> Reply, t: string)
    requires t in s.sent
    ensures var r := Run(s, articles, classify);
      t !in r.requests[|s.requests|..] && t !in Titles(r.alerts[|s.alerts|..])
      && (t in r.evaluated <==> t in s.evaluated)
  {
    var r := Run(s, articles, classify);
    RequestsAreFreshAndDistinct(s, articles, classify);
    AlertsPassGate(s, articles, classify);
    EvaluatedHeadlines(s, articles, classify);
    NotAmongNewRequests(s, r, t);
    NotAmongNewAlerts(s, r, ArticleTitles(articles), classify, t);
  }

  lemma NotAmongNewRequests(s: State, r: State, t: string)
    requires RequestsFresh(s, r) && t in s.sent
    ensures t !in r.requests[|s.requests|..]
  {
    forall k | 0 <= k < |r.requests| - |s.requests|
      ensures r.requests[|s.requests|..][k] != t
    {
      assert r.requests[|s.requests|..][k] == r.requests[|s.requests| + k];
    }
  }

  lemma NotAmongNewAlerts(s: State, r: State, titles: seq<string>, classify: string -> Reply, t: string)
    requires s.alerts <= r.alerts && AlertsPassed(s, r, titles, classify)
    requires t !in r.requests[|s.requests|..]
    ensures t !in Titles(r.alerts[|s.alerts|..])
  {
    forall k | 0 <= k < |r.alerts| - |s.alerts|
      ensures Titles(r.alerts[|s.alerts|..])[k] != t
    {
      assert r.alerts[|s.alerts|..][k] == r.alerts[|s.alerts| + k];
    }
  }

  /** Whether the analyzer forwards `t` on the classifier's verdict. */
  function Passes(classify: string -> Reply): string -> bool {
    t => Dispatches(t, Analysis(classify(t)))
  }

  /** The titles among `ts` that `pass` accepts, in order. */
  function Dispatched(ts: seq<string>, pass: string -> bool): (d: seq<string>)
    ensures |d| <= |ts|
  {
    if ts == [] then []
    else Dispatched(ts[..|ts| - 1], pass) + (if pass(ts[|ts| - 1]) then [ts[|ts| - 1]] else [])
  }

  lemma DispatchedSnoc(ts: seq<string>, t: string, pass: string -> bool)
    ensures Dispatched(ts + [t], pass) == Dispatched(ts, pass) + (if pass(t) then [t] else [])
  {
    assert (ts + [t])[..|ts|] == ts;
  }

  /** The titles kept are those of `ts` that `pass` accepts. */
  lemma {:induction false} DispatchedMembers(ts: seq<string>, t: string, pass: string -> bool)
    ensures t in Dispatched(ts, pass) <==> t in ts && pass(t)
  {
    if ts != [] {
      var init, u := ts[..|ts| - 1], ts[|ts| - 1];
      DispatchedMembers(init, t, pass);
      assert ts == init + [u];
    }
  }

  /** The alerts added since `s` are, in order, for the titles requested
      since `s` that `pass` accepts. */
  predicate AlertsMatchRequests(s: State, r: State, pass: string -> bool) {
    s.alerts <= r.alerts && s.requests <= r.requests
    && Titles(r.alerts[|s.alerts|..]) == Dispatched(r.requests[|s.requests|..], pass)
  }

  /** A run forwards exactly the classified headlines whose verdict passes the
      gate, in the order they were classified: none that passes is dropped. */
  lemma {:induction false} AlertsFollowRequests(s: State, articles: seq<Article>, classify: string -> Reply)
    ensures AlertsMatchRequests(s, Run(s, articles, classify), Passes(classify))
  {
    if articles == [] {
      assert s.alerts[|s.alerts|..] == [] && s.requests[|s.requests|..] == [];
    } else {
      var init, a := articles[..|articles| - 1], articles[|articles| - 1];
      AlertsFollowRequests(s, init, classify);
      AlertsFollowStep(s, Run(s, init, classify), a, classify);
    }
  }

  /** One article keeps the alerts in step with the requests. */
  lemma AlertsFollowStep(s: State, m: State, a: Article, classify: string -> Reply)
    requires AlertsMatchRequests(s, m, Passes(classify))
    ensures AlertsMatchRequests(s, Process(m, a, classify), Passes(classify))
  {
    var r := Process(m, a, classify);
    var t := a.title;
    if t in m.evaluated || t in m.sent || !IsRelevant(t) {
      assert r.requests == m.requests && r.alerts == m.alerts;
    } else if Dispatches(t, Analysis(classify(t))) {
      assert r.requests == m.requests + [t];
      assert r.alerts == m.alerts + [r.alerts[|m.alerts|]];
      AlertsFollowNewAlert(s, m, r, t, r.alerts[|m.alerts|], Passes(classify));
    } else {
      assert r.requests == m.requests + [t] && r.alerts == m.alerts;
      AlertsFollowNoAlert(s, m, r, t, Passes(classify));
    }
  }

  /** A request that passes, and its alert. */
  lemma AlertsFollowNewAlert(s: State, m: State, r: State, t: string, al: Alert, pass: string -> bool)
    requires AlertsMatchRequests(s, m, pass)
    requires r.requests == m.requests + [t] && r.alerts == m.alerts + [al] && al.title == t
    requires pass(t)
    ensures AlertsMatchRequests(s, r, pass)
  {
    var ms, ma := m.requests[|s.requests|..], m.alerts[|s.alerts|..];
    assert r.requests[|s.requests|..] == ms + [t];
    assert r.alerts[|s.alerts|..] == ma + [al];
    DispatchedSnoc(ms, t, pass);
    TitlesSnoc(ma, al);
  }

  /** A request that does not pass adds no alert. */
  lemma AlertsFollowNoAlert(s: State, m: State, r: State, t: string, pass: string -> bool)
    requires AlertsMatchRequests(s, m, pass)
    requires r.requests == m.requests + [t] && r.alerts == m.alerts
    requires !pass(t)
    ensures AlertsMatchRequests(s, r, pass)
  {
    var ms := m.requests[|s.requests|..];
    assert r.requests[|s.requests|..] == ms + [t];
    DispatchedSnoc(ms, t, pass);
  }

  /** The headlines requested since `s` are the relevant ones of `titles`
      that were neither evaluated nor sent in `s`. */
  ghost predicate RequestedMatch(s: State, r: State, titles: seq<string>) {
    |s.requests| <= |r.requests|
    && forall t :: t in r.requests[|s.requests|..] <==>
         t in titles && t !in s.evaluated && t !in s.sent && IsRelevant(t)
  }

  /** The headlines evaluated by `r` are those of `s` and those of `titles`
      not sent in `s`. */
  ghost predicate EvaluatedMatch(s: State, r: State, titles: seq<string>) {
    forall t :: t in r.evaluated <==> t in s.evaluated || (t in titles && t !in s.sent)
  }

  /** The headlines classified in a run are exactly the relevant headlines
      of the page that were neither evaluated nor sent when it began. */
  lemma {:induction false} RequestedHeadlines(s: State, articles: seq<Article>, classify: string -> Reply)
    ensures RequestedMatch(s, Run(s, articles, classify), ArticleTitles(articles))
  {
    if articles == [] {
      assert s.requests[|s.requests|..] == [];
    } else {
      var init, a := articles[..|articles| - 1], articles[|articles| - 1];
      RequestedHeadlines(s, init, classify);
      EvaluatedHeadlines(s, init, classify);
      RequestedStep(s, Run(s, init, classify), a, ArticleTitles(init), classify);
      assert ArticleTitles(articles) == ArticleTitles(init) + [a.title];
    }
  }

  /** One article keeps the requests matched with the page so far. */
  lemma RequestedStep(s: State, m: State, a: Article, titles: seq<string>, classify: string -> Reply)
    requires s.evaluated <= m.evaluated && s.sent <= m.sent && m.sent <= s.sent + m.evaluated
    requires RequestedMatch(s, m, titles) && EvaluatedMatch(s, m, titles)
    ensures RequestedMatch(s, Process(m, a, classify), titles + [a.title])
  {
    var r := Process(m, a, classify);
    var t := a.title;
    if t in m.evaluated || t in m.sent || !IsRelevant(t) {
      assert r.requests == m.requests;
      RequestedSame(s, m, r, t, titles);
    } else {
      assert r.requests == m.requests + [t];
      RequestedNew(s, m, r, t, titles);
    }
  }

  lemma RequestedNew(s: State, m: State, r: State, t: string, titles: seq<string>)
    requires s.evaluated <= m.evaluated && RequestedMatch(s, m, titles)
    requires r.requests == m.requests + [t]
    requires t !in m.evaluated && t !in s.sent && IsRelevant(t)
    ensures RequestedMatch(s, r, titles + [t])
  {
    assert r.requests[|s.requests|..] == m.requests[|s.requests|..] + [t];
  }

  lemma RequestedSame(s: State, m: State, r: State, t: string, titles: seq<string>)
    requires m.sent <= s.sent + m.evaluated
    requires RequestedMatch(s, m, titles) && EvaluatedMatch(s, m, titles)
    requires r.requests == m.requests
    requires t in m.evaluated || t in m.sent || !IsRelevant(t)
    ensures RequestedMatch(s, r, titles + [t])
  {
  }

  /** A headline of the page, neither evaluated nor sent when the run
      begins, is forwarded in that run exactly when it is relevant and the
      gate passes the classifier's verdict on it. */
  lemma ForwardedIffGatePasses(s: State, articles: seq<Article>, classify: string -> Reply, t: string)
    requires t in ArticleTitles(articles) && t !in s.evaluated && t !in s.sent
    ensures t in Titles(Run(s, articles, classify).alerts[|s.alerts|..]) <==>
      IsRelevant(t) && Dispatches(t, Analysis(classify(t)))
  {
    AlertsFollowRequests(s, articles, classify);
    RequestedHeadlines(s, articles, classify);
    var r := Run(s, articles, classify);
    DispatchedMembers(r.requests[|s.requests|..], t, Passes(classify));
    assert t in Run(s, articles, classify).requests[|s.requests|..] <==> IsRelevant(t);
  }

  // ---------------------------------------------------------------------------
  // Across runs: the next start-up reads the file this run wrote

  /** Saving titles one by one onto a saved text gives the saved text of all. */
  lemma {:induction false} SaveAllSaved(ts: seq<string>, added: seq<string>)
    ensures SaveAll(Some(SavedText(ts)), added) == Some(SavedText(ts + added))
  {
    if added == [] {
      assert ts + added == ts;
    } else {
      var init, t := added[..|added| - 1], added[|added| - 1];
      SaveAllSaved(ts, init);
      SaveExtends(ts + init, t);
      assert ts + init + [t] == ts + added;
    }
  }

  /** Alerts are for headlines of the page, so they keep the page's lack of
      line breaks. */
  lemma AlertTitlesHaveNoBreak(s: State, articles: seq<Article>, classify: string -> Reply)
    requires forall i :: 0 <= i < |articles| ==> NoLineBreak(articles[i].title)
    ensures forall j :: |s.alerts| <= j < |Run(s, articles, classify).alerts| ==>
      NoLineBreak(Run(s, articles, classify).alerts[j].title)
  {
    var r := Run(s, articles, classify);
    AlertsPassGate(s, articles, classify);
    forall j | |s.alerts| <= j < |r.alerts|
      ensures NoLineBreak(r.alerts[j].title)
    {
      var k :| 0 <= k < |ArticleTitles(articles)| && ArticleTitles(articles)[k] == r.alerts[j].title;
    }
  }

  /** Titles without line breaks, followed by alerts without them. */
  lemma SavedTitlesHaveNoBreak(ts: seq<string>, alerts: seq<Alert>)
    requires forall i :: 0 <= i < |ts| ==> NoLineBreak(ts[i])
    requires forall j :: 0 <= j < |alerts| ==> NoLineBreak(alerts[j].title)
    ensures forall i :: 0 <= i < |ts + Titles(alerts)| ==> NoLineBreak((ts + Titles(alerts))[i])
  {
    var all := ts + Titles(alerts);
    forall i | 0 <= i < |all|
      ensures NoLineBreak(all[i])
    {
      if i >= |ts| {
        assert all[i] == alerts[i - |ts|].title;
      } else {
        assert all[i] == ts[i];
      }
    }
  }

  /** A run that starts from a file written by earlier saves leaves a file
      written by saves of the earlier titles and then the titles it alerted;
      the next start-up loads all of them, stripped. */
  lemma NextStartLoadsAlerts(ts: seq<string>, articles: seq<Article>, classify: string -> Reply)
    requires forall i :: 0 <= i < |ts| ==> NoLineBreak(ts[i])
    requires forall i :: 0 <= i < |articles| ==> NoLineBreak(articles[i].title)
    ensures Start(Run(Start(Some(SavedText(ts))), articles, classify).file).sent
         == StrippedSet(ts + Titles(Run(Start(Some(SavedText(ts))), articles, classify).alerts))
  {
    RunLoadsAlerts(ts, Start(Some(SavedText(ts))), articles, classify);
  }

  /** The same, for any state holding the saved file and no alerts yet. */
  lemma RunLoadsAlerts(ts: seq<string>, s: State, articles: seq<Article>, classify: string -> Reply)
    requires forall i :: 0 <= i < |ts| ==> NoLineBreak(ts[i])
    requires forall i :: 0 <= i < |articles| ==> NoLineBreak(articles[i].title)
    requires s.file == Some(SavedText(ts)) && s.alerts == []
    ensures Load(Run(s, articles, classify).file) == StrippedSet(ts + Titles(Run(s, articles, classify).alerts))
  {
    var r := Run(s, articles, classify);
    RunFile(ts, s, articles, classify);
    RunTitlesHaveNoBreak(ts, s, articles, classify);
    LoadOfSavedFile(r.file, ts + Titles(r.alerts));
  }

  lemma LoadOfSavedFile(file: File, titles: seq<string>)
    requires forall i :: 0 <= i < |titles| ==> NoLineBreak(titles[i])
    requires file == Some(SavedText(titles))
    ensures Load(file) == StrippedSet(titles)
  {
    LoadOfSaves(titles);
  }

  /** The earlier titles and those a run alerted have no line breaks. */
  lemma RunTitlesHaveNoBreak(ts: seq<string>, s: State, articles: seq<Article>, classify: string -> Reply)
    requires forall i :: 0 <= i < |ts| ==> NoLineBreak(ts[i])
    requires forall i :: 0 <= i < |articles| ==> NoLineBreak(articles[i].title)
    requires s.alerts == []
    ensures forall i :: 0 <= i < |ts + Titles(Run(s, articles, classify).alerts)| ==>
      NoLineBreak((ts + Titles(Run(s, articles, classify).alerts))[i])
  {
    var r := Run(s, articles, classify);
    AlertTitlesHaveNoBreak(s, articles, classify);
    SavedTitlesHaveNoBreak(ts, r.alerts);
  }

  lemma RunFile(ts: seq<string>, s: State, articles: seq<Article>, classify: string -> Reply)
    requires s.file == Some(SavedText(ts)) && s.alerts == []
    ensures Run(s, articles, classify).file == Some(SavedText(ts + Titles(Run(s, articles, classify).alerts)))
  {
    SentFollowsAlerts(s, articles, classify);
    RunFileSaved(ts, s, Run(s, articles, classify));
  }

  /** A state that started with no alerts from a saved file holds the saved
      text of the earlier titles and then the alerted ones. */
  lemma RunFileSaved(ts: seq<string>, s: State, r: State)
    requires s.file == Some(SavedText(ts)) && s.alerts == []
    requires SentMatchesAlerts(s, r)
    ensures r.file == Some(SavedText(ts + Titles(r.alerts)))
  {
    assert r.alerts[|s.alerts|..] == r.alerts;
    SaveAllSaved(ts, Titles(r.alerts));
  }

  /** A forwarded headline without surrounding whitespace is skipped by the
      next run: the state does not change when it comes again. */
  lemma TrimmedAlertSkippedNextRun(ts: seq<string>, articles: seq<Article>, classify: string -> Reply,
                                   j: nat, published: Option<string>, next: string -> Reply)
    requires forall i :: 0 <= i < |ts| ==> NoLineBreak(ts[i])
    requires forall i :: 0 <= i < |articles| ==> NoLineBreak(articles[i].title)
    requires j < |Run(Start(Some(SavedText(ts))), articles, classify).alerts|
    requires IsTrimmed(Run(Start(Some(SavedText(ts))), articles, classify).alerts[j].title)
    ensures var r := Run(Start(Some(SavedText(ts))), articles, classify);
      Process(Start(r.file), Article(r.alerts[j].title, published), next) == Start(r.file)
  {
    var r := Run(Start(Some(SavedText(ts))), articles, classify);
    var t := r.alerts[j].title;
    NextStartLoadsAlerts(ts, articles, classify);
    StrippedSetHas(ts + Titles(r.alerts), |ts| + j);
    StripIdentity(t);
  }

  /** A forwarded headline with surrounding whitespace is not recognised after
      a restart: the next run classifies it again. */
  lemma PaddedAlertClassifiedNextRun(file: File, articles: seq<Article>, classify: string -> Reply,
                                     j: nat, published: Option<string>, next: string -> Reply)
    requires j < |Run(Start(file), articles, classify).alerts|
    requires !IsTrimmed(Run(Start(file), articles, classify).alerts[j].title)
    ensures var r := Run(Start(file), articles, classify);
      Process(Start(r.file), Article(r.alerts[j].title, published), next).requests == [r.alerts[j].title]
  {
    var r := Run(Start(file), articles, classify);
    var t := r.alerts[j].title;
    AlertIsRelevant(Start(file), articles, classify, j);
    UntrimmedTitleNeverLoaded(r.file, t);
    FreshRelevantRequested(Start(r.file), Article(t, published), next);
  }

  /** Every alert of a run is for a relevant headline. */
  lemma AlertIsRelevant(s: State, articles: seq<Article>, classify: string -> Reply, j: nat)
    requires |s.alerts| <= j < |Run(s, articles, classify).alerts|
    ensures IsRelevant(Run(s, articles, classify).alerts[j].title)
  {
    var r := Run(s, articles, classify);
    var t := r.alerts[j].title;
    AlertsPassGate(s, articles, classify);
    RequestsAreFreshAndDistinct(s, articles, classify);
    var asked := r.requests[|s.requests|..];
    assert AlertPassed(r.alerts[j], asked, ArticleTitles(articles), classify);
    var k :| 0 <= k < |asked| && asked[k] == t;
    assert asked[k] == r.requests[|s.requests| + k];
  }

  /** A relevant headline neither evaluated nor sent goes to the classifier. */
  lemma FreshRelevantRequested(s: State, a: Article, classify: string -> Reply)
    requires a.title !in s.evaluated && a.title !in s.sent && IsRelevant(a.title)
    ensures Process(s, a, classify).requests == s.requests + [a.title]
  {
  }

  // ---------------------------------------------------------------------------
  // The loop, on the analyzer's fields

  /** The module-level state of the analyzer. */
  class NewsAnalyzer {
    var sent: set<string>
    var evaluated: set<string>
    var file: File
    var requests: seq<string>
    var alerts: seq<Alert>

    function Snapshot(): State
      reads this
    {
      State(sent, evaluated, file, requests, alerts)
    }

    /** Module start-up: `SENT_HEADLINES = load_sent_headlines()` and an
        empty `EVALUATED_HEADLINES`. */
    constructor (stored: File)
      ensures Snapshot() == Start(stored)
    {
      var loaded := LoadSentHeadlines(stored);
      sent := loaded;
      evaluated := {};
      file := stored;
      requests := [];
      alerts := [];
    }

    /** `fetch_news`, given the news service's reply and the classifier. */
    method FetchNews(feed: Feed, classify: string -> Reply)
      modifies this
      ensures Snapshot() == Cycle(old(Snapshot()), feed, classify)
    {
      if feed.status != Some("ok") {
        return;
      }
      var articles := feed.articles;
      ghost var s0 := Snapshot();
      for i := 0 to |articles|
        invariant Snapshot() == Run(s0, articles[..i], classify)
      {
        RunSnoc(s0, articles[..i], articles[i], classify);
        assert articles[..i + 1] == articles[..i] + [articles[i]];
        HandleArticle(articles[i], classify);
      }
      assert articles[..|articles|] == articles;
    }

    /** The body of the loop in `fetch_news`, for one article. */
    method HandleArticle(article: Article, classify: string -> Reply)
      modifies this
      ensures Snapshot() == Process(old(Snapshot()), article, classify)
    {
      var title := article.title;
      var published := Reformat(article.publishedAt);
      if title in evaluated {
        return;
      }
      if title in sent {
        return;
      }
      evaluated := evaluated + {title};
      if IsRelevant(title) {
        requests := requests + [title];
        var v := AnalyzeEvent(classify(title));
        var message := FormatResult(title, v, published);
        var decision := Decide(title, v, ForceReview);
        ghost var s2 := Snapshot();
        if decision == MainAlert {
          alerts := alerts + [Alert(title, published, v, message)];
          file := Save(file, title);
          sent := sent + {title};
          assert Snapshot() == Forward(s2, title, published, v);
        } else if decision == ForcedAlert {
          alerts := alerts + [Alert(title, published, v, message)];
          file := Save(file, title);
          sent := sent + {title};
          assert Snapshot() == Forward(s2, title, published, v);
        } else {
          assert !Dispatches(title, v);
        }
      }
    }
  }
}
