/** misc/linkcheck/linkcheck.go: the crawl, as a machine whose steps the goroutines take in any order. */
module Linkcheck {
  import opened Bytes

  type URL = string

  /** What fetching a page gives: a redirect, the references and ids of a body, or an error. */
  datatype Page = Redirect(to: URL) | Body(refs: seq<URL>, ids: seq<string>) | Failed

  datatype Site = Site(root: URL, page: URL -> Page)

  /** The page crawlLoop is at work on: what it has still to crawl and to record. */
  datatype Job = Job(url: URL, todo: seq<URL>, ids: seq<string>)

  datatype Phase = Starting | Waiting | Closed

  datatype State = State(
    crawled: set<URL>,
    senders: multiset<URL>,         // goroutines at "urlq <- url"
    job: Option<Job>,
    wg: int,
    fetched: multiset<URL>,
    needed: set<(URL, string)>,     // the keys of neededFrags
    frags: set<(URL, string)>,      // the keys of fragExists
    main: Phase)

  // ---- URLs ----

  /** strings.Index(url, "#"), or the length. */
  function HashAt(url: URL): (i: nat)
    ensures i <= |url|
  {
    if url == [] || url[0] == '#' then 0 else 1 + HashAt(url[1..])
  }

  function Base(url: URL): URL {
    url[..HashAt(url)]
  }

  function Frag(url: URL): string {
    if HashAt(url) == |url| then "" else url[HashAt(url) + 1..]
  }

  /** The part before the first "#" and the part behind it. */
  lemma {:induction false} BaseAndFrag(u: URL, f: string)
    requires '#' !in u
    ensures Base(u + "#" + f) == u && Frag(u + "#" + f) == f
    ensures Base(u) == u && Frag(u) == ""
  {
    HashIsAt(u, "#" + f);
    HashIsAt(u, "");
    assert u + "" == u && u + "#" + f == u + ("#" + f);
    hide HashAt;
    assert (u + ("#" + f))[..|u|] == u && (u + ("#" + f))[|u| + 1..] == f;
  }

  lemma {:induction false} HashIsAt(u: URL, rest: string)
    requires '#' !in u && (rest == "" || rest[0] == '#')
    ensures HashAt(u + rest) == |u|
  {
    if u == "" {
      assert u + rest == rest;
    } else {
      assert (u + rest)[1..] == u[1..] + rest;
      HashIsAt(u[1..], rest);
    }
  }

  lemma {:induction false} BaseHasNoHash(url: URL)
    ensures '#' !in Base(url) && Base(url) <= url
  {
    if url != [] && url[0] != '#' {
      BaseHasNoHash(url[1..]);
      assert Base(url) == [url[0]] + Base(url[1..]);
    }
  }

  lemma {:induction false} BaseKeeps(root: string, url: URL)
    requires '#' !in root && root <= url
    ensures root <= Base(url)
  {
    if root != [] {
      assert root[1..] <= url[1..] && Base(url) == [url[0]] + Base(url[1..]);
      BaseKeeps(root[1..], url[1..]);
      assert root == [root[0]] + root[1..];
    }
  }

  const DEVEL := "/devel/release"

  /** strings.Contains(url, "/devel/release") */
  predicate Skipped(url: URL) {
    DEVEL <= url || (url != [] && Skipped(url[1..]))
  }

  lemma {:induction false} SkippedHolds(url: URL)
    ensures Skipped(url) <==> exists i: nat :: i <= |url| && DEVEL <= url[i..]
  {
    if url == [] {
      assert url[0..] == url;
    } else {
      SkippedHolds(url[1..]);
      assert url[0..] == url;
      if Skipped(url[1..]) {
        var i: nat :| i <= |url[1..]| && DEVEL <= url[1..][i..];
        assert url[i + 1..] == url[1..][i..];
      }
      if i: nat :| i <= |url| && DEVEL <= url[i..] {
        if i > 0 {
          assert url[i..] == url[1..][i - 1..];
        }
      }
    }
  }

  // ---- The steps ----

  /** What doCrawl hands to crawl for a page. */
  function Todo(site: Site, url: URL): seq<URL> {
    match site.page(url)
    case Redirect(to) => if site.root <= to then [to] else []
    case Body(refs, _) => seq(|refs|, i requires 0 <= i < |refs| => site.root + refs[i])
    case Failed => []
  }

  function Ids(site: Site, url: URL): seq<string> {
    match site.page(url)
    case Body(_, ids) => ids
    case _ => []
  }

  /** crawl, which runs under the lock. */
  function Crawl(s: State, url: URL): State {
    if Skipped(url) then s
    else
      var base := Base(url);
      var s1 := if Frag(url) != "" then s.(needed := s.needed + {(base, Frag(url))}) else s;
      if base in s.crawled then s1
      else s1.(crawled := s.crawled + {base}, wg := s.wg + 1, senders := s.senders + multiset{base})
  }

  datatype Action = Start | Receive(url: URL) | Link | Record | Done | Wait

  predicate Enabled(s: State, a: Action) {
    match a
    case Start => s.main.Starting?
    case Receive(u) => s.job.None? && u in s.senders
    case Link => s.job.Some? && s.job.value.todo != []
    case Record => s.job.Some? && s.job.value.todo == [] && s.job.value.ids != []
    case Done => s.job.Some? && s.job.value.todo == [] && s.job.value.ids == []
    case Wait => s.main.Waiting? && s.wg == 0
  }

  function Step(site: Site, s: State, a: Action): State
    requires Enabled(s, a)
  {
    match a
    case Start => Crawl(s, site.root).(main := Waiting)
    case Receive(u) =>
      s.(senders := s.senders - multiset{u}, fetched := s.fetched + multiset{u},
         job := Some(Job(u, Todo(site, u), Ids(site, u))))
    case Link =>
      var j := s.job.value;
      Crawl(s, j.todo[0]).(job := Some(j.(todo := j.todo[1..])))
    case Record =>
      var j := s.job.value;
      s.(frags := s.frags + {(j.url, j.ids[0])}, job := Some(j.(ids := j.ids[1..])))
    case Done => s.(job := None, wg := s.wg - 1)
    case Wait => s.(main := Closed)
  }

  function Init(): State {
    State({}, multiset{}, None, 0, multiset{}, {}, {}, Starting)
  }

  /** The state after a run of enabled steps. */
  function Run(site: Site, actions: seq<Action>): Option<State> {
    if actions == [] then Some(Init())
    else
      var before := Run(site, actions[..|actions| - 1]);
      var a := actions[|actions| - 1];
      if before.Some? && Enabled(before.value, a) then Some(Step(site, before.value, a)) else None
  }

  ghost predicate Reachable(site: Site, s: State) {
    exists actions :: Run(site, actions) == Some(s)
  }

  // ---- What every reachable state keeps ----

  /** The counter is the pending senders and the crawl in progress, and every URL is sent once. */
  ghost predicate Counts(s: State) {
    && s.wg == |s.senders| + (if s.job.Some? then 1 else 0)
    && (forall u :: s.fetched[u] + s.senders[u] == if u in s.crawled then 1 else 0)
    && (s.main.Closed? ==> s.wg == 0)
    && (s.main.Starting? ==> s == Init())
  }

  /** A reported link has had its effect. */
  predicate Noted(s: State, url: URL) {
    Skipped(url) || (Base(url) in s.crawled && (Frag(url) != "" ==> (Base(url), Frag(url)) in s.needed))
  }

  predicate LinksNoted(site: Site, s: State, u: URL) {
    forall v | v in Todo(site, u) :: (s.job.Some? && s.job.value.url == u && v in s.job.value.todo) || Noted(s, v)
  }

  predicate IdsNoted(site: Site, s: State, u: URL) {
    forall id | id in Ids(site, u) ::
      (s.job.Some? && s.job.value.url == u && id in s.job.value.ids) || (u, id) in s.frags
  }

  /** Nothing a fetched page reports is lost. */
  ghost predicate Complete(site: Site, s: State) {
    && (s.main.Starting? || Noted(s, site.root))
    && (forall u | u in s.fetched :: LinksNoted(site, s, u) && IdsNoted(site, s, u))
  }

  /** A set of URLs that holds the root and, with a page, what the page links to. */
  ghost predicate ClosedUnder(site: Site, pages: set<URL>) {
    && (Skipped(site.root) || Base(site.root) in pages)
    && (forall u, v | u in pages && v in Todo(site, u) :: Skipped(v) || Base(v) in pages)
  }

  /** Some page among pages, or nobody but the user, asks for url. */
  ghost predicate Asked(site: Site, pages: set<URL>, url: URL) {
    url == site.root || exists u :: u in pages && url in Todo(site, u)
  }

  /** Nothing is crawled, needed or recorded that no page reports. */
  ghost predicate Sound(site: Site, s: State, pages: set<URL>) {
    && s.crawled <= pages
    && (forall b, f | (b, f) in s.needed :: f != "" &&
         exists v :: Asked(site, s.crawled, v) && !Skipped(v) && Base(v) == b && Frag(v) == f)
    && (forall u, id | (u, id) in s.frags :: u in s.crawled && id in Ids(site, u))
    && (s.job.Some? ==>
         var j := s.job.value;
         j.url in s.crawled && (forall v | v in j.todo :: v in Todo(site, j.url)) &&
         (forall id | id in j.ids :: id in Ids(site, j.url)))
  }

  // ---- What crawl keeps ----

  lemma CrawlCounts(s: State, url: URL)
    requires forall u :: s.fetched[u] + s.senders[u] == if u in s.crawled then 1 else 0
    ensures var r := Crawl(s, url);
      r.wg - |r.senders| == s.wg - |s.senders| &&
      r.fetched == s.fetched && r.job == s.job && r.main == s.main && r.frags == s.frags &&
      forall u :: r.fetched[u] + r.senders[u] == if u in r.crawled then 1 else 0
  {
    hide Skipped, Base, Frag;
  }

  lemma CrawlNotes(s: State, url: URL)
    ensures var r := Crawl(s, url);
      Noted(r, url) && s.crawled <= r.crawled && s.needed <= r.needed && r.fetched == s.fetched && r.frags == s.frags
  {
    hide Skipped, Base, Frag;
  }

  lemma NotedStays(s: State, r: State, url: URL)
    requires Noted(s, url) && s.crawled <= r.crawled && s.needed <= r.needed
    ensures Noted(r, url)
  {
  }

  // ---- Every step keeps the invariants ----

  lemma CountsKept(site: Site, s: State, a: Action)
    requires Counts(s) && Enabled(s, a)
    ensures Counts(Step(site, s, a))
  {
    hide Skipped, Base, Frag, Todo, Ids;
    if a.Start? {
      CrawlCounts(s, site.root);
      hide Crawl;
    } else if a.Link? {
      CrawlCounts(s, s.job.value.todo[0]);
      hide Crawl;
    } else {
      hide Crawl;
      if a.Receive? {
        assert |s.senders - multiset{a.url}| == |s.senders| - 1;
      }
    }
  }

  /** Where only the job changes, what the other pages report stays noted. */
  lemma CompleteKept(site: Site, s: State, a: Action)
    requires Counts(s) && Complete(site, s) && Enabled(s, a)
    ensures Complete(site, Step(site, s, a))
  {
    var r := Step(site, s, a);
    StepGrows(site, s, a);
    hide Counts, Step, Crawl, Skipped, Base, Frag, Todo, Ids;
    forall u | u in r.fetched ensures LinksNoted(site, r, u) && IdsNoted(site, r, u) {
      if u in s.fetched {
        forall v | v in Todo(site, u) && Noted(s, v) ensures Noted(r, v) {
          NotedStays(s, r, v);
        }
      }
    }
    if !s.main.Starting? {
      NotedStays(s, r, site.root);
    }
  }

  /** What a step adds, and what it takes off the job. */
  lemma StepGrows(site: Site, s: State, a: Action)
    requires Enabled(s, a) && (s.main.Starting? ==> s == Init())
    ensures var r := Step(site, s, a);
      && s.crawled <= r.crawled && s.needed <= r.needed && s.frags <= r.frags
      && (a.Start? ==> Noted(r, site.root) && r.fetched == s.fetched)
      && (r.main.Starting? ==> s.main.Starting?)
      && (s.job.Some? ==>
           r.fetched == s.fetched &&
           (forall v | v in s.job.value.todo :: Noted(r, v) ||
             (r.job.Some? && r.job.value.url == s.job.value.url && v in r.job.value.todo)) &&
           (forall id | id in s.job.value.ids :: (s.job.value.url, id) in r.frags ||
             (r.job.Some? && r.job.value.url == s.job.value.url && id in r.job.value.ids)))
      && (s.job.None? && !a.Start? ==>
           if a.Receive? then r.fetched == s.fetched + multiset{a.url}
             && r.job == Some(Job(a.url, Todo(site, a.url), Ids(site, a.url)))
           else r.fetched == s.fetched)
  {
    if a.Start? {
      CrawlNotes(s, site.root);
    } else if a.Link? {
      CrawlNotes(s, s.job.value.todo[0]);
    }
    hide Crawl, Skipped, Base, Frag, Todo, Ids, Noted;
  }

  lemma SoundKept(site: Site, s: State, a: Action, pages: set<URL>)
    requires ClosedUnder(site, pages) && Counts(s) && Sound(site, s, pages) && Enabled(s, a)
    ensures Sound(site, Step(site, s, a), pages)
  {
    if a.Link? {
      LinkSound(site, s, a, pages);
    } else {
      OtherSound(site, s, a, pages);
    }
    hide Sound, Step;
  }

  lemma LinkSound(site: Site, s: State, a: Action, pages: set<URL>)
    requires ClosedUnder(site, pages) && Counts(s) && Sound(site, s, pages) && Enabled(s, a) && a.Link?
    ensures Sound(site, Step(site, s, a), pages)
  {
    hide Skipped, Base, Frag, Todo, Ids;
    CrawlSound(site, s, s.job.value.todo[0], pages);
    hide Crawl;
  }

  lemma OtherSound(site: Site, s: State, a: Action, pages: set<URL>)
    requires ClosedUnder(site, pages) && Counts(s) && Sound(site, s, pages) && Enabled(s, a) && !a.Link?
    ensures Sound(site, Step(site, s, a), pages)
  {
    hide Skipped, Base, Frag, Todo, Ids;
  }

  lemma CrawlSound(site: Site, s: State, url: URL, pages: set<URL>)
    requires ClosedUnder(site, pages) && Sound(site, s, pages) && s.job.Some? && url in Todo(site, s.job.value.url)
    ensures var r := Crawl(s, url);
      r.crawled <= pages && r.frags == s.frags && r.job == s.job && s.crawled <= r.crawled &&
      forall b, f | (b, f) in r.needed :: f != "" &&
        exists v :: Asked(site, r.crawled, v) && !Skipped(v) && Base(v) == b && Frag(v) == f
  {
    hide Skipped, Base, Frag, Todo, Ids;
    assert Asked(site, s.crawled, url);
  }

  lemma {:induction false} RunInv(site: Site, actions: seq<Action>)
    requires Run(site, actions).Some?
    ensures var s := Run(site, actions).value; Counts(s) && Complete(site, s)
    decreases |actions|
  {
    if actions != [] {
      var front := actions[..|actions| - 1];
      RunInv(site, front);
      var (s, a) := (Run(site, front).value, actions[|actions| - 1]);
      CountsKept(site, s, a);
      CompleteKept(site, s, a);
    }
  }

  lemma {:induction false} RunSound(site: Site, actions: seq<Action>, pages: set<URL>)
    requires Run(site, actions).Some? && ClosedUnder(site, pages)
    ensures Sound(site, Run(site, actions).value, pages)
    decreases |actions|
  {
    if actions != [] {
      var front := actions[..|actions| - 1];
      RunSound(site, front, pages);
      RunInv(site, front);
      SoundKept(site, Run(site, front).value, actions[|actions| - 1], pages);
    }
  }

  // ---- What it is for ----

  /** wg.Wait has returned: nothing is left that could send on the closed channel. */
  lemma NoSendAfterClose(site: Site, s: State)
    requires Reachable(site, s) && s.main.Closed?
    ensures s.senders == multiset{} && s.job.None? && s.wg == 0
  {
    var actions :| Run(site, actions) == Some(s);
    RunInv(site, actions);
  }

  /** The pages crawled are the least set that holds the root and what its pages link to. */
  lemma CrawledIsTheClosure(site: Site, s: State)
    requires Reachable(site, s) && s.main.Closed?
    ensures ClosedUnder(site, s.crawled)
    ensures forall pages | ClosedUnder(site, pages) :: s.crawled <= pages
    ensures s.fetched == multiset(s.crawled)
  {
    var actions :| Run(site, actions) == Some(s);
    RunInv(site, actions);
    assert s.senders == multiset{};
    forall u, v | u in s.crawled && v in Todo(site, u) ensures Skipped(v) || Base(v) in s.crawled {
      assert s.fetched[u] == 1;
      assert LinksNoted(site, s, u);
    }
    forall pages | ClosedUnder(site, pages) ensures s.crawled <= pages {
      RunSound(site, actions, pages);
    }
  }

  /** At every moment the counter is exact and no page has been fetched twice. */
  lemma FetchedOnce(site: Site, s: State)
    requires Reachable(site, s)
    ensures s.wg == |s.senders| + (if s.job.Some? then 1 else 0)
    ensures forall u :: s.fetched[u] + s.senders[u] == if u in s.crawled then 1 else 0
  {
    var actions :| Run(site, actions) == Some(s);
    RunInv(site, actions);
  }

  /** The fragments needed are those of the links reported, the fragments there the ids of the pages. */
  lemma FragmentsExact(site: Site, s: State)
    requires Reachable(site, s) && s.main.Closed?
    ensures forall u, id :: (u, id) in s.frags <==> u in s.crawled && id in Ids(site, u)
    ensures forall v | Asked(site, s.crawled, v) && !Skipped(v) && Frag(v) != "" :: (Base(v), Frag(v)) in s.needed
    ensures forall b, f | (b, f) in s.needed ::
      f != "" && exists v :: Asked(site, s.crawled, v) && !Skipped(v) && Base(v) == b && Frag(v) == f
  {
    var actions :| Run(site, actions) == Some(s);
    RunInv(site, actions);
    CrawledIsTheClosure(site, s);
    RunSound(site, actions, s.crawled);
    hide Counts, Run, Skipped, Base, Frag, Todo, Ids;
    forall u | u in s.crawled ensures LinksNoted(site, s, u) && IdsNoted(site, s, u) {
      assert u in s.fetched;
    }
  }

  // ---- Progress ----

  /** Until the channel is closed some step can be taken: no deadlock. */
  lemma NeverStuck(site: Site, s: State)
    requires Reachable(site, s) && !s.main.Closed?
    ensures exists a :: Enabled(s, a)
  {
    var actions :| Run(site, actions) == Some(s);
    RunInv(site, actions);
    if s.main.Starting? {
      assert Enabled(s, Start);
    } else if s.job.Some? {
      assert Enabled(s, Link) || Enabled(s, Record) || Enabled(s, Done);
    } else if s.senders != multiset{} {
      var u :| u in s.senders;
      assert Enabled(s, Receive(u));
    } else {
      assert Enabled(s, Wait);
    }
  }

  /** What a step uses up: pages not yet met, then senders, then the work on one page, then main's steps. */
  function Rank(s: State, pages: set<URL>): (int, int, int, int) {
    (|pages - s.crawled|, |s.senders|,
     if s.job.Some? then 1 + |s.job.value.todo| + |s.job.value.ids| else 0,
     match s.main case Starting => 2 case Waiting => 1 case Closed => 0)
  }

  predicate Lower(x: (int, int, int, int), y: (int, int, int, int)) {
    x.0 < y.0 || (x.0 == y.0 && (x.1 < y.1 || (x.1 == y.1 && (x.2 < y.2 || (x.2 == y.2 && x.3 < y.3)))))
  }

  /** With a finite site every run ends. */
  lemma StepsRunOut(site: Site, actions: seq<Action>, a: Action, pages: set<URL>)
    requires ClosedUnder(site, pages) && Run(site, actions + [a]).Some?
    ensures Run(site, actions).Some?
    ensures Lower(Rank(Run(site, actions + [a]).value, pages), Rank(Run(site, actions).value, pages))
  {
    assert (actions + [a])[..|actions|] == actions;
    var s := Run(site, actions).value;
    RunInv(site, actions);
    RunSound(site, actions + [a], pages);
    StepLowers(site, s, a, pages);
  }

  lemma StepLowers(site: Site, s: State, a: Action, pages: set<URL>)
    requires Enabled(s, a) && Step(site, s, a).crawled <= pages
    ensures Lower(Rank(Step(site, s, a), pages), Rank(s, pages))
  {
    var r := Step(site, s, a);
    hide Skipped, Base, Frag, Todo, Ids, Lower, Rank;
    assert s.crawled <= r.crawled;
    if r.crawled != s.crawled {
      hide Step, Enabled;
      var u :| u in r.crawled && u !in s.crawled;
      FewerLeft(pages, s.crawled, r.crawled, u);
      FewerIsLower(r, s, pages);
    } else {
      SameLowers(site, s, a, pages);
    }
  }

  lemma FewerIsLower(r: State, s: State, pages: set<URL>)
    requires |pages - r.crawled| < |pages - s.crawled|
    ensures Lower(Rank(r, pages), Rank(s, pages))
  {
  }

  lemma SameLowers(site: Site, s: State, a: Action, pages: set<URL>)
    requires Enabled(s, a) && Step(site, s, a).crawled == s.crawled
    ensures Lower(Rank(Step(site, s, a), pages), Rank(s, pages))
  {
    hide Skipped, Base, Frag, Todo, Ids;
  }

  lemma FewerLeft(pages: set<URL>, before: set<URL>, after: set<URL>, u: URL)
    requires before <= after && u in after && u !in before && u in pages
    ensures |pages - after| < |pages - before|
  {
    assert pages - after <= pages - before - {u};
    Smaller(pages - after, pages - before - {u});
  }

  lemma {:induction false} Smaller(a: set<URL>, b: set<URL>)
    requires a <= b
    ensures |a| <= |b|
  {
    if a != {} {
      var u :| u in a;
      Smaller(a - {u}, b - {u});
    }
  }

  /** What a page costs: to receive it, to crawl its links, to record its ids, and to be done with it. */
  function Cost(site: Site, url: URL): nat {
    2 + |Todo(site, url)| + |Ids(site, url)|
  }

  ghost function Work(site: Site, urls: set<URL>): nat {
    if urls == {} then 0
    else
      var u :| u in urls;
      Cost(site, u) + Work(site, urls - {u})
  }

  lemma {:induction false} WorkOfOne(site: Site, urls: set<URL>, u: URL)
    requires u in urls
    ensures Work(site, urls) == Cost(site, u) + Work(site, urls - {u})
    decreases urls
  {
    hide Cost;
    var v :| v in urls && Work(site, urls) == Cost(site, v) + Work(site, urls - {v});
    if v != u {
      WorkOfOne(site, urls - {v}, u);
      WorkOfOne(site, urls - {u}, v);
      assert urls - {v} - {u} == urls - {u} - {v};
    }
  }

  function Unfetched(s: State, pages: set<URL>): set<URL> {
    set u | u in pages && u !in s.fetched
  }

  /** The steps still to come: for the pages not yet received, for the one at work on, and for main. */
  ghost function StepsLeft(site: Site, s: State, pages: set<URL>): nat {
    Work(site, Unfetched(s, pages))
    + (if s.job.Some? then 1 + |s.job.value.todo| + |s.job.value.ids| else 0)
    + (match s.main case Starting => 2 case Waiting => 1 case Closed => 0)
  }

  lemma StepCounts(site: Site, s: State, a: Action, pages: set<URL>)
    requires Enabled(s, a) && Counts(s) && s.crawled <= pages
    ensures StepsLeft(site, Step(site, s, a), pages) + 1 == StepsLeft(site, s, pages)
  {
    hide Work, Skipped, Base, Frag, Todo, Ids, Counts;
    if a.Receive? {
      ReceiveCounts(site, s, a.url, pages);
    } else {
      SameFetched(site, s, a);
      hide Unfetched;
    }
  }

  lemma SameFetched(site: Site, s: State, a: Action)
    requires Enabled(s, a) && !a.Receive?
    ensures Step(site, s, a).fetched == s.fetched
    ensures forall pages :: Unfetched(Step(site, s, a), pages) == Unfetched(s, pages)
  {
    hide Skipped, Base, Frag, Todo, Ids;
  }

  lemma ReceiveCounts(site: Site, s: State, u: URL, pages: set<URL>)
    requires Enabled(s, Receive(u)) && Counts(s) && s.crawled <= pages
    ensures StepsLeft(site, Step(site, s, Receive(u)), pages) + 1 == StepsLeft(site, s, pages)
  {
    hide Work, Todo, Ids;
    var (before, after) := (Unfetched(s, pages), Unfetched(Step(site, s, Receive(u)), pages));
    assert s.fetched[u] + s.senders[u] == if u in s.crawled then 1 else 0;
    assert u in before && after == before - {u};
    WorkOfOne(site, before, u);
  }

  /** So the length of a run is what it has worked off; no schedule takes more steps than the site is worth. */
  lemma {:induction false} RunsEnd(site: Site, actions: seq<Action>, pages: set<URL>)
    requires ClosedUnder(site, pages) && Run(site, actions).Some?
    ensures |actions| + StepsLeft(site, Run(site, actions).value, pages) == 2 + Work(site, pages)
    decreases |actions|
  {
    if actions == [] {
      assert Unfetched(Init(), pages) == pages;
    } else {
      var front := actions[..|actions| - 1];
      RunsEnd(site, front, pages);
      RunInv(site, front);
      RunSound(site, front, pages);
      var s := Run(site, front).value;
      hide StepsLeft, Counts, Step, Enabled;
      StepCounts(site, s, actions[|actions| - 1], pages);
    }
  }

  // ---- What is crawled ----

  /** Only pages below the root, and pages without a fragment, are crawled. */
  predicate CleanURLs(site: Site, s: State) {
    && (forall u | u in s.crawled :: '#' !in u && ('#' !in site.root ==> site.root <= u))
    && (s.job.Some? ==> forall v | v in s.job.value.todo :: site.root <= v)
  }

  lemma CrawlClean(site: Site, s: State, url: URL)
    requires CleanURLs(site, s) && site.root <= url
    ensures CleanURLs(site, Crawl(s, url))
  {
    BaseHasNoHash(url);
    if '#' !in site.root {
      BaseKeeps(site.root, url);
    }
    hide Base, Skipped, Frag;
  }

  lemma TodoClean(site: Site, url: URL)
    ensures forall v | v in Todo(site, url) :: site.root <= v
  {
  }

  lemma StepClean(site: Site, s: State, a: Action)
    requires CleanURLs(site, s) && Enabled(s, a)
    ensures CleanURLs(site, Step(site, s, a))
  {
    if a.Start? {
      CrawlClean(site, s, site.root);
    } else if a.Link? {
      var todo := s.job.value.todo;
      assert todo[0] in todo && forall v | v in todo[1..] :: v in todo;
      CrawlClean(site, s, todo[0]);
    } else if a.Receive? {
      TodoClean(site, a.url);
    }
    hide Crawl, Todo, Ids;
  }

  lemma {:induction false} CrawledClean(site: Site, actions: seq<Action>)
    requires Run(site, actions).Some?
    ensures CleanURLs(site, Run(site, actions).value)
    decreases |actions|
  {
    if actions != [] {
      var front := actions[..|actions| - 1];
      CrawledClean(site, front);
      hide CleanURLs, Step, Enabled;
      StepClean(site, Run(site, front).value, actions[|actions| - 1]);
    }
  }
}
