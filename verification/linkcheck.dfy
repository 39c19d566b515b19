/** The worklist protocol of the link checker (misc/linkcheck/linkcheck.go): a crawler goroutine, one
    sending goroutine for each URL found, and main waiting on a WaitGroup. HTTP and the extraction
    of links are a function from URLs to responses. */
module LinkCheck {
  import opened Wrappers

  /** What fetching a URL gives: an error, a redirect, or a page with its links and ids. */
  datatype Response = Failed | Redirect(location: string) | Page(refs: seq<string>, ids: seq<string>)

  datatype Site = Site(root: string, fetch: string -> Response)

  ghost predicate HasPrefix(s: string, prefix: string) { prefix <= s }

  ghost predicate Contains(s: string, sub: string) {
    exists i: nat :: OccursAt(s, sub, i)
  }

  ghost predicate OccursAt(s: string, sub: string, i: nat) {
    i + |sub| <= |s| && s[i..i + |sub|] == sub
  }

  const DEVEL := "/devel/release"

  function IndexHash(s: string): (i: nat)
    ensures i <= |s| && '#' !in s[..i] && (i < |s| ==> s[i] == '#')
  {
    if s == [] || s[0] == '#' then 0
    else
      var i := 1 + IndexHash(s[1..]);
      assert s[..i] == [s[0]] + s[1..][..i - 1];
      i
  }

  function Strip(url: string): string { url[..IndexHash(url)] }

  function Fragment(url: string): string { if IndexHash(url) < |url| then url[IndexHash(url) + 1..] else "" }

  /** The URLs that doCrawl passes to crawl after fetching url. */
  ghost function Found(site: Site, url: string): seq<string> {
    match site.fetch(url)
    case Failed => []
    case Redirect(location) => if HasPrefix(location, site.root) then [location] else []
    case Page(refs, _) => seq(|refs|, i requires 0 <= i < |refs| => site.root + refs[i])
  }

  ghost function Ids(site: Site, url: string): seq<string> {
    match site.fetch(url) case Page(_, ids) => ids case _ => []
  }

  // ---- The state ----

  /** A fragment that a page needs: target page, fragment, and the page that links to it. */
  datatype Need = Need(url: string, frag: string, source: string)

  /** The fetch in progress: its URL and the found URLs still to be passed to crawl. */
  datatype Fetch = Fetch(url: string, todo: seq<string>)

  /** senders: the goroutines blocked sending on urlq; counter: the WaitGroup; fetched: the URLs
      doCrawl was called with, in order; closed: main has returned from Wait and closed urlq. */
  datatype State = State(
    crawled: set<string>, senders: multiset<string>, counter: int, active: Option<Fetch>,
    fetched: seq<string>, needed: set<Need>, fragExists: set<(string, string)>, closed: bool)

  ghost function Crawl(s: State, url: string, source: string): State {
    if Contains(url, DEVEL) then s
    else
      var page, frag := Strip(url), Fragment(url);
      var s1 := if frag == "" then s else s.(needed := s.needed + {Need(page, frag, source)});
      if page in s.crawled then s1
      else s1.(crawled := s.crawled + {page}, counter := s.counter + 1, senders := s.senders + multiset{page})
  }

  /** main has called crawl on the root; the other goroutines have not yet moved. */
  ghost predicate Init(site: Site, s: State) {
    s == Crawl(State({}, multiset{}, 0, None, [], {}, {}, false), site.root, "")
  }

  /** crawlLoop receives url from some sender and fetches it. */
  ghost predicate Receive(site: Site, s: State, s': State, url: string) {
    && s.active.None? && !s.closed && url in s.senders
    && s' == s.(senders := s.senders - multiset{url}, active := Some(Fetch(url, Found(site, url))),
                fetched := s.fetched + [url])
  }

  /** doCrawl passes its next found URL to crawl. */
  ghost predicate Follow(s: State, s': State) {
    && s.active.Some? && s.active.value.todo != []
    && var f := s.active.value;
       s' == Crawl(s, f.todo[0], f.url).(active := Some(Fetch(f.url, f.todo[1..])))
  }

  /** doCrawl notes the page's ids and returns, which calls wg.Done. */
  ghost predicate Finish(site: Site, s: State, s': State) {
    && s.active.Some? && s.active.value.todo == []
    && var url := s.active.value.url;
       s' == s.(active := None, counter := s.counter - 1,
                fragExists := s.fragExists + set id | id in Ids(site, url) :: (url, id))
  }

  /** main returns from Wait and closes the channel. */
  ghost predicate WaitReturns(s: State, s': State) {
    s.counter == 0 && !s.closed && s' == s.(closed := true)
  }

  ghost predicate Next(site: Site, s: State, s': State) {
    (exists url :: Receive(site, s, s', url)) || Follow(s, s') || Finish(site, s, s') || WaitReturns(s, s')
  }

  ghost predicate Run(site: Site, run: seq<State>) {
    |run| > 0 && Init(site, run[0]) && forall i :: 0 <= i < |run| - 1 ==> Next(site, run[i], run[i + 1])
  }

  // ---- What should be crawled ----

  /** Fetching u gives the URL d: by a redirect within the site, or by a link on the page. */
  ghost predicate PointsTo(site: Site, u: string, d: string) {
    match site.fetch(u)
    case Failed => false
    case Redirect(location) => d == location && site.root <= location
    case Page(refs, _) => exists i :: 0 <= i < |refs| && d == site.root + refs[i]
  }

  /** Fetching u gives a page with that id. */
  ghost predicate HasId(site: Site, u: string, id: string) {
    match site.fetch(u) case Page(_, ids) => id in ids case _ => false
  }

  lemma FoundIs(site: Site, u: string, d: string)
    ensures d in Found(site, u) <==> PointsTo(site, u, d)
    ensures d in Ids(site, u) <==> HasId(site, u, d)
  {
    if site.fetch(u).Page? {
      var refs := site.fetch(u).refs;
      if i :| 0 <= i < |refs| && d == site.root + refs[i] { assert Found(site, u)[i] == d; }
    }
  }

  /** A URL is its page and what follows the first '#'. */
  lemma StripIs(url: string)
    ensures '#' !in Strip(url)
    ensures if '#' in url then url == Strip(url) + "#" + Fragment(url) else url == Strip(url) && Fragment(url) == ""
  {
    var i := IndexHash(url);
    if i < |url| { assert url == url[..i] + [url[i]] + url[i + 1..]; } else { assert url[..i] == url; }
  }

  /** Page u leads to page v: a URL found there that is not skipped, without its fragment. */
  ghost predicate Leads(site: Site, u: string, v: string) {
    exists d :: PointsTo(site, u, d) && !Contains(d, DEVEL) && Strip(d) == v
  }

  /** A way from the root to a page. */
  ghost predicate Path(site: Site, path: seq<string>) {
    && path != [] && !Contains(site.root, DEVEL) && path[0] == Strip(site.root)
    && forall i :: 0 <= i < |path| - 1 ==> Leads(site, path[i], path[i + 1])
  }

  ghost predicate Reachable(site: Site, page: string) {
    exists path :: Path(site, path) && path[|path| - 1] == page
  }

  /** A link to a fragment on a page that has been fetched, or the root's own fragment. */
  ghost predicate Needs(site: Site, fetched: seq<string>, need: Need) {
    || (exists d :: need.source in fetched && d in Found(site, need.source) && IsNeed(need, d))
    || (need.source == "" && IsNeed(need, site.root))
  }

  ghost predicate IsNeed(need: Need, d: string) {
    !Contains(d, DEVEL) && need.url == Strip(d) && need.frag == Fragment(d) != ""
  }

  // ---- The invariant ----

  ghost predicate Distinct(urls: seq<string>) {
    forall i, j :: 0 <= i < j < |urls| ==> urls[i] != urls[j]
  }

  /** The URLs found by url that have already been passed to crawl. */
  ghost predicate Followed(site: Site, s: State, url: string, d: string) {
    d in Found(site, url) && !(s.active.Some? && s.active.value.url == url && d in s.active.value.todo)
  }

  /** The counter counts the senders and the fetch in progress; every crawled URL is waiting to be
      sent or has been fetched, and that once. */
  ghost predicate Counts(s: State) {
    && s.counter == |s.senders| + (if s.active.Some? then 1 else 0)
    && (forall u :: u in s.crawled <==> u in s.senders || u in s.fetched)
    && (forall u :: u in s.senders ==> s.senders[u] == 1 && u !in s.fetched)
    && Distinct(s.fetched)
    && (s.active.Some? ==> s.active.value.url in s.fetched)
    && (s.closed ==> s.counter == 0)
  }

  ghost predicate Explored(site: Site, s: State) {
    && (forall u :: u in s.crawled ==> Reachable(site, u))
    && (!Contains(site.root, DEVEL) ==> Strip(site.root) in s.crawled)
    && (forall u, d :: u in s.fetched && Followed(site, s, u, d) && !Contains(d, DEVEL) ==> Strip(d) in s.crawled)
    && (s.active.Some? ==> forall d :: d in s.active.value.todo ==> d in Found(site, s.active.value.url))
  }

  /** The fragment records: what followed links need, and what finished pages have. */
  ghost predicate Recorded(site: Site, s: State) {
    && (forall n :: n in s.needed ==> Needs(site, s.fetched, n))
    && (forall n: Need :: IsNeed(n, site.root) && n.source == "" ==> n in s.needed)
    && (forall u, d, n: Need ::
          u in s.fetched && Followed(site, s, u, d) && n.source == u && IsNeed(n, d) ==> n in s.needed)
    && (forall u, id :: (u, id) in s.fragExists <==>
          u in s.fetched && id in Ids(site, u) && !(s.active.Some? && s.active.value.url == u))
  }

  ghost predicate Inv(site: Site, s: State) {
    Counts(s) && Explored(site, s) && Recorded(site, s)
  }

  lemma ReachMore(site: Site, u: string, v: string)
    requires Reachable(site, u) && Leads(site, u, v)
    ensures Reachable(site, v)
  {
    var path :| Path(site, path) && path[|path| - 1] == u;
    assert Path(site, path + [v]);
    assert (path + [v])[|path|] == v;
  }

  lemma InitKeeps(site: Site, s: State)
    requires Init(site, s)
    ensures Inv(site, s)
  {
    if !Contains(site.root, DEVEL) {
      var page := Strip(site.root);
      assert Path(site, [page]) && [page][|[page]| - 1] == page;
    }
  }

  lemma CrawlCounts(s: State, url: string, source: string)
    requires Counts(s) && !s.closed
    ensures Counts(Crawl(s, url, source))
  {
  }

  lemma ReceiveKeeps(site: Site, s: State, s': State, url: string)
    requires Inv(site, s) && Receive(site, s, s', url)
    ensures Inv(site, s')
  {
    assert s.senders == s'.senders + multiset{url};
    assert forall u :: u in s'.fetched <==> u in s.fetched || u == url;
    forall u, d | u in s'.fetched && Followed(site, s', u, d) ensures u in s.fetched && Followed(site, s, u, d) {
    }
  }

  lemma FollowCounts(s: State, s': State)
    requires Counts(s) && Follow(s, s')
    ensures Counts(s')
  {
    CrawlCounts(s, s.active.value.todo[0], s.active.value.url);
  }

  lemma FollowExplored(site: Site, s: State, s': State)
    requires Inv(site, s) && Follow(s, s')
    ensures Explored(site, s')
  {
    var f := s.active.value;
    var d := f.todo[0];
    if !Contains(d, DEVEL) {
      FoundIs(site, f.url, d);
      assert Leads(site, f.url, Strip(d));
      ReachMore(site, f.url, Strip(d));
    }
    forall u, x | u in s'.fetched && Followed(site, s', u, x) && !Contains(x, DEVEL) ensures Strip(x) in s'.crawled {
      StillFollowed(site, s, s', u, x);
    }
  }

  /** Following one more URL adds just that one to those followed. */
  lemma StillFollowed(site: Site, s: State, s': State, u: string, x: string)
    requires Follow(s, s') && Followed(site, s', u, x)
    ensures Followed(site, s, u, x) || (u == s.active.value.url && x == s.active.value.todo[0])
  {
    var todo := s.active.value.todo;
    assert todo == [todo[0]] + todo[1..];
  }

  lemma FollowRecorded(site: Site, s: State, s': State)
    requires Inv(site, s) && Follow(s, s')
    ensures Recorded(site, s')
  {
    var f := s.active.value;
    var d := f.todo[0];
    forall n | n in s'.needed ensures Needs(site, s'.fetched, n) {
      if n !in s.needed { assert f.url in s'.fetched && d in Found(site, f.url) && IsNeed(n, d); }
    }
    forall u, x, n: Need | u in s'.fetched && Followed(site, s', u, x) && n.source == u && IsNeed(n, x)
      ensures n in s'.needed
    {
      StillFollowed(site, s, s', u, x);
      if !Followed(site, s, u, x) { assert n == Need(Strip(d), Fragment(d), f.url); }
    }
  }

  lemma FinishKeeps(site: Site, s: State, s': State)
    requires Inv(site, s) && Finish(site, s, s')
    ensures Inv(site, s')
  {
    var url := s.active.value.url;
    forall u, d | Followed(site, s', u, d) ensures Followed(site, s, u, d) {
    }
    forall u, id ensures (u, id) in s'.fragExists <==> u in s'.fetched && id in Ids(site, u) {
      assert (u, id) in (set x | x in Ids(site, url) :: (url, x)) <==> u == url && id in Ids(site, url);
    }
  }

  lemma WaitKeeps(site: Site, s: State, s': State)
    requires Inv(site, s) && WaitReturns(s, s')
    ensures Inv(site, s')
  {
    forall u, d | Followed(site, s', u, d) ensures Followed(site, s, u, d) {
    }
  }

  lemma NextKeeps(site: Site, s: State, s': State)
    requires Inv(site, s) && Next(site, s, s')
    ensures Inv(site, s')
  {
    hide Counts, Explored, Recorded, Receive, Follow, Finish, WaitReturns;
    if url :| Receive(site, s, s', url) {
      ReceiveKeeps(site, s, s', url);
    } else if Follow(s, s') {
      FollowCounts(s, s');
      FollowExplored(site, s, s');
      FollowRecorded(site, s, s');
    } else if Finish(site, s, s') {
      FinishKeeps(site, s, s');
    } else {
      WaitKeeps(site, s, s');
    }
  }

  lemma {:induction false} InvAlways(site: Site, run: seq<State>, i: nat)
    requires Run(site, run) && i < |run|
    ensures Inv(site, run[i])
  {
    if i == 0 {
      InitKeeps(site, run[0]);
    } else {
      InvAlways(site, run, i - 1);
      assert Next(site, run[i - 1], run[i - 1 + 1]);
      NextKeeps(site, run[i - 1], run[i]);
    }
  }

  // ---- When Wait returns ----

  /** A crawled set with no work left is closed under leading. */
  lemma {:induction false} PathCrawled(site: Site, s: State, path: seq<string>, i: nat)
    requires Explored(site, s) && Counts(s) && s.counter == 0 && Path(site, path) && i < |path|
    ensures path[i] in s.crawled
  {
    if i > 0 {
      PathCrawled(site, s, path, i - 1);
      assert Leads(site, path[i - 1], path[i - 1 + 1]);
      var d :| PointsTo(site, path[i - 1], d) && !Contains(d, DEVEL) && Strip(d) == path[i];
      FoundIs(site, path[i - 1], d);
      assert Followed(site, s, path[i - 1], d);
    }
  }

  /** When the counter is zero, so that Wait can return: nobody is left sending on urlq, now or
      ever after, every crawled URL has been fetched exactly once, and the crawled URLs are exactly
      the pages reachable from the root. */
  lemma WaitMeansDone(site: Site, run: seq<State>, i: nat)
    requires Run(site, run) && i < |run| && (run[i].closed || run[i].counter == 0)
    ensures run[i].senders == multiset{} && run[i].active.None?
    ensures Distinct(run[i].fetched) && forall u :: u in run[i].crawled <==> u in run[i].fetched
    ensures forall u :: u in run[i].crawled <==> Reachable(site, u)
  {
    var s := run[i];
    InvAlways(site, run, i);
    forall u | Reachable(site, u) ensures u in s.crawled {
      var path :| Path(site, path) && path[|path| - 1] == u;
      PathCrawled(site, s, path, |path| - 1);
    }
  }

  /** The fragments main then reports as missing are exactly those that the root, or a link on a
      reachable page, asks for and the target page does not have. */
  lemma MissingFragmentsExact(site: Site, run: seq<State>, i: nat, n: Need)
    requires Run(site, run) && i < |run| && (run[i].closed || run[i].counter == 0)
    ensures n in run[i].needed && (n.url, n.frag) !in run[i].fragExists <==>
      && ((Reachable(site, n.source) && exists d :: PointsTo(site, n.source, d) && IsNeed(n, d))
          || (n.source == "" && IsNeed(n, site.root)))
      && !(Reachable(site, n.url) && HasId(site, n.url, n.frag))
  {
    var s := run[i];
    InvAlways(site, run, i);
    WaitMeansDone(site, run, i);
    if Reachable(site, n.source) {
      if d :| PointsTo(site, n.source, d) && IsNeed(n, d) {
        FoundIs(site, n.source, d);
        assert n.source in s.crawled && Followed(site, s, n.source, d);
      }
    }
    FoundIs(site, n.url, n.frag);
    forall d ensures d in Found(site, n.source) <==> PointsTo(site, n.source, d) {
      FoundIs(site, n.source, d);
    }
    if n in s.needed { assert Needs(site, s.fetched, n) && forall u :: u in s.fetched ==> u in s.crawled; }
    assert (n.url, n.frag) in s.fragExists <==> n.url in s.crawled && n.frag in Ids(site, n.url);
  }

  /** wg.Add never raises a counter that main may have seen at zero: whoever calls crawl after the
      start is counted itself. */
  lemma AddWhileCounted(site: Site, run: seq<State>, i: nat, s': State)
    requires Run(site, run) && i < |run| && Next(site, run[i], s') && s'.counter > run[i].counter
    ensures run[i].counter >= 1 && !run[i].closed
  {
    InvAlways(site, run, i);
    hide Explored, Recorded;
    assert Follow(run[i], s');
  }

  // ---- On a finite site, Wait returns ----

  /** Work that is left, by kind: pages not yet crawled, senders, the fetch in progress, main. */
  ghost function Work(s: State, pages: set<string>): (nat, nat, nat, nat) {
    (|pages - s.crawled|, |s.senders|, if s.active.Some? then |s.active.value.todo| + 1 else 0,
     if s.closed then 0 else 1)
  }

  ghost predicate Less(a: (nat, nat, nat, nat), b: (nat, nat, nat, nat)) {
    a.0 < b.0 || (a.0 == b.0 && (a.1 < b.1 || (a.1 == b.1 && (a.2 < b.2 || (a.2 == b.2 && a.3 < b.3)))))
  }

  /** Every step leaves less to do, in a well-founded order, and until main has returned from Wait
      some step is possible: with finitely many reachable pages every run reaches that point. */
  lemma WorkShrinks(site: Site, run: seq<State>, i: nat, s': State, pages: set<string>)
    requires Run(site, run) && i < |run| && Next(site, run[i], s')
    requires forall u :: Reachable(site, u) ==> u in pages
    ensures Less(Work(s', pages), Work(run[i], pages))
  {
    var s := run[i];
    InvAlways(site, run, i);
    NextKeeps(site, s, s');
    assert forall u :: u in s'.crawled ==> u in pages;
    hide Inv, Reachable, Run;
    if url :| Receive(site, s, s', url) {
      assert |s.senders| == |s'.senders| + 1;
    } else if Follow(s, s') {
      FollowShrinks(s, s', pages);
    }
  }

  lemma FollowShrinks(s: State, s': State, pages: set<string>)
    requires Follow(s, s') && s'.crawled <= pages
    ensures Less(Work(s', pages), Work(s, pages))
  {
    var page := Strip(s.active.value.todo[0]);
    if s'.crawled == s.crawled {
      assert s'.senders == s.senders;
    } else {
      assert pages - s.crawled == (pages - s'.crawled) + {page};
    }
  }

  lemma WorkGoesOn(site: Site, run: seq<State>, i: nat) returns (s': State)
    requires Run(site, run) && i < |run| && !run[i].closed
    ensures Next(site, run[i], s')
  {
    var s := run[i];
    InvAlways(site, run, i);
    hide Explored, Recorded, Reachable;
    if s.active.Some? {
      var f := s.active.value;
      if f.todo != [] {
        s' := Crawl(s, f.todo[0], f.url).(active := Some(Fetch(f.url, f.todo[1..])));
        assert Follow(s, s');
      } else {
        s' := s.(active := None, counter := s.counter - 1,
                 fragExists := s.fragExists + set id | id in Ids(site, f.url) :: (f.url, id));
        assert Finish(site, s, s');
      }
    } else if s.senders != multiset{} {
      var url :| url in s.senders;
      s' := s.(senders := s.senders - multiset{url}, active := Some(Fetch(url, Found(site, url))),
               fetched := s.fetched + [url]);
      assert Receive(site, s, s', url);
    } else {
      s' := s.(closed := true);
      assert WaitReturns(s, s');
    }
  }
}
