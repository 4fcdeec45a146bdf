/**
 The two concurrent crawlers as one step system. A worker's transition is one look at one link
 (the test-and-add under the lock), one put on the queue, or the lowering of the counter of
 outstanding tasks. In the thread-pool tier the submit happens under the same lock as the
 test-and-add; in the queue tier the put comes after it, outside the lock.
 */
module ConcurrentCrawler {
  import opened Counting
  import opened WebCrawler

  type Worker = nat

  datatype Tier = ThreadPool | WorkQueue

  /** Putting: link is marked seen but not yet on the queue. Leaving: has a sentinel, task_done is still to come. */
  datatype Task = Free | Visiting(url: Url, k: nat) | Putting(url: Url, k: nat, link: Url) | Leaving | Gone

  /** Stopping(n): the main thread has put n sentinels. */
  datatype Main = Waiting | Stopping(n: nat) | Returned

  /** Where a page that has been seen now is; Finished pages have had all their links looked at. */
  datatype Place = Queued | Active(w: Worker) | InHand(w: Worker) | Finished

  datatype State = State(
    seen: set<Url>, queue: seq<Url>, sentinels: nat, pending: int, finished: bool,
    workers: map<Worker, Task>, main: Main,
    place: map<Url, Place>, fetched: seq<Url>)      // for the proof: where pages are, fetches so far

  predicate Init(start: Url, s: State) {
    s.seen == {start} && s.queue == [start] && s.sentinels == 0 && s.pending == 1 && !s.finished &&
    s.main == Waiting && |s.workers| > 0 && (forall w :: w in s.workers ==> s.workers[w] == Free) &&
    s.place == map[start := Queued] && s.fetched == []
  }

  // --- transitions ------------------------------------------------------------------------

  /** A free worker takes the next page and fetches it. */
  predicate Take(s: State, s': State, w: Worker) {
    w in s.workers && s.workers[w].Free? && s.queue != [] &&
    var url := s.queue[0];
    s' == s.(queue := s.queue[1..], workers := s.workers[w := Visiting(url, 0)],
             place := s.place[url := Active(w)], fetched := s.fetched + [url])
  }

  /** The next link is off-host or already seen. */
  predicate Skip(site: Site, start: Url, s: State, s': State, w: Worker) {
    w in s.workers && s.workers[w].Visiting? &&
    var (url, k) := (s.workers[w].url, s.workers[w].k);
    k < |site.links(url)| &&
    (site.host(site.links(url)[k]) != site.host(start) || site.links(url)[k] in s.seen) &&
    s' == s.(workers := s.workers[w := Visiting(url, k + 1)])
  }

  /** The next link is new: mark it, and in the pool tier count and submit it under the same lock. */
  predicate Discover(tier: Tier, site: Site, start: Url, s: State, s': State, w: Worker) {
    w in s.workers && s.workers[w].Visiting? &&
    var (url, k) := (s.workers[w].url, s.workers[w].k);
    k < |site.links(url)| &&
    var link := site.links(url)[k];
    site.host(link) == site.host(start) && link !in s.seen &&
    s' == if tier.ThreadPool?
      then s.(seen := s.seen + {link}, queue := s.queue + [link], pending := s.pending + 1,
              workers := s.workers[w := Visiting(url, k + 1)], place := s.place[link := Queued])
      else s.(seen := s.seen + {link},
              workers := s.workers[w := Putting(url, k, link)], place := s.place[link := InHand(w)])
  }

  /** The queue tier's put, which also raises the count of unfinished tasks. */
  predicate Put(s: State, s': State, w: Worker) {
    w in s.workers && s.workers[w].Putting? &&
    var (url, k, link) := (s.workers[w].url, s.workers[w].k, s.workers[w].link);
    s' == s.(queue := s.queue + [link], pending := s.pending + 1,
             workers := s.workers[w := Visiting(url, k + 1)], place := s.place[link := Queued])
  }

  /** A task ends: one outstanding task fewer, and the pool tier's event is set at zero. */
  predicate Finish(tier: Tier, site: Site, s: State, s': State, w: Worker) {
    w in s.workers && s.workers[w].Visiting? && s.workers[w].k == |site.links(s.workers[w].url)| &&
    s' == s.(pending := s.pending - 1, finished := s.finished || (tier.ThreadPool? && s.pending - 1 == 0),
             workers := s.workers[w := Free], place := s.place[s.workers[w].url := Finished])
  }

  /** A free worker finds a sentinel at the head of the queue. */
  predicate TakeSentinel(s: State, s': State, w: Worker) {
    w in s.workers && s.workers[w].Free? && s.queue == [] && s.sentinels > 0 &&
    s' == s.(sentinels := s.sentinels - 1, workers := s.workers[w := Leaving])
  }

  /** It reports the sentinel done and ends. */
  predicate Leave(s: State, s': State, w: Worker) {
    w in s.workers && s.workers[w].Leaving? && s' == s.(pending := s.pending - 1, workers := s.workers[w := Gone])
  }

  /** The main thread: wait for the drain; in the queue tier put one sentinel per worker and join them. */
  predicate MainStep(tier: Tier, s: State, s': State) {
    match s.main
    case Waiting =>
      if tier.ThreadPool? then s.finished && s' == s.(main := Returned)
      else s.pending == 0 && s' == s.(main := Stopping(0))
    case Stopping(n) =>
      if n < |s.workers| then s' == s.(main := Stopping(n + 1), sentinels := s.sentinels + 1, pending := s.pending + 1)
      else (forall w :: w in s.workers ==> s.workers[w].Gone?) && s' == s.(main := Returned)
    case Returned => false
  }

  ghost predicate StepBy(tier: Tier, site: Site, start: Url, s: State, s': State, w: Worker) {
    Take(s, s', w) || Skip(site, start, s, s', w) || Discover(tier, site, start, s, s', w) || Put(s, s', w) ||
    Finish(tier, site, s, s', w) || TakeSentinel(s, s', w) || Leave(s, s', w) || MainStep(tier, s, s')
  }

  ghost predicate Step(tier: Tier, site: Site, start: Url, s: State, s': State) {
    exists w :: StepBy(tier, site, start, s, s', w)
  }

  ghost predicate StepAfter(tier: Tier, site: Site, start: Url, r: seq<State>, i: nat)
    requires i + 1 < |r|
  {
    Step(tier, site, start, r[i], r[i + 1])
  }

  ghost predicate Run(tier: Tier, site: Site, start: Url, r: seq<State>) {
    |r| > 0 && Init(start, r[0]) &&
    forall i: nat {:trigger StepAfter(tier, site, start, r, i)} :: i + 1 < |r| ==> StepAfter(tier, site, start, r, i)
  }

  // --- the invariant ----------------------------------------------------------------------

  predicate Busy(t: Task) { t.Visiting? || t.Putting? }
  predicate Left(t: Task) { t.Leaving? || t.Gone? }
  predicate Quitting(t: Task) { t.Leaving? }
  predicate Nobody(t: Task) { false }

  /** The first k links have been dealt with. */
  ghost predicate LinksDone(site: Site, start: Url, s: State, url: Url, k: nat) {
    k <= |site.links(url)| &&
    forall j :: 0 <= j < k && site.host(site.links(url)[j]) == site.host(start) ==> site.links(url)[j] in s.seen
  }

  ghost predicate WorkerInv(site: Site, start: Url, s: State, w: Worker)
    requires w in s.workers
  {
    match s.workers[w]
    case Visiting(url, k) => url in s.place && s.place[url] == Active(w) && LinksDone(site, start, s, url, k)
    case Putting(url, k, link) =>
      url in s.place && s.place[url] == Active(w) && LinksDone(site, start, s, url, k) &&
      k < |site.links(url)| && link == site.links(url)[k] && link in s.place && s.place[link] == InHand(w)
    case _ => true
  }

  ghost predicate PlaceInv(site: Site, start: Url, s: State, u: Url)
    requires u in s.place
  {
    match s.place[u]
    case Queued => u in s.queue
    case Active(w) => w in s.workers && Busy(s.workers[w]) && s.workers[w].url == u
    case InHand(w) => w in s.workers && s.workers[w].Putting? && s.workers[w].link == u
    case Finished => LinksWithin(site, site.host(start), u, s.seen)
  }

  ghost predicate QueueInv(s: State) {
    NoRepeats(s.queue) && forall u :: u in s.queue ==> u in s.place && s.place[u] == Queued
  }

  /** Pages are fetched once, when a worker takes them. */
  ghost predicate FetchInv(s: State) {
    NoRepeats(s.fetched) && forall u :: u in s.fetched <==> u in s.place && (s.place[u].Active? || s.place[u].Finished?)
  }

  /** The counter counts queued pages, busy workers, sentinels and workers about to report one. */
  ghost predicate CountInv(tier: Tier, s: State) {
    s.pending == |s.queue| + Count(s.workers, Busy) + s.sentinels + Count(s.workers, Quitting) &&
    (s.finished ==> tier.ThreadPool? && s.queue == [] && Count(s.workers, Busy) == 0) &&
    match s.main
    case Waiting => s.sentinels == 0 && Count(s.workers, Left) == 0 &&
      (tier.ThreadPool? ==> s.finished || s.pending > 0)
    case Stopping(n) => tier.WorkQueue? && s.queue == [] && Count(s.workers, Busy) == 0 &&
      s.sentinels + Count(s.workers, Left) == n <= |s.workers|
    case Returned => s.queue == [] && Count(s.workers, Busy) == 0 && s.sentinels == 0 && Count(s.workers, Quitting) == 0
  }

  ghost predicate SeenInv(site: Site, start: Url, pages: set<Url>, s: State) {
    start in s.seen && s.place.Keys == s.seen && s.seen <= pages &&
    forall u :: u in s.seen ==> Reachable(site, start, u)
  }

  ghost predicate Inv(tier: Tier, site: Site, start: Url, pages: set<Url>, s: State) {
    SeenInv(site, start, pages, s) && QueueInv(s) && FetchInv(s) && CountInv(tier, s) &&
    (forall w {:trigger WorkerInv(site, start, s, w)} :: w in s.workers ==> WorkerInv(site, start, s, w)) &&
    (forall u {:trigger PlaceInv(site, start, s, u)} :: u in s.place ==> PlaceInv(site, start, s, u))
  }

  lemma InitInv(tier: Tier, site: Site, start: Url, pages: set<Url>, s: State)
    requires Init(start, s) && Universe(site, start, pages)
    ensures Inv(tier, site, start, pages, s)
  {
    StartReachable(site, start);
    CountNone(s.workers, Busy);
    CountNone(s.workers, Left);
    CountNone(s.workers, Quitting);
    forall w | w in s.workers ensures WorkerInv(site, start, s, w) {}
    forall u | u in s.place ensures PlaceInv(site, start, s, u) {}
  }

  lemma QuittersLeft(workers: map<Worker, Task>)
    ensures Count(workers, Quitting) <= Count(workers, Left)
  {
    CountSplit(workers, Quitting, Nobody, Left);
  }

  lemma StepCount(tier: Tier, site: Site, start: Url, pages: set<Url>, s: State, s': State, w: Worker)
    requires CountInv(tier, s) && StepBy(tier, site, start, s, s', w)
    ensures CountInv(tier, s')
  {
    QuittersLeft(s.workers);
    if MainStep(tier, s, s') {
      if forall v :: v in s.workers ==> s.workers[v].Gone? {
        assert Where(s.workers, Left) == s.workers.Keys;
        CountNone(s.workers, Quitting);
      }
    } else {
      CountUpdate(s.workers, w, s'.workers[w], Busy);
      CountUpdate(s.workers, w, s'.workers[w], Left);
      CountUpdate(s.workers, w, s'.workers[w], Quitting);
      if Busy(s.workers[w]) { CountPositive(s.workers, w, Busy); }
      if Quitting(s.workers[w]) { CountPositive(s.workers, w, Quitting); }
    }
  }

  lemma StepSeen(tier: Tier, site: Site, start: Url, pages: set<Url>, s: State, s': State, w: Worker)
    requires Universe(site, start, pages)
    requires SeenInv(site, start, pages, s) && QueueInv(s) && (w in s.workers ==> WorkerInv(site, start, s, w))
    requires StepBy(tier, site, start, s, s', w)
    ensures SeenInv(site, start, pages, s') && s.seen <= s'.seen
  {
    if Discover(tier, site, start, s, s', w) {
      var url := s.workers[w].url;
      assert url in s.seen && LinksWithin(site, site.host(start), url, pages);
      LinkReachable(site, start, url, site.links(url)[s.workers[w].k]);
    }
  }

  lemma StepQueue(tier: Tier, site: Site, start: Url, pages: set<Url>, s: State, s': State, w: Worker)
    requires SeenInv(site, start, pages, s) && QueueInv(s) && (w in s.workers ==> WorkerInv(site, start, s, w))
    requires StepBy(tier, site, start, s, s', w)
    ensures QueueInv(s')
  {
    if Put(s, s', w) {
      NoRepeatsSnoc(s.queue, s.workers[w].link);
    } else if Discover(tier, site, start, s, s', w) {
      NoRepeatsSnoc(s.queue, site.links(s.workers[w].url)[s.workers[w].k]);
    }
  }

  lemma StepFetched(tier: Tier, site: Site, start: Url, pages: set<Url>, s: State, s': State, w: Worker)
    requires SeenInv(site, start, pages, s) && QueueInv(s) && (w in s.workers ==> WorkerInv(site, start, s, w))
    requires StepBy(tier, site, start, s, s', w)
    requires FetchInv(s)
    ensures FetchInv(s')
  {
    if Take(s, s', w) {
      assert s.queue[0] in s.queue;
      NoRepeatsSnoc(s.fetched, s.queue[0]);
    } else if Discover(tier, site, start, s, s', w) {
    } else if Put(s, s', w) {
    } else if Finish(tier, site, s, s', w) {
    }
  }

  /** What a step of w leaves alone: the other workers, and every page not queued or with w. */
  ghost predicate Frame(s: State, s': State, w: Worker) {
    s.seen <= s'.seen && s'.workers.Keys == s.workers.Keys &&
    (forall v :: v in s.workers && v != w ==> s'.workers[v] == s.workers[v]) &&
    forall u :: u in s.place ==>
      (u in s'.place &&
       (s.place[u] == Queued || s.place[u] == Active(w) || s.place[u] == InHand(w) || s'.place[u] == s.place[u]))
  }

  lemma StepFrame(tier: Tier, site: Site, start: Url, pages: set<Url>, s: State, s': State, w: Worker)
    requires SeenInv(site, start, pages, s) && QueueInv(s) && (w in s.workers ==> WorkerInv(site, start, s, w))
    requires StepBy(tier, site, start, s, s', w)
    ensures Frame(s, s', w)
  {
    if Take(s, s', w) {
      assert s.queue[0] in s.queue;
    } else if Discover(tier, site, start, s, s', w) {
    } else if Put(s, s', w) {
    } else if Finish(tier, site, s, s', w) {
    }
  }

  lemma OtherWorker(site: Site, start: Url, s: State, s': State, w: Worker, v: Worker)
    requires Frame(s, s', w) && v != w && v in s.workers && WorkerInv(site, start, s, v)
    ensures WorkerInv(site, start, s', v)
  {
  }

  lemma DiscoverWorker(tier: Tier, site: Site, start: Url, pages: set<Url>, s: State, s': State, w: Worker)
    requires SeenInv(site, start, pages, s) && w in s.workers && WorkerInv(site, start, s, w)
    requires Discover(tier, site, start, s, s', w)
    ensures w in s'.workers && WorkerInv(site, start, s', w)
  {
    assert LinksDone(site, start, s', s.workers[w].url, s.workers[w].k);
  }

  lemma OwnWorker(tier: Tier, site: Site, start: Url, pages: set<Url>, s: State, s': State, w: Worker)
    requires SeenInv(site, start, pages, s) && QueueInv(s) && w in s.workers && WorkerInv(site, start, s, w)
    requires StepBy(tier, site, start, s, s', w)
    ensures w in s'.workers && WorkerInv(site, start, s', w)
  {
    if Discover(tier, site, start, s, s', w) {
      DiscoverWorker(tier, site, start, pages, s, s', w);
    } else if Take(s, s', w) {
      assert s.queue[0] in s.queue;
    }
  }

  lemma OtherPlace(site: Site, start: Url, s: State, s': State, w: Worker, u: Url)
    requires Frame(s, s', w) && u in s.place && PlaceInv(site, start, s, u)
    requires s.place[u] != Queued && s.place[u] != Active(w) && s.place[u] != InHand(w)
    ensures u in s'.place && PlaceInv(site, start, s', u)
  {
  }

  /** A queued page stays queued unless it is the one taken. */
  lemma QueuedPlace(tier: Tier, site: Site, start: Url, pages: set<Url>, s: State, s': State, w: Worker, u: Url)
    requires SeenInv(site, start, pages, s) && QueueInv(s) && (w in s.workers ==> WorkerInv(site, start, s, w))
    requires StepBy(tier, site, start, s, s', w)
    requires u in s.place && s.place[u] == Queued && PlaceInv(site, start, s, u)
    ensures u in s'.place && PlaceInv(site, start, s', u)
  {
    if Take(s, s', w) {
      assert s.queue == [s.queue[0]] + s.queue[1..];
    } else if MainStep(tier, s, s') {
      assert s'.queue == s.queue && s'.place == s.place;
    }
  }

  lemma OwnPlace(tier: Tier, site: Site, start: Url, pages: set<Url>, s: State, s': State, w: Worker, u: Url)
    requires SeenInv(site, start, pages, s) && QueueInv(s) && (w in s.workers ==> WorkerInv(site, start, s, w))
    requires StepBy(tier, site, start, s, s', w)
    requires u in s.place ==> PlaceInv(site, start, s, u)
    requires u in s'.place && (u !in s.place || s.place[u] == Active(w) || s.place[u] == InHand(w))
    ensures PlaceInv(site, start, s', u)
  {
    if Take(s, s', w) {
    } else if Discover(tier, site, start, s, s', w) {
      if tier.ThreadPool? {}
    } else if Put(s, s', w) {
    } else if Finish(tier, site, s, s', w) {
    }
  }

  lemma StepInv(tier: Tier, site: Site, start: Url, pages: set<Url>, s: State, s': State, w: Worker)
    requires Universe(site, start, pages)
    requires Inv(tier, site, start, pages, s) && StepBy(tier, site, start, s, s', w)
    ensures Inv(tier, site, start, pages, s')
  {
    assert w in s.workers ==> WorkerInv(site, start, s, w);
    StepCount(tier, site, start, pages, s, s', w);
    StepSeen(tier, site, start, pages, s, s', w);
    StepQueue(tier, site, start, pages, s, s', w);
    StepFetched(tier, site, start, pages, s, s', w);
    StepFrame(tier, site, start, pages, s, s', w);
    forall v | v in s'.workers ensures WorkerInv(site, start, s', v) {
      assert WorkerInv(site, start, s, v);
      if v == w {
        OwnWorker(tier, site, start, pages, s, s', w);
      } else {
        OtherWorker(site, start, s, s', w, v);
      }
    }
    forall u | u in s'.place ensures PlaceInv(site, start, s', u) {
      assert u in s.place ==> PlaceInv(site, start, s, u);
      if u !in s.place || s.place[u] == Active(w) || s.place[u] == InHand(w) {
        OwnPlace(tier, site, start, pages, s, s', w, u);
      } else if s.place[u] == Queued {
        QueuedPlace(tier, site, start, pages, s, s', w, u);
      } else {
        OtherPlace(site, start, s, s', w, u);
      }
    }
  }

  lemma {:induction false} RunInv(tier: Tier, site: Site, start: Url, pages: set<Url>, r: seq<State>, i: nat)
    requires Universe(site, start, pages) && Run(tier, site, start, r) && i < |r|
    ensures Inv(tier, site, start, pages, r[i])
  {
    if i == 0 {
      InitInv(tier, site, start, pages, r[0]);
    } else {
      RunInv(tier, site, start, pages, r, i - 1);
      assert StepAfter(tier, site, start, r, i - 1);
      var w :| StepBy(tier, site, start, r[i - 1], r[i], w);
      StepInv(tier, site, start, pages, r[i - 1], r[i], w);
    }
  }

  // --- what a crawl promises --------------------------------------------------------------

  /** With nothing queued and nobody busy, all links have been followed. */
  lemma Drained(tier: Tier, site: Site, start: Url, pages: set<Url>, s: State)
    requires Inv(tier, site, start, pages, s) && s.queue == [] && Count(s.workers, Busy) == 0
    ensures IsCrawl(site, start, s.seen) && NoRepeats(s.fetched) && forall u :: u in s.fetched <==> u in s.seen
  {
    forall u | u in s.seen ensures s.place[u] == Finished && LinksWithin(site, site.host(start), u, s.seen) {
      assert u in s.place.Keys && PlaceInv(site, start, s, u);
      match s.place[u]
      case Active(w) => CountPositive(s.workers, w, Busy);
      case InHand(w) => CountPositive(s.workers, w, Busy);
      case _ =>
    }
    forall u ensures u in s.seen <==> Reachable(site, start, u) {
      if Reachable(site, start, u) {
        ClosedHoldsReachable(site, start, s.seen, u);
      }
    }
  }

  /** In every interleaving the counter is zero only when the crawl is complete, and what the main
      thread then returns is exactly the set the sequential crawler returns, each page fetched once. */
  lemma ReturnsTheCrawl(tier: Tier, site: Site, start: Url, pages: set<Url>, r: seq<State>, i: nat)
    requires Universe(site, start, pages) && Run(tier, site, start, r) && i < |r|
    requires r[i].pending == 0 || r[i].main.Returned?
    ensures IsCrawl(site, start, r[i].seen)
    ensures NoRepeats(r[i].fetched) && forall u :: u in r[i].fetched <==> u in r[i].seen
  {
    RunInv(tier, site, start, pages, r, i);
    Drained(tier, site, start, pages, r[i]);
  }

  /** No page is ever fetched twice, at any point of any run. */
  lemma FetchedOnce(tier: Tier, site: Site, start: Url, pages: set<Url>, r: seq<State>, i: nat)
    requires Universe(site, start, pages) && Run(tier, site, start, r) && i < |r|
    ensures NoRepeats(r[i].fetched) && forall u :: u in r[i].fetched ==> Reachable(site, start, u)
  {
    RunInv(tier, site, start, pages, r, i);
    forall u | u in r[i].fetched ensures u in r[i].seen {
      assert u in r[i].place.Keys;
    }
  }

  ghost predicate CanStep(tier: Tier, site: Site, start: Url, s: State) {
    exists w, s' :: StepBy(tier, site, start, s, s', w)
  }

  /** A step of w's own. */
  ghost predicate OwnStep(tier: Tier, site: Site, start: Url, s: State, w: Worker) {
    w in s.workers &&
    exists s' :: StepBy(tier, site, start, s, s', w) && w in s'.workers && s'.workers[w] != s.workers[w]
  }

  /** Workers fetch side by side: whatever the others are doing, one on a page goes on, and a free one takes the page or
      sentinel that is queued. */
  lemma WorkersNeverWait(tier: Tier, site: Site, start: Url, s: State, w: Worker)
    requires w in s.workers && (Busy(s.workers[w]) ==> WorkerInv(site, start, s, w)) && !s.workers[w].Gone?
    requires s.workers[w].Free? ==> s.queue != [] || s.sentinels > 0
    ensures OwnStep(tier, site, start, s, w)
  {
    match s.workers[w] {
      case Free =>
        if s.queue != [] {
          var s' := s.(queue := s.queue[1..], workers := s.workers[w := Visiting(s.queue[0], 0)],
                       place := s.place[s.queue[0] := Active(w)], fetched := s.fetched + [s.queue[0]]);
          assert Take(s, s', w) && StepBy(tier, site, start, s, s', w);
        } else {
          var s' := s.(sentinels := s.sentinels - 1, workers := s.workers[w := Leaving]);
          assert TakeSentinel(s, s', w) && StepBy(tier, site, start, s, s', w);
        }
      case Leaving =>
        var s' := s.(pending := s.pending - 1, workers := s.workers[w := Gone]);
        assert Leave(s, s', w) && StepBy(tier, site, start, s, s', w);
      case Putting(url, k, link) =>
        var s' := s.(queue := s.queue + [link], pending := s.pending + 1,
                     workers := s.workers[w := Visiting(url, k + 1)], place := s.place[link := Queued]);
        assert Put(s, s', w) && StepBy(tier, site, start, s, s', w);
      case Visiting(url, k) => VisitorMoves(tier, site, start, s, w);
    }
  }

  lemma VisitorMoves(tier: Tier, site: Site, start: Url, s: State, w: Worker)
    requires w in s.workers && s.workers[w].Visiting? && WorkerInv(site, start, s, w)
    ensures OwnStep(tier, site, start, s, w)
  {
    var (url, k) := (s.workers[w].url, s.workers[w].k);
    if k == |site.links(url)| {
      var s' := s.(pending := s.pending - 1, finished := s.finished || (tier.ThreadPool? && s.pending - 1 == 0),
                   workers := s.workers[w := Free], place := s.place[url := Finished]);
      assert Finish(tier, site, s, s', w) && StepBy(tier, site, start, s, s', w);
    } else if site.host(site.links(url)[k]) != site.host(start) || site.links(url)[k] in s.seen {
      var s' := s.(workers := s.workers[w := Visiting(url, k + 1)]);
      assert Skip(site, start, s, s', w) && StepBy(tier, site, start, s, s', w);
    } else {
      var link := site.links(url)[k];
      var s' := if tier.ThreadPool?
        then s.(seen := s.seen + {link}, queue := s.queue + [link], pending := s.pending + 1,
                workers := s.workers[w := Visiting(url, k + 1)], place := s.place[link := Queued])
        else s.(seen := s.seen + {link},
                workers := s.workers[w := Putting(url, k, link)], place := s.place[link := InHand(w)]);
      assert Discover(tier, site, start, s, s', w) && StepBy(tier, site, start, s, s', w);
    }
  }

  lemma BusyMoves(tier: Tier, site: Site, start: Url, pages: set<Url>, s: State)
    requires Inv(tier, site, start, pages, s) && Count(s.workers, Busy) > 0
    ensures CanStep(tier, site, start, s)
  {
    var w := CountWitness(s.workers, Busy);
    assert WorkerInv(site, start, s, w);
    WorkersNeverWait(tier, site, start, s, w);
  }

  lemma IdleMoves(tier: Tier, site: Site, start: Url, pages: set<Url>, s: State)
    requires Inv(tier, site, start, pages, s) && Count(s.workers, Busy) == 0 && |s.workers| > 0 && !s.main.Returned?
    ensures CanStep(tier, site, start, s)
  {
    forall v | v in s.workers ensures !Busy(s.workers[v]) {
      if Busy(s.workers[v]) { CountPositive(s.workers, v, Busy); }
    }
    if s.queue != [] {
      assert s.workers.Keys != {};
      var w :| w in s.workers;
      assert s.main.Waiting? && Count(s.workers, Left) == 0;
      if Left(s.workers[w]) { CountPositive(s.workers, w, Left); }
      WorkersNeverWait(tier, site, start, s, w);
    } else if v :| v in s.workers && s.workers[v].Leaving? {
      WorkersNeverWait(tier, site, start, s, v);
    } else if v :| v in s.workers && s.workers[v].Free? && s.sentinels > 0 {
      WorkersNeverWait(tier, site, start, s, v);
    } else {
      MainMoves(tier, site, start, pages, s);
    }
  }

  /** With nothing queued, nobody busy or leaving, and no sentinel that a worker could take, main can go on. */
  lemma MainMoves(tier: Tier, site: Site, start: Url, pages: set<Url>, s: State)
    requires Inv(tier, site, start, pages, s) && Count(s.workers, Busy) == 0 && s.queue == [] && !s.main.Returned?
    requires forall v :: v in s.workers ==> !Busy(s.workers[v]) && !s.workers[v].Leaving?
    requires forall v :: v in s.workers ==> !s.workers[v].Free? || s.sentinels == 0
    ensures CanStep(tier, site, start, s)
  {
    CountNone(s.workers, Quitting);
    if s.main.Stopping? {
      assert Where(s.workers, Left) <= s.workers.Keys;
      if s.sentinels == 0 && s.main.n == |s.workers| {
        assert s.workers.Keys == Where(s.workers, Left) + (s.workers.Keys - Where(s.workers, Left));
        assert |s.workers.Keys - Where(s.workers, Left)| == 0;
        assert forall v :: v in s.workers.Keys ==> v in Where(s.workers, Left);
      }
    }
    var s' := match s.main
      case Waiting => s.(main := if tier.ThreadPool? then Returned else Stopping(0))
      case Stopping(n) =>
        if n < |s.workers| then s.(main := Stopping(n + 1), sentinels := s.sentinels + 1, pending := s.pending + 1)
        else s.(main := Returned)
      case Returned => s;
    assert MainStep(tier, s, s') && StepBy(tier, site, start, s, s', 0);
  }

  lemma {:induction false} SameWorkers(tier: Tier, site: Site, start: Url, r: seq<State>, i: nat)
    requires Run(tier, site, start, r) && i < |r|
    ensures r[i].workers.Keys == r[0].workers.Keys && |r[i].workers| > 0
  {
    if i > 0 {
      SameWorkers(tier, site, start, r, i - 1);
      assert StepAfter(tier, site, start, r, i - 1);
      assert |r[i].workers.Keys| == |r[i].workers|;
    }
    assert |r[0].workers.Keys| == |r[0].workers|;
  }

  /** No run is stuck before the main thread has returned. */
  lemma NeverStuck(tier: Tier, site: Site, start: Url, pages: set<Url>, r: seq<State>, i: nat)
    requires Universe(site, start, pages) && Run(tier, site, start, r) && i < |r| && !r[i].main.Returned?
    ensures CanStep(tier, site, start, r[i])
  {
    RunInv(tier, site, start, pages, r, i);
    SameWorkers(tier, site, start, r, i);
    if Count(r[i].workers, Busy) > 0 {
      BusyMoves(tier, site, start, pages, r[i]);
    } else {
      IdleMoves(tier, site, start, pages, r[i]);
    }
  }

  // --- termination ------------------------------------------------------------------------

  /** How many steps of work page u can still cause, by where it is. */
  function WorkOn(site: Site, s: State, u: Url): int {
    var n := |site.links(u)|;
    if u !in s.place then n + 4 else
      match s.place[u]
      case InHand(_) => n + 3
      case Queued => n + 2
      case Active(w) => if w in s.workers && Busy(s.workers[w]) then n - s.workers[w].k + 1 else 0
      case Finished => 0
  }

  /** m lists the work left on every page. */
  ghost predicate IsWork(site: Site, pages: set<Url>, s: State, m: map<Url, int>) {
    m.Keys == pages && forall u {:trigger WorkOn(site, s, u)} :: u in pages ==> m[u] == WorkOn(site, s, u)
  }

  /** The work left on every page. */
  ghost function WorkMap(site: Site, pages: set<Url>, s: State): (m: map<Url, int>)
    ensures IsWork(site, pages, s, m)
  {
    map u | u in pages :: WorkOn(site, s, u)
  }

  /** Steps the main thread and the sentinels still cause: three for each sentinel, put, taken and reported. */
  ghost function MainWork(tier: Tier, s: State): int {
    match s.main
    case Waiting => if tier.ThreadPool? then 1 else 3 * |s.workers| + 2
    case Stopping(n) => 3 * (|s.workers| - n) + 1 + 2 * s.sentinels + Count(s.workers, Quitting)
    case Returned => 0
  }

  /** A step of the main thread, or of a worker with a sentinel. */
  ghost predicate IsMainWork(tier: Tier, s: State, s': State, w: Worker) {
    MainStep(tier, s, s') || TakeSentinel(s, s', w) || Leave(s, s', w)
  }

  lemma WorkNonNegative(tier: Tier, site: Site, start: Url, pages: set<Url>, s: State, m: map<Url, int>)
    requires Inv(tier, site, start, pages, s) && IsWork(site, pages, s, m)
    ensures Sum(m, Same) + MainWork(tier, s) >= 0
  {
    forall u | u in m ensures m[u] >= 0 {
      assert m[u] == WorkOn(site, s, u);
      if u in s.place {
        assert PlaceInv(site, start, s, u);
        if s.place[u].Active? { assert WorkerInv(site, start, s, s.place[u].w); }
      }
    }
    SumNonNegative(m, Same);
  }

  /** A page the step neither takes, finds, puts, visits nor finishes has as much work as before. */
  lemma SameWork(site: Site, start: Url, s: State, s': State, w: Worker, u: Url)
    requires Frame(s, s', w) && (u in s.place ==> PlaceInv(site, start, s, u))
    requires u in s'.place ==> u in s.place && s'.place[u] == s.place[u]
    requires u in s.place && w in s.workers && Busy(s.workers[w]) ==> u != s.workers[w].url
    ensures WorkOn(site, s', u) == WorkOn(site, s, u)
  {
  }

  /** Changing the work on one page, or on two, changes the sum by as much. */
  lemma SumOne(before: map<Url, int>, after: map<Url, int>, u: Url)
    requires u in before && after.Keys == before.Keys
    requires forall v :: v in before && v != u ==> after[v] == before[v]
    ensures Sum(after, Same) == Sum(before, Same) - before[u] + after[u]
  {
    SumUpdate(before, u, after[u], Same);
    assert before[u := after[u]] == after;
  }

  lemma SumTwo(before: map<Url, int>, after: map<Url, int>, u: Url, l: Url)
    requires u in before && l in before && u != l && after.Keys == before.Keys
    requires forall v :: v in before && v != u && v != l ==> after[v] == before[v]
    ensures Sum(after, Same) == Sum(before, Same) - before[u] + after[u] - before[l] + after[l]
  {
    var mid := before[u := after[u]];
    SumUpdate(before, u, after[u], Same);
    SumOne(mid, after, l);
  }

  lemma WorkerStepWork(tier: Tier, site: Site, start: Url, pages: set<Url>, s: State, s': State, w: Worker,
                       u: Url, l: Url)
    requires Inv(tier, site, start, pages, s) && StepBy(tier, site, start, s, s', w) && w in s.workers
    requires SeenInv(site, start, pages, s') && Frame(s, s', w)
    requires Busy(s.workers[w]) ==> u == s.workers[w].url
    requires s.workers[w].Free? && s.queue != [] ==> u == s.queue[0]
    requires !IsMainWork(tier, s, s', w)
    requires if Discover(tier, site, start, s, s', w) then l == site.links(u)[s.workers[w].k]
             else if Put(s, s', w) then l == s.workers[w].link else l == u
    ensures u in pages && l in pages
    ensures forall v :: v in pages && v != u && v != l ==> WorkOn(site, s', v) == WorkOn(site, s, v)
  {
    assert WorkerInv(site, start, s, w);
    if Take(s, s', w) { assert s.queue[0] in s.queue; }
    assert u in s.place.Keys && (l in s'.place.Keys || l == u);
    forall v | v in pages && v != u && v != l ensures WorkOn(site, s', v) == WorkOn(site, s, v) {
      assert v in s.place ==> PlaceInv(site, start, s, v);
      SameWork(site, start, s, s', w, v);
    }
  }

  /** The pages a worker's step works on have less work left between them. */
  lemma WorkPaid(tier: Tier, site: Site, start: Url, pages: set<Url>, s: State, s': State, w: Worker, u: Url, l: Url)
    requires StepBy(tier, site, start, s, s', w) && w in s.workers && WorkerInv(site, start, s, w)
    requires SeenInv(site, start, pages, s) && QueueInv(s)
    requires Busy(s.workers[w]) ==> u == s.workers[w].url
    requires s.workers[w].Free? && s.queue != [] ==> u == s.queue[0]
    requires !IsMainWork(tier, s, s', w)
    requires if Discover(tier, site, start, s, s', w) then l == site.links(u)[s.workers[w].k]
             else if Put(s, s', w) then l == s.workers[w].link else l == u
    ensures WorkOn(site, s', u) <= WorkOn(site, s, u) && WorkOn(site, s', l) <= WorkOn(site, s, l)
    ensures WorkOn(site, s', u) < WorkOn(site, s, u) || WorkOn(site, s', l) < WorkOn(site, s, l)
  {
    if Take(s, s', w) { assert s.queue[0] in s.queue; }
  }

  /** The main thread and the sentinels change no page's work and pay from their own. */
  lemma MainPays(tier: Tier, site: Site, start: Url, pages: set<Url>, s: State, s': State, w: Worker, m: map<Url, int>)
    requires Inv(tier, site, start, pages, s) && StepBy(tier, site, start, s, s', w)
    requires IsMainWork(tier, s, s', w) && IsWork(site, pages, s, m)
    ensures IsWork(site, pages, s', m) && MainWork(tier, s') < MainWork(tier, s)
  {
    forall u | u in pages ensures WorkOn(site, s', u) == WorkOn(site, s, u) {
      assert u in s.place ==> PlaceInv(site, start, s, u);
    }
    assert |s'.workers.Keys| == |s'.workers| && |s.workers.Keys| == |s.workers|;
    QuittersLeft(s.workers);
    if !MainStep(tier, s, s') {
      CountUpdate(s.workers, w, s'.workers[w], Quitting);
      if s.workers[w].Leaving? {
        CountPositive(s.workers, w, Left);
        CountPositive(s.workers, w, Quitting);
      }
    }
  }

  lemma WorkerPays(tier: Tier, site: Site, start: Url, pages: set<Url>, s: State, s': State, w: Worker,
                   m: map<Url, int>)
      returns (m': map<Url, int>)
    requires Universe(site, start, pages) && w in s.workers
    requires Inv(tier, site, start, pages, s) && StepBy(tier, site, start, s, s', w)
    requires !IsMainWork(tier, s, s', w) && IsWork(site, pages, s, m)
    ensures IsWork(site, pages, s', m') && Sum(m', Same) < Sum(m, Same)
  {
    assert WorkerInv(site, start, s, w);
    StepSeen(tier, site, start, pages, s, s', w);
    StepFrame(tier, site, start, pages, s, s', w);
    var u := if Busy(s.workers[w]) then s.workers[w].url else s.queue[0];
    var l := if Discover(tier, site, start, s, s', w) then site.links(u)[s.workers[w].k]
             else if Put(s, s', w) then s.workers[w].link else u;
    WorkerStepWork(tier, site, start, pages, s, s', w, u, l);
    WorkPaid(tier, site, start, pages, s, s', w, u, l);
    m' := PaidWork(site, pages, s, s', m, u, l);
  }

  /** The new list of work differs on u and l only, and is less there. */
  lemma PaidWork(site: Site, pages: set<Url>, s: State, s': State, m: map<Url, int>, u: Url, l: Url)
      returns (m': map<Url, int>)
    requires IsWork(site, pages, s, m) && u in pages && l in pages
    requires forall v :: v in pages && v != u && v != l ==> WorkOn(site, s', v) == WorkOn(site, s, v)
    requires WorkOn(site, s', u) <= WorkOn(site, s, u) && WorkOn(site, s', l) <= WorkOn(site, s, l)
    requires WorkOn(site, s', u) < WorkOn(site, s, u) || WorkOn(site, s', l) < WorkOn(site, s, l)
    ensures IsWork(site, pages, s', m') && Sum(m', Same) < Sum(m, Same)
  {
    m' := m[u := WorkOn(site, s', u)][l := WorkOn(site, s', l)];
    assert m[u] == WorkOn(site, s, u) && m[l] == WorkOn(site, s, l);
    if l == u {
      SumOne(m, m', u);
    } else {
      SumTwo(m, m', u, l);
    }
    forall v | v in pages ensures m'[v] == WorkOn(site, s', v) {
      assert m[v] == WorkOn(site, s, v);
    }
  }

  /** Every step leaves strictly less to do. */
  lemma StepPays(tier: Tier, site: Site, start: Url, pages: set<Url>, s: State, s': State, w: Worker, m: map<Url, int>)
      returns (m': map<Url, int>)
    requires Universe(site, start, pages)
    requires Inv(tier, site, start, pages, s) && StepBy(tier, site, start, s, s', w) && IsWork(site, pages, s, m)
    ensures IsWork(site, pages, s', m')
    ensures Sum(m', Same) + MainWork(tier, s') < Sum(m, Same) + MainWork(tier, s)
  {
    if IsMainWork(tier, s, s', w) {
      MainPays(tier, site, start, pages, s, s', w, m);
      m' := m;
    } else {
      m' := WorkerPays(tier, site, start, pages, s, s', w, m);
      SameMainWork(tier, site, start, s, s', w);
    }
  }

  lemma SameMainWork(tier: Tier, site: Site, start: Url, s: State, s': State, w: Worker)
    requires StepBy(tier, site, start, s, s', w) && !IsMainWork(tier, s, s', w)
    ensures MainWork(tier, s') == MainWork(tier, s)
  {
    CountUpdate(s.workers, w, s'.workers[w], Quitting);
    assert s'.workers.Keys == s.workers.Keys;
    assert |s'.workers.Keys| == |s'.workers| && |s.workers.Keys| == |s.workers|;
  }

  /** All the work left. */
  ghost function WorkLeft(tier: Tier, site: Site, pages: set<Url>, s: State): int {
    Sum(WorkMap(site, pages, s), Same) + MainWork(tier, s)
  }

  lemma SameWorkMap(site: Site, pages: set<Url>, s: State, m: map<Url, int>)
    requires IsWork(site, pages, s, m)
    ensures m == WorkMap(site, pages, s)
  {
    forall u | u in pages ensures m[u] == WorkMap(site, pages, s)[u] {
      assert m[u] == WorkOn(site, s, u);
    }
  }

  lemma LessLeft(tier: Tier, site: Site, start: Url, pages: set<Url>, s: State, s': State, w: Worker)
    requires Universe(site, start, pages)
    requires Inv(tier, site, start, pages, s) && StepBy(tier, site, start, s, s', w)
    ensures WorkLeft(tier, site, pages, s') < WorkLeft(tier, site, pages, s)
  {
    var m' := StepPays(tier, site, start, pages, s, s', w, WorkMap(site, pages, s));
    SameWorkMap(site, pages, s', m');
  }

  lemma SomeOrNoneLeft(tier: Tier, site: Site, start: Url, pages: set<Url>, s: State)
    requires Inv(tier, site, start, pages, s)
    ensures WorkLeft(tier, site, pages, s) >= 0
  {
    WorkNonNegative(tier, site, start, pages, s, WorkMap(site, pages, s));
  }

  lemma NextPays(tier: Tier, site: Site, start: Url, pages: set<Url>, r: seq<State>, i: nat)
    requires Universe(site, start, pages) && Run(tier, site, start, r) && i + 1 < |r|
    ensures WorkLeft(tier, site, pages, r[i + 1]) < WorkLeft(tier, site, pages, r[i])
  {
    RunInv(tier, site, start, pages, r, i);
    assert StepAfter(tier, site, start, r, i);
    var w :| StepBy(tier, site, start, r[i], r[i + 1], w);
    LessLeft(tier, site, start, pages, r[i], r[i + 1], w);
  }

  predicate Falls(ks: seq<int>, i: nat)
    requires i + 1 < |ks|
  {
    ks[i + 1] < ks[i]
  }

  lemma {:induction false} FallingIsShort(ks: seq<int>)
    requires ks != [] && forall i: nat {:trigger Falls(ks, i)} :: i + 1 < |ks| ==> Falls(ks, i)
    ensures |ks| - 1 <= ks[0] - ks[|ks| - 1]
    decreases |ks|
  {
    if |ks| > 1 {
      var before := ks[..|ks| - 1];
      forall i: nat | i + 1 < |before| ensures Falls(before, i) {
        assert Falls(ks, i);
      }
      FallingIsShort(before);
      assert Falls(ks, |ks| - 2);
    }
  }

  lemma LastIsNotNegative(tier: Tier, site: Site, start: Url, pages: set<Url>, r: seq<State>)
    requires Universe(site, start, pages) && Run(tier, site, start, r)
    ensures WorkLeft(tier, site, pages, r[|r| - 1]) >= 0
  {
    RunInv(tier, site, start, pages, r, |r| - 1);
    SomeOrNoneLeft(tier, site, start, pages, r[|r| - 1]);
  }

  ghost function WorkAlong(tier: Tier, site: Site, pages: set<Url>, r: seq<State>): (ks: seq<int>)
    ensures |ks| == |r| && forall i :: 0 <= i < |r| ==> ks[i] == WorkLeft(tier, site, pages, r[i])
  {
    seq(|r|, i requires 0 <= i < |r| => WorkLeft(tier, site, pages, r[i]))
  }

  lemma WorkFalls(tier: Tier, site: Site, start: Url, pages: set<Url>, r: seq<State>, i: nat)
    requires Universe(site, start, pages) && Run(tier, site, start, r) && i + 1 < |r|
    ensures Falls(WorkAlong(tier, site, pages, r), i)
  {
    NextPays(tier, site, start, pages, r, i);
  }

  /** Every run on a finite link graph, cycles and all, ends within the number of steps of the work
      there is at its start. */
  lemma Terminates(tier: Tier, site: Site, start: Url, pages: set<Url>, r: seq<State>)
    requires Universe(site, start, pages) && Run(tier, site, start, r)
    ensures |r| - 1 <= WorkLeft(tier, site, pages, r[0])
  {
    var ks := WorkAlong(tier, site, pages, r);
    forall i: nat | i + 1 < |ks| ensures Falls(ks, i) {
      WorkFalls(tier, site, start, pages, r, i);
    }
    FallingIsShort(ks);
    LastIsNotNegative(tier, site, start, pages, r);
  }
}
