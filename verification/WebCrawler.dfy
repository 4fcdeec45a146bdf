/** Same-host crawling of a finite link graph: the sequential loop, and what every tier must return. */
module WebCrawler {

  type Url = string

  /** links stands for fetching and parsing a page, host for the host name of a URL. */
  datatype Site = Site(links: Url -> seq<Url>, host: Url -> string)

  /** The pages found by following v's same-host links are among us. */
  ghost predicate LinksWithin(site: Site, host: string, v: Url, us: set<Url>) {
    forall l :: l in site.links(v) && site.host(l) == host ==> l in us
  }

  /** A finite universe of pages that same-host links do not leave. */
  ghost predicate Universe(site: Site, start: Url, pages: set<Url>) {
    start in pages && forall v {:trigger LinksWithin(site, site.host(start), v, pages)} ::
      v in pages ==> LinksWithin(site, site.host(start), v, pages)
  }

  /** From its k-th page the path follows a same-host link. */
  ghost predicate Hop(site: Site, start: Url, p: seq<Url>, k: nat)
    requires k + 1 < |p|
  {
    p[k + 1] in site.links(p[k]) && site.host(p[k + 1]) == site.host(start)
  }

  ghost predicate Path(site: Site, start: Url, p: seq<Url>) {
    |p| > 0 && p[0] == start &&
    forall k: nat {:trigger Hop(site, start, p, k)} :: k + 1 < |p| ==> Hop(site, start, p, k)
  }

  /** u can be reached from start by links that stay on start's host. */
  ghost predicate Reachable(site: Site, start: Url, u: Url) {
    exists p :: Path(site, start, p) && p[|p| - 1] == u
  }

  lemma StartReachable(site: Site, start: Url)
    ensures Reachable(site, start, start)
  {
    assert Path(site, start, [start]);
  }

  lemma LinkReachable(site: Site, start: Url, u: Url, l: Url)
    requires Reachable(site, start, u) && l in site.links(u) && site.host(l) == site.host(start)
    ensures Reachable(site, start, l)
  {
    var p :| Path(site, start, p) && p[|p| - 1] == u;
    var q := p + [l];
    forall k: nat | k + 1 < |q| ensures Hop(site, start, q, k) {
      if k + 1 < |p| { assert Hop(site, start, p, k); }
    }
    assert Path(site, start, q) && q[|q| - 1] == l;
  }

  ghost predicate Closed(site: Site, start: Url, us: set<Url>) {
    start in us && forall v {:trigger LinksWithin(site, site.host(start), v, us)} ::
      v in us ==> LinksWithin(site, site.host(start), v, us)
  }

  /** A set closed under same-host links holds every reachable page. */
  lemma ClosedHoldsReachable(site: Site, start: Url, us: set<Url>, u: Url)
    requires Closed(site, start, us) && Reachable(site, start, u)
    ensures u in us
  {
    var p :| Path(site, start, p) && p[|p| - 1] == u;
    var k := 0;
    while k < |p| - 1
      invariant k < |p| && p[k] in us
    {
      assert LinksWithin(site, site.host(start), p[k], us);
      assert Hop(site, start, p, k);
      k := k + 1;
    }
  }

  /** us is what a crawl from start must return. */
  ghost predicate IsCrawl(site: Site, start: Url, us: set<Url>) {
    forall u :: u in us <==> Reachable(site, start, u)
  }

  ghost predicate NoRepeats(us: seq<Url>) {
    forall i, j :: 0 <= i < j < |us| ==> us[i] != us[j]
  }

  lemma NoRepeatsSnoc(us: seq<Url>, u: Url)
    requires NoRepeats(us) && u !in us
    ensures NoRepeats(us + [u])
  {
  }

  /** Between two pages of the crawl: seen splits into the stack and the pages done. */
  ghost predicate Frontier(site: Site, start: Url, pages: set<Url>, seen: set<Url>, stack: seq<Url>, done: set<Url>) {
    start in seen && seen <= pages && (forall u :: u in seen ==> Reachable(site, start, u)) &&
    NoRepeats(stack) && (forall u :: u in seen <==> u in stack || u in done) &&
    (forall u :: u in stack ==> u !in done) &&
    forall v {:trigger LinksWithin(site, site.host(start), v, seen)} ::
      v in done ==> LinksWithin(site, site.host(start), v, seen)
  }

  /** SimpleCrawler.crawl: a stack and a visited set. fetched lists the pages in fetching order. */
  method Crawl(site: Site, start: Url, ghost pages: set<Url>) returns (seen: set<Url>, ghost fetched: seq<Url>)
    requires Universe(site, start, pages)
    ensures IsCrawl(site, start, seen)
    ensures NoRepeats(fetched) && forall u :: u in fetched <==> u in seen
  {
    var stack := [start];
    seen := {start};
    fetched := [];
    ghost var done: set<Url> := {};
    StartReachable(site, start);
    while stack != []
      invariant Frontier(site, start, pages, seen, stack, done)
      invariant NoRepeats(fetched) && forall u :: u in fetched <==> u in done
      decreases pages - done
    {
      var url := stack[|stack| - 1];
      assert url in stack;
      fetched := fetched + [url];
      seen, stack := Expand(site, start, pages, seen, stack[..|stack| - 1], done, url);
      done := done + {url};
    }
    forall u ensures u in seen <==> Reachable(site, start, u) {
      if Reachable(site, start, u) {
        ClosedHoldsReachable(site, start, seen, u);
      }
    }
  }

  /** One page's links: push each same-host link not seen before. */
  method Expand(site: Site, start: Url, ghost pages: set<Url>, seen0: set<Url>, stack0: seq<Url>, ghost done: set<Url>,
                url: Url) returns (seen: set<Url>, stack: seq<Url>)
    requires Universe(site, start, pages) && url !in stack0
    requires Frontier(site, start, pages, seen0, stack0 + [url], done)
    ensures Frontier(site, start, pages, seen, stack, done + {url})
  {
    seen, stack := seen0, stack0;
    var links := site.links(url);
    assert NoRepeats(stack0) by {
      assert forall i :: 0 <= i < |stack0| ==> (stack0 + [url])[i] == stack0[i];
    }
    assert url in stack0 + [url] && LinksWithin(site, site.host(start), url, pages);
    for k := 0 to |links|
      invariant seen0 <= seen <= pages && url !in stack && NoRepeats(stack)
      invariant forall u :: u in seen ==> Reachable(site, start, u)
      invariant forall u :: u in seen <==> u in stack || u in done || u == url
      invariant forall u :: u in stack ==> u !in done
      invariant forall j :: 0 <= j < k && site.host(links[j]) == site.host(start) ==> links[j] in seen
    {
      var link := links[k];
      if site.host(link) != site.host(start) { continue; }
      if link in seen { continue; }
      LinkReachable(site, start, url, link);
      seen := seen + {link};
      stack := stack + [link];
    }
    forall v | v in done + {url} ensures LinksWithin(site, site.host(start), v, seen) {
      if v != url {
        assert LinksWithin(site, site.host(start), v, seen0);
      }
    }
  }
}
