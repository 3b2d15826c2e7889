/** The depth-bounded crawl. The web is any function from URLs to the links of a page, or nothing. */
module Crawler {
  import opened Prelude

  type Url = string

  type Web = Url -> Option<seq<Url>>

  datatype Entry = Entry(url: Url, depth: nat)

  /** `u` is reached from `start` by following exactly `k` links, each on a page that can be fetched. */
  ghost predicate Reach(web: Web, start: Url, u: Url, k: nat)
    decreases k
  {
    if k == 0 then u == start
    else exists p :: Reach(web, start, p, k - 1) && Links(web, p, u)
  }

  ghost predicate Links(web: Web, p: Url, u: Url) {
    web(p).Some? && u in web(p).value
  }

  /** `k` is the link distance of `u`. */
  ghost predicate Distance(web: Web, start: Url, u: Url, k: nat) {
    Reach(web, start, u, k) && forall j: nat :: j < k ==> !Reach(web, start, u, j)
  }

  /** `u` is at most `depth` links away. */
  ghost predicate Within(web: Web, start: Url, u: Url, depth: int) {
    exists k: nat :: k <= depth && Reach(web, start, u, k)
  }

  // ----- the loop invariant ------------------------------------------------------------

  /** The level the queue is at; one beyond the bound when it is empty. */
  function Level(queue: seq<Entry>, depth: nat): nat {
    if queue == [] then depth + 1 else queue[0].depth
  }

  /** Entries of the first level in the queue. */
  function AtLevel(queue: seq<Entry>, d: nat): nat {
    if queue == [] then 0 else (if queue[0].depth == d then 1 else 0) + AtLevel(queue[1..], d)
  }

  predicate Layered(queue: seq<Entry>, depth: nat) {
    && (forall i, j :: 0 <= i < j < |queue| ==> queue[i].depth <= queue[j].depth <= queue[0].depth + 1)
    && (forall i :: 0 <= i < |queue| ==> queue[i].depth <= depth)
  }

  /** Every visited URL has a level, at which it was first expanded. */
  ghost predicate Expanded(web: Web, start: Url, queue: seq<Entry>, depth: nat, level: map<Url, nat>) {
    && (forall e :: e in queue ==> Reach(web, start, e.url, e.depth))
    && (forall u :: u in level ==> Distance(web, start, u, level[u]) && level[u] <= depth)
    && (forall u, i :: u in level && 0 <= i < |queue| ==> level[u] <= queue[i].depth)
  }

  /** A link of an expanded page is expanded too, in time, or waits in the queue. */
  predicate Followed(queue: seq<Entry>, level: map<Url, nat>, u: Url, k: nat) {
    (u in level && level[u] <= k) || Entry(u, k) in queue
  }

  ghost predicate Complete(web: Web, start: Url, queue: seq<Entry>, depth: nat, level: map<Url, nat>) {
    && Followed(queue, level, start, 0)
    && forall p, u :: p in level && level[p] < depth && Links(web, p, u) ==> Followed(queue, level, u, level[p] + 1)
  }

  /** Whatever is within reach has been expanded in time, or something no deeper still waits. */
  lemma {:induction false} Frontier(web: Web, start: Url, queue: seq<Entry>, depth: nat, level: map<Url, nat>, u: Url, k: nat)
    requires Complete(web, start, queue, depth, level) && k <= depth && Reach(web, start, u, k)
    ensures (u in level && level[u] <= k) || exists e :: e in queue && e.depth <= k
    decreases k
  {
    if k > 0 {
      var p :| Reach(web, start, p, k - 1) && Links(web, p, u);
      Frontier(web, start, queue, depth, level, p, k - 1);
    }
  }

  /** The first unexpanded entry is at its link distance. */
  lemma FirstVisitIsShortest(web: Web, start: Url, queue: seq<Entry>, depth: nat, level: map<Url, nat>)
    requires queue != [] && Layered(queue, depth)
    requires Expanded(web, start, queue, depth, level) && Complete(web, start, queue, depth, level)
    requires queue[0].url !in level
    ensures Distance(web, start, queue[0].url, queue[0].depth)
  {
    hide Reach;
    var u, d := queue[0].url, queue[0].depth;
    assert queue[0] in queue;
    assert forall e :: e in queue ==> d <= e.depth;
    forall j: nat | j < d
      ensures !Reach(web, start, u, j)
    {
      if Reach(web, start, u, j) {
        Frontier(web, start, queue, depth, level, u, j);
      }
    }
  }

  // ----- queue steps ----------------------------------------------------------------------

  lemma DropKeeps(web: Web, start: Url, queue: seq<Entry>, depth: nat, level: map<Url, nat>)
    requires queue != [] && Layered(queue, depth) && queue[0].url in level
    requires Expanded(web, start, queue, depth, level) && Complete(web, start, queue, depth, level)
    ensures Layered(queue[1..], depth)
    ensures Expanded(web, start, queue[1..], depth, level) && Complete(web, start, queue[1..], depth, level)
  {
    hide Distance, Reach, Links;
    var rest := queue[1..];
    assert level[queue[0].url] <= queue[0].depth;
    forall u, k | Followed(queue, level, u, k)
      ensures Followed(rest, level, u, k)
    {
      if Entry(u, k) in queue && Entry(u, k) != queue[0] {
        assert Entry(u, k) in rest;
      }
    }
  }

  /** The links not yet expanded, as entries of the next level. */
  function NewEntries(links: seq<Url>, visited: set<Url>, d: nat): seq<Entry> {
    if links == [] then []
    else NewEntries(links[..|links| - 1], visited, d)
         + (if links[|links| - 1] !in visited then [Entry(links[|links| - 1], d)] else [])
  }

  lemma {:induction false} NewEntriesAre(links: seq<Url>, visited: set<Url>, d: nat)
    ensures forall e :: e in NewEntries(links, visited, d) <==> e.depth == d && e.url in links && e.url !in visited
  {
    if links != [] {
      var init, last := links[..|links| - 1], links[|links| - 1];
      NewEntriesAre(init, visited, d);
      assert links == init + [last];
      var es := NewEntries(init, visited, d);
      assert NewEntries(links, visited, d) == es + if last !in visited then [Entry(last, d)] else [];
      forall e
        ensures e in NewEntries(links, visited, d) <==> e in es || (e == Entry(last, d) && last !in visited)
      {
      }
    }
  }

  lemma {:induction false} AtLevelAppend(a: seq<Entry>, b: seq<Entry>, d: nat)
    ensures AtLevel(a + b, d) == AtLevel(a, d) + AtLevel(b, d)
  {
    if a == [] {
      assert a + b == b;
    } else {
      assert (a + b)[1..] == a[1..] + b;
      AtLevelAppend(a[1..], b, d);
    }
  }

  /** Expanding the first entry at its level, then queueing its new links one level deeper. */
  lemma ExpandKeeps(web: Web, start: Url, queue: seq<Entry>, depth: nat, level: map<Url, nat>, added: seq<Entry>)
    requires queue != [] && Layered(queue, depth) && queue[0].url !in level
    requires Expanded(web, start, queue, depth, level) && Complete(web, start, queue, depth, level)
    requires var u, d := queue[0].url, queue[0].depth;
             if web(u).Some? && d < depth then added == NewEntries(web(u).value, level.Keys + {u}, d + 1) else added == []
    ensures var u, d := queue[0].url, queue[0].depth;
            var queue', level' := queue[1..] + added, level[u := d];
            && Layered(queue', depth)
            && Expanded(web, start, queue', depth, level') && Complete(web, start, queue', depth, level')
  {
    var u, d := queue[0].url, queue[0].depth;
    var queue', level' := queue[1..] + added, level[u := d];
    var visited := level.Keys + {u};
    if web(u).Some? {
      NewEntriesAre(web(u).value, visited, d + 1);
    }
    AddedAreNextLevel(web, queue, depth, level, added);
    FirstVisitIsShortest(web, start, queue, depth, level);
    ExpandKeepsExpanded(web, start, queue, depth, level, added);
    ExpandKeepsComplete(web, start, queue, depth, level, added);
  }

  lemma AddedAreNextLevel(web: Web, queue: seq<Entry>, depth: nat, level: map<Url, nat>, added: seq<Entry>)
    requires queue != [] && Layered(queue, depth)
    requires added != [] ==> queue[0].depth < depth
    requires forall e :: e in added ==> e.depth == queue[0].depth + 1
    ensures Layered(queue[1..] + added, depth)
  {
    var queue' := queue[1..] + added;
    forall i | 0 <= i < |queue'|
      ensures queue[0].depth <= queue'[i].depth <= queue[0].depth + 1
      ensures i >= |queue| - 1 ==> queue'[i].depth == queue[0].depth + 1
      ensures queue'[i].depth <= depth
    {
      if i >= |queue| - 1 {
        assert queue'[i] in added;
      }
    }
  }

  lemma ExpandKeepsExpanded(web: Web, start: Url, queue: seq<Entry>, depth: nat, level: map<Url, nat>, added: seq<Entry>)
    requires queue != [] && Layered(queue, depth) && queue[0].url !in level
    requires Expanded(web, start, queue, depth, level)
    requires Distance(web, start, queue[0].url, queue[0].depth)
    requires forall e :: e in added ==> e.depth == queue[0].depth + 1 && Links(web, queue[0].url, e.url)
    ensures Expanded(web, start, queue[1..] + added, depth, level[queue[0].url := queue[0].depth])
  {
    hide Links;
    var u, d := queue[0].url, queue[0].depth;
    forall e | e in added
      ensures Reach(web, start, e.url, e.depth)
    {
      assert Reach(web, start, u, d) && Links(web, u, e.url);
    }
    var queue' := queue[1..] + added;
    forall e | e in queue'
      ensures Reach(web, start, e.url, e.depth) && d <= e.depth
    {
      if e !in added {
        assert e in queue;
      }
    }
    forall w, i | w in level && 0 <= i < |queue'|
      ensures level[w] <= queue'[i].depth
    {
      assert queue'[i] in queue';
      assert level[w] <= queue[0].depth;
    }
    forall i | 0 <= i < |queue'|
      ensures d <= queue'[i].depth
    {
      assert queue'[i] in queue';
    }
  }

  lemma ExpandKeepsComplete(web: Web, start: Url, queue: seq<Entry>, depth: nat, level: map<Url, nat>, added: seq<Entry>)
    requires queue != [] && queue[0].url !in level && Complete(web, start, queue, depth, level)
    requires forall w :: w in level ==> level[w] <= queue[0].depth
    requires var u, d := queue[0].url, queue[0].depth;
             forall w :: Links(web, u, w) && d < depth && w !in level && w != u ==> Entry(w, d + 1) in added
    ensures Complete(web, start, queue[1..] + added, depth, level[queue[0].url := queue[0].depth])
  {
    hide Links;
    var u, d := queue[0].url, queue[0].depth;
    var queue', level' := queue[1..] + added, level[u := d];
    forall w, k | Followed(queue, level, w, k)
      ensures Followed(queue', level', w, k)
    {
      if Entry(w, k) in queue && Entry(w, k) != queue[0] {
        assert Entry(w, k) in queue[1..];
      }
    }
  }

  // ----- the crawl ---------------------------------------------------------------------------

  /** The reports so far: every expanded page that could be fetched, once, shallow ones first. */
  ghost predicate Reported(web: Web, results: seq<Url>, graph: map<Url, seq<Url>>, level: map<Url, nat>) {
    && (forall u :: u in results <==> u in level && web(u).Some?)
    && (forall i, j :: 0 <= i < j < |results| ==> results[i] != results[j])
    && (forall i, j :: 0 <= i < j < |results| ==> level[results[i]] <= level[results[j]])
    && (forall u :: u in graph <==> u in results)
    && (forall u :: u in graph ==> web(u) == Some(graph[u]))
  }

  lemma ReportKeeps(web: Web, results: seq<Url>, graph: map<Url, seq<Url>>, level: map<Url, nat>, u: Url, d: nat)
    requires Reported(web, results, graph, level) && u !in level
    requires forall w :: w in level ==> level[w] <= d
    ensures web(u).None? ==> Reported(web, results, graph, level[u := d])
    ensures web(u).Some? ==> Reported(web, results + [u], graph[u := web(u).value], level[u := d])
  {
    assert forall i :: 0 <= i < |results| ==> results[i] in results;
  }

  /** The inner loop: queues the links of a page that are not visited yet. */
  method QueueLinks(links: seq<Url>, visited: set<Url>, d: nat) returns (added: seq<Entry>)
    ensures added == NewEntries(links, visited, d)
  {
    added := [];
    for n := 0 to |links|
      invariant added == NewEntries(links[..n], visited, d)
    {
      assert links[..n + 1][..n] == links[..n];
      if links[n] !in visited {
        added := added + [Entry(links[n], d)];
      }
    }
    assert links[..|links|] == links;
  }

  /** The invariant of the crawl. */
  ghost predicate Crawling(web: Web, start: Url, depth: nat, queue: seq<Entry>,
                           results: seq<Url>, graph: map<Url, seq<Url>>, level: map<Url, nat>) {
    && Layered(queue, depth)
    && Expanded(web, start, queue, depth, level) && Complete(web, start, queue, depth, level)
    && Reported(web, results, graph, level)
  }

  /** The queue has come closer to the end: the first level is deeper, or has fewer entries. */
  predicate Closer(queue: seq<Entry>, queue': seq<Entry>, depth: nat) {
    var l, l' := Level(queue, depth), Level(queue', depth);
    l < l' <= depth + 1 || (l == l' && AtLevel(queue', l') < AtLevel(queue, l))
  }

  lemma StartCrawling(web: Web, start: Url, depth: nat)
    ensures Crawling(web, start, depth, [Entry(start, 0)], [], map[], map[])
  {
  }

  lemma SkipTurn(web: Web, start: Url, depth: nat, queue: seq<Entry>,
                 results: seq<Url>, graph: map<Url, seq<Url>>, level: map<Url, nat>)
    requires queue != [] && Crawling(web, start, depth, queue, results, graph, level)
    requires queue[0].url in level || queue[0].depth > depth
    ensures Crawling(web, start, depth, queue[1..], results, graph, level)
    ensures Closer(queue, queue[1..], depth)
  {
    hide Reported, Expanded, Complete, AtLevel;
    DropKeeps(web, start, queue, depth, level);
    assert queue[1..] + [] == queue[1..];
    LevelDrops(queue, [], depth);
  }

  lemma ExpandTurn(web: Web, start: Url, depth: nat, queue: seq<Entry>,
                   results: seq<Url>, graph: map<Url, seq<Url>>, level: map<Url, nat>, added: seq<Entry>)
    requires queue != [] && Crawling(web, start, depth, queue, results, graph, level) && queue[0].url !in level
    requires var u, d := queue[0].url, queue[0].depth;
             if web(u).Some? && d < depth then added == NewEntries(web(u).value, level.Keys + {u}, d + 1) else added == []
    ensures var u, d := queue[0].url, queue[0].depth;
            && Closer(queue, queue[1..] + added, depth)
            && (web(u).None? ==> Crawling(web, start, depth, queue[1..] + added, results, graph, level[u := d]))
            && (web(u).Some? ==>
                  Crawling(web, start, depth, queue[1..] + added, results + [u], graph[u := web(u).value], level[u := d]))
  {
    hide Reported, Distance, Reach, Complete, AtLevel, NewEntries;
    var u, d := queue[0].url, queue[0].depth;
    if web(u).Some? {
      NewEntriesAre(web(u).value, level.Keys + {u}, d + 1);
    }
    ReportKeeps(web, results, graph, level, u, d);
    ExpandKeeps(web, start, queue, depth, level, added);
    LevelDrops(queue, added, depth);
  }

  /**
   * The crawl reports exactly the pages that can be fetched within `depth` links of the start,
   * once each, in nondecreasing link distance, whatever duplicates pass through the queue.
   * `level` is the depth at which each URL was first taken from the queue: its link distance.
   */
  method Crawl(web: Web, start: Url, depth: int) returns (results: seq<Url>, graph: map<Url, seq<Url>>, ghost level: map<Url, nat>)
    ensures forall u :: u in results <==> web(u).Some? && Within(web, start, u, depth)
    ensures forall u :: u in level ==> Distance(web, start, u, level[u])
    ensures Reported(web, results, graph, level)
  {
    if depth < 0 {
      return [], map[], map[];  // the start page itself lies beyond the bound
    }
    results, graph, level := CrawlWithin(web, start, depth);
  }

  method CrawlWithin(web: Web, start: Url, depth: nat) returns (results: seq<Url>, graph: map<Url, seq<Url>>, ghost level: map<Url, nat>)
    ensures forall u :: u in results <==> web(u).Some? && Within(web, start, u, depth)
    ensures forall u :: u in level ==> Distance(web, start, u, level[u])
    ensures Reported(web, results, graph, level)
  {
    hide Crawling, AtLevel, NewEntries, Within, Distance, Reported;
    var visited: set<Url> := {};
    var queue := [Entry(start, 0)];
    results, graph, level := [], map[], map[];
    StartCrawling(web, start, depth);
    while queue != []
      invariant visited == level.Keys
      invariant Crawling(web, start, depth, queue, results, graph, level)
      decreases depth + 1 - Level(queue, depth), AtLevel(queue, Level(queue, depth))
    {
      var url, d := queue[0].url, queue[0].depth;
      ghost var before := queue;
      LevelInBound(web, start, depth, queue, results, graph, level);
      if url in visited || d > depth {
        SkipTurn(web, start, depth, queue, results, graph, level);
        queue := queue[1..];
        continue;
      }
      visited := visited + {url};
      var page := web(url);
      var added := [];
      if page.Some? && d < depth {
        added := QueueLinks(page.value, visited, d + 1);
      }
      ExpandTurn(web, start, depth, queue, results, graph, level, added);
      if page.Some? {
        results := results + [url];
        graph := graph[url := page.value];
      }
      queue := queue[1..] + added;
      level := level[url := d];
    }
    EndCrawling(web, start, depth, results, graph, level);
  }

  lemma LevelInBound(web: Web, start: Url, depth: nat, queue: seq<Entry>,
                     results: seq<Url>, graph: map<Url, seq<Url>>, level: map<Url, nat>)
    requires queue != [] && Crawling(web, start, depth, queue, results, graph, level)
    ensures Level(queue, depth) == queue[0].depth <= depth
  {
  }

  lemma EndCrawling(web: Web, start: Url, depth: nat, results: seq<Url>, graph: map<Url, seq<Url>>, level: map<Url, nat>)
    requires Crawling(web, start, depth, [], results, graph, level)
    ensures forall u :: u in results <==> web(u).Some? && Within(web, start, u, depth)
    ensures forall u :: u in level ==> Distance(web, start, u, level[u])
    ensures Reported(web, results, graph, level)
  {
    hide Within, Distance;
    CrawlIsComplete(web, start, depth, level);
  }

  /** Removing the first entry and appending entries of the next level lowers the measure. */
  lemma LevelDrops(queue: seq<Entry>, added: seq<Entry>, depth: nat)
    requires queue != [] && Layered(queue, depth)
    requires forall e :: e in added ==> e.depth == queue[0].depth + 1
    requires Layered(queue[1..] + added, depth)
    ensures Closer(queue, queue[1..] + added, depth)
  {
    var d := queue[0].depth;
    AtLevelAppend(queue[1..], added, d);
    NoneAtLevel(added, d);
    var queue' := queue[1..] + added;
    if queue' != [] {
      if |queue| == 1 {
        assert queue'[0] in added;
      }
    }
  }

  lemma {:induction false} NoneAtLevel(a: seq<Entry>, d: nat)
    requires forall e :: e in a ==> e.depth == d + 1
    ensures AtLevel(a, d) == 0
  {
    if a != [] {
      NoneAtLevel(a[1..], d);
    }
  }

  /** When the queue is empty, the expanded URLs are exactly those within reach. */
  lemma CrawlIsComplete(web: Web, start: Url, depth: nat, level: map<Url, nat>)
    requires Expanded(web, start, [], depth, level) && Complete(web, start, [], depth, level)
    ensures forall u :: u in level <==> Within(web, start, u, depth)
    ensures forall u :: u in level ==> Distance(web, start, u, level[u])
  {
    forall u | Within(web, start, u, depth)
      ensures u in level
    {
      var k: nat :| k <= depth && Reach(web, start, u, k);
      Frontier(web, start, [], depth, level, u, k);
    }
  }
}
