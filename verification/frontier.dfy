/** The three crawl sets and the per-page update `rip` performs on them
    (src/main.rs:74-80 and 147-158), run one page at a time. The update sees
    a page only through what its scan produced. */
module Frontier {
  import opened Wrappers
  import opened Seqs
  import opened Filters

  /** `WEBPAGES_TO_RIP`, `ALREADY_RIPPED` and `RESOURCES_TO_RIP`. */
  datatype Frontier = Frontier(pending: set<string>, visited: set<string>, resources: set<string>)

  /** Fetching and scanning a page: its filtered links and resources, or
      None when the GET, the body read or the file write fails. */
  type Fetch = string -> Option<Page>

  function LinksOf(fetch: Fetch, p: string): set<string>
  {
    match fetch(p)
    case None => {}
    case Some(page) => Elements(page.links)
  }

  function ResourcesOf(fetch: Fetch, p: string): set<string>
  {
    match fetch(p)
    case None => {}
    case Some(page) => Elements(page.resources)
  }

  /** Every link a page yields passed the link filter. */
  ghost predicate LinksFiltered(fetch: Fetch)
  {
    forall p, l :: l in LinksOf(fetch, p) ==> KeepLink(l)
  }

  /** The frontier before the first round: only the starting page is pending. */
  function Seed(start: string): (f: Frontier)
    ensures f.pending == {start} && f.visited == {}
    ensures f.resources == {}
  {
    Frontier({start}, {}, {})
  }

  /** The crawl invariants hold before the first round, whatever the site. */
  lemma SeedEstablishes(start: string, fetch: Fetch)
    ensures Expanded(fetch, Seed(start))
    ensures OnlyLinks(start, Seed(start))
    ensures Harvested(fetch, Seed(start))
  {
  }

  /** One `rip(s)`: mark `s` visited, then on a successful fetch add its
      resources and the links not yet visited. A failed fetch returns early,
      after the marking; its error is dropped by `join_all`. */
  function Rip(f: Frontier, s: string, fetch: Fetch): (g: Frontier)
    ensures s in g.visited && s !in g.pending
    ensures g.visited == f.visited + {s}
    ensures forall l :: l in g.pending <==> (l in f.pending && l != s) || (l in LinksOf(fetch, s) && l !in g.visited)
    ensures forall x :: x in g.resources <==> x in f.resources || x in ResourcesOf(fetch, s)
    ensures g.visited + g.pending == f.visited + f.pending + {s} + LinksOf(fetch, s)
    ensures f.pending !! f.visited ==> g.pending !! g.visited
  {
    var marked := f.(pending := f.pending - {s}, visited := f.visited + {s});
    match fetch(s)
    case None => marked
    case Some(page) =>
      var unseen := Filter(page.links, l => l !in marked.visited);
      marked.(resources := marked.resources + Elements(page.resources),
              pending := marked.pending + Elements(unseen))
  }

  /** A round: `rip` on every suffix of the snapshot, in the order given. */
  function Round(f: Frontier, order: seq<string>, fetch: Fetch): (g: Frontier)
    decreases |order|
    ensures g.visited == f.visited + Elements(order)
    ensures f.resources <= g.resources
    ensures f.pending !! f.visited ==> g.pending !! g.visited
  {
    if order == [] then f
    else Round(Rip(f, order[0], fetch), order[1..], fetch)
  }

  /** Pages whose links are all already known to the crawl. */
  ghost predicate Expanded(fetch: Fetch, f: Frontier)
  {
    forall p :: p in f.visited ==> LinksOf(fetch, p) <= f.visited + f.pending
  }

  /** Every link of a visited page is visited or pending, after any round. */
  lemma {:induction false} RoundKeepsExpanded(f: Frontier, order: seq<string>, fetch: Fetch)
    requires Expanded(fetch, f)
    ensures Expanded(fetch, Round(f, order, fetch))
    decreases |order|
  {
    if order != [] {
      var g := Rip(f, order[0], fetch);
      assert Expanded(fetch, g);
      RoundKeepsExpanded(g, order[1..], fetch);
    }
  }

  /** Everything the crawl knows of, other than the starting page, came
      through the link filter. */
  ghost predicate OnlyLinks(start: string, f: Frontier)
  {
    forall x :: x in f.visited + f.pending ==> x == start || KeepLink(x)
  }

  lemma {:induction false} RoundKeepsOnlyLinks(start: string, f: Frontier, order: seq<string>, fetch: Fetch)
    requires LinksFiltered(fetch)
    requires OnlyLinks(start, f) && Elements(order) <= f.visited + f.pending
    ensures OnlyLinks(start, Round(f, order, fetch))
    decreases |order|
  {
    if order != [] {
      var g := Rip(f, order[0], fetch);
      assert order[0] in order;
      assert Elements(order[1..]) <= g.visited + g.pending by {
        forall x | x in order[1..] ensures x in g.visited + g.pending { assert x in order; }
      }
      RoundKeepsOnlyLinks(start, g, order[1..], fetch);
    }
  }

  /** A set that holds the links of each of its pages. */
  ghost predicate Closed(fetch: Fetch, R: set<string>)
  {
    forall p :: p in R ==> LinksOf(fetch, p) <= R
  }

  /** A round started inside a closed set never leaves it. */
  lemma {:induction false} RoundStaysWithin(f: Frontier, order: seq<string>, fetch: Fetch, R: set<string>)
    requires Closed(fetch, R)
    requires f.visited + f.pending <= R && Elements(order) <= R
    ensures Round(f, order, fetch).visited + Round(f, order, fetch).pending <= R
    decreases |order|
  {
    if order != [] {
      var g := Rip(f, order[0], fetch);
      assert order[0] in R;
      assert Elements(order[1..]) <= R by {
        forall x | x in order[1..] ensures x in R { assert x in order; }
      }
      RoundStaysWithin(g, order[1..], fetch, R);
    }
  }

  /** The resource set holds exactly what the visited pages reference. */
  ghost predicate Harvested(fetch: Fetch, f: Frontier)
  {
    forall x :: x in f.resources <==> exists p :: p in f.visited && x in ResourcesOf(fetch, p)
  }

  /** One `rip` keeps the resource set equal to what the visited pages reference. */
  lemma RipHarvests(f: Frontier, s: string, fetch: Fetch)
    requires Harvested(fetch, f)
    ensures Harvested(fetch, Rip(f, s, fetch))
  {
    var g := Rip(f, s, fetch);
    forall x | x in g.resources
      ensures exists p :: p in g.visited && x in ResourcesOf(fetch, p)
    {
      if x in f.resources {
        var p :| p in f.visited && x in ResourcesOf(fetch, p);
        assert p in g.visited;
      } else {
        assert s in g.visited && x in ResourcesOf(fetch, s);
      }
    }
    forall x, p | p in f.visited + {s} && x in ResourcesOf(fetch, p)
      ensures x in g.resources
    {
      if p != s {
        assert x in f.resources;
      }
    }
  }

  /** The resource set is exactly what the visited pages reference, after any round. */
  lemma {:induction false} RoundHarvests(f: Frontier, order: seq<string>, fetch: Fetch)
    requires Harvested(fetch, f)
    ensures Harvested(fetch, Round(f, order, fetch))
    decreases |order|
  {
    if order != [] {
      RipHarvests(f, order[0], fetch);
      RoundHarvests(Rip(f, order[0], fetch), order[1..], fetch);
    }
  }

  /** Each `rip` of a round meets a page that nobody visited before it. */
  ghost predicate FetchesFresh(f: Frontier, order: seq<string>, fetch: Fetch)
    decreases |order|
  {
    order == [] || (order[0] !in f.visited && FetchesFresh(Rip(f, order[0], fetch), order[1..], fetch))
  }

  /** A round over a duplicate-free snapshot of pending never fetches a page
      twice, and it grows the visited set by exactly the snapshot's size. */
  lemma {:induction false} RoundNeverRefetches(f: Frontier, order: seq<string>, fetch: Fetch)
    requires Distinct(order) && Elements(order) <= f.pending && f.pending !! f.visited
    ensures FetchesFresh(f, order, fetch)
    ensures |Round(f, order, fetch).visited| == |f.visited| + |order|
    decreases |order|
  {
    DistinctCardinality(order);
    if order != [] {
      var s := order[0];
      var g := Rip(f, s, fetch);
      DistinctTail(order);
      assert s in f.pending;
      forall x | x in order[1..]
        ensures x in g.pending
      {
        assert x in order && x != s;
      }
      RoundNeverRefetches(g, order[1..], fetch);
    }
  }
}
