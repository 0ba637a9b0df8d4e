/** The page phase of `main` (src/main.rs:46-58): snapshot the pending set,
    stop when it is empty, otherwise `rip` every page of the snapshot and
    go again. Rounds run their pages one after another. */
module Crawl {
  import opened Wrappers
  import opened Seqs
  import opened Filters
  import opened Frontier

  /** The site as seen by the crawler: the page text behind a suffix, or None
      when the GET, the body read or the file write fails. */
  type Site = string -> Option<string>

  /** Fetch a page, then scan and filter its text (src/main.rs:89-145). */
  function FetchFrom(site: Site): (fetch: Fetch)
    ensures forall s :: fetch(s).None? <==> site(s).None?
    ensures forall s :: fetch(s).Some? ==> forall x :: x in fetch(s).value.resources ==> KeepResource(x)
  {
    s => match site(s)
         case None => None
         case Some(text) => Some(ScanPage(text))
  }

  /** Links reach the crawl only through the link filter. */
  lemma FetchFromFiltered(site: Site)
    ensures LinksFiltered(FetchFrom(site))
  {
    forall p, l | l in LinksOf(FetchFrom(site), p)
      ensures KeepLink(l)
    {
      var text := site(p).value;
      assert l in ScanPage(text).links;
    }
  }

  /** A duplicate-free enumeration of the snapshot, in an arbitrary order
      (the iteration order of a `HashSet`). */
  method SnapshotOrder(snapshot: set<string>) returns (order: seq<string>)
    ensures Distinct(order)
    ensures Elements(order) == snapshot
    ensures |order| == |snapshot|
  {
    order := [];
    var rest := snapshot;
    while rest != {}
      invariant Distinct(order)
      invariant Elements(order) !! rest
      invariant Elements(order) + rest == snapshot
      decreases rest
    {
      var x :| x in rest;
      order := order + [x];
      rest := rest - {x};
    }
    DistinctCardinality(order);
  }

  /** `pages` is contained in every closed set that contains the start: it
      holds only pages reachable through filtered links. */
  ghost predicate Reachable(fetch: Fetch, start: string, pages: set<string>)
  {
    forall R :: start in R && Closed(fetch, R) ==> pages <= R
  }

  /** The page phase. `bound` is any finite set of pages that contains the
      start and the filtered links of each of its pages; it exists exactly
      when finitely many pages are reachable, and it bounds the crawl. */
  method Crawl(site: Site, start: string, ghost bound: set<string>)
    returns (f: Frontier, rounds: nat, fetches: nat)
    requires start in bound && Closed(FetchFrom(site), bound)
    ensures f.pending == {}
    ensures start in f.visited && Closed(FetchFrom(site), f.visited)
    ensures Reachable(FetchFrom(site), start, f.visited)
    ensures f.visited <= bound
    ensures fetches == |f.visited|
    ensures rounds <= |f.visited|
    ensures forall x :: x in f.visited ==> x == start || KeepLink(x)
    ensures forall x :: x in f.resources <==> exists p :: p in f.visited && x in ResourcesOf(FetchFrom(site), p)
  {
    var fetch := FetchFrom(site);
    FetchFromFiltered(site);
    f := Seed(start);
    SeedEstablishes(start, fetch);
    rounds := 0;
    fetches := 0;
    while f.pending != {}
      invariant f.visited + f.pending <= bound
      invariant start in f.visited + f.pending
      invariant f.pending !! f.visited
      invariant Expanded(fetch, f)
      invariant Reachable(fetch, start, f.visited + f.pending)
      invariant OnlyLinks(start, f)
      invariant Harvested(fetch, f)
      invariant fetches == |f.visited|
      invariant rounds <= |f.visited|
      decreases bound - f.visited
    {
      var order := SnapshotOrder(f.pending);
      var g := Round(f, order, fetch);
      RoundKeepsExpanded(f, order, fetch);
      RoundStaysWithin(f, order, fetch, bound);
      forall R | start in R && Closed(fetch, R)
        ensures g.visited + g.pending <= R
      {
        RoundStaysWithin(f, order, fetch, R);
      }
      RoundKeepsOnlyLinks(start, f, order, fetch);
      RoundHarvests(f, order, fetch);
      RoundNeverRefetches(f, order, fetch);
      f, rounds, fetches := g, rounds + 1, fetches + |order|;
    }
  }
}
