/** The crawl controller of scraper.py as a state machine on values. Each
    function here is one method of `Scraper` applied to the controller's
    whole state; the class in module Scraping is proved to perform exactly
    these functions. Page download and HTML extraction are an oracle: a
    `Web` maps each url that can be fetched to what the extraction helpers
    find on it. */
module Crawl {
  import opened Wrappers
  import opened Vertices
  import opened Graphs

  const MovieThreshold: nat := 125
  const ActorThreshold: nat := 250

  /** The two page kinds the controller passes around as `group`. */
  datatype Kind = Actor | Movie

  function GroupOf(kind: Kind): string
  {
    if kind == Actor then ActorGroup else MovieGroup
  }

  /** `get_actor_info` found both age and name; `get_movie_urls` gave the links. */
  datatype ActorInfo = ActorInfo(age: int, name: string, movieUrls: seq<string>)

  /** `get_movie_info` found gross, title and year; `get_actor_urls` gave the links. */
  datatype MovieInfo = MovieInfo(gross: int, title: string, year: int, actorUrls: seq<string>)

  /** A downloaded page read as an actor page and as a movie page; `None`
      when the required fields are missing. */
  datatype Page = Page(actorInfo: Option<ActorInfo>, movieInfo: Option<MovieInfo>)

  /** Every url whose download succeeds, with its page. */
  type Web = map<string, Page>

  /** `open_url`: `None` when the download raises. */
  function OpenUrl(web: Web, url: string): Option<Page>
  {
    if url in web then Some(web[url]) else None
  }

  /** An actor page never reports age 0 (which would make the source divide by zero). */
  predicate PageAgeNonZero(page: Page)
  {
    page.actorInfo.Some? ==> page.actorInfo.value.age != 0
  }

  ghost predicate AgesNonZero(web: Web)
  {
    forall u :: u in web ==> PageAgeNonZero(web[u])
  }

  function Abs(x: int): nat
  {
    if x < 0 then -x else x
  }

  /** Python's `int(a / b)`: the quotient truncated toward zero. */
  function TruncDiv(a: int, b: int): (q: int)
    requires b != 0
    ensures Abs(q) * Abs(b) <= Abs(a) < (Abs(q) + 1) * Abs(b)
    ensures q > 0 ==> (a > 0) == (b > 0)
    ensures q < 0 ==> (a > 0) != (b > 0)
  {
    var m := Abs(a) / Abs(b);
    FloorDivBounds(Abs(a), Abs(b));
    var q := if (a < 0) == (b < 0) then m else -m;
    assert Abs(q) == m;
    assert a == 0 ==> m == 0;
    q
  }

  lemma FloorDivBounds(a: nat, b: nat)
    requires b > 0
    ensures (a / b) * b <= a < (a / b + 1) * b
    ensures a / b >= 0
  {
    var q, r := a / b, a % b;
    assert a == q * b + r && 0 <= r < b;
    assert (q + 1) * b == q * b + b;
  }

  /** How a call of `scrape` ends. `Spinning` and `Blocked` are the two ways
      the source never returns: looping forever on `url is None`, and
      `Queue.get()` waiting on an empty queue. `OutOfFuel` means the model's
      iteration bound ran out first. */
  datatype Outcome = Satisfied | Exhausted | Spinning | Blocked | OutOfFuel

  /** The fields of a `Scraper` (the start time is left out). */
  datatype CrawlState = CrawlState(
    numRequests: nat,
    numMovies: nat,
    numActors: nat,
    graph: GraphData,
    movieQueue: seq<string>,
    actorQueue: seq<string>,
    movieUrls: map<string, string>,
    actorUrls: map<string, string>)

  /** A freshly constructed `Scraper`. */
  const Initial := CrawlState(0, 0, 0, GraphData([], map[]), [], [], map[], map[])

  /** Every url of the map names a vertex of the given group. */
  ghost predicate UrlsName(g: GraphData, urls: map<string, string>, group: string)
  {
    forall u :: u in urls ==> urls[u] in g.table && g.table[urls[u]].group == group
  }

  /** Every actor vertex has a non-zero age (`value1`), so dividing by it is safe. */
  ghost predicate ActorAgesNonZero(g: GraphData)
  {
    forall k :: k in g.table && g.table[k].group == ActorGroup ==> g.table[k].value1 != 0
  }

  /** What the controller needs to stay well-defined: the graph table is
      well formed, both url maps resolve to vertices of the right group (so
      the lookups in `add_movie_edge` and `add_actor_edge` succeed), and no
      actor has age 0 (so their divisions are defined). */
  ghost predicate Inv(s: CrawlState)
  {
    Consistent(s.graph, s.actorUrls, s.movieUrls)
  }

  /** `Inv` on the fields it constrains. */
  ghost predicate Consistent(g: GraphData, actorUrls: map<string, string>, movieUrls: map<string, string>)
  {
    && g.Valid()
    && UrlsName(g, actorUrls, ActorGroup)
    && UrlsName(g, movieUrls, MovieGroup)
    && ActorAgesNonZero(g)
  }

  /** What the controller keeps true beyond `Inv`: `num_actors` and
      `num_movies` count the vertices of their group, and every edge is
      stored at both of its ends. */
  ghost predicate Tallied(s: CrawlState)
  {
    Counts(s.graph, s.numActors, s.numMovies) && s.graph.Mirrored()
  }

  ghost predicate Counts(g: GraphData, numActors: int, numMovies: int)
  {
    numActors == |g.GroupKeys(ActorGroup)| && numMovies == |g.GroupKeys(MovieGroup)|
  }

  lemma InitialInv()
    ensures Inv(Initial) && Tallied(Initial)
  {
    assert Initial.graph.GroupKeys(ActorGroup) == {};
    assert Initial.graph.GroupKeys(MovieGroup) == {};
  }

  /** The common part of `add_actor` and `add_movie` once they decide to act:
      remember `url -> key`, add the vertex, count it. */
  function Ingest(s: CrawlState, kind: Kind, key: string, value1: int, value2: int, url: string): CrawlState
  {
    match kind
    case Actor =>
      s.(actorUrls := s.actorUrls[url := key],
         graph := s.graph.AddVertex(ActorGroup, key, value1, value2),
         numActors := s.numActors + 1)
    case Movie =>
      s.(movieUrls := s.movieUrls[url := key],
         graph := s.graph.AddVertex(MovieGroup, key, value1, value2),
         numMovies := s.numMovies + 1)
  }

  lemma IngestKeepsInv(s: CrawlState, kind: Kind, key: string, value1: int, value2: int, url: string)
    requires Inv(s) && key !in s.graph.table
    requires kind == Actor ==> value1 != 0
    ensures Inv(Ingest(s, kind, key, value1, value2, url))
  {
    var g := s.graph;
    var h := g.AddVertex(GroupOf(kind), key, value1, value2);
    FreshVertexKeepsConsistent(g, s.actorUrls, s.movieUrls, GroupOf(kind), key, value1, value2);
    match kind
    case Actor =>
      ExtendUrls(h, s.actorUrls, s.movieUrls, Actor, url, key);
    case Movie =>
      ExtendUrls(h, s.actorUrls, s.movieUrls, Movie, url, key);
  }

  /** A fresh vertex keeps `Consistent`. */
  lemma FreshVertexKeepsConsistent(g: GraphData, actorUrls: map<string, string>, movieUrls: map<string, string>,
                                   group: string, key: string, value1: int, value2: int)
    requires Consistent(g, actorUrls, movieUrls) && key !in g.table
    requires group == ActorGroup ==> value1 != 0
    ensures Consistent(g.AddVertex(group, key, value1, value2), actorUrls, movieUrls)
  {
    AddVertexThenGet(g, group, key, value1, value2);
    FreshVertexKeepsUrls(g, actorUrls, ActorGroup, group, key, value1, value2);
    FreshVertexKeepsUrls(g, movieUrls, MovieGroup, group, key, value1, value2);
    FreshVertexKeepsAges(g, group, key, value1, value2);
  }

  /** A url map resolving into `g` still resolves after a fresh vertex is added. */
  lemma FreshVertexKeepsUrls(g: GraphData, urls: map<string, string>, urlGroup: string,
                             group: string, key: string, value1: int, value2: int)
    requires UrlsName(g, urls, urlGroup) && key !in g.table
    ensures UrlsName(g.AddVertex(group, key, value1, value2), urls, urlGroup)
  {
  }

  /** Adding an actor with a non-zero age, or any other vertex, keeps ages non-zero. */
  lemma FreshVertexKeepsAges(g: GraphData, group: string, key: string, value1: int, value2: int)
    requires ActorAgesNonZero(g)
    requires group == ActorGroup ==> value1 != 0
    ensures ActorAgesNonZero(g.AddVertex(group, key, value1, value2))
  {
  }

  /** Recording `url -> key` for a vertex of the matching group keeps `Consistent`. */
  lemma ExtendUrls(g: GraphData, actorUrls: map<string, string>, movieUrls: map<string, string>,
                   kind: Kind, url: string, key: string)
    requires Consistent(g, actorUrls, movieUrls)
    requires key in g.table && g.table[key].group == GroupOf(kind)
    ensures kind == Actor ==> Consistent(g, actorUrls[url := key], movieUrls)
    ensures kind == Movie ==> Consistent(g, actorUrls, movieUrls[url := key])
  {
  }

  /** Adding a fresh vertex and counting it in its group keeps the tallies. */
  lemma IngestKeepsTallied(s: CrawlState, kind: Kind, key: string, value1: int, value2: int, url: string)
    requires Tallied(s) && key !in s.graph.table
    ensures Tallied(Ingest(s, kind, key, value1, value2, url))
  {
    var g := s.graph;
    assert ActorGroup != MovieGroup by { assert ActorGroup[0] != MovieGroup[0]; }
    AddFreshVertexKeepsMirrored(g, GroupOf(kind), key, value1, value2);
    AddFreshVertexGroups(g, GroupOf(kind), key, value1, value2, ActorGroup);
    AddFreshVertexGroups(g, GroupOf(kind), key, value1, value2, MovieGroup);
  }

  /** Adding an edge between two existing vertices keeps the invariant. */
  lemma EdgeKeepsInv(s: CrawlState, key1: string, key2: string, weight: int)
    requires Inv(s) && key1 in s.graph.table && key2 in s.graph.table
    ensures Inv(s.(graph := s.graph.AddEdge(key1, key2, weight)))
  {
    AddEdgeSymmetric(s.graph, key1, key2, weight);
  }

  /** Adding an edge between two existing vertices keeps the tallies. */
  lemma EdgeKeepsTallied(s: CrawlState, key1: string, key2: string, weight: int)
    requires Tallied(s) && key1 in s.graph.table && key2 in s.graph.table
    ensures Tallied(s.(graph := s.graph.AddEdge(key1, key2, weight)))
  {
    AddEdgeKeepsMirrored(s.graph, key1, key2, weight);
    AddEdgeKeepsGroups(s.graph, key1, key2, weight, ActorGroup);
    AddEdgeKeepsGroups(s.graph, key1, key2, weight, MovieGroup);
  }

  /** `add_movie`: acts only for a title that is not yet a vertex and a
      non-empty cast list. */
  function AddMovie(s: CrawlState, links: seq<string>, gross: int, title: string, url: string, year: int): (r: CrawlState)
    requires Inv(s)
    ensures Inv(r)
    ensures r.(graph := s.graph, numMovies := s.numMovies, movieUrls := s.movieUrls) == s
    ensures s.numMovies <= r.numMovies <= s.numMovies + 1
    ensures title in s.graph.table || links == [] ==> r == s
    ensures title !in s.graph.table && links != [] ==>
      && r.graph == s.graph.AddVertex(MovieGroup, title, gross, year)
      && r.movieUrls == s.movieUrls[url := title]
      && r.numMovies == s.numMovies + 1
  {
    if title !in s.graph.table && |links| > 0 then
      IngestKeepsInv(s, Movie, title, gross, year, url);
      Ingest(s, Movie, title, gross, year, url)
    else
      s
  }

  /** `add_actor`: acts only for a name that is not yet a vertex and a
      non-empty film list; `value2` takes `add_vertex`'s default -1. */
  function AddActor(s: CrawlState, age: int, links: seq<string>, name: string, url: string): (r: CrawlState)
    requires Inv(s) && age != 0
    ensures Inv(r)
    ensures r.(graph := s.graph, numActors := s.numActors, actorUrls := s.actorUrls) == s
    ensures s.numActors <= r.numActors <= s.numActors + 1
    ensures name in s.graph.table || links == [] ==> r == s
    ensures name !in s.graph.table && links != [] ==>
      && r.graph == s.graph.AddVertex(ActorGroup, name, age, -1)
      && r.actorUrls == s.actorUrls[url := name]
      && r.numActors == s.numActors + 1
  {
    if name !in s.graph.table && |links| > 0 then
      IngestKeepsInv(s, Actor, name, age, -1, url);
      Ingest(s, Actor, name, age, -1, url)
    else
      s
  }

  /** `add_movie_edge`: weight is the movie's gross over the known actor's
      stored age. */
  function AddMovieEdge(s: CrawlState, actorUrl: string, gross: int, title: string): (r: CrawlState)
    requires Inv(s) && actorUrl in s.actorUrls && title in s.graph.table
    ensures Inv(r)
    ensures r.(graph := s.graph) == s
    ensures r.graph.keys == s.graph.keys && r.graph.table.Keys == s.graph.table.Keys
    ensures var actor := s.actorUrls[actorUrl];
      var weight := TruncDiv(gross, s.graph.table[actor].value1);
      r.graph.EdgeAt(title, actor, weight) && r.graph == s.graph.AddEdge(title, actor, weight)
  {
    var actor := s.actorUrls[actorUrl];
    var weight := TruncDiv(gross, s.graph.table[actor].value1);
    EdgeKeepsInv(s, title, actor, weight);
    AddEdgeSymmetric(s.graph, title, actor, weight);
    s.(graph := s.graph.AddEdge(title, actor, weight))
  }

  /** `add_actor_edge`: weight is the known movie's stored gross (`value1`)
      over the actor's freshly extracted age. */
  function AddActorEdge(s: CrawlState, age: int, movieUrl: string, name: string): (r: CrawlState)
    requires Inv(s) && age != 0 && movieUrl in s.movieUrls && name in s.graph.table
    ensures Inv(r)
    ensures r.(graph := s.graph) == s
    ensures r.graph.keys == s.graph.keys && r.graph.table.Keys == s.graph.table.Keys
    ensures var movie := s.movieUrls[movieUrl];
      var weight := TruncDiv(s.graph.table[movie].value1, age);
      r.graph.EdgeAt(name, movie, weight) && r.graph == s.graph.AddEdge(name, movie, weight)
  {
    var movie := s.movieUrls[movieUrl];
    var weight := TruncDiv(s.graph.table[movie].value1, age);
    EdgeKeepsInv(s, name, movie, weight);
    AddEdgeSymmetric(s.graph, name, movie, weight);
    s.(graph := s.graph.AddEdge(name, movie, weight))
  }

  /** The links of `links` that are not keys of `urls`, in order, repeats kept. */
  function Unvisited(links: seq<string>, urls: map<string, string>): (r: seq<string>)
    ensures forall l :: l in r <==> l in links && l !in urls
    ensures |r| <= |links|
  {
    if links == [] then []
    else (if links[0] !in urls then [links[0]] else []) + Unvisited(links[1..], urls)
  }

  /** One pass of the loop of `scrape_movie`: an unknown actor link is
      queued, a known one gets an edge to the movie. */
  function MovieLink(s: CrawlState, title: string, gross: int, link: string): (r: CrawlState)
    requires Inv(s) && title in s.graph.table
    ensures Inv(r)
    ensures r.actorQueue == s.actorQueue + (if link !in s.actorUrls then [link] else [])
    ensures r.graph.keys == s.graph.keys && r.graph.table.Keys == s.graph.table.Keys
    ensures r.(graph := s.graph, actorQueue := s.actorQueue) == s
    ensures link !in s.actorUrls ==> r.graph == s.graph
    ensures link in s.actorUrls ==> r == AddMovieEdge(s, link, gross, title)
  {
    if link !in s.actorUrls then s.(actorQueue := s.actorQueue + [link])
    else AddMovieEdge(s, link, gross, title)
  }

  /** Regrouping of the queue; kept as a lemma so that the loop's own
      obligation does not have to rediscover it. */
  lemma AppendAssoc(a: seq<string>, b: seq<string>, c: seq<string>)
    ensures a + (b + c) == (a + b) + c
  {
  }

  /** The loop of `scrape_movie` over the cast links. */
  function MovieLinks(s: CrawlState, title: string, gross: int, links: seq<string>): (r: CrawlState)
    requires Inv(s) && title in s.graph.table
    ensures Inv(r)
    ensures r.actorQueue == s.actorQueue + Unvisited(links, s.actorUrls)
    ensures r.graph.keys == s.graph.keys && r.graph.table.Keys == s.graph.table.Keys
    ensures r.(graph := s.graph, actorQueue := s.actorQueue) == s
    decreases |links|
  {
    if links == [] then s
    else
      var s1 := MovieLink(s, title, gross, links[0]);
      var r := MovieLinks(s1, title, gross, links[1..]);
      AppendAssoc(s.actorQueue, if links[0] !in s.actorUrls then [links[0]] else [], Unvisited(links[1..], s.actorUrls));
      r
  }

  /** One pass of the loop of `scrape_actor`: an unknown film link is
      queued, a known one gets an edge to the actor. */
  function ActorLink(s: CrawlState, name: string, age: int, link: string): (r: CrawlState)
    requires Inv(s) && age != 0 && name in s.graph.table
    ensures Inv(r)
    ensures r.movieQueue == s.movieQueue + (if link !in s.movieUrls then [link] else [])
    ensures r.graph.keys == s.graph.keys && r.graph.table.Keys == s.graph.table.Keys
    ensures r.(graph := s.graph, movieQueue := s.movieQueue) == s
    ensures link !in s.movieUrls ==> r.graph == s.graph
    ensures link in s.movieUrls ==> r == AddActorEdge(s, age, link, name)
  {
    if link !in s.movieUrls then s.(movieQueue := s.movieQueue + [link])
    else AddActorEdge(s, age, link, name)
  }

  /** The loop of `scrape_actor` over the film links. */
  function ActorLinks(s: CrawlState, name: string, age: int, links: seq<string>): (r: CrawlState)
    requires Inv(s) && age != 0 && name in s.graph.table
    ensures Inv(r)
    ensures r.movieQueue == s.movieQueue + Unvisited(links, s.movieUrls)
    ensures r.graph.keys == s.graph.keys && r.graph.table.Keys == s.graph.table.Keys
    ensures r.(graph := s.graph, movieQueue := s.movieQueue) == s
    decreases |links|
  {
    if links == [] then s
    else
      var s1 := ActorLink(s, name, age, links[0]);
      var r := ActorLinks(s1, name, age, links[1..]);
      AppendAssoc(s.movieQueue, if links[0] !in s.movieUrls then [links[0]] else [], Unvisited(links[1..], s.movieUrls));
      r
  }

  /** `scrape_movie`: a url already in `movie_urls` changes nothing. */
  function ScrapeMovie(s: CrawlState, page: Page, url: string): (r: CrawlState)
    requires Inv(s)
    ensures Inv(r)
    ensures url in s.movieUrls || page.movieInfo.None? ==> r == s
    ensures s.numMovies <= r.numMovies <= s.numMovies + 1
    ensures r.numActors == s.numActors && r.numRequests == s.numRequests
    ensures r.actorUrls == s.actorUrls && r.movieQueue == s.movieQueue
    ensures s.actorQueue <= r.actorQueue
  {
    if url in s.movieUrls then s
    else match page.movieInfo
      case None => s
      case Some(info) =>
        var s1 := AddMovie(s, info.actorUrls, info.gross, info.title, url, info.year);
        if info.title in s1.graph.table then MovieLinks(s1, info.title, info.gross, info.actorUrls)
        else s1
  }

  /** `scrape_actor`: no url check, unlike `scrape_movie`. */
  function ScrapeActor(s: CrawlState, page: Page, url: string): (r: CrawlState)
    requires Inv(s) && PageAgeNonZero(page)
    ensures Inv(r)
    ensures page.actorInfo.None? ==> r == s
    ensures s.numActors <= r.numActors <= s.numActors + 1
    ensures r.numMovies == s.numMovies && r.numRequests == s.numRequests
    ensures r.movieUrls == s.movieUrls && r.actorQueue == s.actorQueue
    ensures s.movieQueue <= r.movieQueue
  {
    match page.actorInfo
    case None => s
    case Some(info) =>
      var s1 := AddActor(s, info.age, info.movieUrls, info.name, url);
      if info.name in s1.graph.table then ActorLinks(s1, info.name, info.age, info.movieUrls)
      else s1
  }

  /** `scrape_all_actors`: drains the actor queue, fetching each url without
      counting the request; only the movie queue can grow. */
  function ScrapeAllActors(s: CrawlState, web: Web): (r: CrawlState)
    requires Inv(s) && AgesNonZero(web)
    ensures Inv(r)
    ensures r.actorQueue == []
    ensures s.movieQueue <= r.movieQueue
    ensures r.numRequests == s.numRequests && r.numMovies == s.numMovies && r.movieUrls == s.movieUrls
    ensures s.numActors <= r.numActors
    decreases |s.actorQueue|
  {
    if s.actorQueue == [] then s
    else
      var url := s.actorQueue[0];
      var s1 := s.(actorQueue := s.actorQueue[1..]);
      var s2 := match OpenUrl(web, url)
                case Some(page) => ScrapeActor(s1, page, url)
                case None => s1;
      ScrapeAllActors(s2, web)
  }

  /** `get_any_url`: the next url of the same kind's queue, or (None, None). */
  function GetAnyUrl(s: CrawlState, group: Option<Kind>): (r: (CrawlState, Option<string>, Option<Kind>))
    ensures r.1.Some? <==> r.2.Some?
    ensures r.2.Some? ==> r.2 == group
    ensures group == Some(Actor) && s.actorQueue != [] ==>
      r == (s.(actorQueue := s.actorQueue[1..]), Some(s.actorQueue[0]), group)
    ensures group == Some(Movie) && s.movieQueue != [] ==>
      r == (s.(movieQueue := s.movieQueue[1..]), Some(s.movieQueue[0]), group)
    ensures r.1.None? ==> r.0 == s
    ensures r.0.(movieQueue := s.movieQueue, actorQueue := s.actorQueue) == s
  {
    if group == Some(Actor) && s.actorQueue != [] then
      (s.(actorQueue := s.actorQueue[1..]), Some(s.actorQueue[0]), group)
    else if group == Some(Movie) && s.movieQueue != [] then
      (s.(movieQueue := s.movieQueue[1..]), Some(s.movieQueue[0]), group)
    else
      (s, None, None)
  }

  /** `scrape_handler`: scrape the page as the given kind, then take the next
      url, preferring the opposite kind. `None` is a `get()` on an empty
      queue. Any group other than Actor is scraped as a movie page. After a
      movie page the actor queue is empty, so the source's actor alternative
      never applies there. */
  function ScrapeHandler(s: CrawlState, group: Option<Kind>, page: Page, url: string, web: Web)
    : (r: (CrawlState, Option<(string, Kind)>))
    requires Inv(s) && AgesNonZero(web) && PageAgeNonZero(page)
    ensures Inv(r.0)
    ensures r.0.numRequests == s.numRequests
    ensures s.numActors <= r.0.numActors && s.numMovies <= r.0.numMovies
    ensures group != Some(Actor) ==> r.0.actorQueue == [] && (r.1.Some? ==> r.1.value.1 == Movie)
  {
    if group == Some(Actor) then
      var s1 := ScrapeActor(s, page, url);
      if s1.movieQueue != [] then
        (s1.(movieQueue := s1.movieQueue[1..]), Some((s1.movieQueue[0], Movie)))
      else if s1.actorQueue != [] then
        (s1.(actorQueue := s1.actorQueue[1..]), Some((s1.actorQueue[0], Actor)))
      else
        (s1, None)
    else
      var s1 := ScrapeMovie(s, page, url);
      var s2 := ScrapeAllActors(s1, web);
      if s2.movieQueue != [] then
        (s2.(movieQueue := s2.movieQueue[1..]), Some((s2.movieQueue[0], Movie)))
      else
        (s2, None)
  }

  /** True while the loop of `scrape` keeps going. */
  predicate BelowThresholds(s: CrawlState)
  {
    s.numMovies < MovieThreshold || s.numActors < ActorThreshold
  }

  /** Where one pass of the loop of `scrape` leads: another pass with a new
      url and group, or the end of `scrape`. */
  datatype Next =
    | Continue(state: CrawlState, url: Option<string>, group: Option<Kind>)
    | Stop(state: CrawlState, outcome: Outcome)

  /** One pass of the loop of `scrape`. A missing url with nothing to take
      from the queue leaves `url` and `group` both `None` for good, so the
      source spins without changing anything: `Spinning`. */
  function Step(s: CrawlState, url: Option<string>, group: Option<Kind>, web: Web): (r: Next)
    requires Inv(s) && AgesNonZero(web)
    ensures Inv(r.state)
    ensures s.numActors <= r.state.numActors && s.numMovies <= r.state.numMovies
    ensures r.state.numRequests == s.numRequests + (if url.Some? then 1 else 0)
    ensures r.Stop? ==> r.outcome in {Spinning, Exhausted, Blocked}
    ensures r.Stop? && r.outcome != Blocked ==>
      r.state.numActors == s.numActors && r.state.numMovies == s.numMovies
  {
    if url.None? then
      var a := GetAnyUrl(s, group);
      if a.1.None? then Stop(a.0, Spinning) else Continue(a.0, a.1, a.2)
    else
      var s1 := s.(numRequests := s.numRequests + 1);
      match OpenUrl(web, url.value)
      case Some(page) =>
        var h := ScrapeHandler(s1, group, page, url.value, web);
        if h.1.None? then Stop(h.0, Blocked)
        else Continue(h.0, Some(h.1.value.0), Some(h.1.value.1))
      case None =>
        var a := GetAnyUrl(s1, group);
        if a.1.None? || a.2.None? then Stop(a.0, Exhausted) else Continue(a.0, a.1, a.2)
  }

  /** `Step` without a url: the next url comes from `get_any_url`. */
  lemma StepSpins(s: CrawlState, group: Option<Kind>, web: Web)
    requires Inv(s) && AgesNonZero(web)
    ensures var a := GetAnyUrl(s, group);
      Step(s, None, group, web)
      == if a.1.None? || a.2.None? then Stop(a.0, Spinning) else Continue(a.0, a.1, a.2)
  {
  }

  /** `Step` on a url whose page downloads: the page goes to `scrape_handler`. */
  lemma StepFetches(s: CrawlState, url: string, group: Option<Kind>, web: Web)
    requires Inv(s) && AgesNonZero(web) && url in web
    ensures var h := ScrapeHandler(s.(numRequests := s.numRequests + 1), group, web[url], url, web);
      Step(s, Some(url), group, web)
      == if h.1.None? then Stop(h.0, Blocked) else Continue(h.0, Some(h.1.value.0), Some(h.1.value.1))
  {
  }

  /** `Step` on a url whose download fails: the next url comes from `get_any_url`. */
  lemma StepMisses(s: CrawlState, url: string, group: Option<Kind>, web: Web)
    requires Inv(s) && AgesNonZero(web) && url !in web
    ensures var a := GetAnyUrl(s.(numRequests := s.numRequests + 1), group);
      Step(s, Some(url), group, web)
      == if a.1.None? || a.2.None? then Stop(a.0, Exhausted) else Continue(a.0, a.1, a.2)
  {
  }

  /** The loop of `scrape`, run for at most `fuel` passes. */
  function Run(s: CrawlState, url: Option<string>, group: Option<Kind>, web: Web, fuel: nat)
    : (r: (CrawlState, Outcome))
    requires Inv(s) && AgesNonZero(web)
    decreases fuel
  {
    if !BelowThresholds(s) then (s, Satisfied)
    else if fuel == 0 then (s, OutOfFuel)
    else match Step(s, url, group, web)
      case Stop(s1, outcome) => (s1, outcome)
      case Continue(s1, u, g) => Run(s1, u, g, web, fuel - 1)
  }

  /** What `scrape` guarantees when it ends: `Satisfied` only once both
      thresholds are met, every other outcome only while one is not; the
      counters never decrease, and each pass makes at most one request. */
  lemma {:induction false} RunOutcome(s: CrawlState, url: Option<string>, group: Option<Kind>, web: Web, fuel: nat)
    requires Inv(s) && AgesNonZero(web)
    ensures var r := Run(s, url, group, web, fuel);
      && Inv(r.0)
      && (r.1 == Satisfied ==> !BelowThresholds(r.0))
      && (r.1 in {Exhausted, Spinning, OutOfFuel} ==> BelowThresholds(r.0))
      && s.numActors <= r.0.numActors && s.numMovies <= r.0.numMovies
      && s.numRequests <= r.0.numRequests <= s.numRequests + fuel
    decreases fuel
  {
    if BelowThresholds(s) && fuel > 0 {
      var n := Step(s, url, group, web);
      if n.Continue? {
        RunOutcome(n.state, n.url, n.group, web, fuel - 1);
      }
    }
  }

  /** `add_movie` keeps the tallies. */
  lemma AddMovieKeepsTallied(s: CrawlState, links: seq<string>, gross: int, title: string, url: string, year: int)
    requires Inv(s) && Tallied(s)
    ensures Tallied(AddMovie(s, links, gross, title, url, year))
  {
    if title !in s.graph.table && |links| > 0 {
      IngestKeepsTallied(s, Movie, title, gross, year, url);
    }
  }

  /** `add_actor` keeps the tallies. */
  lemma AddActorKeepsTallied(s: CrawlState, age: int, links: seq<string>, name: string, url: string)
    requires Inv(s) && age != 0 && Tallied(s)
    ensures Tallied(AddActor(s, age, links, name, url))
  {
    if name !in s.graph.table && |links| > 0 {
      IngestKeepsTallied(s, Actor, name, age, -1, url);
    }
  }

  /** The loop of `scrape_movie` keeps the tallies. */
  lemma {:induction false} MovieLinksKeepTallied(s: CrawlState, title: string, gross: int, links: seq<string>)
    requires Inv(s) && title in s.graph.table && Tallied(s)
    ensures Tallied(MovieLinks(s, title, gross, links))
    decreases |links|
  {
    if links != [] {
      var l := links[0];
      if l in s.actorUrls {
        var actor := s.actorUrls[l];
        EdgeKeepsTallied(s, title, actor, TruncDiv(gross, s.graph.table[actor].value1));
      }
      MovieLinksKeepTallied(MovieLink(s, title, gross, l), title, gross, links[1..]);
    }
  }

  /** The loop of `scrape_actor` keeps the tallies. */
  lemma {:induction false} ActorLinksKeepTallied(s: CrawlState, name: string, age: int, links: seq<string>)
    requires Inv(s) && age != 0 && name in s.graph.table && Tallied(s)
    ensures Tallied(ActorLinks(s, name, age, links))
    decreases |links|
  {
    if links != [] {
      var l := links[0];
      if l in s.movieUrls {
        var movie := s.movieUrls[l];
        EdgeKeepsTallied(s, name, movie, TruncDiv(s.graph.table[movie].value1, age));
      }
      ActorLinksKeepTallied(ActorLink(s, name, age, l), name, age, links[1..]);
    }
  }

  lemma ScrapeMovieKeepsTallied(s: CrawlState, page: Page, url: string)
    requires Inv(s) && Tallied(s)
    ensures Tallied(ScrapeMovie(s, page, url))
  {
    if url !in s.movieUrls && page.movieInfo.Some? {
      var info := page.movieInfo.value;
      AddMovieKeepsTallied(s, info.actorUrls, info.gross, info.title, url, info.year);
      var s1 := AddMovie(s, info.actorUrls, info.gross, info.title, url, info.year);
      if info.title in s1.graph.table {
        MovieLinksKeepTallied(s1, info.title, info.gross, info.actorUrls);
      }
    }
  }

  lemma ScrapeActorKeepsTallied(s: CrawlState, page: Page, url: string)
    requires Inv(s) && PageAgeNonZero(page) && Tallied(s)
    ensures Tallied(ScrapeActor(s, page, url))
  {
    if page.actorInfo.Some? {
      var info := page.actorInfo.value;
      AddActorKeepsTallied(s, info.age, info.movieUrls, info.name, url);
      var s1 := AddActor(s, info.age, info.movieUrls, info.name, url);
      if info.name in s1.graph.table {
        ActorLinksKeepTallied(s1, info.name, info.age, info.movieUrls);
      }
    }
  }

  lemma {:induction false} ScrapeAllActorsKeepsTallied(s: CrawlState, web: Web)
    requires Inv(s) && AgesNonZero(web) && Tallied(s)
    ensures Tallied(ScrapeAllActors(s, web))
    decreases |s.actorQueue|
  {
    if s.actorQueue != [] {
      var url := s.actorQueue[0];
      var s1 := s.(actorQueue := s.actorQueue[1..]);
      if url in web {
        ScrapeActorKeepsTallied(s1, web[url], url);
        ScrapeAllActorsKeepsTallied(ScrapeActor(s1, web[url], url), web);
      } else {
        ScrapeAllActorsKeepsTallied(s1, web);
      }
    }
  }

  lemma ScrapeHandlerKeepsTallied(s: CrawlState, group: Option<Kind>, page: Page, url: string, web: Web)
    requires Inv(s) && AgesNonZero(web) && PageAgeNonZero(page) && Tallied(s)
    ensures Tallied(ScrapeHandler(s, group, page, url, web).0)
  {
    if group == Some(Actor) {
      ScrapeActorKeepsTallied(s, page, url);
    } else {
      ScrapeMovieKeepsTallied(s, page, url);
      ScrapeAllActorsKeepsTallied(ScrapeMovie(s, page, url), web);
    }
  }

  /** A pass that downloads a page keeps the tallies. */
  lemma StepFetchKeepsTallied(s: CrawlState, url: string, group: Option<Kind>, web: Web)
    requires Inv(s) && AgesNonZero(web) && Tallied(s) && url in web
    ensures Tallied(Step(s, Some(url), group, web).state)
  {
    StepFetches(s, url, group, web);
    ScrapeHandlerKeepsTallied(s.(numRequests := s.numRequests + 1), group, web[url], url, web);
  }

  /** A pass that downloads nothing leaves the graph and the counters alone. */
  lemma StepElseKeepsTallied(s: CrawlState, url: Option<string>, group: Option<Kind>, web: Web)
    requires Inv(s) && AgesNonZero(web) && Tallied(s) && !(url.Some? && url.value in web)
    ensures Tallied(Step(s, url, group, web).state)
  {
  }

  lemma StepKeepsTallied(s: CrawlState, url: Option<string>, group: Option<Kind>, web: Web)
    requires Inv(s) && AgesNonZero(web) && Tallied(s)
    ensures Tallied(Step(s, url, group, web).state)
  {
    if url.Some? && url.value in web {
      StepFetchKeepsTallied(s, url.value, group, web);
    } else {
      StepElseKeepsTallied(s, url, group, web);
    }
  }

  /** Whatever `scrape` does, the counters keep counting the vertices of
      their group and every edge stays stored at both ends. */
  lemma {:induction false} RunKeepsTallied(s: CrawlState, url: Option<string>, group: Option<Kind>, web: Web, fuel: nat)
    requires Inv(s) && AgesNonZero(web) && Tallied(s)
    ensures Tallied(Run(s, url, group, web, fuel).0)
    decreases fuel
  {
    if BelowThresholds(s) && fuel > 0 {
      StepKeepsTallied(s, url, group, web);
      var n := Step(s, url, group, web);
      if n.Continue? {
        RunKeepsTallied(n.state, n.url, n.group, web, fuel - 1);
      }
    }
  }
  /** A cast link already in `actor_urls` at `s` has, in `g`, the edge
      between the movie and that actor, weighted `int(gross / age)` with the
      actor's stored age. */
  ghost predicate CastEdge(s: CrawlState, g: GraphData, title: string, gross: int, link: string)
  {
    && link in s.actorUrls
    && s.actorUrls[link] in s.graph.table
    && s.graph.table[s.actorUrls[link]].value1 != 0
    && g.EdgeAt(title, s.actorUrls[link], TruncDiv(gross, s.graph.table[s.actorUrls[link]].value1))
  }

  /** Later passes of the loop of `scrape_movie` keep an edge an earlier
      pass wrote: a pass either writes another pair or rewrites the same
      weight. */
  lemma {:induction false} MovieLinksKeepEdge(s: CrawlState, title: string, gross: int, links: seq<string>, actor: string)
    requires Inv(s) && title in s.graph.table && actor in s.graph.table && s.graph.table[actor].value1 != 0
    requires s.graph.EdgeAt(title, actor, TruncDiv(gross, s.graph.table[actor].value1))
    ensures MovieLinks(s, title, gross, links).graph.EdgeAt(title, actor, TruncDiv(gross, s.graph.table[actor].value1))
    decreases |links|
  {
    if links != [] {
      var s1 := MovieLink(s, title, gross, links[0]);
      if links[0] in s.actorUrls {
        var other := s.actorUrls[links[0]];
        var w := TruncDiv(gross, s.graph.table[other].value1);
        AddEdgeSymmetric(s.graph, title, other, w);
        if other != actor {
          assert actor !in {title, other} || actor == title;
        }
        AddEdgeKeepsEdge(s.graph, title, other, w, title, actor, TruncDiv(gross, s.graph.table[actor].value1));
      }
      MovieLinksKeepEdge(s1, title, gross, links[1..], actor);
    }
  }

  /** After the loop of `scrape_movie`, every cast link that was already in
      `actor_urls` has its weighted edge. */
  lemma {:induction false} MovieLinksEdges(s: CrawlState, title: string, gross: int, links: seq<string>)
    requires Inv(s) && title in s.graph.table
    ensures forall l :: l in links && l in s.actorUrls ==>
      CastEdge(s, MovieLinks(s, title, gross, links).graph, title, gross, l)
    decreases |links|
  {
    if links != [] {
      var s1 := MovieLink(s, title, gross, links[0]);
      var r := MovieLinks(s1, title, gross, links[1..]);
      assert MovieLinks(s, title, gross, links) == r;
      if links[0] in s.actorUrls {
        var other := s.actorUrls[links[0]];
        AddEdgeSymmetric(s.graph, title, other, TruncDiv(gross, s.graph.table[other].value1));
      }
      MovieLinksEdges(s1, title, gross, links[1..]);
      forall l | l in links && l in s.actorUrls
        ensures CastEdge(s, r.graph, title, gross, l)
      {
        var actor := s.actorUrls[l];
        if l in links[1..] {
          assert CastEdge(s1, r.graph, title, gross, l);
        } else {
          MovieLinksKeepEdge(s1, title, gross, links[1..], actor);
        }
      }
    }
  }

  /** A film link already in `movie_urls` at `s` has, in `g`, the edge
      between the actor and that movie, weighted `int(gross / age)` with the
      movie's stored gross. */
  ghost predicate FilmEdge(s: CrawlState, g: GraphData, name: string, age: int, link: string)
  {
    && link in s.movieUrls
    && s.movieUrls[link] in s.graph.table
    && age != 0
    && g.EdgeAt(name, s.movieUrls[link], TruncDiv(s.graph.table[s.movieUrls[link]].value1, age))
  }

  /** Later passes of the loop of `scrape_actor` keep an edge an earlier
      pass wrote. */
  lemma {:induction false} ActorLinksKeepEdge(s: CrawlState, name: string, age: int, links: seq<string>, movie: string)
    requires Inv(s) && age != 0 && name in s.graph.table && movie in s.graph.table
    requires s.graph.EdgeAt(name, movie, TruncDiv(s.graph.table[movie].value1, age))
    ensures ActorLinks(s, name, age, links).graph.EdgeAt(name, movie, TruncDiv(s.graph.table[movie].value1, age))
    decreases |links|
  {
    if links != [] {
      var s1 := ActorLink(s, name, age, links[0]);
      if links[0] in s.movieUrls {
        var other := s.movieUrls[links[0]];
        var w := TruncDiv(s.graph.table[other].value1, age);
        AddEdgeSymmetric(s.graph, name, other, w);
        if other != movie {
          assert movie !in {name, other} || movie == name;
        }
        AddEdgeKeepsEdge(s.graph, name, other, w, name, movie, TruncDiv(s.graph.table[movie].value1, age));
      }
      ActorLinksKeepEdge(s1, name, age, links[1..], movie);
    }
  }

  /** After the loop of `scrape_actor`, every film link that was already in
      `movie_urls` has its weighted edge. */
  lemma {:induction false} ActorLinksEdges(s: CrawlState, name: string, age: int, links: seq<string>)
    requires Inv(s) && age != 0 && name in s.graph.table
    ensures forall l :: l in links && l in s.movieUrls ==>
      FilmEdge(s, ActorLinks(s, name, age, links).graph, name, age, l)
    decreases |links|
  {
    if links != [] {
      var s1 := ActorLink(s, name, age, links[0]);
      var r := ActorLinks(s1, name, age, links[1..]);
      assert ActorLinks(s, name, age, links) == r;
      if links[0] in s.movieUrls {
        var other := s.movieUrls[links[0]];
        AddEdgeSymmetric(s.graph, name, other, TruncDiv(s.graph.table[other].value1, age));
      }
      ActorLinksEdges(s1, name, age, links[1..]);
      forall l | l in links && l in s.movieUrls
        ensures FilmEdge(s, r.graph, name, age, l)
      {
        var movie := s.movieUrls[l];
        if l in links[1..] {
          assert FilmEdge(s1, r.graph, name, age, l);
        } else {
          ActorLinksKeepEdge(s1, name, age, links[1..], movie);
        }
      }
    }
  }
}
