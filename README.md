# Actor/movie graph crawler — a Dafny model

The repository crawls Wikipedia film and actor pages into an in-memory
graph. Each actor and each film is a vertex with a group tag, a key, two
integer attributes and a weighted neighbour table. It then answers queries
over that graph and serves it through a small JSON API. This project
models that core and proves what it does:

- `vertex.dfy`, module `Vertices`: the mutable `Vertex` object (class
  `Vertex`) and the value `VertexData` that it holds at one moment.
- `graph.dfy`, module `Graphs`: the insertion-ordered vertex store. It is
  the value `GraphData`, an ordered key list plus a table, and the class
  `Graph`, whose methods are proved to perform the `GraphData` functions.
  It covers replacing on re-add, deletion that does not cascade, edges
  written on both ends, and iteration in insertion order.
- `crawl.dfy`, module `Crawl`: the crawl controller `Scraper` as a state
  machine on values. `CrawlState` holds the three counters, the two FIFO
  queues, the two url→name maps and the graph. A `Web` maps a url whose
  download succeeds to the page's extracted fields. It replaces HTTP and
  HTML parsing. The main loop has a fuel bound and an explicit outcome for
  the two ways the source never returns: spinning on a missing url, and
  `get()` on an empty queue.
- `scraper.dfy`, module `Scraping`: the same controller as a mutable
  `Scraper` object. Each method is proved to perform the `Crawl` function
  of the same name.
- `brackets.dfy`, module `Brackets`: `remove_paren_brack`, as written and
  as evidently intended (see Findings).
- `query.dfy`, module `Queries`: the `Query` lookups, the two top-N
  rankings (a stable descending sort and a Python slice) and the year
  filters.
- `analyze.dfy`, module `Analysis`: `get_gross_age`, the per-age gross
  totals. `sums.dfy`, module `Sums`, is the sum over a table's entries
  used by both.
- `parse_data.dfy`, module `Loading`: `parse`, building the graph from
  actor and movie records that have already been loaded, with every edge
  of weight 1.
- `app.dfy`, module `Api`: the logic of the HTTP routes:
  - the filter predicate;
  - the filtered actor and movie listings;
  - the attribute updates;
  - the create routes, which echo their input.
- `wrappers.dfy`, module `Wrappers`: `Option`.

Where the source and its documentation disagree, the model follows the
source:

- `add_vertex` replaces a stored vertex and drops its neighbours.
- `delete_vertex` leaves the deleted key in other vertices' neighbour
  tables.
- `/movies` labels `value1` as gross, while `parse` stores the year in
  `value1`.
- `does_match_filters` records a `value_2` match in `match_value_1`. The
  result is still the disjunction of the three tests.

## Model

| member | source | states |
|---|---|---|
| Vertices.Vertex.constructor | vertex.py:4-9 | the four fields are stored verbatim and the neighbour table starts empty |
| Vertices.Vertex.AddNeighbor | vertex.py:11-12 | the new state is the old one with `neighbors[n] = w`; group, key, value1 and value2 are unchanged; `get_weight(n)` then returns `w` |
| Vertices.VertexData.WithNeighbor | vertex.py:11-12 | after `neighbors[n] = w` the table holds `w` for `n`, keeps every other entry and gains only `n`; the other fields are untouched |
| Vertices.Vertex.GetWeight | vertex.py:38-39 | read through `Vertex.AddNeighbor`, whose contract says `get_weight(n)` afterwards returns the weight just written |
| Vertices.LastWriteWins | vertex.py:11-12 | writing the same neighbour twice equals writing only the last weight, and other neighbours keep theirs |
| Vertices.Vertex.SetKey | vertex.py:20-21 | only `key` changes |
| Vertices.Vertex.SetValue1 | vertex.py:26-27 | only `value1` changes |
| Vertices.Vertex.SetValue2 | vertex.py:32-33 | only `value2` changes |
| Graphs.Graph.constructor | graph.py:5-6 | a new graph is empty and well formed |
| Graphs.Graph.AddVertex | graph.py:8-11 | the store becomes `AddVertex` of the old one, and the returned vertex is what `get_vertex(key)` now yields; `value2` defaults to -1 |
| Graphs.AddVertexThenGet | graph.py:8-11 | after `add_vertex`, `get_vertex(key)` is the fresh vertex with no neighbours and every other key is unchanged; an old key keeps its place in the order and a new one is appended, growing the count by one |
| Graphs.ReAddDropsNeighbors | graph.py:8-11 | re-adding a stored key empties its neighbour table while its neighbours still list it, so the edges are no longer mirrored |
| Graphs.AddFreshVertexKeepsMirrored | graph.py:8-11 | adding a fresh key keeps every edge mirrored |
| Graphs.AddFreshVertexGroups | graph.py:8-11 | adding a fresh key adds it to its own group only, growing that group by one |
| Graphs.Graph.DeleteVertex | graph.py:13-14 | the store becomes `DeleteVertex` of the old one and stays well formed |
| Graphs.DeleteLeavesDangling | graph.py:13-14 | deletion removes only that key and leaves the key in its neighbours' tables |
| Graphs.RemoveKey | graph.py:13-14 | the order loses exactly the deleted key and keeps its keys distinct |
| Graphs.RemoveKeyOrder | graph.py:13-14 | deleting an absent key changes nothing; deleting a present key from a distinct order removes its one position and keeps every other key in its old order |
| Graphs.Graph.AddEdge | graph.py:19-21 | the store becomes `AddEdge` of the old one and stays well formed |
| Graphs.AddEdgeSymmetric | graph.py:19-21 | both endpoints hold the weight for each other, the order and key set are unchanged, and every other entry is kept |
| Graphs.AddEdgeKeepsEdge | graph.py:19-21 | an edge between another pair of endpoints, or one written again with the same weight, survives `add_edge` |
| Graphs.AddEdgeKeepsMirrored | graph.py:19-21 | adding an edge keeps every edge mirrored |
| Graphs.AddEdgeKeepsGroups | graph.py:19-21 | adding an edge changes no group membership |
| Graphs.Graph.GetVertex | graph.py:16-17 | `get_vertex` finds a vertex exactly when its key is stored, and then it is the stored vertex under that key |
| Graphs.Graph.GetVertices | graph.py:23-24 | on a well-formed graph the keys come without repetition and are exactly the stored keys |
| Graphs.IterationOnce | graph.py:23-27 | iteration yields one vertex per stored key, in key order, each key exactly once |
| Crawl.InitialInv | scraper.py:39-51 | a new scraper satisfies the invariant, and its counters match its (empty) groups |
| Crawl.TruncDiv | scraper.py:162 | `int(a / b)`: the quotient truncated toward zero, characterised by its magnitude and sign |
| Crawl.AddMovie | scraper.py:165-172 | a stored title or an empty cast list leaves the state unchanged; otherwise the graph gains the vertex `(Movie, title, gross, year)`, `movie_urls[url] = title`, and `num_movies` grows by exactly one; nothing else changes and the invariant is kept |
| Crawl.AddMovieKeepsTallied | scraper.py:165-172 | after `add_movie` the counters still equal the sizes of the Actor and Movie groups, and every edge is still mirrored |
| Crawl.AddActor | scraper.py:199-204 | a stored name or an empty film list leaves the state unchanged; otherwise the graph gains the vertex `(Actor, name, age, -1)`, `actor_urls[url] = name`, and `num_actors` grows by exactly one; nothing else changes |
| Crawl.AddActorKeepsTallied | scraper.py:199-204 | after `add_actor` the counters still equal the group sizes and edges stay mirrored |
| Crawl.AddMovieEdge | scraper.py:158-163 | the lookup of the actor succeeds; the graph becomes `add_edge(title, actor, int(gross / age))`, so both endpoints hold that weight for each other; nothing but the graph changes and it keeps its keys |
| Crawl.AddActorEdge | scraper.py:206-210 | the lookup of the movie succeeds; the graph becomes `add_edge(name, movie, int(gross / age))`, so both endpoints hold that weight for each other; nothing but the graph changes and it keeps its keys |
| Crawl.EdgeKeepsTallied | scraper.py:158-163 | adding an edge keeps the counters equal to the group sizes and the edges mirrored |
| Crawl.Unvisited | scraper.py:150-153 | the links queued are exactly those not yet in the url map |
| Crawl.MovieLink | scraper.py:150-156 | an unknown actor link is appended to the actor queue and leaves the graph unchanged; a known one is exactly `add_movie_edge` and queues nothing |
| Crawl.MovieLinks | scraper.py:149-156 | the actor queue grows by exactly the unvisited cast links, in order, duplicates kept; the graph keeps its keys; its edges are stated by `MovieLinksEdges` |
| Crawl.MovieLinksEdges | scraper.py:149-163 | after the cast loop, every cast link already in `actor_urls` has the edge between the movie and that actor, weighted `int(gross / age)`, on both endpoints |
| Crawl.MovieLinksKeepEdge | scraper.py:149-163 | later passes of the cast loop keep an edge an earlier pass wrote |
| Crawl.MovieLinksKeepTallied | scraper.py:149-156 | the cast loop keeps the counters and the mirrored edges |
| Crawl.ActorLink | scraper.py:191-197 | an unknown film link is appended to the movie queue and leaves the graph unchanged; a known one is exactly `add_actor_edge` |
| Crawl.ActorLinks | scraper.py:190-197 | the movie queue grows by exactly the unvisited film links; the graph keeps its keys; its edges are stated by `ActorLinksEdges` |
| Crawl.ActorLinksEdges | scraper.py:190-210 | after the film loop, every film link already in `movie_urls` has the edge between the actor and that movie, weighted `int(gross / age)`, on both endpoints |
| Crawl.ActorLinksKeepEdge | scraper.py:190-210 | later passes of the film loop keep an edge an earlier pass wrote |
| Crawl.ActorLinksKeepTallied | scraper.py:190-197 | the film loop keeps the counters and the mirrored edges |
| Crawl.ScrapeMovie | scraper.py:134-156 | a url already in `movie_urls`, or missing fields, changes nothing; otherwise at most one movie is counted and the actor queue only grows |
| Crawl.ScrapeMovieKeepsTallied | scraper.py:134-156 | `scrape_movie` keeps the counters and the mirrored edges |
| Crawl.ScrapeActor | scraper.py:174-197 | missing fields change nothing (there is no url check); at most one actor is counted and the movie queue only grows |
| Crawl.ScrapeActorKeepsTallied | scraper.py:174-197 | `scrape_actor` keeps the counters and the mirrored edges |
| Crawl.ScrapeAllActors | scraper.py:105-114 | the actor queue ends empty, the movie queue only grows, and these fetches are not counted as requests |
| Crawl.ScrapeAllActorsKeepsTallied | scraper.py:105-114 | draining the actor queue keeps the counters and the mirrored edges |
| Crawl.GetAnyUrl | scraper.py:116-125 | dequeues only from the queue of the same kind, returning url and group together or neither; otherwise nothing changes |
| Crawl.ScrapeHandler | scraper.py:93-103 | after a page of any kind other than Actor, the actor queue is empty and the next url is a movie url |
| Crawl.ScrapeHandlerKeepsTallied | scraper.py:93-103 | `scrape_handler` keeps the counters and the mirrored edges |
| Crawl.Step | scraper.py:62-91 | one loop pass makes exactly one request when it has a url and none otherwise; counters never fall; it stops only by spinning, exhaustion or blocking, and only blocking can have changed the counters |
| Crawl.StepKeepsTallied | scraper.py:62-91 | a loop pass keeps the counters and the mirrored edges |
| Crawl.RunOutcome | scraper.py:62-91 | of `Crawl.Run`, the model of `scrape`: `scrape` ends satisfied only once both thresholds are met, otherwise below them; counters never fall; at most one request per pass |
| Crawl.RunKeepsTallied | scraper.py:62-91 | the whole crawl keeps the counters equal to the group sizes and every edge mirrored |
| Scraping.Scraper.constructor | scraper.py:39-51 | the fields start as the initial state |
| Scraping.Scraper.SlowScrape | scraper.py:127-132 | only `num_requests` changes, by one |
| Scraping.Scraper.AddMovie | scraper.py:165-172 | performs `Crawl.AddMovie` on the object's state |
| Scraping.Scraper.AddMovieEdge | scraper.py:158-163 | performs `Crawl.AddMovieEdge` |
| Scraping.Scraper.MovieLink | scraper.py:150-156 | performs `Crawl.MovieLink` |
| Scraping.Scraper.ScrapeMovie | scraper.py:134-156 | performs `Crawl.ScrapeMovie`, its loop following `Crawl.MovieLinks` |
| Scraping.Scraper.AddActor | scraper.py:199-204 | performs `Crawl.AddActor` |
| Scraping.Scraper.AddActorEdge | scraper.py:206-210 | performs `Crawl.AddActorEdge` |
| Scraping.Scraper.ActorLink | scraper.py:191-197 | performs `Crawl.ActorLink` |
| Scraping.Scraper.ScrapeActor | scraper.py:174-197 | performs `Crawl.ScrapeActor` |
| Scraping.Scraper.ScrapeAllActors | scraper.py:105-114 | performs `Crawl.ScrapeAllActors` |
| Scraping.Scraper.GetAnyUrl | scraper.py:116-125 | performs `Crawl.GetAnyUrl` |
| Scraping.Scraper.ScrapeHandler | scraper.py:93-103 | performs `Crawl.ScrapeHandler` |
| Scraping.Scraper.Fetched | scraper.py:82-84 | a downloaded page goes to `scrape_handler`; a `get()` on an empty queue is the Blocked outcome |
| Scraping.Scraper.Skip | scraper.py:85-91 | with no page, the next url comes from `get_any_url`, and none ends `scrape` |
| Scraping.Scraper.Step | scraper.py:62-91 | performs `Crawl.Step`; the `break` at lines 72-74 is unreachable under the loop guard |
| Scraping.Scraper.Scrape | scraper.py:53-91 | performs `Crawl.Run`, so `RunOutcome` and `RunKeepsTallied` hold of the object |
| Brackets.RemoveParenBrackClean | scraper.py:444-452 | the corrected function `Brackets.RemoveParenBrack` leaves no `(` before a `)` and no `[` before a `]`, and applying it again changes nothing |
| Brackets.SubKeepsOrder | scraper.py:450-451 | a substitution pass only deletes, so it creates no new `x … y` order |
| Brackets.StripLeavesNone | scraper.py:450 | a pass whose stop char is its close char leaves no open char followed by a close char |
| Brackets.StripNothing | scraper.py:450 | such a pass leaves a string without an open char before a close char unchanged |
| Brackets.MatchEndFinds | scraper.py:450 | with the stop char equal to the close char, a match exists exactly when a close char follows |
| Brackets.BracketPassOverreaches | scraper.py:451 | as written (`Brackets.RemoveParenBrackAsWritten`), `"a[1]b[2]"` becomes `"a"` |
| Brackets.BracketPassIntended | scraper.py:444-452 | corrected (`Brackets.RemoveParenBrack`), `"a[1]b[2]"` becomes `"ab"` |
| Queries.GetGross | query.py:16-27 | the movie's `value1` when the key is stored, otherwise None |
| Queries.NeighborKeys | query.py:42-43 | lists exactly the neighbour keys of the vertex, each once |
| Queries.GetMovies | query.py:29-45 | None exactly when the argument is None; otherwise exactly the actor's neighbour keys, each once |
| Queries.GetActors | query.py:47-61 | None exactly when the argument is None; otherwise exactly the movie's neighbour keys, each once |
| Queries.SortDescendingCorrect | query.py:80 | the sort is non-increasing in score, a permutation of its input, and stable (equal scores keep their order) |
| Queries.Take | query.py:81 | a prefix of the list, of the length a Python slice `[:num]` gives, negative `num` included |
| Queries.CutLeavesLower | query.py:80-81 | nothing left out by the cut outscores anything kept |
| Queries.CutKeepsTieOrder | query.py:80-81 | within a score, the kept rows are a prefix of those rows in graph order |
| Queries.ActorRowsMembers | query.py:71-78 | the rows are exactly the Actor vertices, each with its score |
| Queries.GetTopActors | query.py:63-83 | the first `num` rows of the Actor vertices, scored by summed edge weight and sorted stably in descending order |
| Queries.GetOldestActors | query.py:85-102 | the same ranking, scored by `value1` |
| Queries.RankingOfActors | query.py:63-102 | a ranking holds only Actor vertices with their scores, highest first, `min(num, #actors)` of them, and no actor left out outscores one kept |
| Queries.MoviesOfYearMembers | query.py:110-117 | exactly the Movie vertices whose `value2` is the year, each once |
| Queries.GetMoviesYear | query.py:104-117 | the Movie keys of that year in graph order |
| Queries.AppendUnseen | query.py:127-131 | the inner loop appends each new neighbour once and keeps what was listed |
| Queries.GetActorsYear | query.py:119-133 | every neighbour of a Movie vertex of that year, each exactly once |
| Analysis.AddCast | analyze.py:36-44 | one movie adds its actors' ages as keys, and each age grows by the `value2` of that movie's actors of that age |
| Analysis.GetGrossAge | analyze.py:26-46 | the keys are exactly the ages of actors adjacent to some Movie vertex; each age maps to the summed `value2` over (movie, actor) pairs with that age; `num` is returned unchanged |
| Analysis.NoAgeNoGross | analyze.py:34-44 | an age that no movie's actor has contributes nothing |
| Analysis.CountedPerMovie | analyze.py:36-44 | an actor alone at its age, adjacent to k movies, contributes its `value2` k times |
| Sums.TotalPick | query.py:76-77 | a sum over the keys of a table splits into any one key's entry plus the rest, so the order of the walk does not matter |
| Sums.SumValues | query.py:75-77 | the loop over an actor's neighbours computes the sum of their weights |
| Loading.Empty | parse_data.py:11 | a new graph is well formed and empty |
| Loading.LoadActors | parse_data.py:15-17 | the graph holds exactly the actor record keys |
| Loading.LoadActorsNoEdges | parse_data.py:15-17 | the actor pass adds no edges |
| Loading.LoadActorsAttributes | parse_data.py:15-17 | each actor key holds the group, age and total gross of the last record with that key |
| Loading.LinkCast | parse_data.py:22-24 | the cast loop adds no vertex and keeps the order |
| Loading.LinkCastKeepsAttributes | parse_data.py:22-24 | the cast loop changes no vertex's group or attributes |
| Loading.LoadMovie | parse_data.py:20-24 | adds exactly the movie's key |
| Loading.LoadMovieAttributes | parse_data.py:21 | the movie vertex holds its group, `value1 = year` and `value2 = gross`; every other vertex keeps its attributes |
| Loading.LoadMovies | parse_data.py:19-24 | the keys are those before plus the movie keys; the old order is a prefix; weight-1 edges between stored vertices stay so; each key's attributes come from its last movie record, or are kept |
| Loading.Parse | parse_data.py:5-26 | the built graph is well formed and is `LoadMovies(LoadActors(...))` |
| Loading.AddMovie | parse_data.py:20-24 | performs `LoadMovie` on the graph object |
| Loading.AddCastEdges | parse_data.py:22-24 | performs `LinkCast` on the graph object |
| Loading.ParseUnitEdges | parse_data.py:15-24 | every edge of the parsed graph has weight 1 and joins stored vertices, so a cast name in neither record list gets no edge |
| Loading.ParseAttributes | parse_data.py:15-24 | each key holds the year and gross of its last movie record, else the age and total gross of its last actor record |
| Api.SubstringOccurs | app.py:82 | `f in s` holds exactly when `f` occurs at some position of `s` |
| Api.DoesMatchFilters | app.py:66-92 | true iff a filter name is a substring of the name, or `value_1` is among its filters, or `value_2` is among its filters; all filters empty gives false |
| Api.GetFilteredActors | app.py:16-38 | exactly the Actor vertices passing the filters, keyed by key, with `age = value1` and `gross = value2`; an empty result aborts with 400 |
| Api.GetFilteredMovies | app.py:41-63 | exactly the Movie vertices passing the filters, with years matched against `value1` and gross against `value2`; an empty result aborts with 400 |
| Api.ListedAll | app.py:23-33 | the listing loop over the graph order visits every stored key |
| Api.WithAttributes | app.py:135-141 | only the named vertex's two attributes change; keys, order, neighbours and every other vertex are kept |
| Api.WithAttributesKeeps | app.py:135-141 | an update keeps the store well formed, the edges mirrored and the groups unchanged |
| Api.UpdateAttributes | app.py:129-148 | 404 for a key not stored (checked first), 400 for a false body, else each attribute takes the body's field or keeps its value, and nothing else changes |
| Api.UpdateActor | app.py:129-148 | the update with `age` for `value1` and `gross` for `value2`, returning the row |
| Api.UpdateMovie | app.py:152-171 | the update with `year` for `value1` and `gross` for `value2`, returning the row |
| Api.Create | app.py:177-208 | `create_actor` (`Api.CreateActor`, with `age`) and `create_movie` (`Api.CreateMovie`, with `year`): 400 exactly when the body is false or has no `name`; otherwise 201 echoing the name and the body's fields, with age or year defaulting to -1 and gross to 0 |

## Left out

- Dict and neighbour-table order: neighbour tables are maps, so the order of `get_movies`, `get_actors` and `get_actors_year` results is not modelled, only their contents and distinctness. The vertex store's own insertion order is modelled.
- Aliasing of vertex objects: `Graph` holds vertex values, not shared `Vertex` objects. The object that `add_vertex` returns is not updated by later edges on the stored vertex.
- HTTP (`open_url`) and HTML extraction (`get_actor_info`, `get_movie_info`, the url collectors, `strip_tags`) become the `Web` oracle: a url either fails to download or gives a page whose fields are present or missing. The oracle is a fixed map, so fetches are deterministic: a url fetched twice gives the same result both times, which a live site does not promise.
- `parse_gross` and `remove_non_alphanum`: they rely on foreign libraries (`w2n`, `Decimal`).
- `queue.Queue` blocking and thread safety: a queue is a sequence, and `get()` on an empty queue is the `Blocked` outcome.
- Crawl.Run: the loop of `scrape` runs for at most `fuel` passes; a crawl that needs more ends with `OutOfFuel`.
- Crawl.ScrapeActor: the model requires a page never to report age 0, where the source would divide by zero in `add_actor_edge`.
- Crawl.TruncDiv: `gross / age` is a float division in the source. The model uses exact integer division truncated toward zero, without float rounding.
- Timing and logging: the start time, the request-rate log, the commented-out sleep and all logging and YAML configuration.
- `get_hub_actors`: its helpers come from a module this model does not include.
- The `get_actor`/`get_movie` routes, the delete routes, the index route and the Flask request and response plumbing. A response is a status with a body, or an abort code.
- Api.UpdateAttributes: JSON bodies are maps from field names to integers or strings. The model requires `age`/`year` and `gross` to be integers when present, and leaves out other JSON values and non-object bodies.
- Api.GetFilteredActors: query arguments that are not integers are left out; `getlist(type=int)` drops them before the model starts.
- The `load` file read in `parse`, `save`, `main.py` and `visualization.py`: file I/O, a driver and plotting.

## Findings

| source | as written | input that shows it | evidently intended | confidence | as-written member | corrected member |
|---|---|---|---|---|---|---|
| scraper.py:451 | the bracket pattern `\[[^)]*\]` stops only at `)`, so from the first `[` the match runs to the last `]` before a `)` | `remove_paren_brack("a[1]b[2]")` gives `"a"` | `\[[^\]]*\]`, giving `"ab"`: each bracketed group removed alone | not executed | Brackets.BracketPassOverreaches | Brackets.RemoveParenBrackClean |
