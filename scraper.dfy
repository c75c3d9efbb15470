/** The crawl controller `Scraper` of scraper.py as a mutable object. Its
    graph is a `Graph` object it updates in place; its two FIFO queues are
    sequences (front = next `get()`); its url maps are maps. Every method is
    proved to perform the function of module Crawl of the same name, so the
    properties proved there (the invariant, the counters, the queues) hold of
    the object. A page download is looked up in the `Web` parameter. */
module Scraping {
  import opened Wrappers
  import opened Vertices
  import opened Graphs
  import opened Crawl

  class Scraper {
    var numRequests: nat
    var numMovies: nat
    var numActors: nat
    const graph: Graph
    var movieQueue: seq<string>
    var actorQueue: seq<string>
    var movieUrls: map<string, string>
    var actorUrls: map<string, string>

    /** The fields as one value. */
    function State(): CrawlState
      reads this, graph
    {
      CrawlState(numRequests, numMovies, numActors, graph.Model(),
                 movieQueue, actorQueue, movieUrls, actorUrls)
    }

    ghost predicate Valid()
      reads this, graph
    {
      Inv(State())
    }

    constructor ()
      ensures Valid() && State() == Initial && fresh(graph)
    {
      numRequests := 0;
      numMovies := 0;
      numActors := 0;
      graph := new Graph();
      movieQueue := [];
      actorQueue := [];
      movieUrls := map[];
      actorUrls := map[];
      new;
      InitialInv();
    }

    /** `slow_scrape` with the sleep and the rate log left out: one more request. */
    method SlowScrape()
      modifies this
      ensures State() == old(State()).(numRequests := old(numRequests) + 1)
    {
      numRequests := numRequests + 1;
    }

    method AddMovieEdge(actorUrl: string, gross: int, title: string)
      requires Valid() && actorUrl in actorUrls && title in graph.table
      modifies graph
      ensures State() == Crawl.AddMovieEdge(old(State()), actorUrl, gross, title)
      ensures Valid()
    {
      var actor := actorUrls[actorUrl];
      var vertex := graph.GetVertex(actor);
      var actorAge := vertex.value.value1;
      var weight := TruncDiv(gross, actorAge);
      graph.AddEdge(title, actor, weight);
    }

    method AddMovie(links: seq<string>, gross: int, title: string, url: string, year: int)
      requires Valid()
      modifies this, graph
      ensures State() == Crawl.AddMovie(old(State()), links, gross, title, url, year)
      ensures Valid()
    {
      if title !in graph.GetVertices() && |links| > 0 {
        movieUrls := movieUrls[url := title];
        var _ := graph.AddVertex(MovieGroup, title, gross, year);
        numMovies := numMovies + 1;
      }
    }

    /** The body of the loop of `scrape_movie` for one cast link. */
    method MovieLink(title: string, gross: int, actorUrl: string)
      requires Valid() && title in graph.table
      modifies this, graph
      ensures State() == Crawl.MovieLink(old(State()), title, gross, actorUrl)
      ensures Valid() && title in graph.table
    {
      if actorUrl !in actorUrls {
        actorQueue := actorQueue + [actorUrl];
      } else {
        AddMovieEdge(actorUrl, gross, title);
      }
    }

    /** `scrape_movie` on the page's movie extraction. */
    method ScrapeMovie(page: Page, url: string)
      requires Valid()
      modifies this, graph
      ensures State() == Crawl.ScrapeMovie(old(State()), page, url)
      ensures Valid()
    {
      if url in movieUrls {
        return;
      }
      if page.movieInfo.Some? {
        var info := page.movieInfo.value;
        AddMovie(info.actorUrls, info.gross, info.title, url, info.year);
        if info.title in graph.GetVertices() {
          ghost var final := MovieLinks(State(), info.title, info.gross, info.actorUrls);
          var links := info.actorUrls;
          var i := 0;
          while i < |links|
            invariant 0 <= i <= |links|
            invariant Valid() && info.title in graph.table
            invariant MovieLinks(State(), info.title, info.gross, links[i..]) == final
          {
            assert links[i..][1..] == links[i + 1..];
            MovieLink(info.title, info.gross, links[i]);
            i := i + 1;
          }
        }
      }
    }

    method AddActor(age: int, links: seq<string>, name: string, url: string)
      requires Valid() && age != 0
      modifies this, graph
      ensures State() == Crawl.AddActor(old(State()), age, links, name, url)
      ensures Valid()
    {
      if name !in graph.GetVertices() && |links| > 0 {
        actorUrls := actorUrls[url := name];
        var _ := graph.AddVertex(ActorGroup, name, age);
        numActors := numActors + 1;
      }
    }

    method AddActorEdge(age: int, movieUrl: string, name: string)
      requires Valid() && age != 0 && movieUrl in movieUrls && name in graph.table
      modifies graph
      ensures State() == Crawl.AddActorEdge(old(State()), age, movieUrl, name)
      ensures Valid()
    {
      var movie := movieUrls[movieUrl];
      var vertex := graph.GetVertex(movie);
      var movieGross := vertex.value.value1;
      var weight := TruncDiv(movieGross, age);
      graph.AddEdge(name, movie, weight);
    }

    /** The body of the loop of `scrape_actor` for one film link. */
    method ActorLink(name: string, age: int, movieUrl: string)
      requires Valid() && age != 0 && name in graph.table
      modifies this, graph
      ensures State() == Crawl.ActorLink(old(State()), name, age, movieUrl)
      ensures Valid() && name in graph.table
    {
      if movieUrl !in movieUrls {
        movieQueue := movieQueue + [movieUrl];
      } else {
        AddActorEdge(age, movieUrl, name);
      }
    }

    /** `scrape_actor` on the page's actor extraction. */
    method ScrapeActor(page: Page, url: string)
      requires Valid() && PageAgeNonZero(page)
      modifies this, graph
      ensures State() == Crawl.ScrapeActor(old(State()), page, url)
      ensures Valid()
    {
      if page.actorInfo.Some? {
        var info := page.actorInfo.value;
        AddActor(info.age, info.movieUrls, info.name, url);
        if info.name in graph.GetVertices() {
          ghost var final := ActorLinks(State(), info.name, info.age, info.movieUrls);
          var links := info.movieUrls;
          var i := 0;
          while i < |links|
            invariant 0 <= i <= |links|
            invariant Valid() && info.name in graph.table
            invariant ActorLinks(State(), info.name, info.age, links[i..]) == final
          {
            assert links[i..][1..] == links[i + 1..];
            ActorLink(info.name, info.age, links[i]);
            i := i + 1;
          }
        }
      }
    }

    method ScrapeAllActors(web: Web)
      requires Valid() && AgesNonZero(web)
      modifies this, graph
      ensures State() == Crawl.ScrapeAllActors(old(State()), web)
      ensures Valid()
    {
      ghost var final := Crawl.ScrapeAllActors(State(), web);
      while actorQueue != []
        invariant Valid()
        invariant Crawl.ScrapeAllActors(State(), web) == final
        decreases |actorQueue|
      {
        var url := actorQueue[0];
        actorQueue := actorQueue[1..];
        var rawPage := OpenUrl(web, url);
        if rawPage.Some? {
          ScrapeActor(rawPage.value, url);
        }
      }
    }

    method GetAnyUrl(group: Option<Kind>) returns (url: Option<string>, kind: Option<Kind>)
      modifies this
      ensures (State(), url, kind) == Crawl.GetAnyUrl(old(State()), group)
    {
      if group == Some(Actor) && actorQueue != [] {
        url, kind := Some(actorQueue[0]), group;
        actorQueue := actorQueue[1..];
      } else if group == Some(Movie) && movieQueue != [] {
        url, kind := Some(movieQueue[0]), group;
        movieQueue := movieQueue[1..];
      } else {
        url, kind := None, None;
      }
    }

    /** `scrape_handler`; `None` stands for a `get()` on an empty queue. */
    method ScrapeHandler(group: Option<Kind>, page: Page, url: string, web: Web)
      returns (next: Option<(string, Kind)>)
      requires Valid() && AgesNonZero(web) && PageAgeNonZero(page)
      modifies this, graph
      ensures (State(), next) == Crawl.ScrapeHandler(old(State()), group, page, url, web)
      ensures Valid()
    {
      if group == Some(Actor) {
        ScrapeActor(page, url);
        if movieQueue != [] {
          next := Some((movieQueue[0], Movie));
          movieQueue := movieQueue[1..];
        } else if actorQueue != [] {
          next := Some((actorQueue[0], Actor));
          actorQueue := actorQueue[1..];
        } else {
          next := None;
        }
      } else {
        ScrapeMovie(page, url);
        ScrapeAllActors(web);
        if movieQueue != [] {
          next := Some((movieQueue[0], Movie));
          movieQueue := movieQueue[1..];
        } else {
          next := None;
        }
      }
    }

    /** The rest of a pass whose page downloaded: `scrape_handler`, and a
        `get()` on an empty queue blocks. */
    method Fetched(group: Option<Kind>, page: Page, url: string, web: Web)
      returns (stop: Option<Outcome>, nextUrl: Option<string>, nextGroup: Option<Kind>)
      requires Valid() && AgesNonZero(web) && PageAgeNonZero(page)
      modifies this, graph
      ensures var h := Crawl.ScrapeHandler(old(State()), group, page, url, web);
        (if h.1.None? then Stop(h.0, Blocked) else Continue(h.0, Some(h.1.value.0), Some(h.1.value.1)))
        == if stop.Some? then Stop(State(), stop.value) else Continue(State(), nextUrl, nextGroup)
      ensures Valid()
    {
      var next := ScrapeHandler(group, page, url, web);
      if next.None? {
        stop, nextUrl, nextGroup := Some(Blocked), None, None;
      } else {
        stop, nextUrl, nextGroup := None, Some(next.value.0), Some(next.value.1);
      }
    }

    /** The rest of a pass that has no page: `get_any_url`, and nothing
        from it ends `scrape` with `outcome`. */
    method Skip(group: Option<Kind>, outcome: Outcome)
      returns (stop: Option<Outcome>, nextUrl: Option<string>, nextGroup: Option<Kind>)
      modifies this
      ensures var a := Crawl.GetAnyUrl(old(State()), group);
        (if a.1.None? || a.2.None? then Stop(a.0, outcome) else Continue(a.0, a.1, a.2))
        == if stop.Some? then Stop(State(), stop.value) else Continue(State(), nextUrl, nextGroup)
    {
      nextUrl, nextGroup := GetAnyUrl(group);
      stop := if nextUrl.None? || nextGroup.None? then Some(outcome) else None;
    }

    /** One pass of the loop of `scrape`: `stop` is the outcome when `scrape`
        returns (or never returns) after it, and otherwise `url` and `group`
        are those of the next pass. */
    method Step(url: Option<string>, group: Option<Kind>, web: Web)
      returns (stop: Option<Outcome>, nextUrl: Option<string>, nextGroup: Option<Kind>)
      requires Valid() && AgesNonZero(web) && BelowThresholds(State())
      modifies this, graph
      ensures Crawl.Step(old(State()), url, group, web)
              == if stop.Some? then Stop(State(), stop.value) else Continue(State(), nextUrl, nextGroup)
      ensures Valid()
    {
      if url.None? {
        StepSpins(old(State()), group, web);
        stop, nextUrl, nextGroup := Skip(group, Spinning);
        return;
      }
      if numMovies >= MovieThreshold && numActors >= ActorThreshold {
        // The loop guard holds, so the source's `break` here never runs.
        assert false;
      }
      ghost var before := State();
      SlowScrape();
      assert State() == before.(numRequests := before.numRequests + 1);
      var rawPage := OpenUrl(web, url.value);
      if rawPage.Some? {
        StepFetches(old(State()), url.value, group, web);
        stop, nextUrl, nextGroup := Fetched(group, rawPage.value, url.value, web);
      } else {
        StepMisses(old(State()), url.value, group, web);
        stop, nextUrl, nextGroup := Skip(group, Exhausted);
      }
    }

    /** `scrape`, stopped after `fuel` passes of its loop. */
    method Scrape(url: Option<string>, group: Option<Kind>, web: Web, fuel: nat) returns (outcome: Outcome)
      requires Valid() && AgesNonZero(web)
      modifies this, graph
      ensures (State(), outcome) == Run(old(State()), url, group, web, fuel)
      ensures Valid()
    {
      var current, kind, left := url, group, fuel;
      while numMovies < MovieThreshold || numActors < ActorThreshold
        invariant Valid()
        invariant Run(State(), current, kind, web, left) == Run(old(State()), url, group, web, fuel)
        decreases left
      {
        if left == 0 {
          return OutOfFuel;
        }
        left := left - 1;
        var stop;
        stop, current, kind := Step(current, kind, web);
        if stop.Some? {
          return stop.value;
        }
      }
      return Satisfied;
    }
  }
}
