/** `parse`: builds the graph from the actor and movie records of a saved
    crawl. Reading the file is not modelled; the two record tables are
    given in their stored order. */
module Loading {
  import opened Vertices
  import opened Wrappers
  import opened Graphs

  /** One entry of the actor table; the entry's key is `key`. */
  datatype ActorRecord = ActorRecord(
    key: string, age: int, group: string, movies: seq<string>, name: string, totalGross: int)

  /** One entry of the movie table; the entry's key is `key`. */
  datatype MovieRecord = MovieRecord(
    key: string, actors: seq<string>, gross: int, group: string, title: string, url: string, year: int)

  /** The graph before any record is read. */
  function Empty(): (g: GraphData)
    ensures g.Valid() && g.table == map[]
  {
    GraphData([], map[])
  }

  /** The keys of the actor records. */
  ghost function ActorKeys(actors: seq<ActorRecord>, n: nat): set<string>
    requires n <= |actors|
  {
    if n == 0 then {} else ActorKeys(actors, n - 1) + {actors[n - 1].key}
  }

  /** The graph after the first `n` actor records: each is a vertex with
      `value1 = age` and `value2 = total_gross`. */
  function LoadActors(actors: seq<ActorRecord>, n: nat): (g: GraphData)
    requires n <= |actors|
    ensures g.table.Keys == ActorKeys(actors, n)
  {
    if n == 0 then Empty()
    else
      var a := actors[n - 1];
      LoadActors(actors, n - 1).AddVertex(a.group, a.key, a.age, a.totalGross)
  }

  /** The graph after linking `title` to the first `k` cast names: a name
      that is a vertex key gets an edge of weight 1, any other is skipped.
      Only adjacency changes. */
  function LinkCast(g: GraphData, title: string, cast: seq<string>, k: nat): (r: GraphData)
    requires k <= |cast|
    requires forall c :: c in cast && c in g.table ==> title in g.table
    ensures r.table.Keys == g.table.Keys && r.keys == g.keys
  {
    if k == 0 then g
    else
      var p := LinkCast(g, title, cast, k - 1);
      if cast[k - 1] in p.table then p.AddEdge(title, cast[k - 1], 1) else p
  }

  /** The keys of the first `n` movie records. */
  ghost function MovieKeys(movies: seq<MovieRecord>, n: nat): set<string>
    requires n <= |movies|
  {
    if n == 0 then {} else MovieKeys(movies, n - 1) + {movies[n - 1].key}
  }

  /** The keys present once movie record `i` has been added. */
  ghost function KeysThrough(base: set<string>, movies: seq<MovieRecord>, i: nat): set<string>
    requires i < |movies|
  {
    base + MovieKeys(movies, i + 1)
  }

  /** Edges are added from the movie's `title`, so whenever a cast name is a
      vertex key the title must be one as well (a missing title raises). */
  ghost predicate TitlesResolve(base: set<string>, movies: seq<MovieRecord>)
  {
    forall i :: 0 <= i < |movies| ==> TitleResolvesAt(base, movies, i)
  }

  /** Movie record `i` links only if its title is a key by then. */
  ghost predicate TitleResolvesAt(base: set<string>, movies: seq<MovieRecord>, i: nat)
    requires i < |movies|
  {
    forall c :: c in movies[i].actors && c in KeysThrough(base, movies, i)
      ==> movies[i].title in KeysThrough(base, movies, i)
  }

  /** One movie record: its vertex with `value1 = year` and `value2 =
      gross`, then its cast edges. */
  function LoadMovie(g: GraphData, m: MovieRecord): (r: GraphData)
    requires forall c :: c in m.actors && c in g.table.Keys + {m.key} ==> m.title in g.table.Keys + {m.key}
    ensures r.table.Keys == g.table.Keys + {m.key}
  {
    LinkCast(g.AddVertex(m.group, m.key, m.year, m.gross), m.title, m.actors, |m.actors|)
  }

  /** The graph after the first `n` movie records. The keys already present
      keep their place at the front of the order, edges of weight 1 to
      stored vertices stay the only edges, and every key holds the
      attributes of the last record that stored it. */
  function LoadMovies(g: GraphData, movies: seq<MovieRecord>, n: nat): (r: GraphData)
    requires n <= |movies| && TitlesResolve(g.table.Keys, movies)
    ensures r.table.Keys == g.table.Keys + MovieKeys(movies, n)
    ensures g.keys <= r.keys
    ensures UnitEdgesToStored(g) ==> UnitEdgesToStored(r)
    ensures forall key :: AttributesAfter(g, movies, n, r, key)
  {
    if n == 0 then g
    else
      var p := LoadMovies(g, movies, n - 1);
      assert p.table.Keys + {movies[n - 1].key} == KeysThrough(g.table.Keys, movies, n - 1);
      assert TitleResolvesAt(g.table.Keys, movies, n - 1);
      LoadMovieUnitEdges(p, movies[n - 1]);
      LoadMovieAttributesAfter(g, movies, n - 1, n, p);
      LoadMovie(p, movies[n - 1])
  }

  /** The inner loop of `parse`: an edge of weight 1 from `title` to every
      cast name that is a vertex key. */
  method AddCastEdges(graph: Graph, title: string, cast: seq<string>)
    requires graph.Valid()
    requires forall c :: c in cast && c in graph.table ==> title in graph.table
    modifies graph
    ensures graph.Valid()
    ensures graph.Model() == LinkCast(old(graph.Model()), title, cast, |cast|)
  {
    ghost var start := graph.Model();
    for j := 0 to |cast|
      invariant graph.Valid() && graph.Model() == LinkCast(start, title, cast, j)
    {
      var actor := cast[j];
      if actor in graph.GetVertices() {
        graph.AddEdge(title, actor, 1);
      }
    }
  }

  /** One pass of the movie loop of `parse`: the movie's vertex, then its
      cast edges. */
  method AddMovie(graph: Graph, m: MovieRecord)
    requires graph.Valid()
    requires forall c :: c in m.actors && c in graph.table.Keys + {m.key} ==> m.title in graph.table.Keys + {m.key}
    modifies graph
    ensures graph.Valid()
    ensures graph.Model() == LoadMovie(old(graph.Model()), m)
  {
    var v := graph.AddVertex(m.group, m.key, m.year, m.gross);
    AddCastEdges(graph, m.title, m.actors);
  }

  /** `parse`: every actor record becomes a vertex, then every movie record
      becomes a vertex followed by its edges to the cast names that are
      already vertex keys, each of weight 1. */
  method Parse(actors: seq<ActorRecord>, movies: seq<MovieRecord>) returns (graph: Graph)
    requires TitlesResolve(ActorKeys(actors, |actors|), movies)
    ensures fresh(graph) && graph.Valid()
    ensures graph.Model() == LoadMovies(LoadActors(actors, |actors|), movies, |movies|)
  {
    graph := new Graph();
    for i := 0 to |actors|
      invariant graph.Valid() && graph.Model() == LoadActors(actors, i)
    {
      var a := actors[i];
      var v := graph.AddVertex(a.group, a.key, a.age, a.totalGross);
    }
    ghost var start := graph.Model();
    assert start.table.Keys == ActorKeys(actors, |actors|);
    for i := 0 to |movies|
      invariant graph.Valid() && graph.Model() == LoadMovies(start, movies, i)
    {
      TitleResolves(start, movies, i + 1);
      AddMovie(graph, movies[i]);
    }
  }

  /* ---------------- What `parse` builds ---------------- */

  /** Every adjacency entry names a stored vertex and has weight 1. */
  ghost predicate UnitEdgesToStored(g: GraphData)
  {
    forall k, n :: UnitEdgeAt(g, k, n)
  }

  ghost predicate UnitEdgeAt(g: GraphData, k: string, n: string)
  {
    k in g.table && n in g.table[k].neighbors ==> n in g.table && g.table[k].neighbors[n] == 1
  }

  lemma AddVertexUnitEdges(g: GraphData, group: string, key: string, value1: int, value2: int)
    requires UnitEdgesToStored(g)
    ensures UnitEdgesToStored(g.AddVertex(group, key, value1, value2))
  {
    var h := g.AddVertex(group, key, value1, value2);
    forall k, n ensures UnitEdgeAt(h, k, n) {
      assert UnitEdgeAt(g, k, n);
    }
  }

  lemma AddEdgeUnitEdges(g: GraphData, a: string, b: string)
    requires a in g.table && b in g.table
    requires UnitEdgesToStored(g)
    ensures UnitEdgesToStored(g.AddEdge(a, b, 1))
  {
    var h := g.AddEdge(a, b, 1);
    forall k, n ensures UnitEdgeAt(h, k, n) {
      assert UnitEdgeAt(g, k, n);
    }
  }

  lemma {:induction false} LinkCastUnitEdges(g: GraphData, title: string, cast: seq<string>, k: nat)
    requires k <= |cast|
    requires forall c :: c in cast && c in g.table ==> title in g.table
    requires UnitEdgesToStored(g)
    ensures UnitEdgesToStored(LinkCast(g, title, cast, k))
  {
    if k > 0 {
      LinkCastUnitEdges(g, title, cast, k - 1);
      var p := LinkCast(g, title, cast, k - 1);
      if cast[k - 1] in p.table {
        AddEdgeUnitEdges(p, title, cast[k - 1]);
      }
    }
  }

  lemma LoadMovieUnitEdges(g: GraphData, m: MovieRecord)
    requires forall c :: c in m.actors && c in g.table.Keys + {m.key} ==> m.title in g.table.Keys + {m.key}
    ensures UnitEdgesToStored(g) ==> UnitEdgesToStored(LoadMovie(g, m))
  {
    if UnitEdgesToStored(g) {
      AddVertexUnitEdges(g, m.group, m.key, m.year, m.gross);
      LinkCastUnitEdges(g.AddVertex(m.group, m.key, m.year, m.gross), m.title, m.actors, |m.actors|);
    }
  }

  /** Movie record `n - 1` meets the precondition of `LoadMovie`. */
  lemma TitleResolves(g: GraphData, movies: seq<MovieRecord>, n: nat)
    requires 0 < n <= |movies| && TitlesResolve(g.table.Keys, movies)
    ensures var p, m := LoadMovies(g, movies, n - 1), movies[n - 1];
      forall c :: c in m.actors && c in p.table.Keys + {m.key} ==> m.title in p.table.Keys + {m.key}
  {
    assert LoadMovies(g, movies, n - 1).table.Keys + {movies[n - 1].key}
           == KeysThrough(g.table.Keys, movies, n - 1);
    assert TitleResolvesAt(g.table.Keys, movies, n - 1);
  }

  /** Every edge `parse` builds has weight 1 and joins stored vertices, so a
      cast name that is neither an actor key nor a movie key gets no edge. */
  lemma ParseUnitEdges(actors: seq<ActorRecord>, movies: seq<MovieRecord>, name: string)
    requires TitlesResolve(ActorKeys(actors, |actors|), movies)
    ensures UnitEdgesToStored(LoadMovies(LoadActors(actors, |actors|), movies, |movies|))
    ensures var g := LoadMovies(LoadActors(actors, |actors|), movies, |movies|);
      name !in ActorKeys(actors, |actors|) && name !in MovieKeys(movies, |movies|) ==>
        forall k :: k in g.table ==> name !in g.table[k].neighbors
  {
    var a := LoadActors(actors, |actors|);
    assert a.table.Keys == ActorKeys(actors, |actors|);
    LoadActorsNoEdges(actors, |actors|);
    forall k, n ensures UnitEdgeAt(a, k, n) {
    }
    var g := LoadMovies(a, movies, |movies|);
    if name !in ActorKeys(actors, |actors|) && name !in MovieKeys(movies, |movies|) {
      forall k | k in g.table ensures name !in g.table[k].neighbors {
        assert UnitEdgeAt(g, k, name);
      }
    }
  }

  /** Actor vertices start without neighbours. */
  lemma {:induction false} LoadActorsNoEdges(actors: seq<ActorRecord>, n: nat)
    requires n <= |actors|
    ensures forall k :: k in LoadActors(actors, n).table ==> LoadActors(actors, n).table[k].neighbors == map[]
  {
    if n > 0 {
      LoadActorsNoEdges(actors, n - 1);
    }
  }

  /* ---------------- The attributes each record leaves ---------------- */

  /** The group and the two attributes of a stored vertex. */
  function Attributes(d: VertexData): (string, int, int)
  {
    (d.group, d.value1, d.value2)
  }

  /** Linking the cast changes adjacency only. */
  lemma {:induction false} LinkCastKeepsAttributes(g: GraphData, title: string, cast: seq<string>, k: nat, key: string)
    requires k <= |cast|
    requires forall c :: c in cast && c in g.table ==> title in g.table
    requires key in g.table
    ensures key in LinkCast(g, title, cast, k).table
    ensures Attributes(LinkCast(g, title, cast, k).table[key]) == Attributes(g.table[key])
  {
    if k > 0 {
      LinkCastKeepsAttributes(g, title, cast, k - 1, key);
    }
  }

  /** The last of the first `n` movie records whose key is `key`. */
  ghost function LastMovie(movies: seq<MovieRecord>, n: nat, key: string): Option<MovieRecord>
    requires n <= |movies|
  {
    if n == 0 then None
    else if movies[n - 1].key == key then Some(movies[n - 1])
    else LastMovie(movies, n - 1, key)
  }

  /** The last of the first `n` actor records whose key is `key`. */
  ghost function LastActor(actors: seq<ActorRecord>, n: nat, key: string): Option<ActorRecord>
    requires n <= |actors|
  {
    if n == 0 then None
    else if actors[n - 1].key == key then Some(actors[n - 1])
    else LastActor(actors, n - 1, key)
  }

  /** One movie record stores its key with `value1 = year` and `value2 =
      gross`, and leaves the attributes of every other key as they were. */
  lemma LoadMovieAttributes(p: GraphData, m: MovieRecord, key: string)
    requires forall c :: c in m.actors && c in p.table.Keys + {m.key} ==> m.title in p.table.Keys + {m.key}
    ensures m.key in LoadMovie(p, m).table
    ensures Attributes(LoadMovie(p, m).table[m.key]) == (m.group, m.year, m.gross)
    ensures key in p.table && key != m.key ==>
      key in LoadMovie(p, m).table && Attributes(LoadMovie(p, m).table[key]) == Attributes(p.table[key])
  {
    var q := p.AddVertex(m.group, m.key, m.year, m.gross);
    LinkCastKeepsAttributes(q, m.title, m.actors, |m.actors|, m.key);
    if key in p.table && key != m.key {
      LinkCastKeepsAttributes(q, m.title, m.actors, |m.actors|, key);
    }
  }

  /** After the first `n` movie records, a key holds the year and gross of
      the last of them with that key; a key none of them has keeps what it
      held before. */
  ghost predicate AttributesAfter(before: GraphData, movies: seq<MovieRecord>, n: nat, after: GraphData, key: string)
    requires n <= |movies|
  {
    key in before.table || LastMovie(movies, n, key).Some? ==>
      && key in after.table
      && Attributes(after.table[key]) ==
         match LastMovie(movies, n, key)
         case Some(m) => (m.group, m.year, m.gross)
         case None => Attributes(before.table[key])
  }

  /** Movie record `n` extends `AttributesAfter` from `n` records to
      `next = n + 1`. */
  lemma LoadMovieAttributesAfter(g: GraphData, movies: seq<MovieRecord>, n: nat, next: nat, p: GraphData)
    requires n < |movies| && next == n + 1
    requires var m := movies[n];
      forall c :: c in m.actors && c in p.table.Keys + {m.key} ==> m.title in p.table.Keys + {m.key}
    requires forall key :: AttributesAfter(g, movies, n, p, key)
    ensures forall key :: AttributesAfter(g, movies, next, LoadMovie(p, movies[n]), key)
  {
    forall key ensures AttributesAfter(g, movies, next, LoadMovie(p, movies[n]), key) {
      assert AttributesAfter(g, movies, n, p, key);
      LoadMovieAttributes(p, movies[n], key);
    }
  }

  /** After the first `n` actor records, a key holds the age and total
      gross of the last of them with that key. */
  lemma {:induction false} LoadActorsAttributes(actors: seq<ActorRecord>, n: nat, key: string)
    requires n <= |actors| && LastActor(actors, n, key).Some?
    ensures key in LoadActors(actors, n).table
    ensures var a := LastActor(actors, n, key).value;
      Attributes(LoadActors(actors, n).table[key]) == (a.group, a.age, a.totalGross)
  {
    if actors[n - 1].key != key {
      LoadActorsAttributes(actors, n - 1, key);
    }
  }

  /** What `parse` stores per key: the year and gross of the last movie
      record with that key, or, when no movie record has it, the age and
      total gross of the last actor record with it. */
  lemma ParseAttributes(actors: seq<ActorRecord>, movies: seq<MovieRecord>, key: string)
    requires TitlesResolve(ActorKeys(actors, |actors|), movies)
    requires LastActor(actors, |actors|, key).Some? || LastMovie(movies, |movies|, key).Some?
    ensures var g := LoadMovies(LoadActors(actors, |actors|), movies, |movies|);
      && key in g.table
      && Attributes(g.table[key]) ==
         match LastMovie(movies, |movies|, key)
         case Some(m) => (m.group, m.year, m.gross)
         case None =>
           var a := LastActor(actors, |actors|, key).value;
           (a.group, a.age, a.totalGross)
  {
    if LastActor(actors, |actors|, key).Some? {
      LoadActorsAttributes(actors, |actors|, key);
    }
    var a := LoadActors(actors, |actors|);
    assert AttributesAfter(a, movies, |movies|, LoadMovies(a, movies, |movies|), key);
  }
}
