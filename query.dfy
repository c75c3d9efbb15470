/** Read-only questions about the actor/movie graph (`Query`). Every query
    takes the graph as a `GraphData` value, so none of them can change it. */
module Queries {
  import opened Wrappers
  import opened Vertices
  import opened Graphs
  import opened Sums

  /** One row of a ranking: a vertex key and its score. */
  type Scored = (string, int)

  /** `get_gross`: the movie's `value1`, or None when no vertex has that key.
      The group of the vertex is not checked. */
  function GetGross(g: GraphData, movie: string): (r: Option<int>)
    ensures r.Some? <==> movie in g.table
    ensures r.Some? ==> r.value == g.table[movie].value1
    ensures r.Some? <==> g.GetVertex(movie).Some?
  {
    match g.GetVertex(movie)
    case Some(v) => Some(v.value1)
    case None => None
  }

  /** The neighbour keys of a stored vertex, appended one by one as the
      neighbour table is walked. */
  method NeighborKeys(g: GraphData, key: string) returns (r: seq<string>)
    requires key in g.table
    ensures Distinct(r)
    ensures forall x :: x in r <==> x in g.table[key].neighbors
  {
    r := [];
    var rest := g.table[key].neighbors.Keys;
    while rest != {}
      invariant rest <= g.table[key].neighbors.Keys
      invariant Distinct(r)
      invariant forall x :: x in r <==> x in g.table[key].neighbors && x !in rest
      decreases rest
    {
      var x :| x in rest;
      DistinctAppend(r, x);
      r := r + [x];
      rest := rest - {x};
    }
  }

  /** `get_movies`: None for a None argument, otherwise every neighbour of
      the actor exactly once. A missing actor raises in the source, hence the
      precondition. */
  method GetMovies(g: GraphData, actor: Option<string>) returns (r: Option<seq<string>>)
    requires actor.Some? ==> actor.value in g.table
    ensures r.None? <==> actor.None?
    ensures r.Some? ==> Distinct(r.value)
    ensures r.Some? ==> forall x :: x in r.value <==> x in g.table[actor.value].neighbors
  {
    if actor.None? {
      return None;
    }
    var movies := NeighborKeys(g, actor.value);
    r := Some(movies);
  }

  /** `get_actors`: the lookup happens first but only the argument is tested
      for None, so a title that is not a key raises; otherwise every
      neighbour of the movie exactly once. */
  method GetActors(g: GraphData, movie: Option<string>) returns (r: Option<seq<string>>)
    requires movie.Some? ==> movie.value in g.table
    ensures r.None? <==> movie.None?
    ensures r.Some? ==> Distinct(r.value)
    ensures r.Some? ==> forall x :: x in r.value <==> x in g.table[movie.value].neighbors
  {
    var movieVertex := if movie.Some? then g.GetVertex(movie.value) else None;
    if movie.None? {
      return None;
    }
    var actors := NeighborKeys(g, movie.value);
    r := Some(actors);
  }

  /* ---------------- Rankings ---------------- */

  /** Scores never increase along `s`. */
  ghost predicate Descending(s: seq<Scored>)
  {
    forall i, j :: 0 <= i < j < |s| ==> s[i].1 >= s[j].1
  }

  /** The rows of `s` whose score is `v`, in their order in `s`. */
  function WithScore(s: seq<Scored>, v: int): seq<Scored>
  {
    if s == [] then []
    else (if s[0].1 == v then [s[0]] else []) + WithScore(s[1..], v)
  }

  lemma {:induction false} WithScoreAppend(a: seq<Scored>, b: seq<Scored>, v: int)
    ensures WithScore(a + b, v) == WithScore(a, v) + WithScore(b, v)
  {
    if a != [] {
      assert (a + b)[1..] == a[1..] + b;
      WithScoreAppend(a[1..], b, v);
    } else {
      assert a + b == b;
    }
  }

  /** Puts `x` after every row whose score is at least its own. */
  function Insert(r: seq<Scored>, x: Scored): seq<Scored>
  {
    if r == [] then [x]
    else if r[0].1 >= x.1 then [r[0]] + Insert(r[1..], x)
    else [x] + r
  }

  /** Python's `sorted(..., key=score, reverse=True)`: a stable sort by
      descending score, here as an insertion sort. */
  function SortDescending(s: seq<Scored>): seq<Scored>
  {
    if s == [] then []
    else Insert(SortDescending(s[..|s| - 1]), s[|s| - 1])
  }

  lemma {:induction false} InsertMultiset(r: seq<Scored>, x: Scored)
    ensures multiset(Insert(r, x)) == multiset(r) + multiset{x}
  {
    if r != [] && r[0].1 >= x.1 {
      InsertMultiset(r[1..], x);
      assert r == [r[0]] + r[1..];
    }
  }

  lemma {:induction false} InsertDescending(r: seq<Scored>, x: Scored)
    requires Descending(r)
    ensures Descending(Insert(r, x))
  {
    if r != [] && r[0].1 >= x.1 {
      InsertDescending(r[1..], x);
      var t := Insert(r[1..], x);
      forall j | 0 <= j < |t|
        ensures r[0].1 >= t[j].1
      {
        InsertMultiset(r[1..], x);
        assert t[j] in multiset(r[1..]) + multiset{x};
        assert t[j] in r[1..] || t[j] == x;
      }
    }
  }

  lemma {:induction false} InsertWithScore(r: seq<Scored>, x: Scored, v: int)
    requires Descending(r)
    ensures WithScore(Insert(r, x), v) == WithScore(r, v) + (if x.1 == v then [x] else [])
  {
    if r == [] {
    } else if r[0].1 >= x.1 {
      InsertWithScore(r[1..], x, v);
      assert ([r[0]] + Insert(r[1..], x))[1..] == Insert(r[1..], x);
    } else {
      NoneWithScore(r, x.1);
      assert ([x] + r)[1..] == r;
    }
  }

  /** A descending sequence whose first score is below `v` has no row
      scored `v`. */
  lemma {:induction false} NoneWithScore(r: seq<Scored>, v: int)
    requires Descending(r) && (r != [] ==> r[0].1 < v)
    ensures WithScore(r, v) == []
  {
    if r != [] {
      NoneWithScore(r[1..], v);
    }
  }

  /** The sort orders by descending score, is a permutation, and keeps rows
      of equal score in their original order (it is stable). */
  lemma {:induction false} SortDescendingCorrect(s: seq<Scored>)
    ensures Descending(SortDescending(s))
    ensures multiset(SortDescending(s)) == multiset(s)
    ensures forall v :: WithScore(SortDescending(s), v) == WithScore(s, v)
  {
    if s != [] {
      var init, last := s[..|s| - 1], s[|s| - 1];
      SortDescendingCorrect(init);
      assert s == init + [last];
      forall v ensures WithScore(SortDescending(s), v) == WithScore(s, v) {
        InsertWithScore(SortDescending(init), last, v);
        WithScoreAppend(init, [last], v);
        assert [last][1..] == [];
      }
      InsertDescending(SortDescending(init), last);
      InsertMultiset(SortDescending(init), last);
    }
  }

  /** Python's slice `s[:num]`: the first `num` rows, or all but the last
      `-num` rows for a negative `num`. */
  function Take(s: seq<Scored>, num: int): (r: seq<Scored>)
    ensures r <= s
    ensures num >= 0 ==> |r| == if num < |s| then num else |s|
    ensures num < 0 ==> |r| == if |s| + num > 0 then |s| + num else 0
  {
    if num >= 0 then (if num < |s| then s[..num] else s)
    else (if |s| + num > 0 then s[..|s| + num] else [])
  }

  /** Every row left out of a cut ranking scores no higher than every row
      kept. */
  lemma CutLeavesLower(s: seq<Scored>, num: int)
    ensures forall y, x :: y in s && y !in Take(SortDescending(s), num) && x in Take(SortDescending(s), num)
              ==> x.1 >= y.1
  {
    var r := SortDescending(s);
    var t := Take(r, num);
    SortDescendingCorrect(s);
    forall y, x | y in s && y !in t && x in t
      ensures x.1 >= y.1
    {
      assert y in multiset(r);
      var j :| 0 <= j < |r| && r[j] == y;
      var i :| 0 <= i < |t| && t[i] == x;
      assert j >= |t|;
    }
  }

  /** A cut ranking lists rows of equal score in their order in the table. */
  lemma CutKeepsTieOrder(s: seq<Scored>, num: int, v: int)
    ensures WithScore(Take(SortDescending(s), num), v) <= WithScore(s, v)
  {
    var r := SortDescending(s);
    var t := Take(r, num);
    SortDescendingCorrect(s);
    assert r == t + r[|t|..];
    WithScoreAppend(t, r[|t|..], v);
  }

  /** The sum of an actor's edge weights (0 without neighbours). */
  ghost function Gross(d: VertexData): int
  {
    Total(d.neighbors, d.neighbors.Keys)
  }

  /** An actor's age, as `get_oldest_actors` reads it. */
  function Age(d: VertexData): int
  {
    d.value1
  }

  /** The score table a ranking builds for the keys `ks`, in graph order:
      one row per Actor vertex, scored by `score`. */
  ghost function ActorRows(g: GraphData, ks: seq<string>, score: VertexData -> int): seq<Scored>
    requires forall k :: k in ks ==> k in g.table
  {
    if ks == [] then []
    else
      var k := ks[|ks| - 1];
      ActorRows(g, ks[..|ks| - 1], score)
        + (if g.table[k].group == ActorGroup then [(k, score(g.table[k]))] else [])
  }

  /** The table holds exactly the Actor keys among `ks`, each with its score. */
  lemma {:induction false} ActorRowsMembers(g: GraphData, ks: seq<string>, score: VertexData -> int)
    requires forall k :: k in ks ==> k in g.table
    ensures forall x :: x in ActorRows(g, ks, score) <==>
      x.0 in ks && g.table[x.0].group == ActorGroup && x.1 == score(g.table[x.0])
  {
    if ks != [] {
      var init := ks[..|ks| - 1];
      ActorRowsMembers(g, init, score);
      assert ks == init + [ks[|ks| - 1]];
    }
  }

  /** A key of `ks` is in its init or is its last key. */
  lemma InitMembers(ks: seq<string>)
    requires ks != []
    ensures forall k :: k in ks <==> k in ks[..|ks| - 1] || k == ks[|ks| - 1]
  {
    assert ks == ks[..|ks| - 1] + [ks[|ks| - 1]];
  }

  lemma {:induction false} DistinctInit(s: seq<string>)
    requires Distinct(s) && s != []
    ensures Distinct(s[..|s| - 1]) && s[|s| - 1] !in s[..|s| - 1]
  {
    if |s| > 1 {
      DistinctInit(s[1..]);
      assert s[1..][..|s| - 2] == s[..|s| - 1][1..];
      assert s[0] !in s[..|s| - 1][1..];
    }
  }

  /** The Actor keys among `ks`. */
  ghost function ActorsAmong(g: GraphData, ks: seq<string>): set<string>
  {
    set k | k in ks && k in g.table && g.table[k].group == ActorGroup
  }

  /** The last key adds itself when it is an Actor. */
  lemma ActorsAmongInit(g: GraphData, ks: seq<string>)
    requires ks != [] && ks[|ks| - 1] in g.table
    ensures ActorsAmong(g, ks) == ActorsAmong(g, ks[..|ks| - 1])
      + (if g.table[ks[|ks| - 1]].group == ActorGroup then {ks[|ks| - 1]} else {})
  {
    var init, last := ks[..|ks| - 1], ks[|ks| - 1];
    var added: set<string> := if g.table[last].group == ActorGroup then {last} else {};
    InitMembers(ks);
    assert ActorsAmong(g, ks) == ActorsAmong(g, init) + added;
  }

  /** With distinct keys the table has one row per Actor key. */
  lemma {:induction false} ActorRowsCount(g: GraphData, ks: seq<string>, score: VertexData -> int)
    requires forall k :: k in ks ==> k in g.table
    requires Distinct(ks)
    ensures |ActorRows(g, ks, score)| == |ActorsAmong(g, ks)|
  {
    if ks != [] {
      var init, last := ks[..|ks| - 1], ks[|ks| - 1];
      DistinctInit(ks);
      ActorRowsCount(g, init, score);
      ActorsAmongInit(g, ks);
      assert last !in ActorsAmong(g, init);
    }
  }

  /** `get_top_actors(num)`: the ranking of actors by summed edge weight,
      cut after `num` rows. The actor table is keyed by vertex key; keys are
      distinct, so it holds one row per Actor vertex in graph order. */
  method GetTopActors(g: GraphData, num: int := 10) returns (top: seq<Scored>)
    requires g.Valid()
    ensures top == Take(SortDescending(ActorRows(g, g.keys, Gross)), num)
  {
    var actorGross: seq<Scored> := [];
    for i := 0 to |g.keys|
      invariant actorGross == ActorRows(g, g.keys[..i], Gross)
    {
      var vertex := g.table[g.keys[i]];
      assert g.keys[..i + 1][..i] == g.keys[..i];
      if vertex.group == ActorGroup {
        var totalGross := SumValues(vertex.neighbors);
        actorGross := actorGross + [(vertex.key, totalGross)];
      }
    }
    assert g.keys[..|g.keys|] == g.keys;
    top := Take(SortDescending(actorGross), num);
  }

  /** `get_oldest_actors(num)`: the ranking of actors by `value1`, cut after
      `num` rows. */
  method GetOldestActors(g: GraphData, num: int := 10) returns (oldest: seq<Scored>)
    requires g.Valid()
    ensures oldest == Take(SortDescending(ActorRows(g, g.keys, Age)), num)
  {
    var actorAges: seq<Scored> := [];
    for i := 0 to |g.keys|
      invariant actorAges == ActorRows(g, g.keys[..i], Age)
    {
      var vertex := g.table[g.keys[i]];
      assert g.keys[..i + 1][..i] == g.keys[..i];
      if vertex.group == ActorGroup {
        actorAges := actorAges + [(vertex.key, vertex.value1)];
      }
    }
    assert g.keys[..|g.keys|] == g.keys;
    oldest := Take(SortDescending(actorAges), num);
  }

  /** What a ranking returns: Actor vertices only, each with its score, at
      most `num` of them and exactly `min(num, #actors)` for `num >= 0`;
      highest scores first, and no actor left out outscores one kept. */
  lemma RankingOfActors(g: GraphData, num: int, score: VertexData -> int)
    requires g.Valid()
    ensures var t := Take(SortDescending(ActorRows(g, g.keys, score)), num);
      && Descending(t)
      && (forall x :: x in t ==> x.0 in g.table && g.table[x.0].group == ActorGroup && x.1 == score(g.table[x.0]))
      && (num >= 0 ==> |t| == if num < |g.GroupKeys(ActorGroup)| then num else |g.GroupKeys(ActorGroup)|)
      && (forall k, x :: k in g.table && g.table[k].group == ActorGroup && (k, score(g.table[k])) !in t && x in t
            ==> x.1 >= score(g.table[k]))
  {
    var rows := ActorRows(g, g.keys, score);
    var t := Take(SortDescending(rows), num);
    SortDescendingCorrect(rows);
    CutLeavesLower(rows, num);
    ActorRowsMembers(g, g.keys, score);
    ActorRowsCount(g, g.keys, score);
    assert ActorsAmong(g, g.keys) == g.GroupKeys(ActorGroup);
    forall x | x in t ensures x in rows {
      assert x in multiset(SortDescending(rows));
    }
  }

  /* ---------------- Year filters ---------------- */

  /** The keys among `ks` of Movie vertices whose `value2` is `year`, in
      the order of `ks`. */
  function MoviesOfYear(g: GraphData, ks: seq<string>, year: int): seq<string>
    requires forall k :: k in ks ==> k in g.table
  {
    if ks == [] then []
    else
      var k := ks[|ks| - 1];
      MoviesOfYear(g, ks[..|ks| - 1], year)
        + (if g.table[k].group == MovieGroup && g.table[k].value2 == year then [k] else [])
  }

  /** Exactly the movies of that year, each once. */
  lemma {:induction false} MoviesOfYearMembers(g: GraphData, ks: seq<string>, year: int)
    requires forall k :: k in ks ==> k in g.table
    requires Distinct(ks)
    ensures Distinct(MoviesOfYear(g, ks, year))
    ensures forall k :: k in MoviesOfYear(g, ks, year) <==>
      k in ks && g.table[k].group == MovieGroup && g.table[k].value2 == year
  {
    if ks != [] {
      var init, last := ks[..|ks| - 1], ks[|ks| - 1];
      DistinctInit(ks);
      MoviesOfYearMembers(g, init, year);
      InitMembers(ks);
      if g.table[last].group == MovieGroup && g.table[last].value2 == year {
        assert last !in MoviesOfYear(g, init, year);
        DistinctAppend(MoviesOfYear(g, init, year), last);
      } else {
        assert MoviesOfYear(g, init, year) + [] == MoviesOfYear(g, init, year);
      }
    }
  }

  /** `get_movies_year(year)`: the Movie vertices whose `value2` is `year`,
      in graph order. */
  method GetMoviesYear(g: GraphData, year: int) returns (movies: seq<string>)
    requires g.Valid()
    ensures movies == MoviesOfYear(g, g.keys, year)
  {
    movies := [];
    for i := 0 to |g.keys|
      invariant movies == MoviesOfYear(g, g.keys[..i], year)
    {
      var vertex := g.table[g.keys[i]];
      assert g.keys[..i + 1][..i] == g.keys[..i];
      if vertex.group == MovieGroup && vertex.value2 == year {
        movies := movies + [vertex.key];
      }
    }
    assert g.keys[..|g.keys|] == g.keys;
  }

  /** Appends each key of `more` that is not yet listed, keeping what was
      listed in front: the inner loop of `get_actors_year`, with `seen` the
      dictionary used to test membership. */
  method AppendUnseen(listed: seq<string>, seen: set<string>, more: set<string>)
    returns (listed': seq<string>, seen': set<string>)
    requires Distinct(listed) && seen == set a | a in listed
    ensures Distinct(listed') && seen' == set a | a in listed'
    ensures listed <= listed'
    ensures forall a :: a in listed' <==> a in listed || a in more
  {
    listed', seen' := listed, seen;
    var rest := more;
    while rest != {}
      invariant rest <= more
      invariant Distinct(listed') && seen' == set a | a in listed'
      invariant listed <= listed'
      invariant forall a :: a in listed' <==> a in listed || (a in more && a !in rest)
      decreases rest
    {
      var a :| a in rest;
      if a !in seen' {
        DistinctAppend(listed', a);
        listed' := listed' + [a];
        seen' := seen' + {a};
      }
      rest := rest - {a};
    }
  }

  /** `get_actors_year(year)`: every neighbour of a Movie vertex of that
      year, each exactly once, in the order first met. */
  method GetActorsYear(g: GraphData, year: int) returns (actors: seq<string>)
    requires g.Valid()
    ensures Distinct(actors)
    ensures forall a :: a in actors <==>
      exists m :: m in g.table && g.table[m].group == MovieGroup && g.table[m].value2 == year
                  && a in g.table[m].neighbors
  {
    var movies := GetMoviesYear(g, year);
    MoviesOfYearMembers(g, g.keys, year);
    actors := [];
    var seen: set<string> := {};
    for i := 0 to |movies|
      invariant seen == set a | a in actors
      invariant Distinct(actors)
      invariant forall a :: a in actors <==>
        exists m :: m in movies[..i] && a in g.table[m].neighbors
    {
      actors, seen := AppendUnseen(actors, seen, g.table[movies[i]].neighbors.Keys);
      assert movies[..i + 1] == movies[..i] + [movies[i]];
    }
    assert movies[..|movies|] == movies;
  }
}
