/** The request logic of the web API over a loaded graph: the filter
    predicate, the filtered actor and movie listings, the attribute updates
    and the create handlers. Routing, request parsing and JSON encoding are
    not modelled: a handler receives the parsed query lists or JSON body and
    returns a `Response`. */
module Api {
  import opened Wrappers
  import opened Vertices
  import opened Graphs

  /** What a handler sends back: a status and a body, or an `abort` with its
      error code. */
  datatype Response<T> = Respond(status: int, body: T) | Abort(code: int)

  /** A JSON value of a request body. Only integers and strings are
      modelled. */
  datatype Value = Int(i: int) | Str(s: string)

  /** A JSON object body, by field name. */
  type Json = map<string, Value>

  /** Python's truth value of `request.json`: absent (`None`) and the empty
      object are false. */
  predicate Truthy(json: Option<Json>)
  {
    json.Some? && json.value != map[]
  }

  /* ---------------- Substrings ---------------- */

  /** Python's `f in s` on strings, scanning the start positions of `s` in
      turn. */
  predicate IsSubstring(f: string, s: string)
    decreases |s|
  {
    f <= s || (|s| > 0 && IsSubstring(f, s[1..]))
  }

  /** `f` is the slice of `s` that starts at `i`. */
  ghost predicate OccursAt(f: string, s: string, i: int)
  {
    0 <= i && i + |f| <= |s| && s[i..i + |f|] == f
  }

  lemma OccursAtTail(f: string, s: string, i: int)
    requires |s| > 0 && 0 <= i
    ensures OccursAt(f, s[1..], i) <==> OccursAt(f, s, i + 1)
  {
    if i + |f| <= |s| - 1 {
      assert s[1..][i..i + |f|] == s[i + 1..i + 1 + |f|];
    }
  }

  /** The scan finds `f` exactly when it occurs at some position of `s`. */
  lemma {:induction false} SubstringOccurs(f: string, s: string)
    ensures IsSubstring(f, s) <==> exists i :: OccursAt(f, s, i)
    decreases |s|
  {
    if f <= s {
      assert OccursAt(f, s, 0);
    } else {
      assert !OccursAt(f, s, 0);
      if |s| > 0 {
        SubstringOccurs(f, s[1..]);
        if IsSubstring(f, s[1..]) {
          var i :| OccursAt(f, s[1..], i);
          OccursAtTail(f, s, i);
        }
        if j :| OccursAt(f, s, j) {
          OccursAtTail(f, s, j - 1);
        }
      }
    }
  }

  /* ---------------- does_match_filters ---------------- */

  /** Some filter name occurs in `name`, or `value1` is listed in
      `filterValue1`, or `value2` in `filterValue2`. */
  ghost predicate MatchesFilters(
    name: string, value1: int, value2: int,
    filterNames: seq<string>, filterValue1: seq<int>, filterValue2: seq<int>)
  {
    || (exists f :: f in filterNames && IsSubstring(f, name))
    || value1 in filterValue1
    || value2 in filterValue2
  }

  /** `does_match_filters`: the name loop stops at the first filter that
      occurs in `name`. A match on `value2` sets the `value1` flag, so the
      `value2` flag is never set; the answer is the disjunction all the
      same. With every filter list empty nothing matches. */
  method DoesMatchFilters(
    name: string, value1: int, value2: int,
    filterNames: seq<string>, filterValue1: seq<int>, filterValue2: seq<int>)
    returns (r: bool)
    ensures r <==> MatchesFilters(name, value1, value2, filterNames, filterValue1, filterValue2)
    ensures filterNames == [] && filterValue1 == [] && filterValue2 == [] ==> !r
  {
    var matchName, matchValue1, matchValue2 := false, false, false;
    var i := 0;
    while i < |filterNames|
      invariant 0 <= i <= |filterNames|
      invariant forall j :: 0 <= j < i ==> !IsSubstring(filterNames[j], name)
    {
      if IsSubstring(filterNames[i], name) {
        matchName := true;
        break;
      }
      i := i + 1;
    }
    if value1 in filterValue1 {
      matchValue1 := true;
    }
    if value2 in filterValue2 {
      matchValue1 := true;
    }
    r := matchName || matchValue1 || matchValue2;
  }

  /* ---------------- Filtered listings ---------------- */

  /** A row of the `/actors` listing. */
  datatype ActorRow = ActorRow(name: string, age: int, gross: int)

  /** A row of the `/movies` listing: `gross` is read from `value1` and
      `year` from `value2`. */
  datatype MovieRow = MovieRow(name: string, gross: int, year: int)

  /** The vertex under `k` is of `group` and its key and attributes pass
      the filters. */
  ghost predicate Listed(
    g: GraphData, k: string, group: string,
    filterNames: seq<string>, filterValue1: seq<int>, filterValue2: seq<int>)
  {
    && k in g.table
    && g.table[k].group == group
    && MatchesFilters(g.table[k].key, g.table[k].value1, g.table[k].value2, filterNames, filterValue1, filterValue2)
  }

  /** The keys among `ks` whose vertex is listed. */
  ghost function ListedAmong(
    g: GraphData, ks: seq<string>, group: string,
    filterNames: seq<string>, filterValue1: seq<int>, filterValue2: seq<int>): set<string>
  {
    set k | k in ks && Listed(g, k, group, filterNames, filterValue1, filterValue2)
  }

  /** One more key of the iteration. */
  lemma ListedAmongNext(
    g: GraphData, ks: seq<string>, i: nat, group: string,
    filterNames: seq<string>, filterValue1: seq<int>, filterValue2: seq<int>)
    requires i < |ks|
    ensures ListedAmong(g, ks[..i + 1], group, filterNames, filterValue1, filterValue2)
         == ListedAmong(g, ks[..i], group, filterNames, filterValue1, filterValue2)
            + (if Listed(g, ks[i], group, filterNames, filterValue1, filterValue2) then {ks[i]} else {})
  {
    assert ks[..i + 1] == ks[..i] + [ks[i]];
  }

  /** `/actors`: every Actor vertex passing the filters, keyed by its key,
      with `age = value1` and `gross = value2`; an empty listing aborts
      with 400. */
  method GetFilteredActors(g: GraphData, filterNames: seq<string>, filterAges: seq<int>, filterGross: seq<int>)
    returns (r: Response<map<string, ActorRow>>)
    requires g.Valid()
    ensures r.Abort? <==> forall k :: k in g.table ==> !Listed(g, k, ActorGroup, filterNames, filterAges, filterGross)
    ensures r.Abort? ==> r.code == 400
    ensures r.Respond? ==>
      && r.status == 200
      && r.body.Keys == set k | k in g.table && Listed(g, k, ActorGroup, filterNames, filterAges, filterGross)
      && forall k :: k in r.body ==> k in g.table && r.body[k] == ActorRow(k, g.table[k].value1, g.table[k].value2)
  {
    var actors: map<string, ActorRow> := map[];
    for i := 0 to |g.keys|
      invariant actors.Keys == ListedAmong(g, g.keys[..i], ActorGroup, filterNames, filterAges, filterGross)
      invariant forall k :: k in actors ==> k in g.table && actors[k] == ActorRow(k, g.table[k].value1, g.table[k].value2)
    {
      ListedAmongNext(g, g.keys, i, ActorGroup, filterNames, filterAges, filterGross);
      var vertex := g.table[g.keys[i]];
      var matches := DoesMatchFilters(vertex.key, vertex.value1, vertex.value2, filterNames, filterAges, filterGross);
      if vertex.group == ActorGroup && matches {
        actors := actors[vertex.key := ActorRow(vertex.key, vertex.value1, vertex.value2)];
      }
    }
    assert g.keys[..|g.keys|] == g.keys;
    ListedAll(g, ActorGroup, filterNames, filterAges, filterGross);
    if actors == map[] {
      assert actors.Keys == {};
      r := Abort(400);
    } else {
      r := Respond(200, actors);
    }
  }

  /** `/movies`: as `/actors` for Movie vertices; `filterYears` is matched
      against `value1` and `filterGross` against `value2`, in the order the
      source passes them. */
  method GetFilteredMovies(g: GraphData, filterNames: seq<string>, filterGross: seq<int>, filterYears: seq<int>)
    returns (r: Response<map<string, MovieRow>>)
    requires g.Valid()
    ensures r.Abort? <==> forall k :: k in g.table ==> !Listed(g, k, MovieGroup, filterNames, filterYears, filterGross)
    ensures r.Abort? ==> r.code == 400
    ensures r.Respond? ==>
      && r.status == 200
      && r.body.Keys == set k | k in g.table && Listed(g, k, MovieGroup, filterNames, filterYears, filterGross)
      && forall k :: k in r.body ==> k in g.table && r.body[k] == MovieRow(k, g.table[k].value1, g.table[k].value2)
  {
    var movies: map<string, MovieRow> := map[];
    for i := 0 to |g.keys|
      invariant movies.Keys == ListedAmong(g, g.keys[..i], MovieGroup, filterNames, filterYears, filterGross)
      invariant forall k :: k in movies ==> k in g.table && movies[k] == MovieRow(k, g.table[k].value1, g.table[k].value2)
    {
      ListedAmongNext(g, g.keys, i, MovieGroup, filterNames, filterYears, filterGross);
      var vertex := g.table[g.keys[i]];
      var matches := DoesMatchFilters(vertex.key, vertex.value1, vertex.value2, filterNames, filterYears, filterGross);
      if vertex.group == MovieGroup && matches {
        movies := movies[vertex.key := MovieRow(vertex.key, vertex.value1, vertex.value2)];
      }
    }
    assert g.keys[..|g.keys|] == g.keys;
    ListedAll(g, MovieGroup, filterNames, filterYears, filterGross);
    if movies == map[] {
      assert movies.Keys == {};
      r := Abort(400);
    } else {
      r := Respond(200, movies);
    }
  }

  /** Iterating over all keys visits every stored vertex. */
  lemma ListedAll(g: GraphData, group: string, filterNames: seq<string>, filterValue1: seq<int>, filterValue2: seq<int>)
    requires g.Valid()
    ensures ListedAmong(g, g.keys, group, filterNames, filterValue1, filterValue2)
         == set k | k in g.table && Listed(g, k, group, filterNames, filterValue1, filterValue2)
  {
  }

  /* ---------------- Updates ---------------- */

  /** The integer the body gives for `field`, or `default` when it has
      none: Python's `json.get(field, default)`. */
  function FieldOr(json: Json, field: string, default: int): int
    requires field in json ==> json[field].Int?
  {
    if field in json then json[field].i else default
  }

  /** The body gives an integer for each of `fields` it has. */
  predicate IntFields(json: Option<Json>, fields: set<string>)
  {
    json.Some? ==> forall f :: f in fields && f in json.value ==> json.value[f].Int?
  }

  /** The graph after `set_value1` and `set_value2` on the vertex under
      `key`: its attributes change and nothing else does. */
  function WithAttributes(g: GraphData, key: string, value1: int, value2: int): (r: GraphData)
    requires key in g.table
    ensures r.keys == g.keys && r.table.Keys == g.table.Keys
    ensures r.GetVertex(key) == Some(VertexData(g.table[key].group, g.table[key].key, value1, value2, g.table[key].neighbors))
    ensures forall k :: k in g.table && k != key ==> r.table[k] == g.table[k]
  {
    GraphData(g.keys, g.table[key := g.table[key].(value1 := value1, value2 := value2)])
  }

  /** An update keeps the order, the groups and every adjacency entry, so
      it keeps a well-formed graph well-formed and mirrored edges
      mirrored. */
  lemma WithAttributesKeeps(g: GraphData, key: string, value1: int, value2: int, group: string)
    requires key in g.table
    ensures g.Valid() ==> WithAttributes(g, key, value1, value2).Valid()
    ensures g.Mirrored() ==> WithAttributes(g, key, value1, value2).Mirrored()
    ensures WithAttributes(g, key, value1, value2).GroupKeys(group) == g.GroupKeys(group)
  {
    var r := WithAttributes(g, key, value1, value2);
    if g.Mirrored() {
      forall a, b ensures r.MirroredAt(a, b) {
        assert g.MirroredAt(a, b);
      }
    }
  }

  /** The body of `update_actor` and `update_movie`: 404 for a name that is
      not a vertex key, then 400 for a false JSON body; otherwise `value1`
      takes the body's `field1`, `value2` its `gross`, each defaulting to
      the value held, and the two are returned. The group is not checked. */
  method UpdateAttributes(graph: Graph, name: string, json: Option<Json>, field1: string)
    returns (r: Response<(int, int)>)
    requires graph.Valid()
    requires IntFields(json, {field1, "gross"})
    modifies graph
    ensures graph.Valid()
    ensures name !in old(graph.table) ==> r == Abort(404) && graph.Model() == old(graph.Model())
    ensures name in old(graph.table) && !Truthy(json) ==> r == Abort(400) && graph.Model() == old(graph.Model())
    ensures name in old(graph.table) && Truthy(json) ==>
      var d := old(graph.table[name]);
      var value1 := FieldOr(json.value, field1, d.value1);
      var value2 := FieldOr(json.value, "gross", d.value2);
      && r == Respond(200, (value1, value2))
      && graph.Model() == WithAttributes(old(graph.Model()), name, value1, value2)
  {
    if name !in graph.GetVertices() {
      return Abort(404);
    }
    if !Truthy(json) {
      return Abort(400);
    }
    ghost var before := graph.Model();
    var meta := graph.table[name];
    var value1 := FieldOr(json.value, field1, meta.value1);
    graph.table := graph.table[name := meta.(value1 := value1)];
    var value2 := FieldOr(json.value, "gross", graph.table[name].value2);
    graph.table := graph.table[name := graph.table[name].(value2 := value2)];
    assert graph.Model() == WithAttributes(before, name, value1, value2);
    WithAttributesKeeps(before, name, value1, value2, ActorGroup);
    r := Respond(200, (value1, value2));
  }

  /** `update_actor`: `age` goes to `value1`, `gross` to `value2`. */
  method UpdateActor(graph: Graph, actorName: string, json: Option<Json>) returns (r: Response<ActorRow>)
    requires graph.Valid()
    requires IntFields(json, {"age", "gross"})
    modifies graph
    ensures graph.Valid()
    ensures actorName !in old(graph.table) ==> r == Abort(404) && graph.Model() == old(graph.Model())
    ensures actorName in old(graph.table) && !Truthy(json) ==> r == Abort(400) && graph.Model() == old(graph.Model())
    ensures actorName in old(graph.table) && Truthy(json) ==>
      var d := old(graph.table[actorName]);
      var age := FieldOr(json.value, "age", d.value1);
      var gross := FieldOr(json.value, "gross", d.value2);
      && r == Respond(200, ActorRow(actorName, age, gross))
      && graph.Model() == WithAttributes(old(graph.Model()), actorName, age, gross)
  {
    var u := UpdateAttributes(graph, actorName, json, "age");
    match u
    case Respond(status, body) => r := Respond(status, ActorRow(actorName, body.0, body.1));
    case Abort(code) => r := Abort(code);
  }

  /** `update_movie`: `year` goes to `value1`, `gross` to `value2`. */
  method UpdateMovie(graph: Graph, movieName: string, json: Option<Json>) returns (r: Response<MovieRow>)
    requires graph.Valid()
    requires IntFields(json, {"year", "gross"})
    modifies graph
    ensures graph.Valid()
    ensures movieName !in old(graph.table) ==> r == Abort(404) && graph.Model() == old(graph.Model())
    ensures movieName in old(graph.table) && !Truthy(json) ==> r == Abort(400) && graph.Model() == old(graph.Model())
    ensures movieName in old(graph.table) && Truthy(json) ==>
      var d := old(graph.table[movieName]);
      var year := FieldOr(json.value, "year", d.value1);
      var gross := FieldOr(json.value, "gross", d.value2);
      && r == Respond(200, MovieRow(movieName, gross, year))
      && graph.Model() == WithAttributes(old(graph.Model()), movieName, year, gross)
  {
    var u := UpdateAttributes(graph, movieName, json, "year");
    match u
    case Respond(status, body) => r := Respond(status, MovieRow(movieName, body.1, body.0));
    case Abort(code) => r := Abort(code);
  }

  /* ---------------- Creation ---------------- */

  /** The record a create handler echoes back. */
  datatype Created = Created(name: Value, value1: Value, gross: Value)

  /** The body's value for `field`, or `default` when it has none. */
  function ValueOr(json: Json, field: string, default: Value): Value
  {
    if field in json then json[field] else default
  }

  /** The create handlers: a false body or one without `name` is a 400;
      otherwise the record with `field1` defaulting to -1 and `gross` to 0
      comes back with status 201. No graph is involved: nothing is stored. */
  function Create(json: Option<Json>, field1: string): (r: Response<Created>)
    ensures r.Abort? <==> !Truthy(json) || "name" !in json.value
    ensures r.Abort? ==> r.code == 400
    ensures r.Respond? ==> r.status == 201 && r.body.name == json.value["name"]
    ensures r.Respond? && field1 !in json.value ==> r.body.value1 == Int(-1)
    ensures r.Respond? && "gross" !in json.value ==> r.body.gross == Int(0)
    ensures r.Respond? && field1 in json.value ==> r.body.value1 == json.value[field1]
    ensures r.Respond? && "gross" in json.value ==> r.body.gross == json.value["gross"]
  {
    if !Truthy(json) || "name" !in json.value then Abort(400)
    else Respond(201, Created(json.value["name"], ValueOr(json.value, field1, Int(-1)), ValueOr(json.value, "gross", Int(0))))
  }

  /** `create_actor`: `age` is the first attribute. */
  function CreateActor(json: Option<Json>): Response<Created>
  {
    Create(json, "age")
  }

  /** `create_movie`: `year` is the first attribute. */
  function CreateMovie(json: Option<Json>): Response<Created>
  {
    Create(json, "year")
  }
}
