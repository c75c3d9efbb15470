/** `Analyze.get_gross_age`: the total `value2` of the actors of every movie,
    grouped by the actors' `value1` (their age). */
module Analysis {
  import opened Vertices
  import opened Graphs
  import opened Sums

  /** Every neighbour of a Movie vertex is a stored vertex; the source looks
      each one up and reads its fields, which fails on a missing key. */
  ghost predicate CastStored(g: GraphData)
  {
    forall m, x :: m in g.table && g.table[m].group == MovieGroup && x in g.table[m].neighbors
      ==> x in g.table
  }

  /** The neighbour keys of the stored vertex `m`. */
  function Cast(g: GraphData, m: string): set<string>
    requires m in g.table
  {
    g.table[m].neighbors.Keys
  }

  /** What each actor of `cast` adds to the entry for `age`: its `value2`
      when its `value1` is `age`, nothing otherwise. */
  ghost function AgeShares(g: GraphData, cast: set<string>, age: int): (w: map<string, int>)
    requires cast <= g.table.Keys
    ensures w.Keys == cast
  {
    map x | x in cast :: if g.table[x].value1 == age then g.table[x].value2 else 0
  }

  /** What the movie `m` adds to the entry for `age`. */
  ghost function MovieShare(g: GraphData, m: string, age: int): int
    requires CastStored(g) && m in g.table && g.table[m].group == MovieGroup
  {
    Total(AgeShares(g, Cast(g, m), age), Cast(g, m))
  }

  /** The ages of the actors of the Movie vertices among `ks`. */
  ghost function AgesIn(g: GraphData, ks: seq<string>): set<int>
    requires CastStored(g) && forall k :: k in ks ==> k in g.table
  {
    if ks == [] then {}
    else
      var m := ks[|ks| - 1];
      AgesIn(g, ks[..|ks| - 1])
        + (if g.table[m].group == MovieGroup then set x | x in Cast(g, m) :: g.table[x].value1 else {})
  }

  /** The amount recorded for `age` after the Movie vertices among `ks`. */
  ghost function GrossAt(g: GraphData, ks: seq<string>, age: int): int
    requires CastStored(g) && forall k :: k in ks ==> k in g.table
  {
    if ks == [] then 0
    else
      var m := ks[|ks| - 1];
      GrossAt(g, ks[..|ks| - 1], age) + (if g.table[m].group == MovieGroup then MovieShare(g, m, age) else 0)
  }

  /** `r` is `base` after adding the actors in `done`: the ages of those
      actors are added to the keys, and each age holds its old amount plus
      their `value2`s. */
  ghost predicate Recorded(g: GraphData, cast: set<string>, base: map<int, int>, done: set<string>, r: map<int, int>)
    requires done <= cast <= g.table.Keys
  {
    && r.Keys == base.Keys + (set x | x in done :: g.table[x].value1)
    && forall a :: a in r ==>
         r[a] == (if a in base then base[a] else 0) + Total(AgeShares(g, cast, a), done)
  }

  /** Adding one more actor's `value2` under its age keeps `Recorded`. */
  lemma RecordOne(g: GraphData, cast: set<string>, base: map<int, int>, done: set<string>, r: map<int, int>, actor: string)
    requires done <= cast <= g.table.Keys && actor in cast && actor !in done
    requires Recorded(g, cast, base, done, r)
    ensures var age := g.table[actor].value1;
      Recorded(g, cast, base, done + {actor},
               r[age := (if age in r then r[age] else 0) + g.table[actor].value2])
  {
    var age := g.table[actor].value1;
    var r' := r[age := (if age in r then r[age] else 0) + g.table[actor].value2];
    AgesOfAdd(g, done, actor);
    assert r'.Keys == r.Keys + {age};
    RecordAmounts(g, cast, base, done, r, actor);
  }

  lemma RecordAmounts(g: GraphData, cast: set<string>, base: map<int, int>, done: set<string>, r: map<int, int>, actor: string)
    requires done <= cast <= g.table.Keys && actor in cast && actor !in done
    requires Recorded(g, cast, base, done, r)
    ensures var age := g.table[actor].value1;
      var r' := r[age := (if age in r then r[age] else 0) + g.table[actor].value2];
      forall a :: a in r' ==>
        r'[a] == (if a in base then base[a] else 0) + Total(AgeShares(g, cast, a), done + {actor})
  {
    var age := g.table[actor].value1;
    var r' := r[age := (if age in r then r[age] else 0) + g.table[actor].value2];
    if age !in r {
      NoShareYet(g, cast, done, age);
    }
    forall a | a in r'
      ensures r'[a] == (if a in base then base[a] else 0) + Total(AgeShares(g, cast, a), done + {actor})
    {
      ShareStep(g, cast, done, actor, a);
    }
  }

  /** Adds the actors of one movie to `ageGross`: the inner loop of
      `get_gross_age`. A new age starts at the actor's `value2`, a known one
      grows by it. */
  method AddCast(g: GraphData, m: string, ageGross: map<int, int>) returns (r: map<int, int>)
    requires CastStored(g) && m in g.table && g.table[m].group == MovieGroup
    ensures r.Keys == ageGross.Keys + set x | x in Cast(g, m) :: g.table[x].value1
    ensures forall a :: a in r ==>
      r[a] == (if a in ageGross then ageGross[a] else 0) + MovieShare(g, m, a)
  {
    var cast := Cast(g, m);
    r := ageGross;
    var rest := cast;
    ghost var done: set<string> := {};
    while rest != {}
      invariant rest !! done && rest + done == cast
      invariant Recorded(g, cast, ageGross, done, r)
      decreases rest
    {
      var actor :| actor in rest;
      var info := g.table[actor];
      var age := info.value1;
      var gross := info.value2;
      RecordOne(g, cast, ageGross, done, r, actor);
      if age !in r {
        r := r[age := gross];
      } else {
        r := r[age := r[age] + gross];
      }
      rest := rest - {actor};
      done := done + {actor};
    }
    assert done == cast;
  }

  /** The ages of `done` and one more actor. */
  lemma AgesOfAdd(g: GraphData, done: set<string>, actor: string)
    requires done <= g.table.Keys && actor in g.table
    ensures (set x | x in done + {actor} :: g.table[x].value1)
            == (set x | x in done :: g.table[x].value1) + {g.table[actor].value1}
  {
  }

  /** One more actor adds its `value2` to its own age and nothing to others. */
  lemma ShareStep(g: GraphData, cast: set<string>, done: set<string>, actor: string, age: int)
    requires cast <= g.table.Keys && done <= cast && actor in cast && actor !in done
    ensures Total(AgeShares(g, cast, age), done + {actor})
            == Total(AgeShares(g, cast, age), done)
               + (if age == g.table[actor].value1 then g.table[actor].value2 else 0)
  {
    TotalPick(AgeShares(g, cast, age), done + {actor}, actor);
    assert done + {actor} - {actor} == done;
  }

  /** An age no actor among `done` has has collected nothing from them. */
  lemma NoShareYet(g: GraphData, cast: set<string>, done: set<string>, age: int)
    requires cast <= g.table.Keys && done <= cast
    requires age !in set x | x in done :: g.table[x].value1
    ensures Total(AgeShares(g, cast, age), done) == 0
  {
    forall x | x in done ensures AgeShares(g, cast, age)[x] == 0 {
      assert g.table[x].value1 in set y | y in done :: g.table[y].value1;
    }
    TotalZero(AgeShares(g, cast, age), done);
  }

  /** A total of zeros is zero. */
  lemma {:induction false} TotalZero(w: map<string, int>, ks: set<string>)
    requires ks <= w.Keys && forall k :: k in ks ==> w[k] == 0
    ensures Total(w, ks) == 0
    decreases ks
  {
    if ks != {} {
      var k :| k in ks;
      TotalPick(w, ks, k);
      TotalZero(w, ks - {k});
    }
  }

  /** `get_gross_age(num)`: for every age of an actor of some movie, the sum
      over the movies of the `value2` of their actors of that age; `num` is
      handed back unchanged. */
  method GetGrossAge(g: GraphData, num: int := 10) returns (ageGross: map<int, int>, n: int)
    requires g.Valid() && CastStored(g)
    ensures ageGross.Keys == AgesIn(g, g.keys)
    ensures forall a :: a in ageGross ==> ageGross[a] == GrossAt(g, g.keys, a)
    ensures n == num
  {
    ageGross := map[];
    for i := 0 to |g.keys|
      invariant ageGross.Keys == AgesIn(g, g.keys[..i])
      invariant forall a :: a in ageGross ==> ageGross[a] == GrossAt(g, g.keys[..i], a)
    {
      var key := g.keys[i];
      assert g.keys[..i + 1][..i] == g.keys[..i];
      if g.table[key].group == MovieGroup {
        ghost var before := ageGross;
        ageGross := AddCast(g, key, ageGross);
        forall a | a in ageGross && a !in before
          ensures GrossAt(g, g.keys[..i], a) == 0
        {
          NoAgeNoGross(g, g.keys[..i], a);
        }
      }
    }
    assert g.keys[..|g.keys|] == g.keys;
    n := num;
  }

  /** An age that no actor of the movies among `ks` has collects nothing. */
  lemma {:induction false} NoAgeNoGross(g: GraphData, ks: seq<string>, age: int)
    requires CastStored(g) && forall k :: k in ks ==> k in g.table
    requires age !in AgesIn(g, ks)
    ensures GrossAt(g, ks, age) == 0
  {
    if ks != [] {
      var m := ks[|ks| - 1];
      NoAgeNoGross(g, ks[..|ks| - 1], age);
      if g.table[m].group == MovieGroup {
        NoShareYet(g, Cast(g, m), Cast(g, m), age);
      }
    }
  }

  /** Distributivity on its own, out of the nonlinear context of the
      counting proof. */
  lemma Distribute(c: int, d: int, v: int)
    ensures (c + d) * v == c * v + d * v
  {
  }

  /** How many Movie vertices among `ks` have `x` as a neighbour. */
  function MoviesWith(g: GraphData, ks: seq<string>, x: string): nat
    requires forall k :: k in ks ==> k in g.table
  {
    if ks == [] then 0
    else
      var m := ks[|ks| - 1];
      MoviesWith(g, ks[..|ks| - 1], x)
        + (if g.table[m].group == MovieGroup && x in g.table[m].neighbors then 1 else 0)
  }

  /** A movie adds to an actor's age exactly that actor's `value2` when the
      actor is the only vertex of that age and is in the cast, and nothing
      when it is not. */
  lemma MovieShareOfOnly(g: GraphData, m: string, x: string)
    requires CastStored(g) && m in g.table && g.table[m].group == MovieGroup && x in g.table
    requires forall y :: y in g.table && g.table[y].value1 == g.table[x].value1 ==> y == x
    ensures MovieShare(g, m, g.table[x].value1)
            == if x in Cast(g, m) then g.table[x].value2 else 0
  {
    var cast := Cast(g, m);
    var w := AgeShares(g, cast, g.table[x].value1);
    if x in cast {
      TotalPick(w, cast, x);
      TotalZero(w, cast - {x});
    } else {
      TotalZero(w, cast);
    }
  }

  /** An actor that is the only vertex of its age and is a neighbour of k
      movies has `k` times its `value2` recorded for that age. */
  lemma {:induction false} CountedPerMovie(g: GraphData, ks: seq<string>, x: string)
    requires CastStored(g) && (forall k :: k in ks ==> k in g.table) && x in g.table
    requires forall y :: y in g.table && g.table[y].value1 == g.table[x].value1 ==> y == x
    ensures GrossAt(g, ks, g.table[x].value1) == MoviesWith(g, ks, x) * g.table[x].value2
  {
    if ks != [] {
      var m, init := ks[|ks| - 1], ks[..|ks| - 1];
      var age, v := g.table[x].value1, g.table[x].value2;
      var c := MoviesWith(g, init, x);
      var d := if g.table[m].group == MovieGroup && x in g.table[m].neighbors then 1 else 0;
      var share := if g.table[m].group == MovieGroup then MovieShare(g, m, age) else 0;
      CountedPerMovie(g, init, x);
      if g.table[m].group == MovieGroup {
        MovieShareOfOnly(g, m, x);
      }
      assert share == d * v;
      assert GrossAt(g, ks, age) == GrossAt(g, init, age) + share;
      assert MoviesWith(g, ks, x) == c + d;
      Distribute(c, d, v);
    }
  }
}
