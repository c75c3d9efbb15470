/** The graph store: an insertion-ordered table from key to vertex object.
    `GraphData` is the value such a table holds at one moment; the class
    `Graph` is the mutable store, and every method of it is specified by the
    function on `GraphData` it performs. */
module Graphs {
  import opened Wrappers
  import opened Vertices

  /** No key occurs twice. */
  predicate Distinct(s: seq<string>)
  {
    s == [] || (s[0] !in s[1..] && Distinct(s[1..]))
  }

  /** Appending a key not yet present keeps the keys distinct. */
  lemma {:induction false} DistinctAppend(s: seq<string>, k: string)
    requires Distinct(s) && k !in s
    ensures Distinct(s + [k])
  {
    if s != [] {
      assert (s + [k])[1..] == s[1..] + [k];
      DistinctAppend(s[1..], k);
    }
  }

  /** Distinct keys differ at every pair of positions. */
  lemma {:induction false} DistinctIndex(s: seq<string>, i: int, j: int)
    requires Distinct(s) && 0 <= i < j < |s|
    ensures s[i] != s[j]
  {
    if i > 0 {
      DistinctIndex(s[1..], i - 1, j - 1);
    } else {
      assert s[j] in s[1..];
    }
  }

  /** `s` without `k`, the other keys in their old order (deleting from a
      Python dict keeps the order of the remaining keys). */
  function RemoveKey(s: seq<string>, k: string): (r: seq<string>)
    ensures forall x :: x in r <==> x in s && x != k
    ensures Distinct(s) ==> Distinct(r)
  {
    if s == [] then []
    else if s[0] == k then RemoveKey(s[1..], k)
    else
      var rest := RemoveKey(s[1..], k);
      assert ([s[0]] + rest)[1..] == rest;
      [s[0]] + rest
  }

  /** Removing a key keeps the other keys in their old order: without `k`
      nothing changes, and a distinct `s` loses exactly its one `k`. */
  lemma {:induction false} RemoveKeyOrder(s: seq<string>, k: string)
    ensures k !in s ==> RemoveKey(s, k) == s
    ensures Distinct(s) && k in s ==>
      exists i :: 0 <= i < |s| && s[i] == k && RemoveKey(s, k) == s[..i] + s[i + 1..]
  {
    if s != [] {
      RemoveKeyOrder(s[1..], k);
      if s[0] == k {
        if Distinct(s) {
          assert RemoveKey(s, k) == s[..0] + s[1..];
        }
      } else {
        var rest := RemoveKey(s[1..], k);
        assert RemoveKey(s, k) == [s[0]] + rest;
        if k !in s {
          assert [s[0]] + s[1..] == s;
        } else if Distinct(s) {
          var j :| 0 <= j < |s[1..]| && s[1..][j] == k && rest == s[1..][..j] + s[1..][j + 1..];
          assert s[j + 1] == k;
          ConsWithout(s, j);
        }
      }
    }
  }

  /** Putting back the head of `s` in front of its tail without position
      `j` gives `s` without position `j + 1`. */
  lemma ConsWithout(s: seq<string>, j: nat)
    requires j + 1 < |s|
    ensures [s[0]] + (s[1..][..j] + s[1..][j + 1..]) == s[..j + 1] + s[j + 2..]
  {
    assert s[1..][..j] == s[1..j + 1] && s[1..][j + 1..] == s[j + 2..];
    assert [s[0]] + s[1..j + 1] == s[..j + 1];
  }

  /** A sequence without repetitions has as many elements as its set. */
  lemma {:induction false} DistinctCard(s: seq<string>)
    requires Distinct(s)
    ensures |set x | x in s| == |s|
  {
    if s != [] {
      DistinctCard(s[1..]);
      assert (set x | x in s) == {s[0]} + (set x | x in s[1..]);
      assert s[0] !in (set x | x in s[1..]);
    }
  }

  datatype GraphData = GraphData(keys: seq<string>, table: map<string, VertexData>)
  {
    /** The order lists every stored key exactly once, and each vertex is
        stored under its own key. */
    ghost predicate Valid()
    {
      && Distinct(keys)
      && (forall k :: k in table <==> k in keys)
      && (forall k :: k in table ==> table[k].key == k)
    }

    /** `add_vertex`: a fresh vertex with no neighbours replaces whatever was
        stored under `key`; a new key goes to the end of the order, an old
        one keeps its place. */
    function AddVertex(group: string, key: string, value1: int, value2: int): GraphData
    {
      GraphData(if key in table then keys else keys + [key],
                table[key := VertexData(group, key, value1, value2, map[])])
    }

    /** `delete_vertex`: removes the key only; neighbour tables are untouched. */
    function DeleteVertex(key: string): GraphData
      requires key in table
    {
      GraphData(RemoveKey(keys, key), table - {key})
    }

    /** `get_vertex`: the stored vertex or None. */
    function GetVertex(key: string): Option<VertexData>
    {
      if key in table then Some(table[key]) else None
    }

    /** `add_edge`: writes the weight on the first endpoint, then on the second. */
    function AddEdge(key1: string, key2: string, weight: int): GraphData
      requires key1 in table && key2 in table
    {
      var t := table[key1 := table[key1].WithNeighbor(key2, weight)];
      GraphData(keys, t[key2 := t[key2].WithNeighbor(key1, weight)])
    }

    /** Iteration over the graph: the vertices in insertion order. */
    function Vertices(): seq<VertexData>
      requires Valid()
    {
      seq(|keys|, i requires 0 <= i < |keys| => table[keys[i]])
    }

    /** Every adjacency entry names a stored vertex that holds the same weight
        back. */
    ghost predicate Mirrored()
    {
      forall a, b :: MirroredAt(a, b)
    }

    /** An entry for `b` in the table of `a` is matched by one for `a` in the
        table of `b` with the same weight. */
    ghost predicate MirroredAt(a: string, b: string)
    {
      a in table && b in table[a].neighbors ==>
        b in table && a in table[b].neighbors && table[b].neighbors[a] == table[a].neighbors[b]
    }

    /** `a` and `b` are stored and each holds weight `w` for the other. */
    ghost predicate EdgeAt(a: string, b: string, w: int)
    {
      && a in table && b in table
      && b in table[a].neighbors && table[a].neighbors[b] == w
      && a in table[b].neighbors && table[b].neighbors[a] == w
    }

    /** The keys of the vertices of one group. */
    ghost function GroupKeys(group: string): set<string>
    {
      set k | k in table && table[k].group == group
    }
  }

  /** After `add_vertex`, `get_vertex(key)` is the new vertex with empty
      neighbours; a new key is appended to the order and grows the table by
      one, a present key keeps its position and the count. */
  lemma AddVertexThenGet(g: GraphData, group: string, key: string, value1: int, value2: int)
    requires g.Valid()
    ensures g.AddVertex(group, key, value1, value2).Valid()
    ensures g.AddVertex(group, key, value1, value2).GetVertex(key)
            == Some(VertexData(group, key, value1, value2, map[]))
    ensures forall k :: k != key ==> g.AddVertex(group, key, value1, value2).GetVertex(k) == g.GetVertex(k)
    ensures key in g.table ==> g.AddVertex(group, key, value1, value2).keys == g.keys
    ensures key !in g.table ==> g.AddVertex(group, key, value1, value2).keys == g.keys + [key]
    ensures |g.AddVertex(group, key, value1, value2).table| == |g.table| + (if key in g.table then 0 else 1)
  {
    if key !in g.table {
      DistinctAppend(g.keys, key);
    }
  }

  /** Re-adding a key that has a neighbour `n` in a mirrored graph leaves `n`
      pointing at a vertex that no longer points back. */
  lemma ReAddDropsNeighbors(g: GraphData, group: string, key: string, value1: int, value2: int, n: string)
    requires g.Valid() && g.Mirrored()
    requires key in g.table && n in g.table[key].neighbors && n != key
    ensures g.AddVertex(group, key, value1, value2).table[key].neighbors == map[]
    ensures n in g.AddVertex(group, key, value1, value2).table
    ensures key in g.AddVertex(group, key, value1, value2).table[n].neighbors
    ensures !g.AddVertex(group, key, value1, value2).Mirrored()
  {
    var h := g.AddVertex(group, key, value1, value2);
    assert g.MirroredAt(key, n);
    assert n in h.table && key in h.table[n].neighbors;
    assert n !in h.table[key].neighbors;
    assert !h.MirroredAt(n, key);
  }

  /** `add_edge` stores the weight on both endpoints (last write wins), keeps
      the key set and order, and leaves every other entry alone. */
  lemma AddEdgeSymmetric(g: GraphData, key1: string, key2: string, weight: int)
    requires key1 in g.table && key2 in g.table
    ensures g.AddEdge(key1, key2, weight).table[key1].neighbors[key2] == weight
    ensures g.AddEdge(key1, key2, weight).table[key2].neighbors[key1] == weight
    ensures g.AddEdge(key1, key2, weight).keys == g.keys
    ensures g.AddEdge(key1, key2, weight).table.Keys == g.table.Keys
    ensures forall k :: k in g.table ==>
      var d := g.AddEdge(key1, key2, weight).table[k];
      && d.group == g.table[k].group && d.key == g.table[k].key
      && d.value1 == g.table[k].value1 && d.value2 == g.table[k].value2
    ensures forall k, m ::
      (k in g.table && m in g.table[k].neighbors && !(k == key1 && m == key2) && !(k == key2 && m == key1)) ==>
      (m in g.AddEdge(key1, key2, weight).table[k].neighbors &&
       g.AddEdge(key1, key2, weight).table[k].neighbors[m] == g.table[k].neighbors[m])
  {
  }

  /** An edge between another pair of endpoints, or one that `add_edge`
      writes again with the same weight, survives `add_edge`. */
  lemma AddEdgeKeepsEdge(g: GraphData, key1: string, key2: string, weight: int, a: string, b: string, w: int)
    requires key1 in g.table && key2 in g.table && g.EdgeAt(a, b, w)
    requires weight == w || {a, b} != {key1, key2}
    ensures g.AddEdge(key1, key2, weight).EdgeAt(a, b, w)
  {
    AddEdgeSymmetric(g, key1, key2, weight);
  }

  /** With fresh keys only, `add_vertex` and `add_edge` keep every adjacency
      entry mirrored with equal weight. */
  lemma {:induction false} AddEdgeKeepsMirrored(g: GraphData, key1: string, key2: string, weight: int)
    requires g.Mirrored() && key1 in g.table && key2 in g.table
    ensures g.AddEdge(key1, key2, weight).Mirrored()
  {
    var h := g.AddEdge(key1, key2, weight);
    forall a, b | a in h.table && b in h.table[a].neighbors
      ensures h.MirroredAt(a, b)
    {
      if (a == key1 && b == key2) || (a == key2 && b == key1) {
      } else {
        assert b in g.table[a].neighbors && g.MirroredAt(a, b);
      }
    }
    forall a, b ensures h.MirroredAt(a, b) {
    }
  }

  lemma AddFreshVertexKeepsMirrored(g: GraphData, group: string, key: string, value1: int, value2: int)
    requires g.Mirrored() && key !in g.table
    ensures g.AddVertex(group, key, value1, value2).Mirrored()
  {
    var h := g.AddVertex(group, key, value1, value2);
    forall a, b | a in h.table && b in h.table[a].neighbors
      ensures h.MirroredAt(a, b)
    {
      assert a != key && b in g.table[a].neighbors && g.MirroredAt(a, b);
    }
    forall a, b ensures h.MirroredAt(a, b) {
    }
  }

  /** `delete_vertex` removes the key and nothing else: a former neighbour
      still lists the deleted key, so the adjacency is no longer closed. */
  lemma DeleteLeavesDangling(g: GraphData, key: string, n: string)
    requires g.Valid() && g.Mirrored()
    requires key in g.table && n in g.table[key].neighbors && n != key
    ensures g.DeleteVertex(key).Valid()
    ensures g.DeleteVertex(key).table.Keys == g.table.Keys - {key}
    ensures forall k :: k in g.DeleteVertex(key).table ==> g.DeleteVertex(key).table[k] == g.table[k]
    ensures n in g.DeleteVertex(key).table && key in g.DeleteVertex(key).table[n].neighbors
    ensures !g.DeleteVertex(key).Mirrored()
  {
    var h := g.DeleteVertex(key);
    assert g.MirroredAt(key, n);
    assert n in h.table && key in h.table[n].neighbors && key !in h.table;
    assert !h.MirroredAt(n, key);
  }

  /** Iteration yields each stored vertex exactly once, in insertion order. */
  lemma IterationOnce(g: GraphData)
    requires g.Valid()
    ensures |g.Vertices()| == |g.keys| == |g.table|
    ensures forall i :: 0 <= i < |g.keys| ==> g.Vertices()[i] == g.table[g.keys[i]]
    ensures forall i, j :: 0 <= i < j < |g.keys| ==> g.Vertices()[i].key != g.Vertices()[j].key
    ensures forall k :: k in g.table ==> exists i :: 0 <= i < |g.keys| && g.Vertices()[i].key == k
  {
    DistinctCard(g.keys);
    assert g.table.Keys == set x | x in g.keys;
    forall i, j | 0 <= i < j < |g.keys|
      ensures g.Vertices()[i].key != g.Vertices()[j].key
    {
      DistinctIndex(g.keys, i, j);
    }
    forall k | k in g.table
      ensures exists i :: 0 <= i < |g.keys| && g.Vertices()[i].key == k
    {
      var i :| 0 <= i < |g.keys| && g.keys[i] == k;
      assert g.Vertices()[i].key == k;
    }
  }

  /** Adding a vertex under a fresh key grows its group by exactly that key
      and leaves every other group alone. */
  lemma AddFreshVertexGroups(g: GraphData, group: string, key: string, value1: int, value2: int, other: string)
    requires key !in g.table
    ensures g.AddVertex(group, key, value1, value2).GroupKeys(other)
            == g.GroupKeys(other) + (if other == group then {key} else {})
    ensures |g.AddVertex(group, key, value1, value2).GroupKeys(other)|
            == |g.GroupKeys(other)| + (if other == group then 1 else 0)
  {
    var h := g.AddVertex(group, key, value1, value2);
    assert h.GroupKeys(other) == g.GroupKeys(other) + (if other == group then {key} else {});
  }

  /** `add_edge` changes no vertex's group. */
  lemma AddEdgeKeepsGroups(g: GraphData, key1: string, key2: string, weight: int, group: string)
    requires key1 in g.table && key2 in g.table
    ensures g.AddEdge(key1, key2, weight).GroupKeys(group) == g.GroupKeys(group)
  {
    var h := g.AddEdge(key1, key2, weight);
    forall k | k in h.table
      ensures k in h.GroupKeys(group) <==> k in g.GroupKeys(group)
    {
      assert h.table[k].group == g.table[k].group;
    }
  }

  /** The mutable store. `keys` is the insertion order of the source's
      `vertices` dictionary and `table` the state of the vertex object stored
      under each key. Every method is specified by the `GraphData` function
      it performs on `Model()`. */
  class Graph {
    var keys: seq<string>
    var table: map<string, VertexData>

    function Model(): GraphData
      reads this
    {
      GraphData(keys, table)
    }

    ghost predicate Valid()
      reads this
    {
      Model().Valid()
    }

    constructor ()
      ensures Valid() && Model() == GraphData([], map[])
    {
      keys := [];
      table := map[];
    }

    /** Stores a new vertex with no neighbours under `key` and returns it. */
    method AddVertex(group: string, key: string, value1: int, value2: int := -1) returns (v: VertexData)
      requires Valid()
      modifies this
      ensures Valid()
      ensures Model() == old(Model()).AddVertex(group, key, value1, value2)
      ensures v == VertexData(group, key, value1, value2, map[]) && Model().GetVertex(key) == Some(v)
    {
      AddVertexThenGet(Model(), group, key, value1, value2);
      v := VertexData(group, key, value1, value2, map[]);
      if key !in table {
        keys := keys + [key];
      }
      table := table[key := v];
    }

    method DeleteVertex(key: string)
      requires Valid() && key in table
      modifies this
      ensures Valid()
      ensures Model() == old(Model()).DeleteVertex(key)
    {
      keys := RemoveKey(keys, key);
      table := table - {key};
    }

    function GetVertex(key: string): (r: Option<VertexData>)
      reads this
      ensures r.Some? <==> key in table
      ensures Valid() && r.Some? ==> r.value.key == key && r.value == table[key]
    {
      Model().GetVertex(key)
    }

    /** `add_neighbor` on the first endpoint, then on the second. */
    method AddEdge(key1: string, key2: string, weight: int)
      requires Valid() && key1 in table && key2 in table
      modifies this
      ensures Valid()
      ensures Model() == old(Model()).AddEdge(key1, key2, weight)
    {
      AddEdgeSymmetric(Model(), key1, key2, weight);
      table := table[key1 := table[key1].WithNeighbor(key2, weight)];
      table := table[key2 := table[key2].WithNeighbor(key1, weight)];
    }

    function GetVertices(): (r: seq<string>)
      reads this
      ensures Valid() ==> Distinct(r) && (forall k :: k in r <==> k in table)
    {
      keys
    }
  }
}
