/** A vertex of the actor/movie graph: a mutable object holding a group tag,
    a key, two integer attributes and a weighted neighbour table. */
module Vertices {

  /** The two group tags the crawler and the queries use. */
  const ActorGroup: string := "Actor"
  const MovieGroup: string := "Movie"

  /** The value a vertex object holds at one moment. */
  datatype VertexData = VertexData(
    group: string,
    key: string,
    value1: int,
    value2: int,
    neighbors: map<string, int>)
  {
    /** The table after `neighbors[n] = w`. */
    function WithNeighbor(n: string, w: int): (d: VertexData)
      ensures d.neighbors.Keys == neighbors.Keys + {n}
      ensures d.neighbors[n] == w
      ensures forall m :: m in neighbors && m != n ==> d.neighbors[m] == neighbors[m]
      ensures d.group == group && d.key == key && d.value1 == value1 && d.value2 == value2
    {
      this.(neighbors := neighbors[n := w])
    }
  }

  class Vertex {
    var group: string
    var key: string
    var value1: int
    var value2: int
    var neighbors: map<string, int>

    /** The fields as one value. */
    function Data(): VertexData
      reads this
    {
      VertexData(group, key, value1, value2, neighbors)
    }

    constructor (group: string, key: string, value1: int, value2: int)
      ensures Data() == VertexData(group, key, value1, value2, map[])
    {
      this.group := group;
      this.key := key;
      this.value1 := value1;
      this.value2 := value2;
      this.neighbors := map[];
    }

    /** Records `weight` for `neighbor`, overwriting an earlier weight. */
    method AddNeighbor(neighbor: string, weight: int)
      modifies this
      ensures Data() == old(Data()).WithNeighbor(neighbor, weight)
      ensures neighbor in neighbors && GetWeight(neighbor) == weight
    {
      neighbors := neighbors[neighbor := weight];
    }

    function GetNeighbors(): map<string, int>
      reads this
    {
      neighbors
    }

    function GetKey(): string
      reads this
    {
      key
    }

    method SetKey(key: string)
      modifies this
      ensures Data() == old(Data()).(key := key)
    {
      this.key := key;
    }

    function GetValue1(): int
      reads this
    {
      value1
    }

    method SetValue1(value1: int)
      modifies this
      ensures Data() == old(Data()).(value1 := value1)
    {
      this.value1 := value1;
    }

    function GetValue2(): int
      reads this
    {
      value2
    }

    method SetValue2(value2: int)
      modifies this
      ensures Data() == old(Data()).(value2 := value2)
    {
      this.value2 := value2;
    }

    function GetGroup(): string
      reads this
    {
      group
    }

    /** The weight stored for `neighbor`; a missing neighbour is a KeyError
        in the source, hence the precondition. */
    function GetWeight(neighbor: string): int
      reads this
      requires neighbor in neighbors
    {
      neighbors[neighbor]
    }
  }

  /** Reading back a weight after writing it yields the last write, and every
      other neighbour keeps its weight. */
  lemma LastWriteWins(d: VertexData, n: string, w1: int, w2: int, m: string)
    requires m in d.neighbors && m != n
    ensures d.WithNeighbor(n, w1).WithNeighbor(n, w2) == d.WithNeighbor(n, w2)
    ensures d.WithNeighbor(n, w1).WithNeighbor(n, w2).neighbors[m] == d.neighbors[m]
  {
    assert d.WithNeighbor(n, w1).WithNeighbor(n, w2).neighbors == d.WithNeighbor(n, w2).neighbors;
  }
}
