/**
 * LineWorld, GridWorld and CubeWorld: an environment that owns one static
 * cell agent per lattice point and places external agents on the lattice by
 * attaching a PositionComponent to them. The three Python classes differ
 * mainly in the number of axes, so they are one class `World` over a `Shape`;
 * the rest of their differences live in `CellLookup` and `LookupIndex`.
 */
module Environments {
  import opened Wrappers
  import opened Text
  import opened Lattice

  /** The identity of the simulation Model an agent or environment belongs to. */
  type ModelRef = string

  /** A component attached to a cell by a caller's generator; its content is opaque here. */
  datatype Component = Component(kind: string, state: int)

  /**
   * An agent as the environment sees it: its id, its model, its
   * PositionComponent if it has one, and any other components it carries.
   */
  datatype Agent = Agent(id: string, model: ModelRef, position: Option<Position>, extras: seq<Component>)

  datatype EnvError =
    | InvalidExtent   // the constructor's "negative width or height"
    | OutOfBounds     // addAgent's "position not on the map"
    | IndexError      // getCell reading past the end of the cell list

  /** The id the constructor gives the cell it appends at index `i`. */
  function CellName(i: nat): string {
    "CELL_" + NatToString(i)
  }

  /** A cell's id is `CELL_` followed by a numeral that parses back to the cell's index. */
  lemma CellNameParses(i: nat)
    ensures var name := CellName(i);
      StartsWith(name, "CELL_") && ParseNat(name[5..]) == Some(i)
  {
    var name := CellName(i);
    assert name[..5] == "CELL_" && name[5..] == NatToString(i);
    ParsePrinted(i);
  }

  /** No two cells share an id. */
  lemma CellNamesDistinct(i: nat, j: nat)
    requires i != j
    ensures CellName(i) != CellName(j)
  {
    CellNameParses(i);
    CellNameParses(j);
  }

  /** The cell the constructor appends at index `i`. */
  function NewCell(s: Shape, m: ModelRef, i: nat): (a: Agent)
    requires ValidShape(s)
    ensures a.id == CellName(i) && a.model == m && a.extras == [] && a.position.Some?
    ensures i < CellCount(s) ==> Placed(s, a) && Address(s, a.position.value) == i
  {
    var a := Agent(CellName(i), m, Some(PositionOf(s, i)), []);
    assert i < CellCount(s) ==> Address(s, a.position.value) == i by {
      if i < CellCount(s) {
        PositionRoundTrip(s, i);
      }
    }
    a
  }

  /** Cell `i` keeps the id and position it was created with and belongs to model `m`. */
  predicate CellValid(s: Shape, m: ModelRef, cell: Agent, i: nat)
    requires ValidShape(s)
  {
    cell.id == CellName(i) && cell.position == Some(PositionOf(s, i)) && cell.model == m
  }

  /** The cell list of a world: one cell per lattice point, in construction order. */
  predicate CellsValid(s: Shape, m: ModelRef, cells: seq<Agent>) {
    && ValidShape(s)
    && |cells| == CellCount(s)
    && forall i :: 0 <= i < |cells| ==> CellValid(s, m, cells[i], i)
  }

  /** The agent carries a PositionComponent that lies on the map. */
  predicate Placed(s: Shape, a: Agent) {
    a.position.Some? && InRange(s, a.position.value)
  }

  /** The comparison of `getAgentsAt`: the agent's first `|c|` axes equal `c`. */
  predicate AtCoord(a: Agent, c: seq<int>)
    requires |c| <= 3
  {
    a.position.Some? && Axes(a.position.value, |c|) == c
  }

  /**
   * The agent registry: a dictionary from id to agent whose iteration order
   * is `order`; every registered agent is stored under its own id and is placed.
   */
  predicate RegistryValid(s: Shape, order: seq<string>, agents: map<string, Agent>) {
    && Distinct(order)
    && (forall k :: k in agents ==> k in order)
    && (forall k :: k in order ==> k in agents)
    && (forall k :: k in agents ==> agents[k].id == k && Placed(s, agents[k]))
  }

  /** Registration `agents[a.id] = a`: a new key goes last, a known key keeps its place. */
  function Register(order: seq<string>, agents: map<string, Agent>, a: Agent): (r: (seq<string>, map<string, Agent>))
    requires forall k :: k in agents ==> k in order
    ensures |order| <= |r.0| <= |order| + 1 && r.0[..|order|] == order
    ensures forall k :: k in r.0 <==> k in order || k == a.id
    ensures r.1 == agents[a.id := a]
  {
    assert (order + [a.id])[..|order|] == order;
    (if a.id in agents then order else order + [a.id], agents[a.id := a])
  }

  /** `order` without `k`, the other ids keeping their relative order. */
  function Without(order: seq<string>, k: string): (r: seq<string>)
    ensures forall j :: j in r <==> j in order && j != k
    ensures |r| <= |order|
    ensures Subsequence(r, order)
  {
    if order == [] then []
    else
      var rest := Without(order[1..], k);
      if order[0] == k then
        assert rest != [] ==> rest[0] in rest && rest[0] != order[0];
        rest
      else
        assert ([order[0]] + rest)[1..] == rest;
        [order[0]] + rest
  }

  /** Deregistration by id; an unknown id leaves the registry as it is. */
  function Deregister(order: seq<string>, agents: map<string, Agent>, k: string): (r: (seq<string>, map<string, Agent>))
    ensures k !in r.0 && k !in r.1
    ensures forall j :: j != k ==> (j in r.0 <==> j in order) && (j in r.1 <==> j in agents)
    ensures forall j :: j in r.1 ==> r.1[j] == agents[j]
    ensures Subsequence(r.0, order)
  {
    (Without(order, k), agents - {k})
  }

  /** The registered agents in the registry's iteration order. */
  function Registered(order: seq<string>, agents: map<string, Agent>): (r: seq<Agent>)
    requires forall k :: k in order ==> k in agents
    ensures |r| == |order| && forall i :: 0 <= i < |order| ==> r[i] == agents[order[i]]
  {
    if order == [] then [] else [agents[order[0]]] + Registered(order[1..], agents)
  }

  /** `r` is `s` with some elements left out and the others kept in their order. */
  predicate Subsequence<T(==)>(r: seq<T>, s: seq<T>)
    decreases |s|
  {
    if r == [] then true
    else if s == [] then false
    else if r[0] == s[0] then Subsequence(r[1..], s[1..])
    else Subsequence(r, s[1..])
  }

  /**
   * `getAgentsAt`: the registered agents, in iteration order, whose
   * position matches `c`. No bounds check is made.
   */
  function Occupants(order: seq<string>, agents: map<string, Agent>, c: seq<int>): (r: seq<Agent>)
    requires |c| <= 3
    requires forall k :: k in order ==> k in agents
    ensures |r| <= |order|
    ensures Subsequence(r, Registered(order, agents))
    ensures forall a :: a in r ==> AtCoord(a, c) && exists i :: 0 <= i < |order| && agents[order[i]] == a
    ensures forall i :: 0 <= i < |order| && AtCoord(agents[order[i]], c) ==> agents[order[i]] in r
  {
    if order == [] then []
    else
      var a := agents[order[0]];
      var rest := Occupants(order[1..], agents, c);
      assert forall i :: 1 <= i < |order| ==> order[i] == order[1..][i - 1];
      var s := Registered(order, agents);
      assert s[0] == a && s[1..] == Registered(order[1..], agents);
      if AtCoord(a, c) then
        assert ([a] + rest)[1..] == rest;
        [a] + rest
      else
        assert rest != [] ==> rest[0] in rest && AtCoord(rest[0], c) && rest[0] != s[0];
        rest
  }

  /** No agent occurs twice in a query result, since no id occurs twice in the iteration order. */
  lemma {:induction false} OccupantsDistinct(order: seq<string>, agents: map<string, Agent>, c: seq<int>)
    requires |c| <= 3 && Distinct(order)
    requires forall k :: k in order ==> k in agents && agents[k].id == k
    ensures Distinct(Occupants(order, agents, c))
  {
    if order != [] {
      var tail := order[1..];
      assert order == [order[0]] + tail;
      DistinctCons(order[0], tail);
      OccupantsDistinct(tail, agents, c);
      var a, rest := agents[order[0]], Occupants(tail, agents, c);
      if AtCoord(a, c) {
        OccupantIds(tail, agents, c);
        DistinctCons(a, rest);
      }
    }
  }

  /** Every agent a query returns is registered under an id of the iteration order. */
  lemma OccupantIds(order: seq<string>, agents: map<string, Agent>, c: seq<int>)
    requires |c| <= 3
    requires forall k :: k in order ==> k in agents && agents[k].id == k
    ensures forall b :: b in Occupants(order, agents, c) ==> b.id in order
  {
    forall b | b in Occupants(order, agents, c) ensures b.id in order {
      var i :| 0 <= i < |order| && agents[order[i]] == b;
    }
  }

  /** `getAgentsAt(c)` holds exactly the registered agents positioned at `c`. */
  lemma OccupantsExactly(s: Shape, order: seq<string>, agents: map<string, Agent>, c: seq<int>, a: Agent)
    requires RegistryValid(s, order, agents) && |c| <= 3
    ensures a in Occupants(order, agents, c) <==> a.id in agents && agents[a.id] == a && AtCoord(a, c)
  {
    if a.id in agents && agents[a.id] == a && AtCoord(a, c) {
      var i :| 0 <= i < |order| && order[i] == a.id;
    }
  }

  /** An off-map coordinate has no occupants, since every registered agent is placed. */
  lemma OccupantsOffMap(s: Shape, order: seq<string>, agents: map<string, Agent>, c: seq<int>)
    requires RegistryValid(s, order, agents) && |c| == Dims(s)
    ensures !OnMap(s, c) ==> Occupants(order, agents, c) == []
  {
    var r := Occupants(order, agents, c);
    if !OnMap(s, c) && r != [] {
      var a := r[0];
      assert a in r;
      var i :| 0 <= i < |order| && agents[order[i]] == a;
      assert Placed(s, a);
      InRangeOnMap(s, a.position.value);
      assert false;
    }
  }

  /** Registering a placed agent keeps the registry invariant. */
  lemma RegisterValid(s: Shape, order: seq<string>, agents: map<string, Agent>, a: Agent)
    requires RegistryValid(s, order, agents) && Placed(s, a)
    ensures RegistryValid(s, Register(order, agents, a).0, Register(order, agents, a).1)
  {
    var (o, g) := Register(order, agents, a);
    if a.id !in agents {
      forall i, j | 0 <= i < j < |o| ensures o[i] != o[j] {
        if j == |order| {
          assert o[i] == order[i] && order[i] in agents;
        } else {
          assert o[i] == order[i] && o[j] == order[j];
        }
      }
    }
  }

  /** Deregistering keeps the registry invariant. */
  lemma {:induction false} DeregisterValid(s: Shape, order: seq<string>, agents: map<string, Agent>, k: string)
    requires RegistryValid(s, order, agents)
    ensures RegistryValid(s, Deregister(order, agents, k).0, Deregister(order, agents, k).1)
  {
    WithoutDistinct(order, k);
  }

  /** No element occurs twice. */
  predicate Distinct<T(==)>(xs: seq<T>) {
    forall i, j :: 0 <= i < j < |xs| ==> xs[i] != xs[j]
  }

  lemma DistinctCons<T>(x: T, tail: seq<T>)
    ensures Distinct([x] + tail) <==> x !in tail && Distinct(tail)
  {
    var s := [x] + tail;
    if x !in tail && Distinct(tail) {
      forall i, j | 0 <= i < j < |s| ensures s[i] != s[j] {
        assert s[j] == tail[j - 1];
        if i > 0 { assert s[i] == tail[i - 1]; }
      }
    }
    if Distinct(s) {
      forall i, j | 0 <= i < j < |tail| ensures tail[i] != tail[j] {
        assert tail[i] == s[i + 1] && tail[j] == s[j + 1];
      }
      forall j | 0 <= j < |tail| ensures tail[j] != x {
        assert s[0] == x && s[j + 1] == tail[j];
      }
    }
  }

  lemma {:induction false} WithoutDistinct(order: seq<string>, k: string)
    requires Distinct(order)
    ensures Distinct(Without(order, k))
  {
    if order != [] {
      var tail := order[1..];
      assert order == [order[0]] + tail;
      DistinctCons(order[0], tail);
      WithoutDistinct(tail, k);
      if order[0] != k {
        DistinctCons(order[0], Without(tail, k));
      } else {
        assert Without(order, k) == Without(tail, k);
      }
    }
  }

  /**
   * Add-then-query: once `placed` is registered, the query at its coordinate
   * returns it and the query at any other coordinate does not, while every
   * other agent's occupancy is what it was.
   */
  lemma AddThenQuery(s: Shape, order: seq<string>, agents: map<string, Agent>, placed: Agent, c: seq<int>, c': seq<int>)
    requires RegistryValid(s, order, agents) && |c| == |c'| == Dims(s) && OnMap(s, c)
    requires placed.position == Some(ToPosition(c))
    ensures var (o, g) := Register(order, agents, placed);
      && placed in Occupants(o, g, c)
      && (c' != c ==> placed !in Occupants(o, g, c'))
      && forall b: Agent :: b.id != placed.id ==> (b in Occupants(o, g, c') <==> b in Occupants(order, agents, c'))
  {
    RegisterValid(s, order, agents, placed);
    var r := Register(order, agents, placed);
    QueryAfterUpdate(s, order, agents, r.0, r.1, placed, c, c');
  }

  /** The occupancy facts behind `AddThenQuery`, stated over the updated registry. */
  lemma QueryAfterUpdate(s: Shape, order: seq<string>, agents: map<string, Agent>, o: seq<string>, g: map<string, Agent>,
                         placed: Agent, c: seq<int>, c': seq<int>)
    requires RegistryValid(s, order, agents) && RegistryValid(s, o, g) && g == agents[placed.id := placed]
    requires |c| == |c'| == Dims(s) && placed.position == Some(ToPosition(c))
    ensures placed in Occupants(o, g, c)
    ensures c' != c ==> placed !in Occupants(o, g, c')
    ensures forall b: Agent :: b.id != placed.id ==> (b in Occupants(o, g, c') <==> b in Occupants(order, agents, c'))
  {
    OccupantsExactly(s, o, g, c, placed);
    OccupantsExactly(s, o, g, c', placed);
    forall b: Agent | b.id != placed.id
      ensures b in Occupants(o, g, c') <==> b in Occupants(order, agents, c')
    {
      OccupantsExactly(s, o, g, c', b);
      OccupantsExactly(s, order, agents, c', b);
    }
  }

  /**
   * Remove-then-query: after deregistering `k` no query returns an agent
   * with that id, and every other agent's occupancy is what it was.
   */
  lemma RemoveThenQuery(s: Shape, order: seq<string>, agents: map<string, Agent>, k: string, c: seq<int>)
    requires RegistryValid(s, order, agents) && |c| <= 3
    ensures var (o, g) := Deregister(order, agents, k);
      && (forall b :: b in Occupants(o, g, c) ==> b.id != k)
      && forall b: Agent :: b.id != k ==> (b in Occupants(o, g, c) <==> b in Occupants(order, agents, c))
  {
    DeregisterValid(s, order, agents, k);
    var (o, g) := Deregister(order, agents, k);
    forall b
      ensures b in Occupants(o, g, c) ==> b.id != k
      ensures b.id != k ==> (b in Occupants(o, g, c) <==> b in Occupants(order, agents, c))
    {
      OccupantsExactly(s, o, g, c, b);
      OccupantsExactly(s, order, agents, c, b);
    }
  }

  /** Removal is idempotent: removing an unknown id, or removing twice, changes nothing more. */
  lemma {:induction false} DeregisterIdempotent(order: seq<string>, agents: map<string, Agent>, k: string)
    requires forall j :: j in order ==> j in agents
    ensures k !in agents ==> Deregister(order, agents, k) == (order, agents)
    ensures var (o, g) := Deregister(order, agents, k); Deregister(o, g, k) == (o, g)
  {
    if k !in agents {
      WithoutAbsent(order, k);
      assert agents - {k} == agents;
    }
    var (o, g) := Deregister(order, agents, k);
    WithoutAbsent(o, k);
    assert g - {k} == g;
  }

  lemma {:induction false} WithoutAbsent(order: seq<string>, k: string)
    requires k !in order
    ensures Without(order, k) == order
  {
    if order != [] {
      WithoutAbsent(order[1..], k);
      assert [order[0]] + order[1..] == order;
    }
  }

  /** `getCell` as written: a per-class bounds check, then the class's own index formula. */
  function CellLookup(s: Shape, cells: seq<Agent>, c: seq<int>): (r: Result<Option<Agent>, EnvError>)
    requires |c| == Dims(s)
    ensures !s.Line? ==> (r == Success(None) <==> !OnMap(s, c))
    ensures s.Line? ==> (r == Success(None) <==> !(0 <= c[0] < |cells|))
    ensures r.Success? && r.value.Some? ==> 0 <= LookupIndex(s, c) < |cells| && r.value.value == cells[LookupIndex(s, c)]
    ensures r.Failure? ==> r.error == IndexError && !(0 <= LookupIndex(s, c) < |cells|)
  {
    var outside := match s
      case Line(_) => c[0] < 0 || c[0] >= |cells|
      case _ => !OnMap(s, c);
    if outside then Success(None)
    else
      var k := LookupIndex(s, c);
      if 0 <= k < |cells| then Success(Some(cells[k])) else Failure(IndexError)
  }

  /** The lookup `getCell` evidently intends: the construction-order address. */
  function CellLookupIntended(s: Shape, m: ModelRef, cells: seq<Agent>, c: seq<int>): (r: Option<Agent>)
    requires CellsValid(s, m, cells) && |c| == Dims(s)
    ensures r.None? <==> !OnMap(s, c)
    ensures r.Some? ==> r.value.position == Some(ToPosition(c)) && r.value in cells
    ensures OnMap(s, c) ==> 0 <= Address(s, ToPosition(c)) < |cells| && r == Some(cells[Address(s, ToPosition(c))])
  {
    if !OnMap(s, c) then None
    else
      AddressRoundTrip(s, ToPosition(c));
      Some(cells[Address(s, ToPosition(c))])
  }

  /** The lookup returns the cell whose recorded position is the query. */
  predicate ReturnsQueried(s: Shape, cells: seq<Agent>, c: seq<int>)
    requires |c| == Dims(s)
  {
    var r := CellLookup(s, cells, c);
    r.Success? && r.value.Some? && r.value.value.position == Some(ToPosition(c))
  }

  /** `getCell` signals "not found" exactly when some axis is off the map, and never for an on-map query. */
  lemma LookupNotFound(s: Shape, m: ModelRef, cells: seq<Agent>, c: seq<int>)
    requires CellsValid(s, m, cells) && |c| == Dims(s)
    ensures CellLookup(s, cells, c) == Success(None) <==> !OnMap(s, c)
  {
  }

  /** Where the lookup index is the construction address, `getCell` returns the queried cell. */
  lemma LookupAtAddress(s: Shape, m: ModelRef, cells: seq<Agent>, c: seq<int>)
    requires CellsValid(s, m, cells) && |c| == Dims(s) && OnMap(s, c)
    requires LookupIndex(s, c) == Address(s, ToPosition(c))
    ensures ReturnsQueried(s, cells, c)
  {
    AddressRoundTrip(s, ToPosition(c));
  }

  /** On a line, a grid, or a cube with `height == depth`, `getCell` returns the queried cell. */
  lemma LookupFindsQuery(s: Shape, m: ModelRef, cells: seq<Agent>, c: seq<int>)
    requires CellsValid(s, m, cells) && |c| == Dims(s) && OnMap(s, c)
    requires !s.Cube? || s.height == s.depth
    ensures ReturnsQueried(s, cells, c)
  {
    LookupIndexAgreement(s, c);
    LookupAtAddress(s, m, cells, c);
  }

  /**
   * On a cube, `getCell` returns the queried cell for every on-map query
   * exactly when `height == depth` or the cube has a single layer.
   */
  lemma CubeLookupCorrectIff(s: Shape, m: ModelRef, cells: seq<Agent>)
    requires CellsValid(s, m, cells) && s.Cube?
    ensures (forall c :: |c| == 3 && OnMap(s, c) ==> ReturnsQueried(s, cells, c)) <==> (s.height == s.depth || s.depth == 1)
  {
    if s.height == s.depth || s.depth == 1 {
      forall c | |c| == 3 && OnMap(s, c) ensures ReturnsQueried(s, cells, c) {
        LookupIndexAgreement(s, c);
        LookupAtAddress(s, m, cells, c);
      }
    } else {
      var c := [0, 0, 1];
      var p := ToPosition(c);
      assert OnMap(s, c);
      LookupIndexAgreement(s, c);
      var k := LookupIndex(s, c);
      if 0 <= k < |cells| {
        PositionRoundTrip(s, k);
        assert Address(s, p) != k;
        assert PositionOf(s, k) != p;
        assert CellLookup(s, cells, c) == Success(Some(cells[k]));
        assert !ReturnsQueried(s, cells, c);
      }
    }
  }

  /** CubeWorld(1, 2, 3): `getCell(0, 0, 1)` returns the cell at (0, 1, 1). */
  lemma CubeLookupWrongCell(m: ModelRef)
    ensures var s := Cube(1, 2, 3);
      var cells := seq(6, i requires 0 <= i < 6 => NewCell(s, m, i));
      CellsValid(s, m, cells) && CellLookup(s, cells, [0, 0, 1]) == Success(Some(cells[3]))
      && cells[3].position == Some(Position(0, 1, 1))
  {
  }

  /** CubeWorld(2, 1, 2): `getCell(0, 0, 1)` reads index 4 of a four-cell list. */
  lemma CubeLookupPastEnd(m: ModelRef)
    ensures var s := Cube(2, 1, 2);
      var cells := seq(4, i requires 0 <= i < 4 => NewCell(s, m, i));
      CellsValid(s, m, cells) && CellLookup(s, cells, [0, 0, 1]) == Failure(IndexError)
  {
  }

  /** Wherever the as-written lookup is right, it agrees with the construction-order lookup. */
  lemma IntendedLookupAgrees(s: Shape, m: ModelRef, cells: seq<Agent>, c: seq<int>)
    requires CellsValid(s, m, cells) && |c| == Dims(s)
    ensures OnMap(s, c) && (!s.Cube? || s.height == s.depth) ==>
      CellLookup(s, cells, c) == Success(CellLookupIntended(s, m, cells, c))
  {
    if OnMap(s, c) && (!s.Cube? || s.height == s.depth) {
      AddressRoundTrip(s, ToPosition(c));
      LookupIndexAgreement(s, c);
      var k := LookupIndex(s, c);
      assert k == Address(s, ToPosition(c));
      assert CellLookup(s, cells, c) == Success(Some(cells[k]));
    }
  }

  /** The index at which layer `z` starts: `z*width*height`. */
  function LayerStart(s: Shape, z: int): int {
    z * (Width(s) * Height(s))
  }

  /** Row (y, z) ends inside the cell list. */
  lemma RowFits(s: Shape, y: int, z: int)
    requires ValidShape(s) && 0 <= y < Height(s) && 0 <= z < Depth(s)
    ensures LayerStart(s, z) + y * Width(s) + Width(s) <= CellCount(s)
  {
    NewCellAt(s, "", Width(s) - 1, y, z);
  }

  /** Layer z ends inside the cell list. */
  lemma LayerFits(s: Shape, z: int)
    requires ValidShape(s) && 0 <= z < Depth(s)
    ensures LayerStart(s, z + 1) <= CellCount(s)
  {
    MulMonotone(z + 1, Depth(s), Width(s) * Height(s));
    assert Depth(s) * (Width(s) * Height(s)) == CellCount(s);
  }

  lemma LayerStep(s: Shape, z: int)
    ensures LayerStart(s, z) + Height(s) * Width(s) == LayerStart(s, z + 1)
  {
  }

  lemma LayerStart0(s: Shape)
    ensures LayerStart(s, Depth(s)) == CellCount(s)
  {
  }

  /** The cell appended for (x, y, z) is the one `NewCell` describes at that index. */
  lemma NewCellAt(s: Shape, m: ModelRef, x: int, y: int, z: int)
    requires ValidShape(s) && 0 <= x < Width(s) && 0 <= y < Height(s) && 0 <= z < Depth(s)
    ensures var i := z * (Width(s) * Height(s)) + y * Width(s) + x;
      && 0 <= z * Width(s) * Height(s) + y * Width(s) + x == i < CellCount(s)
      && NewCell(s, m, i) == Agent(CellName(i), m, Some(Position(x, y, z)), [])
  {
    var w, h := Width(s), Height(s);
    var p := Position(x, y, z);
    var i := z * (w * h) + y * w + x;
    MulAssoc(z, w, h);
    assert i == Address(s, p);
    AddressRoundTrip(s, p);
    assert PositionOf(s, i) == p;
  }

  lemma MulAssoc(a: int, b: int, c: int)
    ensures a * (b * c) == a * b * c
  {
  }

  class World {
    const shape: Shape
    const id: string
    var model: ModelRef
    /** The static cells, one per lattice point, in construction order. */
    const cells: array<Agent>
    /** The registry of external agents, keyed by id. */
    var agents: map<string, Agent>
    /** The registry's iteration order. */
    var order: seq<string>

    ghost predicate Valid()
      reads this, cells
    {
      CellsValid(shape, model, cells[..]) && RegistryValid(shape, order, agents)
    }

    /** The constructor's loops, once the extents have been checked: one cell per point, x fastest. */
    constructor (shape: Shape, model: ModelRef, id: string)
      requires ValidShape(shape)
      ensures Valid() && fresh(cells)
      ensures this.shape == shape && this.model == model && this.id == id
      ensures agents == map[] && order == []
      ensures cells.Length == CellCount(shape)
      ensures forall i :: 0 <= i < cells.Length ==> cells[i] == NewCell(shape, model, i)
    {
      var a := BuildCells(shape, model);
      this.shape := shape;
      this.id := id;
      this.model := model;
      cells := a;
      agents := map[];
      order := [];
    }

    /**
     * The constructor's nested loops over z, y and x (x fastest), appending
     * cell `CELL_<index>` with position (x, y, z) at each step.
     */
    static method BuildCells(shape: Shape, model: ModelRef) returns (a: array<Agent>)
      requires ValidShape(shape)
      ensures fresh(a) && a.Length == CellCount(shape)
      ensures forall i :: 0 <= i < a.Length ==> a[i] == NewCell(shape, model, i)
    {
      var w, h, d := Width(shape), Height(shape), Depth(shape);
      CellCountPositive(shape);
      a := new Agent[CellCount(shape)];
      var next := 0;
      for z := 0 to d
        invariant next == LayerStart(shape, z) <= a.Length
        invariant forall i :: 0 <= i < next ==> a[i] == NewCell(shape, model, i)
      {
        LayerFits(shape, z);
        for y := 0 to h
          invariant next == LayerStart(shape, z) + y * w <= a.Length
          invariant forall i :: 0 <= i < next ==> a[i] == NewCell(shape, model, i)
        {
          RowFits(shape, y, z);
          for x := 0 to w
            invariant next == LayerStart(shape, z) + y * w + x <= a.Length
            invariant forall i :: 0 <= i < next ==> a[i] == NewCell(shape, model, i)
          {
            NewCellAt(shape, model, x, y, z);
            var agentId := z * w * h + y * w + x;
            assert agentId == next;
            a[next] := Agent(CellName(agentId), model, Some(Position(x, y, z)), []);
            next := next + 1;
          }
          assert next == LayerStart(shape, z) + (y + 1) * w;
        }
        LayerStep(shape, z);
      }
      LayerStart0(shape);
    }

    /** Construction: rejects any extent below 1, otherwise builds the world. */
    static method Create(shape: Shape, model: ModelRef, id: string) returns (r: Result<World, EnvError>)
      ensures ValidShape(shape) <==> r.Success?
      ensures !ValidShape(shape) <==> r == Failure(InvalidExtent)
      ensures r.Success? ==> var w := r.value;
        && fresh(w) && fresh(w.cells) && w.Valid()
        && w.shape == shape && w.model == model && w.id == id
        && w.GetDimensions() == Extents(shape)
        && w.agents == map[] && w.order == []
        && forall i :: 0 <= i < w.cells.Length ==> w.cells[i] == NewCell(shape, model, i)
    {
      if !ValidShape(shape) {
        return Failure(InvalidExtent);
      }
      var w := new World(shape, model, id);
      r := Success(w);
    }

    /** `getDimensions()`: the extents, each at least 1, whose product is the number of cells. */
    function GetDimensions(): (e: seq<int>)
      reads this, cells
      requires Valid()
      ensures |e| == Dims(shape) && Product(e) == cells.Length
      ensures forall i :: 0 <= i < |e| ==> e[i] >= 1
      ensures e[0] == shape.width && (!shape.Line? ==> e[1] == shape.height) && (shape.Cube? ==> e[2] == shape.depth)
    {
      CellCountProduct(shape);
      Extents(shape)
    }

    /**
     * `getAgentsAt(c)`: exactly the registered agents at `c`, each once, in
     * registration order; nothing for an off-map `c`.
     */
    function GetAgentsAt(c: seq<int>): (r: seq<Agent>)
      reads this, cells
      requires Valid() && |c| == Dims(shape)
      ensures forall a :: a in r <==> a.id in agents && agents[a.id] == a && AtCoord(a, c)
      ensures Distinct(r) && Subsequence(r, Registered(order, agents))
      ensures !OnMap(shape, c) ==> r == []
    {
      assert forall a :: OccupantsExactlyHolds(order, agents, c, a) by {
        forall a ensures OccupantsExactlyHolds(order, agents, c, a) {
          OccupantsExactly(shape, order, agents, c, a);
        }
      }
      OccupantsOffMap(shape, order, agents, c);
      OccupantsDistinct(order, agents, c);
      Occupants(order, agents, c)
    }

    /**
     * `getCell(c)` as written: "not found" exactly off the map; otherwise the
     * cell at the class's own index, an IndexError past the end of the list.
     * On a line, a grid, or a cube with `height == depth` that cell's position is `c`.
     */
    function GetCell(c: seq<int>): (r: Result<Option<Agent>, EnvError>)
      reads this, cells
      requires Valid() && |c| == Dims(shape)
      ensures r == Success(None) <==> !OnMap(shape, c)
      ensures OnMap(shape, c) && (!shape.Cube? || shape.height == shape.depth) ==>
        r.Success? && r.value.Some? && r.value.value.position == Some(ToPosition(c))
      ensures OnMap(shape, c) && (!shape.Cube? || shape.height == shape.depth) ==>
        0 <= Address(shape, ToPosition(c)) < cells.Length && r == Success(Some(cells[Address(shape, ToPosition(c))]))
      ensures r.Success? && r.value.Some? ==> 0 <= LookupIndex(shape, c) < cells.Length && r.value.value == cells[LookupIndex(shape, c)]
      ensures r.Failure? ==> r.error == IndexError && !(0 <= LookupIndex(shape, c) < cells.Length)
    {
      LookupNotFound(shape, model, cells[..], c);
      IntendedLookupAgrees(shape, model, cells[..], c);
      CellLookup(shape, cells[..], c)
    }

    /** `getCell(c)` with the construction-order address: the queried cell on every shape. */
    function GetCellIntended(c: seq<int>): (r: Option<Agent>)
      reads this, cells
      requires Valid() && |c| == Dims(shape)
      ensures r.None? <==> !OnMap(shape, c)
      ensures r.Some? ==> r.value.position == Some(ToPosition(c)) && r.value in cells[..]
      ensures OnMap(shape, c) ==> 0 <= Address(shape, ToPosition(c)) < cells.Length && r == Some(cells[Address(shape, ToPosition(c))])
    {
      CellLookupIntended(shape, model, cells[..], c)
    }

    /**
     * `addAgent(agent, c)`: an off-map coordinate raises before anything is
     * attached or registered; otherwise the agent gets a PositionComponent
     * at `c` and is registered. The result is the agent as placed.
     */
    method AddAgent(agent: Agent, c: seq<int>) returns (r: Result<Agent, EnvError>)
      requires Valid() && |c| == Dims(shape)
      modifies this
      ensures Valid() && model == old(model)
      ensures !OnMap(shape, c) ==> r == Failure(OutOfBounds) && agents == old(agents) && order == old(order)
      ensures OnMap(shape, c) ==> r == Success(agent.(position := Some(ToPosition(c))))
      ensures OnMap(shape, c) ==> (order, agents) == Register(old(order), old(agents), r.value)
      ensures OnMap(shape, c) ==> r.value in GetAgentsAt(c)
    {
      if !OnMap(shape, c) {
        return Failure(OutOfBounds);
      }
      var placed := agent.(position := Some(ToPosition(c)));
      RegisterValid(shape, order, agents, placed);
      order, agents := Register(order, agents, placed).0, Register(order, agents, placed).1;
      r := Success(placed);
    }

    /**
     * `removeAgent(id)`: a registered agent has its PositionComponent
     * detached (returned here) and is deregistered; an unknown id detaches nothing.
     */
    method RemoveAgent(agentId: string) returns (detached: Option<Agent>)
      requires Valid()
      modifies this
      ensures Valid() && model == old(model)
      ensures agentId in old(agents) ==> detached == Some(old(agents)[agentId].(position := None))
      ensures agentId !in old(agents) ==> detached == None && agents == old(agents) && order == old(order)
      ensures (order, agents) == Deregister(old(order), old(agents), agentId)
      ensures forall c :: |c| == Dims(shape) ==> forall a :: a in GetAgentsAt(c) ==> a.id != agentId
    {
      detached := None;
      if agentId in agents {
        detached := Some(agents[agentId].(position := None));
      }
      DeregisterValid(shape, order, agents, agentId);
      DeregisterIdempotent(order, agents, agentId);
      order, agents := Without(order, agentId), agents - {agentId};
    }

    /**
     * `addCellComponent(generator)`: the generator is applied once to each
     * cell in list order; each cell gains the component it generates.
     * `calls` lists the cells as they were handed to the generator.
     */
    method AddCellComponent(generator: Agent -> Component) returns (calls: seq<Agent>)
      requires Valid()
      modifies cells
      ensures Valid()
      ensures calls == old(cells[..])
      ensures forall i :: 0 <= i < cells.Length ==>
        cells[i] == old(cells[i]).(extras := old(cells[i]).extras + [generator(old(cells[i]))])
    {
      calls := [];
      for i := 0 to cells.Length
        invariant calls == old(cells[..])[..i]
        invariant forall j :: 0 <= j < i ==>
          cells[j] == old(cells[j]).(extras := old(cells[j]).extras + [generator(old(cells[j]))])
        invariant forall j :: i <= j < cells.Length ==> cells[j] == old(cells[j])
      {
        calls := calls + [cells[i]];
        cells[i] := cells[i].(extras := cells[i].extras + [generator(cells[i])]);
      }
    }

    /**
     * `setModel(model)`: the world and every cell move to the new model; each
     * cell's PositionComponent is detached and rebuilt from the axes it held,
     * so positions, cell order and the agent registry are unchanged.
     */
    method SetModel(newModel: ModelRef)
      requires Valid()
      modifies this, cells
      ensures Valid() && model == newModel
      ensures agents == old(agents) && order == old(order)
      ensures forall i :: 0 <= i < cells.Length ==>
        cells[i] == old(cells[i]).(model := newModel) && cells[i].position == old(cells[i].position)
    {
      model := newModel;
      ghost var before := cells[..];
      for i := 0 to cells.Length
        invariant model == newModel && agents == old(agents) && order == old(order)
        invariant forall j :: 0 <= j < i ==> cells[j] == before[j].(model := newModel)
        invariant forall j :: i <= j < cells.Length ==> cells[j] == before[j]
      {
        var cell := cells[i];
        var axes := Axes(cell.position.value, Dims(shape));
        cell := cell.(position := None);
        cell := cell.(model := newModel);
        RebuildPosition(shape, before[i].position.value, i);
        cell := cell.(position := Some(ToPosition(axes)));
        cells[i] := cell;
      }
      assert forall j :: 0 <= j < cells.Length ==> cells[..][j] == before[j].(model := newModel);
    }
  }

  /** Rebuilding a cell's PositionComponent from the axes it holds gives the same position. */
  lemma RebuildPosition(s: Shape, p: Position, i: nat)
    requires ValidShape(s) && i < CellCount(s) && p == PositionOf(s, i)
    ensures ToPosition(Axes(p, Dims(s))) == p
  {
    PositionRoundTrip(s, i);
    ToPositionAxes(s, p);
  }

  /** The contract of `OccupantsExactly`, as a predicate so it can be quantified over. */
  predicate OccupantsExactlyHolds(order: seq<string>, agents: map<string, Agent>, c: seq<int>, a: Agent)
    requires |c| <= 3 && forall k :: k in order ==> k in agents
  {
    a in Occupants(order, agents, c) <==> a.id in agents && agents[a.id] == a && AtCoord(a, c)
  }
}
