/**
 * Inserting vehicles' cells into the occupancy map (src/road.rs): every update and the
 * initial build insert cell by cell, validating each coordinate and noticing when a key is
 * already taken. `PlaceCells` and `PlaceBlocks` specify those insert loops and characterise
 * exactly when they succeed and which map they produce.
 */
module Placement {
  import opened Geometry
  import opened Cells

  /** One vehicle's cells and the entry they get in the map. */
  datatype Block = Block(cells: seq<Coord>, owner: Vehicle)

  predicate AllOnRoad(d: Dims, cs: seq<Coord>)
  {
    forall c :: c in cs ==> OnRoad(d, c)
  }

  /** No two cells of `cs` wrap onto the same key. */
  predicate KeysDistinct(d: Dims, cs: seq<Coord>)
    requires d.len > 0
  {
    forall i, j :: 0 <= i < j < |cs| ==> Key(d, cs[i]) != Key(d, cs[j])
  }

  function KeySet(d: Dims, cs: seq<Coord>): set<Coord>
    requires d.len > 0
  {
    set c | c in cs :: Key(d, c)
  }

  function KeyMap(d: Dims, cs: seq<Coord>, v: Vehicle): CellMap
    requires d.len > 0
  {
    map k | k in KeySet(d, cs) :: v
  }

  /** How an insert loop ends: all cells placed, a cell off the road, or a key already taken. */
  datatype Placement =
    | Placed(cells: CellMap)
    | OffRoad(cells: CellMap, at: Coord, error: CoordError)
    | Collision(cells: CellMap, at: Coord, found: Vehicle)

  lemma CellsStep(d: Dims, cs: seq<Coord>, v: Vehicle)
    requires d.len > 0 && cs != []
    ensures AllOnRoad(d, cs) <==> OnRoad(d, cs[0]) && AllOnRoad(d, cs[1..])
    ensures KeysDistinct(d, cs) <==> Key(d, cs[0]) !in KeySet(d, cs[1..]) && KeysDistinct(d, cs[1..])
    ensures KeySet(d, cs) == {Key(d, cs[0])} + KeySet(d, cs[1..])
    ensures KeyMap(d, cs, v) == KeyMap(d, cs[1..], v)[Key(d, cs[0]) := v]
  {
    assert forall c :: c in cs <==> c == cs[0] || c in cs[1..];
    if Key(d, cs[0]) !in KeySet(d, cs[1..]) && KeysDistinct(d, cs[1..]) {
      forall i, j | 0 <= i < j < |cs|
        ensures Key(d, cs[i]) != Key(d, cs[j])
      {
        if i > 0 {
          assert cs[i] == cs[1..][i - 1] && cs[j] == cs[1..][j - 1];
        } else {
          assert cs[j] in cs[1..];
        }
      }
    }
    if KeysDistinct(d, cs) {
      forall c | c in cs[1..]
        ensures Key(d, c) != Key(d, cs[0])
      {
        var j :| 0 <= j < |cs[1..]| && cs[1..][j] == c;
        assert cs[j + 1] == c;
      }
      forall i, j | 0 <= i < j < |cs[1..]|
        ensures Key(d, cs[1..][i]) != Key(d, cs[1..][j])
      {
        assert cs[1..][i] == cs[i + 1] && cs[1..][j] == cs[j + 1];
      }
    }
  }

  /** Placing the rest after inserting a fresh first key is placing all of `cs`. */
  lemma PlaceCellsFresh(d: Dims, m: CellMap, cs: seq<Coord>, v: Vehicle)
    requires d.len > 0 && cs != [] && OnRoad(d, cs[0]) && Key(d, cs[0]) !in m
    ensures (AllOnRoad(d, cs[1..]) && KeysDistinct(d, cs[1..]) && KeySet(d, cs[1..]) !! m[Key(d, cs[0]) := v].Keys)
        <==> (AllOnRoad(d, cs) && KeysDistinct(d, cs) && KeySet(d, cs) !! m.Keys)
    ensures m[Key(d, cs[0]) := v] + KeyMap(d, cs[1..], v) == m + KeyMap(d, cs, v)
  {
    CellsStep(d, cs, v);
  }

  /** A first cell off the road, or on a taken key, cannot be placed. */
  lemma PlaceCellsBlocked(d: Dims, m: CellMap, cs: seq<Coord>, v: Vehicle)
    requires d.len > 0 && cs != [] && (!OnRoad(d, cs[0]) || Key(d, cs[0]) in m)
    ensures !(AllOnRoad(d, cs) && KeysDistinct(d, cs) && KeySet(d, cs) !! m.Keys)
  {
    CellsStep(d, cs, v);
  }

  /**
   * The insert loop for one vehicle: validate each cell and insert its key for `v`, stopping
   * at the first cell off the road or whose key is already taken (that insert has already
   * replaced the entry). It places every cell exactly when all are on the road, no two
   * share a key and none lands on a key of `m`; the map is then `m` plus those keys.
   */
  function PlaceCells(d: Dims, m: CellMap, cs: seq<Coord>, v: Vehicle): (r: Placement)
    requires d.len > 0
    ensures r.Placed? <==> AllOnRoad(d, cs) && KeysDistinct(d, cs) && KeySet(d, cs) !! m.Keys
    ensures r.Placed? ==> r.cells == m + KeyMap(d, cs, v)
    decreases |cs|
  {
    if cs == [] then Placed(m)
    else
      match ValidateCoord(d, cs[0])
      case Err(e) =>
        PlaceCellsBlocked(d, m, cs, v);
        OffRoad(m, cs[0], e)
      case Ok(k) =>
        if k in m then
          PlaceCellsBlocked(d, m, cs, v);
          Collision(m[k := v], cs[0], m[k])
        else
          PlaceCellsFresh(d, m, cs, v);
          PlaceCells(d, m[k := v], cs[1..], v)
  }

  predicate BlockFits(d: Dims, m: CellMap, b: Block)
    requires d.len > 0
  {
    AllOnRoad(d, b.cells) && KeysDistinct(d, b.cells) && KeySet(d, b.cells) !! m.Keys
  }

  predicate PairwiseDisjoint(d: Dims, bs: seq<Block>)
    requires d.len > 0
  {
    forall i, j :: 0 <= i < j < |bs| ==> KeySet(d, bs[i].cells) !! KeySet(d, bs[j].cells)
  }

  /** Every block can be placed into `m` alongside all the others. */
  predicate Fits(d: Dims, m: CellMap, bs: seq<Block>)
    requires d.len > 0
  {
    (forall i :: 0 <= i < |bs| ==> BlockFits(d, m, bs[i])) && PairwiseDisjoint(d, bs)
  }

  /** The keys of all blocks. */
  function AllKeys(d: Dims, bs: seq<Block>): set<Coord>
    requires d.len > 0
  {
    if bs == [] then {} else KeySet(d, bs[0].cells) + AllKeys(d, bs[1..])
  }

  /** The entries all blocks contribute (a later block's entry wins on a shared key). */
  function BlocksMap(d: Dims, bs: seq<Block>): (r: CellMap)
    requires d.len > 0
    ensures r.Keys == AllKeys(d, bs)
  {
    if bs == [] then map[] else KeyMap(d, bs[0].cells, bs[0].owner) + BlocksMap(d, bs[1..])
  }

  lemma AllKeysMembership(d: Dims, bs: seq<Block>, k: Coord)
    requires d.len > 0
    ensures k in AllKeys(d, bs) <==> exists i :: 0 <= i < |bs| && k in KeySet(d, bs[i].cells)
  {
    if bs != [] {
      AllKeysMembership(d, bs[1..], k);
      if exists i :: 0 <= i < |bs| && k in KeySet(d, bs[i].cells) {
        var i :| 0 <= i < |bs| && k in KeySet(d, bs[i].cells);
        if i > 0 {
          assert bs[1..][i - 1] == bs[i];
        }
      }
      if exists i :: 0 <= i < |bs[1..]| && k in KeySet(d, bs[1..][i].cells) {
        var i :| 0 <= i < |bs[1..]| && k in KeySet(d, bs[1..][i].cells);
        assert bs[1..][i] == bs[i + 1];
      }
    }
  }

  lemma FitsStep(d: Dims, m: CellMap, bs: seq<Block>)
    requires d.len > 0 && bs != []
    ensures Fits(d, m, bs) <==>
      BlockFits(d, m, bs[0]) && Fits(d, m + KeyMap(d, bs[0].cells, bs[0].owner), bs[1..])
  {
    var m' := m + KeyMap(d, bs[0].cells, bs[0].owner);
    assert m'.Keys == m.Keys + KeySet(d, bs[0].cells);
    var rest := bs[1..];
    if Fits(d, m, bs) {
      forall i | 0 <= i < |rest|
        ensures BlockFits(d, m', rest[i])
      {
        assert rest[i] == bs[i + 1];
        assert KeySet(d, bs[0].cells) !! KeySet(d, bs[i + 1].cells);
      }
      forall i, j | 0 <= i < j < |rest|
        ensures KeySet(d, rest[i].cells) !! KeySet(d, rest[j].cells)
      {
        assert rest[i] == bs[i + 1] && rest[j] == bs[j + 1];
      }
    }
    if BlockFits(d, m, bs[0]) && Fits(d, m', rest) {
      forall i | 0 <= i < |bs|
        ensures BlockFits(d, m, bs[i])
      {
        if i > 0 {
          assert bs[i] == rest[i - 1];
        }
      }
      forall i, j | 0 <= i < j < |bs|
        ensures KeySet(d, bs[i].cells) !! KeySet(d, bs[j].cells)
      {
        assert bs[j] == rest[j - 1];
        if i > 0 {
          assert bs[i] == rest[i - 1];
        } else {
          assert BlockFits(d, m', rest[j - 1]);
        }
      }
    }
  }

  lemma UnionAssoc(a: CellMap, b: CellMap, c: CellMap)
    ensures (a + b) + c == a + (b + c)
  {
  }

  /**
   * The insert loop over several vehicles in turn. It places every block exactly when they
   * fit (all on the road, no key shared within a block, between blocks, or with `m`),
   * and the map is then `m` plus every block's keys mapped to its owner.
   */
  function PlaceBlocks(d: Dims, m: CellMap, bs: seq<Block>): (r: Placement)
    requires d.len > 0
    ensures r.Placed? <==> Fits(d, m, bs)
    ensures r.Placed? ==> r.cells == m + BlocksMap(d, bs)
    decreases |bs|
  {
    if bs == [] then Placed(m)
    else
      FitsStep(d, m, bs);
      match PlaceCells(d, m, bs[0].cells, bs[0].owner)
      case Placed(m') =>
        UnionAssoc(m, KeyMap(d, bs[0].cells, bs[0].owner), BlocksMap(d, bs[1..]));
        PlaceBlocks(d, m', bs[1..])
      case failed => failed
  }

  /** Placing `a + b` is placing `a`, then `b` into the result. */
  lemma {:induction false} PlaceBlocksConcat(d: Dims, m: CellMap, a: seq<Block>, b: seq<Block>)
    requires d.len > 0
    ensures PlaceBlocks(d, m, a).Placed? ==>
      PlaceBlocks(d, m, a + b) == PlaceBlocks(d, PlaceBlocks(d, m, a).cells, b)
    ensures !PlaceBlocks(d, m, a).Placed? ==> PlaceBlocks(d, m, a + b) == PlaceBlocks(d, m, a)
    decreases |a|
  {
    if a != [] {
      assert (a + b)[0] == a[0] && (a + b)[1..] == a[1..] + b;
      match PlaceCells(d, m, a[0].cells, a[0].owner)
      case Placed(m') => PlaceBlocksConcat(d, m', a[1..], b);
      case _ =>
    } else {
      assert a + b == b;
    }
  }

  /** Placing `a` and then `b` into the result is placing `a + b`. */
  lemma PlaceBlocksChain(d: Dims, m: CellMap, a: seq<Block>, b: seq<Block>, m1: CellMap, m2: CellMap)
    requires d.len > 0 && PlaceBlocks(d, m, a) == Placed(m1) && PlaceBlocks(d, m1, b) == Placed(m2)
    ensures PlaceBlocks(d, m, a + b) == Placed(m2)
  {
    PlaceBlocksConcat(d, m, a, b);
  }

  /** When `a + b` is placed into `m`, `a` alone is placed into `m` and `b` into the result. */
  lemma PlaceBlocksConcatPlaced(d: Dims, m: CellMap, a: seq<Block>, b: seq<Block>, m2: CellMap)
    requires d.len > 0 && PlaceBlocks(d, m, a + b) == Placed(m2)
    ensures PlaceBlocks(d, m, a) == Placed(m + BlocksMap(d, a))
    ensures PlaceBlocks(d, m + BlocksMap(d, a), b) == Placed(m2)
  {
    PlaceBlocksConcatFirst(d, m, a, b);
    var m1 := PlaceBlocks(d, m, a).cells;
    assert m1 == m + BlocksMap(d, a);
    PlaceBlocksConcatSecond(d, m, a, b, m1);
  }

  lemma PlaceBlocksConcatFirst(d: Dims, m: CellMap, a: seq<Block>, b: seq<Block>)
    requires d.len > 0 && PlaceBlocks(d, m, a + b).Placed?
    ensures PlaceBlocks(d, m, a).Placed?
  {
    PlaceBlocksConcat(d, m, a, b);
  }

  lemma PlaceBlocksConcatSecond(d: Dims, m: CellMap, a: seq<Block>, b: seq<Block>, m1: CellMap)
    requires d.len > 0 && PlaceBlocks(d, m, a) == Placed(m1)
    ensures PlaceBlocks(d, m1, b) == PlaceBlocks(d, m, a + b)
  {
    PlaceBlocksConcat(d, m, a, b);
  }

  /** Placing `a + b` into an empty map places `a`'s entries first and `b` into them. */
  lemma PlaceBlocksFromEmpty(d: Dims, a: seq<Block>, b: seq<Block>, m2: CellMap)
    requires d.len > 0 && PlaceBlocks(d, map[], a + b) == Placed(m2)
    ensures PlaceBlocks(d, map[], a) == Placed(BlocksMap(d, a))
    ensures PlaceBlocks(d, BlocksMap(d, a), b) == Placed(m2)
  {
    PlaceBlocksConcatPlaced(d, map[], a, b, m2);
    EmptyUnion(BlocksMap(d, a));
  }

  lemma EmptyUnion(x: CellMap)
    ensures map[] + x == x
  {
  }

  /** In blocks with disjoint keys, each key of a block maps to that block's owner. */
  lemma {:induction false} BlocksMapLookup(d: Dims, bs: seq<Block>, i: int, k: Coord)
    requires d.len > 0 && PairwiseDisjoint(d, bs)
    requires 0 <= i < |bs| && k in KeySet(d, bs[i].cells)
    ensures k in BlocksMap(d, bs) && BlocksMap(d, bs)[k] == bs[i].owner
  {
    var rest := bs[1..];
    assert PairwiseDisjoint(d, rest) by {
      forall a, b | 0 <= a < b < |rest|
        ensures KeySet(d, rest[a].cells) !! KeySet(d, rest[b].cells)
      {
        assert rest[a] == bs[a + 1] && rest[b] == bs[b + 1];
      }
    }
    if i == 0 {
      AllKeysMembership(d, rest, k);
    } else {
      assert rest[i - 1] == bs[i];
      BlocksMapLookup(d, rest, i - 1, k);
    }
  }

  /** How an insert loop goes on once the current block is placed: the later blocks, or the failure. */
  function AndThen(d: Dims, p: Placement, rest: seq<Block>): Placement
    requires d.len > 0
  {
    match p
    case Placed(m) => PlaceBlocks(d, m, rest)
    case _ => p
  }

  /** When every cell is on the road, inserting them never stops at a cell off the road. */
  lemma {:induction false} PlaceCellsOnRoad(d: Dims, m: CellMap, cs: seq<Coord>, v: Vehicle)
    requires d.len > 0 && AllOnRoad(d, cs)
    ensures !PlaceCells(d, m, cs, v).OffRoad?
    decreases |cs|
  {
    if cs != [] {
      assert cs[0] in cs;
      var k := Key(d, cs[0]);
      if k !in m {
        assert forall c :: c in cs[1..] ==> c in cs;
        PlaceCellsOnRoad(d, m[k := v], cs[1..], v);
      }
    }
  }

  /** When every block is on the road, the insert loop never stops at a cell off the road. */
  lemma {:induction false} PlaceBlocksOnRoad(d: Dims, m: CellMap, bs: seq<Block>)
    requires d.len > 0 && forall i :: 0 <= i < |bs| ==> AllOnRoad(d, bs[i].cells)
    ensures !PlaceBlocks(d, m, bs).OffRoad?
    decreases |bs|
  {
    if bs != [] {
      PlaceCellsOnRoad(d, m, bs[0].cells, bs[0].owner);
      var p := PlaceCells(d, m, bs[0].cells, bs[0].owner);
      if p.Placed? {
        assert forall i :: 0 <= i < |bs[1..]| ==> bs[1..][i] == bs[i + 1];
        PlaceBlocksOnRoad(d, p.cells, bs[1..]);
      }
    }
  }

  /** The keys of one more block. */
  lemma AllKeysSnoc(d: Dims, bs: seq<Block>, i: int)
    requires d.len > 0 && 0 <= i < |bs|
    ensures AllKeys(d, bs[..i + 1]) == AllKeys(d, bs[..i]) + KeySet(d, bs[i].cells)
  {
    forall k
      ensures k in AllKeys(d, bs[..i + 1]) <==> k in AllKeys(d, bs[..i]) || k in KeySet(d, bs[i].cells)
    {
      AllKeysMembership(d, bs[..i + 1], k);
      AllKeysMembership(d, bs[..i], k);
      assert bs[..i + 1][i] == bs[i];
      if k in AllKeys(d, bs[..i]) {
        var j :| 0 <= j < i && k in KeySet(d, bs[..i][j].cells);
        assert bs[..i + 1][j] == bs[..i][j];
      }
      if k in AllKeys(d, bs[..i + 1]) && k !in KeySet(d, bs[i].cells) {
        var j :| 0 <= j < i + 1 && k in KeySet(d, bs[..i + 1][j].cells);
        assert bs[..i + 1][j] == bs[..i][j];
      }
    }
  }

  /** The keys of one more cell. */
  lemma KeySetSnoc(d: Dims, cs: seq<Coord>, j: int)
    requires d.len > 0 && 0 <= j < |cs|
    ensures KeySet(d, cs[..j + 1]) == KeySet(d, cs[..j]) + {Key(d, cs[j])}
  {
    assert forall c :: c in cs[..j + 1] <==> c in cs[..j] || c == cs[j];
  }

  /** The entries of one more cell. */
  lemma KeyMapSnoc(d: Dims, cs: seq<Coord>, j: int, v: Vehicle)
    requires d.len > 0 && 0 <= j < |cs|
    ensures KeyMap(d, cs[..j + 1], v) == KeyMap(d, cs[..j], v)[Key(d, cs[j]) := v]
  {
    KeySetSnoc(d, cs, j);
  }

  /** A successful insert loop keeps every entry it started from. */
  lemma PlacedKeepsEntries(d: Dims, m: CellMap, bs: seq<Block>)
    requires d.len > 0 && PlaceBlocks(d, m, bs).Placed?
    ensures forall k :: k in m ==> k in PlaceBlocks(d, m, bs).cells && PlaceBlocks(d, m, bs).cells[k] == m[k]
  {
    forall k | k in m
      ensures k !in BlocksMap(d, bs)
    {
      AllKeysMembership(d, bs, k);
    }
  }
}
