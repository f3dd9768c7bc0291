/**
 * Cell geometry of the road (src/road.rs): coordinates, rectangular occupiers and the
 * cells they cover, and the lane predicates every occupier gets from its occupied cells.
 * `lat` counts lanes from the left (motor lanes first, then bike lanes), `long` counts
 * cells along the direction of travel.
 */
module Geometry {
  datatype Coord = Coord(lat: int, long: int)

  /** A rectangle given by its front-right corner and its extent (Rust's `RectangleOccupier`). */
  datatype Rect = Rect(front: int, right: int, width: nat, length: nat)

  predicate Distinct<T(==)>(s: seq<T>)
  {
    forall i, j :: 0 <= i < j < |s| ==> s[i] != s[j]
  }

  /** The integers `lo ..= hi` in ascending order (empty when `hi < lo`). */
  function Span(lo: int, hi: int): (s: seq<int>)
    ensures |s| == if hi < lo then 0 else hi - lo + 1
    ensures forall i :: 0 <= i < |s| ==> s[i] == lo + i
    decreases hi - lo
  {
    if hi < lo then [] else [lo] + Span(lo + 1, hi)
  }

  lemma SpanMembership(lo: int, hi: int, x: int)
    ensures x in Span(lo, hi) <==> lo <= x <= hi
  {
    if lo <= x <= hi {
      assert Span(lo, hi)[x - lo] == x;
    }
  }

  /** One lane's worth of cells: `lat` paired with every entry of `longs`. */
  function Row(lat: int, longs: seq<int>): (cells: seq<Coord>)
    ensures |cells| == |longs|
    ensures forall i :: 0 <= i < |cells| ==> cells[i] == Coord(lat, longs[i])
  {
    if longs == [] then [] else [Coord(lat, longs[0])] + Row(lat, longs[1..])
  }

  /** Every lane of `lats` in turn, each paired with all of `longs` (the flattened product). */
  function Grid(lats: seq<int>, longs: seq<int>): seq<Coord>
  {
    if lats == [] then [] else Row(lats[0], longs) + Grid(lats[1..], longs)
  }

  function Left(r: Rect): int { r.right - r.width + 1 }

  function Back(r: Rect): int { r.front - r.length + 1 }

  function BackLeft(r: Rect): Coord { Coord(Left(r), Back(r)) }

  /** The lanes the rectangle covers, left to right. */
  function WidthIterator(r: Rect): seq<int> { Span(Left(r), r.right) }

  /** The longitudes the rectangle covers, back to front. */
  function LengthIterator(r: Rect): seq<int> { Span(Back(r), r.front) }

  /** `rectangle_occupation`: lane by lane from the left, each lane from the back to the front. */
  function RectangleOccupation(front: int, right: int, width: nat, length: nat): seq<Coord>
  {
    Grid(Span(right - width + 1, right), Span(front - length + 1, front))
  }

  function OccupiedCells(r: Rect): seq<Coord>
  {
    RectangleOccupation(r.front, r.right, r.width, r.length)
  }

  /** Every lane of `lats` paired with the one longitude `long`. */
  function Column(lats: seq<int>, long: int): (cells: seq<Coord>)
    ensures |cells| == |lats|
    ensures forall i :: 0 <= i < |cells| ==> cells[i] == Coord(lats[i], long)
  {
    if lats == [] then [] else [Coord(lats[0], long)] + Column(lats[1..], long)
  }

  /** `front_cells`: the leading cell of every lane the rectangle covers, left to right. */
  function FrontCells(r: Rect): seq<Coord>
  {
    Column(WidthIterator(r), r.front)
  }

  lemma GridLength(lats: seq<int>, longs: seq<int>)
    ensures |Grid(lats, longs)| == |lats| * |longs|
  {
    if lats != [] {
      GridLength(lats[1..], longs);
      assert |lats| * |longs| == (|lats| - 1) * |longs| + |longs|;
    }
  }

  lemma GridMembership(lats: seq<int>, longs: seq<int>, c: Coord)
    ensures c in Grid(lats, longs) <==> c.lat in lats && c.long in longs
  {
    if lats != [] {
      GridMembership(lats[1..], longs, c);
      assert c in Row(lats[0], longs) <==> c.lat == lats[0] && c.long in longs by {
        if c.lat == lats[0] && c.long in longs {
          var i :| 0 <= i < |longs| && longs[i] == c.long;
          assert Row(lats[0], longs)[i] == c;
        }
      }
      assert lats == [lats[0]] + lats[1..];
    }
  }

  lemma DistinctConcat<T>(a: seq<T>, b: seq<T>)
    requires Distinct(a) && Distinct(b)
    requires forall x :: x in a ==> x !in b
    ensures Distinct(a + b)
  {
    forall i, j | 0 <= i < j < |a + b|
      ensures (a + b)[i] != (a + b)[j]
    {
      if j < |a| {
      } else if i >= |a| {
        assert (a + b)[i] == b[i - |a|] && (a + b)[j] == b[j - |a|];
      } else {
        assert (a + b)[i] in a && (a + b)[j] in b;
      }
    }
  }

  lemma GridDistinct(lats: seq<int>, longs: seq<int>)
    requires Distinct(lats) && Distinct(longs)
    ensures Distinct(Grid(lats, longs))
  {
    if lats != [] {
      var row, rest := Row(lats[0], longs), Grid(lats[1..], longs);
      GridDistinct(lats[1..], longs);
      forall x | x in row
        ensures x !in rest
      {
        GridMembership(lats[1..], longs, x);
        assert lats[0] !in lats[1..] by {
          forall k | 0 <= k < |lats[1..]|
            ensures lats[1..][k] != lats[0]
          {
            assert lats[1..][k] == lats[k + 1];
          }
        }
      }
      DistinctConcat(row, rest);
    }
  }

  lemma SpanDistinct(lo: int, hi: int)
    ensures Distinct(Span(lo, hi))
  {
  }

  /**
   * The cells of a rectangle: exactly `width * length` of them, no cell twice, and a cell
   * belongs to the rectangle exactly when its lane lies in `left ..= right` and its
   * longitude in `back ..= front`.
   */
  lemma OccupiedCellsShape(r: Rect)
    ensures |OccupiedCells(r)| == r.width * r.length
    ensures Distinct(OccupiedCells(r))
    ensures forall c :: c in OccupiedCells(r) <==>
      Left(r) <= c.lat <= r.right && Back(r) <= c.long <= r.front
  {
    var lats, longs := WidthIterator(r), LengthIterator(r);
    GridLength(lats, longs);
    SpanDistinct(Left(r), r.right);
    SpanDistinct(Back(r), r.front);
    GridDistinct(lats, longs);
    forall c
      ensures c in OccupiedCells(r) <==> Left(r) <= c.lat <= r.right && Back(r) <= c.long <= r.front
    {
      GridMembership(lats, longs, c);
      SpanMembership(Left(r), r.right, c.lat);
      SpanMembership(Back(r), r.front, c.long);
    }
  }

  /** Membership in a rectangle, one cell at a time. */
  lemma InRect(r: Rect, c: Coord)
    ensures c in OccupiedCells(r) <==> Left(r) <= c.lat <= r.right && Back(r) <= c.long <= r.front
  {
    OccupiedCellsShape(r);
  }

  /**
   * The front cells are the `width` cells of the front row, lane ascending from the left;
   * when the rectangle has any length they are among its occupied cells.
   */
  lemma FrontCellsShape(r: Rect)
    ensures |FrontCells(r)| == r.width
    ensures forall i :: 0 <= i < |FrontCells(r)| ==> FrontCells(r)[i] == Coord(Left(r) + i, r.front)
    ensures r.length >= 1 ==> forall c :: c in FrontCells(r) ==> c in OccupiedCells(r)
  {
    if r.length >= 1 {
      forall c | c in FrontCells(r)
        ensures c in OccupiedCells(r)
      {
        InRect(r, c);
      }
    }
  }

  // Lane predicates every occupier derives from its occupied cells.

  /** `occupier_is_within`: some cell lies in a lane left of `width`. */
  predicate IsWithin(cells: seq<Coord>, width: int)
  {
    exists c :: c in cells && c.lat < width
  }

  /** `occupier_is_entirely_within`: every cell lies in a lane left of `width`. */
  predicate IsEntirelyWithin(cells: seq<Coord>, width: int)
  {
    forall c :: c in cells ==> c.lat < width
  }

  /** `occupier_is_without`: some cell lies in lane `width` or further right. */
  predicate IsWithout(cells: seq<Coord>, width: int)
  {
    exists c :: c in cells && width <= c.lat
  }

  /** `occupier_is_entirely_without`: every cell lies in lane `width` or further right. */
  predicate IsEntirelyWithout(cells: seq<Coord>, width: int)
  {
    forall c :: c in cells ==> width <= c.lat
  }

  predicate Empty(r: Rect) { r.width == 0 || r.length == 0 }

  /**
   * For a rectangle the lane predicates depend only on its leftmost and rightmost lanes:
   * it reaches left of `w` iff its left lane does, and lies entirely left of `w` iff its
   * right lane does (an empty rectangle is entirely anywhere and partly nowhere).
   */
  lemma RectLanes(r: Rect, w: int)
    ensures IsWithin(OccupiedCells(r), w) <==> !Empty(r) && Left(r) < w
    ensures IsEntirelyWithin(OccupiedCells(r), w) <==> Empty(r) || r.right < w
    ensures IsWithout(OccupiedCells(r), w) <==> !Empty(r) && w <= r.right
    ensures IsEntirelyWithout(OccupiedCells(r), w) <==> Empty(r) || w <= Left(r)
  {
    OccupiedCellsShape(r);
    var cells := OccupiedCells(r);
    if !Empty(r) {
      assert Coord(Left(r), r.front) in cells;
      assert Coord(r.right, r.front) in cells;
    } else {
      assert |cells| == 0 by {
        if r.width == 0 {
        } else {
          assert r.width * r.length == 0;
        }
      }
    }
  }
}
