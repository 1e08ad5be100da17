/** Gridmaps: a JavaScript object whose keys are cell coordinates and whose
    values are pixels. Object.keys returns these (non-numeric) keys in the
    order they were first written, so a gridmap is an insertion-ordered key
    list together with the map from key to pixel. */
module Gridmaps {
  import opened Pixels
  import opened Results

  datatype Gridmap<C> = Gridmap(keys: seq<Coord>, cells: map<Coord, Pixel<C>>)

  /** The object literal `{}`. */
  function Empty<C>(): Gridmap<C>
  {
    Gridmap([], map[])
  }

  /** What every gridmap the program builds satisfies: each key is listed
      once, the key list and the map agree, and each pixel is stored under
      its own coordinate. */
  ghost predicate Valid<C>(g: Gridmap<C>)
  {
    && (forall i, j :: 0 <= i < j < |g.keys| ==> g.keys[i] != g.keys[j])
    && (forall k :: k in g.cells <==> k in g.keys)
    && (forall k :: k in g.cells ==> Coordinate(g.cells[k]) == k)
  }

  /** `grid[key]`, with `undefined` as None. */
  function Lookup<C>(g: Gridmap<C>, k: Coord): Option<Pixel<C>>
  {
    if k in g.cells then Some(g.cells[k]) else None
  }

  /** The value-level effect of `grid[getCoordinate(pixel)] = pixel`: the
      entry at the pixel's cell is replaced, every other entry stays, an
      existing key keeps its place and a new key goes last. */
  function Assign<C>(g: Gridmap<C>, p: Pixel<C>): (r: Gridmap<C>)
    ensures Lookup(r, Coordinate(p)) == Some(p)
    ensures forall k :: k != Coordinate(p) ==> Lookup(r, k) == Lookup(g, k)
    ensures g.keys <= r.keys
    ensures Valid(g) ==> Valid(r)
    ensures Valid(g) ==> |r.keys| == |g.keys| + (if Coordinate(p) in g.cells then 0 else 1)
  {
    var k := Coordinate(p);
    Gridmap(if k in g.cells then g.keys else g.keys + [k], g.cells[k := p])
  }

  /** `r.reduce(setPixel, grid, pixels)`: write the pixels in list order. */
  function SetAll<C>(g: Gridmap<C>, ps: seq<Pixel<C>>): Gridmap<C>
    decreases |ps|
  {
    if ps == [] then g else Assign(SetAll(g, ps[..|ps| - 1]), ps[|ps| - 1])
  }

  /** The value `toGridmap(pixels)` computes. */
  function GridmapOf<C>(ps: seq<Pixel<C>>): Gridmap<C>
  {
    SetAll(Empty(), ps)
  }

  /** The value `fromGridmap(grid)` computes: the stored pixels in key order. */
  function PixelsOf<C>(g: Gridmap<C>): seq<Pixel<C>>
    requires Valid(g)
  {
    seq(|g.keys|, i requires 0 <= i < |g.keys| && g.keys[i] in g.cells => g.cells[g.keys[i]])
  }

  /** `r.mergeAll(layers)`, i.e. `Object.assign({}, ...layers)`: copy every
      layer's entries, in key order, layer after layer. `r.merge(a, b)` is
      the two-layer case. */
  function MergeAll<C>(layers: seq<Gridmap<C>>): Gridmap<C>
    requires forall i :: 0 <= i < |layers| ==> Valid(layers[i])
    decreases |layers|
  {
    if layers == [] then Empty()
    else SetAll(MergeAll(layers[..|layers| - 1]), PixelsOf(layers[|layers| - 1]))
  }

  function Merge<C>(a: Gridmap<C>, b: Gridmap<C>): Gridmap<C>
    requires Valid(a) && Valid(b)
  {
    MergeAll([a, b])
  }

  /** The pixel the last write to cell k leaves behind, if any. */
  function LastWith<C>(ps: seq<Pixel<C>>, k: Coord): Option<Pixel<C>>
    decreases |ps|
  {
    if ps == [] then None
    else if Coordinate(ps[|ps| - 1]) == k then Some(ps[|ps| - 1])
    else LastWith(ps[..|ps| - 1], k)
  }

  /** The pixel of the last layer that defines cell k, if any. */
  function LastLayerWith<C>(layers: seq<Gridmap<C>>, k: Coord): Option<Pixel<C>>
    decreases |layers|
  {
    if layers == [] then None
    else if k in layers[|layers| - 1].cells then Some(layers[|layers| - 1].cells[k])
    else LastLayerWith(layers[..|layers| - 1], k)
  }

  // ---------------------------------------------------------------------
  // The mutable object

  /** A JavaScript object used as a gridmap; `setPixel` updates it in place. */
  class GridObject<C> {
    var keys: seq<Coord>
    var cells: map<Coord, Pixel<C>>

    function Value(): Gridmap<C>
      reads this
    {
      Gridmap(keys, cells)
    }

    /** `{}` */
    constructor ()
      ensures Value() == Empty()
    {
      keys := [];
      cells := map[];
    }

    /** `setPixel(grid, pixel)`: `grid[getCoordinate(pixel)] = pixel`. */
    method SetPixel(p: Pixel<C>)
      modifies this
      ensures Value() == Assign(old(Value()), p)
    {
      var k := Coordinate(p);
      if k !in cells {
        keys := keys + [k];
      }
      cells := cells[k := p];
    }
  }

  /** `toGridmap(pixels)`: a fresh object, then setPixel for each pixel. */
  method ToGridmap<C>(pixels: seq<Pixel<C>>) returns (grid: GridObject<C>)
    ensures fresh(grid) && grid.Value() == GridmapOf(pixels)
  {
    grid := new GridObject();
    var i := 0;
    while i < |pixels|
      invariant 0 <= i <= |pixels|
      invariant grid.Value() == GridmapOf(pixels[..i])
    {
      assert pixels[..i + 1][..i] == pixels[..i];
      grid.SetPixel(pixels[i]);
      i := i + 1;
    }
    assert pixels[..|pixels|] == pixels;
  }

  /** `fromGridmap(grid)`: push `grid[key]` for each key of `Object.keys(grid)`. */
  method FromGridmap<C>(grid: GridObject<C>) returns (pixels: seq<Pixel<C>>)
    requires Valid(grid.Value())
    ensures pixels == PixelsOf(grid.Value())
  {
    pixels := [];
    var i := 0;
    while i < |grid.keys|
      invariant 0 <= i <= |grid.keys|
      invariant pixels == PixelsOf(grid.Value())[..i]
    {
      pixels := pixels + [grid.cells[grid.keys[i]]];
      i := i + 1;
    }
  }

  // ---------------------------------------------------------------------
  // Writing a list of pixels

  /** Writing pixels in order leaves, at each cell, the last pixel written
      there, and the old entry where nothing was written. */
  lemma {:induction false} SetAllLookup<C>(g: Gridmap<C>, ps: seq<Pixel<C>>, k: Coord)
    ensures Lookup(SetAll(g, ps), k) == if LastWith(ps, k).Some? then LastWith(ps, k) else Lookup(g, k)
    decreases |ps|
  {
    if ps != [] {
      SetAllLookup(g, ps[..|ps| - 1], k);
    }
  }

  /** Writes keep the object well formed and never reorder existing keys;
      the key set grows by the cells written. */
  lemma {:induction false} SetAllValid<C>(g: Gridmap<C>, ps: seq<Pixel<C>>)
    requires Valid(g)
    ensures Valid(SetAll(g, ps))
    ensures g.keys <= SetAll(g, ps).keys
    ensures SetAll(g, ps).cells.Keys == g.cells.Keys + CoordSet(ps)
    decreases |ps|
  {
    if ps != [] {
      var front, last := ps[..|ps| - 1], ps[|ps| - 1];
      var mid := SetAll(g, front);
      SetAllValid(g, front);
      CoordSetFront(ps);
    }
  }

  /** Writing only cells that already exist leaves the key order alone. */
  lemma {:induction false} SetAllKeepsKeys<C>(g: Gridmap<C>, ps: seq<Pixel<C>>)
    requires Valid(g)
    requires CoordSet(ps) <= g.cells.Keys
    ensures SetAll(g, ps).keys == g.keys
    decreases |ps|
  {
    if ps != [] {
      var front, last := ps[..|ps| - 1], ps[|ps| - 1];
      CoordSetFront(ps);
      SetAllKeepsKeys(g, front);
      SetAllValid(g, front);
    }
  }

  /** Writing pixels on new, pairwise distinct cells appends their cells to
      the key list in list order. */
  lemma {:induction false} SetAllAppendsKeys<C>(g: Gridmap<C>, ps: seq<Pixel<C>>)
    requires Valid(g) && DistinctCoords(ps)
    requires CoordSet(ps) !! g.cells.Keys
    ensures SetAll(g, ps).keys == g.keys + Coords(ps)
    decreases |ps|
  {
    if ps != [] {
      var n := |ps| - 1;
      var front, last := ps[..n], ps[n];
      var c := Coordinate(last);
      var mid := SetAll(g, front);
      CoordSetFront(ps);
      assert mid.keys == g.keys + Coords(front) by {
        SetAllAppendsKeys(g, front);
      }
      assert c !in mid.cells by {
        SetAllValid(g, front);
        forall i | 0 <= i < |front| ensures Coordinate(front[i]) != c {
          assert Coordinate(ps[i]) != Coordinate(ps[n]);
        }
      }
      assert SetAll(g, ps).keys == mid.keys + [c];
      CoordsSnoc(ps);
    }
  }

  /** In a list of distinct cells, each pixel is the last one at its cell. */
  lemma {:induction false} LastWithDistinct<C>(ps: seq<Pixel<C>>, i: int)
    requires DistinctCoords(ps) && 0 <= i < |ps|
    ensures LastWith(ps, Coordinate(ps[i])) == Some(ps[i])
    decreases |ps|
  {
    if i < |ps| - 1 {
      LastWithDistinct(ps[..|ps| - 1], i);
    }
  }

  /** Nothing was written at cell k exactly when no pixel of the list lies on k. */
  lemma {:induction false} LastWithNone<C>(ps: seq<Pixel<C>>, k: Coord)
    ensures LastWith(ps, k).None? <==> k !in CoordSet(ps)
    ensures LastWith(ps, k).Some? ==> Coordinate(LastWith(ps, k).value) == k
    decreases |ps|
  {
    if ps != [] {
      LastWithNone(ps[..|ps| - 1], k);
      CoordSetFront(ps);
    }
  }

  // ---------------------------------------------------------------------
  // Round trips

  /** `fromGridmap` gives one pixel per key, in key order, each on its own cell. */
  lemma PixelsOfKeys<C>(g: Gridmap<C>)
    requires Valid(g)
    ensures |PixelsOf(g)| == |g.keys|
    ensures Coords(PixelsOf(g)) == g.keys
    ensures DistinctCoords(PixelsOf(g))
    ensures CoordSet(PixelsOf(g)) == g.cells.Keys
    ensures forall i :: 0 <= i < |g.keys| ==> PixelsOf(g)[i] == g.cells[g.keys[i]]
  {
    var ps := PixelsOf(g);
    assert Coords(ps) == g.keys;
    forall c | c in g.cells.Keys ensures c in CoordSet(ps) {
      var i :| 0 <= i < |g.keys| && g.keys[i] == c;
      assert Coordinate(ps[i]) == c;
    }
  }

  /** Writing out a gridmap's own pixels leaves, at each cell, its entry. */
  lemma PixelsOfLastWith<C>(g: Gridmap<C>, k: Coord)
    requires Valid(g)
    ensures LastWith(PixelsOf(g), k) == Lookup(g, k)
  {
    PixelsOfKeys(g);
    LastWithNone(PixelsOf(g), k);
    if k in g.cells {
      var i :| 0 <= i < |g.keys| && g.keys[i] == k;
      LastWithDistinct(PixelsOf(g), i);
    }
  }

  /** `fromGridmap(toGridmap(ps)) == ps` for pixels on distinct cells, and
      the keys of `toGridmap(ps)` are their cells in list order. */
  lemma ToGridmapRoundTrip<C>(ps: seq<Pixel<C>>)
    requires DistinctCoords(ps)
    ensures Valid(GridmapOf(ps))
    ensures GridmapOf(ps).keys == Coords(ps)
    ensures PixelsOf(GridmapOf(ps)) == ps
  {
    var g := GridmapOf(ps);
    assert Valid(g) by { SetAllValid(Empty(), ps); }
    assert g.keys == Coords(ps) by { SetAllAppendsKeys(Empty(), ps); }
    var out := PixelsOf(g);
    forall i | 0 <= i < |ps|
      ensures out[i] == ps[i]
    {
      var c := Coordinate(ps[i]);
      assert Lookup(g, c) == Some(ps[i]) by {
        SetAllLookup(Empty(), ps, c);
        LastWithDistinct(ps, i);
      }
    }
  }

  /** `toGridmap(fromGridmap(g)) == g` for every well-formed gridmap. */
  lemma FromGridmapRoundTrip<C>(g: Gridmap<C>)
    requires Valid(g)
    ensures GridmapOf(PixelsOf(g)) == g
  {
    var ps := PixelsOf(g);
    var r := GridmapOf(ps);
    assert r.keys == g.keys by {
      PixelsOfKeys(g);
      SetAllAppendsKeys(Empty(), ps);
    }
    assert r.cells == g.cells by {
      forall k ensures Lookup(r, k) == Lookup(g, k) {
        SetAllLookup(Empty(), ps, k);
        PixelsOfLastWith(g, k);
      }
      assert r.cells.Keys == g.cells.Keys by {
        forall k ensures k in r.cells <==> k in g.cells {
          assert Lookup(r, k) == Lookup(g, k);
        }
      }
      forall k | k in g.cells ensures r.cells[k] == g.cells[k] {
        assert Lookup(r, k) == Lookup(g, k);
      }
    }
  }

  /** Last write wins: `toGridmap(ps)` holds, at each cell, the last pixel
      of ps on that cell, and has a key for exactly the cells ps covers. */
  lemma ToGridmapLastWins<C>(ps: seq<Pixel<C>>, k: Coord)
    ensures Valid(GridmapOf(ps))
    ensures GridmapOf(ps).cells.Keys == CoordSet(ps)
    ensures Lookup(GridmapOf(ps), k) == LastWith(ps, k)
  {
    SetAllValid(Empty(), ps);
    SetAllLookup(Empty(), ps, k);
  }

  // ---------------------------------------------------------------------
  // Merging

  /** Merging well-formed layers gives a well-formed gridmap holding, at
      each cell, the pixel of the last layer that defines it; its keys are
      the union of the layers' keys. */
  lemma {:induction false} MergeAllLookup<C>(layers: seq<Gridmap<C>>, k: Coord)
    requires forall i :: 0 <= i < |layers| ==> Valid(layers[i])
    ensures Valid(MergeAll(layers))
    ensures Lookup(MergeAll(layers), k) == LastLayerWith(layers, k)
    decreases |layers|
  {
    if layers != [] {
      var n := |layers| - 1;
      var front := layers[..n];
      MergeAllLookup(front, k);
      var top := layers[n];
      PixelsOfKeys(top);
      SetAllValid(MergeAll(front), PixelsOf(top));
      SetAllLookup(MergeAll(front), PixelsOf(top), k);
      LastWithNone(PixelsOf(top), k);
      if k in top.cells {
        var i :| 0 <= i < |top.keys| && top.keys[i] == k;
        LastWithDistinct(PixelsOf(top), i);
      }
    }
  }

  /** `r.merge(a, b)`: b's pixel wherever b has one, a's elsewhere; the keys
      of a keep their order and b's new keys follow. */
  lemma MergeLookup<C>(a: Gridmap<C>, b: Gridmap<C>, k: Coord)
    requires Valid(a) && Valid(b)
    ensures Valid(Merge(a, b))
    ensures Lookup(Merge(a, b), k) == if k in b.cells then Lookup(b, k) else Lookup(a, k)
    ensures Merge(a, b).cells.Keys == a.cells.Keys + b.cells.Keys
    ensures a.keys <= Merge(a, b).keys
    ensures b.cells.Keys <= a.cells.Keys ==> Merge(a, b).keys == a.keys
    ensures Merge(a, b) == SetAll(a, PixelsOf(b))
  {
    assert Merge(a, b) == SetAll(a, PixelsOf(b)) by {
      assert MergeAll([a]) == a by {
        assert [a][..0] == [];
        FromGridmapRoundTrip(a);
      }
      assert [a, b][..1] == [a];
    }
    var ps := PixelsOf(b);
    assert Lookup(SetAll(a, ps), k) == if k in b.cells then Lookup(b, k) else Lookup(a, k) by {
      SetAllLookup(a, ps, k);
      PixelsOfLastWith(b, k);
    }
    assert CoordSet(ps) == b.cells.Keys by {
      PixelsOfKeys(b);
    }
    SetAllValid(a, ps);
    if b.cells.Keys <= a.cells.Keys {
      SetAllKeepsKeys(a, ps);
    }
  }

  // ---------------------------------------------------------------------
  // The program's own tests of toGridmap / fromGridmap

  /** `toGridmap([])` is `{}`. */
  lemma ToGridmapOfNothing<C>()
    ensures GridmapOf<C>([]) == Empty()
  {
  }

  /** `toGridmap([makePixel(0,0,0)])` is `{"0 0": pixel}`. */
  lemma ToGridmapOfOne()
    ensures GridmapOf([Pixel(0, 0, 0)]) == Gridmap([(0, 0)], map[(0, 0) := Pixel(0, 0, 0)])
    ensures CoordinateKey(Pixel(0, 0, 0)) == "0 0"
  {
    assert [Pixel(0, 0, 0)][..0] == [];
  }

  /** The round trip on the three pixels of the program's test. */
  lemma RoundTripExample()
    ensures Valid(GridmapOf([Pixel(0, 0, 0), Pixel(1, 1, 1), Pixel(2, 2, 3)]))
    ensures PixelsOf(GridmapOf([Pixel(0, 0, 0), Pixel(1, 1, 1), Pixel(2, 2, 3)]))
         == [Pixel(0, 0, 0), Pixel(1, 1, 1), Pixel(2, 2, 3)]
  {
    ToGridmapRoundTrip([Pixel(0, 0, 0), Pixel(1, 1, 1), Pixel(2, 2, 3)]);
  }
}
