/** The gridmap overlay of the later versions: the background becomes a
    gridmap and pixels are drawn over it by merging (challenge3.js to
    challenge5.js: `fillBackground` with `r.merge`; challenge6.js:
    `createWorld` with `r.mergeAll`). */
module MapOverlay {
  import opened Pixels
  import opened Results
  import opened Gridmaps

  /** The background colour of the game, `BACKGROUND_COLOR` (and the
      colour of challenge3.js's `makeBlueBackground`). */
  const BACKGROUND_COLOR := "#6495ed"

  /** The value of the background gridmap: `toGridmap` of the background list. */
  function BackgroundGridmap<C>(color: C): (r: Gridmap<C>)
    ensures Valid(r)
  {
    ToGridmapLastWins(Background(color), (0, 0));
    GridmapOf(Background(color))
  }

  /** `makeBackground(color)` of challenge4.js, challenge5.js and
      challenge6.js: the same
      nested loops, then `toGridmap`. */
  method MakeBackgroundGridmap<C>(color: C) returns (grid: GridObject<C>)
    ensures fresh(grid) && grid.Value() == BackgroundGridmap(color)
  {
    var pixels := MakeBackground(color);
    grid := ToGridmap(pixels);
  }

  /** `fillBackground(color, pixels)` with `r.merge`: the background gridmap
      with the overlay's gridmap merged over it. */
  function FillBackground<C>(color: C, pixels: seq<Pixel<C>>): Gridmap<C>
  {
    BackgroundGridmapFacts(color);
    ToGridmapLastWins(pixels, (0, 0));
    Merge(BackgroundGridmap(color), GridmapOf(pixels))
  }

  /** `createWorld(world, snake, apple)`: `r.mergeAll` of the world, the
      snake's gridmap and the apple's, in that order. */
  function CreateWorld<C>(world: Gridmap<C>, snake: seq<Pixel<C>>, apple: Pixel<C>): Gridmap<C>
    requires Valid(world)
  {
    ToGridmapLastWins(snake, (0, 0));
    ToGridmapLastWins([apple], (0, 0));
    MergeAll([world, GridmapOf(snake), GridmapOf([apple])])
  }

  /** The background gridmap has one key per cell, in x-major order, and
      holds a pixel of the given colour at every cell of the board. */
  lemma BackgroundGridmapFacts<C>(color: C)
    ensures Valid(BackgroundGridmap(color))
    ensures BackgroundGridmap(color).keys == Coords(Background(color))
    ensures BackgroundGridmap(color).cells.Keys == Board()
    ensures forall k :: k in Board() ==> BackgroundGridmap(color).cells[k] == Pixel(k.0, k.1, color)
  {
    var bg := Background(color);
    BackgroundIsFullFrame(color);
    ToGridmapRoundTrip(bg);
    ToGridmapLastWins(bg, (0, 0));
    forall k | k in Board()
      ensures BackgroundGridmap(color).cells[k] == Pixel(k.0, k.1, color)
    {
      BackgroundAt(color, k.0, k.1);
      LastWithDistinct(bg, k.0 * HEIGHT + k.1);
      ToGridmapLastWins(bg, k);
    }
  }

  /** A well-formed gridmap whose keys are the background's, in order,
      flattens to a full frame. */
  lemma BoardKeysGiveFullFrame<C, D>(g: Gridmap<C>, color: D)
    requires Valid(g) && g.keys == Coords(Background(color))
    ensures FullFrame(PixelsOf(g))
    ensures PixelsOf(g) != [] && |PixelsOf(g)| == WIDTH * HEIGHT
  {
    PixelsOfKeys(g);
    BackgroundIsFullFrame(color);
    assert Coords(PixelsOf(g)) == Coords(Background(color));
    assert CoordSet(PixelsOf(g)) == CoordSet(Background(color)) by {
      forall c | c in CoordSet(PixelsOf(g)) ensures c in CoordSet(Background(color)) {
        var i :| 0 <= i < |PixelsOf(g)| && Coordinate(PixelsOf(g)[i]) == c;
        assert Coords(Background(color))[i] == c;
      }
      forall c | c in CoordSet(Background(color)) ensures c in CoordSet(PixelsOf(g)) {
        var i :| 0 <= i < |Background(color)| && Coordinate(Background(color)[i]) == c;
        assert Coords(PixelsOf(g))[i] == c;
      }
    }
  }

  lemma CoordSetInBoard<C>(ps: seq<Pixel<C>>)
    requires AllInBounds(ps)
    ensures CoordSet(ps) <= Board()
  {
    forall c | c in CoordSet(ps) ensures c in Board() {
      var i :| 0 <= i < |ps| && Coordinate(ps[i]) == c;
      assert InBounds(c) && c == (c.0, c.1);
    }
  }

  /** fillBackground with `r.merge`: every cell of the board is present; a
      cell an overlay pixel lies on holds the last such overlay pixel, any
      other board cell the background pixel of the given colour. With the
      overlay inside the board the key order is the background's, so the
      flattened frame is full. */
  lemma FillBackgroundLookup<C>(color: C, pixels: seq<Pixel<C>>, k: Coord)
    ensures Valid(FillBackground(color, pixels))
    ensures Board() <= FillBackground(color, pixels).cells.Keys
    ensures Lookup(FillBackground(color, pixels), k)
         == if k in CoordSet(pixels) then LastWith(pixels, k)
            else if k in Board() then Some(Pixel(k.0, k.1, color))
            else None
    ensures AllInBounds(pixels) ==> FillBackground(color, pixels).keys == Coords(Background(color))
    ensures AllInBounds(pixels) ==> FullFrame(PixelsOf(FillBackground(color, pixels)))
  {
    var bg := BackgroundGridmap(color);
    var over := GridmapOf(pixels);
    BackgroundGridmapFacts(color);
    ToGridmapLastWins(pixels, k);
    MergeLookup(bg, over, k);
    LastWithNone(pixels, k);
    forall c | c in Board() ensures c in FillBackground(color, pixels).cells {
      MergeLookup(bg, over, c);
    }
    if AllInBounds(pixels) {
      CoordSetInBoard(pixels);
      BoardKeysGiveFullFrame(FillBackground(color, pixels), color);
    }
  }

  /** createWorld merges layer by layer: the snake over the world, then
      the apple over that. */
  lemma CreateWorldUnfold<C>(world: Gridmap<C>, snake: seq<Pixel<C>>, apple: Pixel<C>)
    requires Valid(world)
    ensures Valid(GridmapOf(snake)) && Valid(GridmapOf([apple]))
    ensures Valid(Merge(world, GridmapOf(snake)))
    ensures CreateWorld(world, snake, apple) == Merge(Merge(world, GridmapOf(snake)), GridmapOf([apple]))
  {
    var s, a := GridmapOf(snake), GridmapOf([apple]);
    assert Valid(s) && Valid(a) by {
      ToGridmapLastWins(snake, (0, 0));
      ToGridmapLastWins([apple], (0, 0));
    }
    assert Valid(Merge(world, s)) && Merge(Merge(world, s), a) == SetAll(Merge(world, s), PixelsOf(a)) by {
      MergeLookup(world, s, (0, 0));
      MergeLookup(Merge(world, s), a, (0, 0));
    }
    assert CreateWorld(world, snake, apple) == SetAll(Merge(world, s), PixelsOf(a)) by {
      assert [world, s, a][..2] == [world, s];
    }
  }

  /** createWorld: the apple wins at its cell, then the snake (its last
      pixel on a cell), then the world; the keys are the union of the
      three. When snake and apple lie on cells the world already has, the
      key order is the world's. */
  lemma CreateWorldLookup<C>(world: Gridmap<C>, snake: seq<Pixel<C>>, apple: Pixel<C>, k: Coord)
    requires Valid(world)
    ensures Valid(CreateWorld(world, snake, apple))
    ensures Lookup(CreateWorld(world, snake, apple), k)
         == if k == Coordinate(apple) then Some(apple)
            else if k in CoordSet(snake) then LastWith(snake, k)
            else Lookup(world, k)
    ensures CreateWorld(world, snake, apple).cells.Keys
         == world.cells.Keys + CoordSet(snake) + {Coordinate(apple)}
    ensures CoordSet(snake) <= world.cells.Keys && Coordinate(apple) in world.cells
         ==> CreateWorld(world, snake, apple).keys == world.keys
  {
    CreateWorldUnfold(world, snake, apple);
    MergeTwice(world, GridmapOf(snake), GridmapOf([apple]), k);
    ToGridmapLastWins(snake, k);
    ToGridmapLastWins([apple], k);
    LastWithNone(snake, k);
    assert CoordSet([apple]) == {Coordinate(apple)} by {
      assert Coordinate([apple][0]) == Coordinate(apple);
    }
    assert [apple][..0] == [];
  }

  /** Two merges in a row: the top layer wins, then the middle one, then
      the bottom. */
  lemma MergeTwice<C>(world: Gridmap<C>, s: Gridmap<C>, a: Gridmap<C>, k: Coord)
    requires Valid(world) && Valid(s) && Valid(a)
    ensures Valid(Merge(world, s))
    ensures var w := Merge(Merge(world, s), a);
      && Valid(w)
      && Lookup(w, k) == (if k in a.cells then Lookup(a, k) else if k in s.cells then Lookup(s, k) else Lookup(world, k))
      && w.cells.Keys == world.cells.Keys + s.cells.Keys + a.cells.Keys
      && (s.cells.Keys <= world.cells.Keys && a.cells.Keys <= world.cells.Keys ==> w.keys == world.keys)
  {
    MergeLookup(world, s, k);
    MergeLookup(Merge(world, s), a, k);
  }
}
