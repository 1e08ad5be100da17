/** The overlay of the first two versions (challenge1.js, challenge2.js):
    the frame is a pixel list, and drawing pixels over the background means
    dropping the background pixels on their cells and appending them. */
module ListOverlay {
  import opened Pixels

  /** `removePixels(grid, pixels)`: `r.filter` keeping the grid pixels whose
      cell key is not among the keys of `pixels`, colour ignored. */
  function RemovePixels<C>(grid: seq<Pixel<C>>, pixels: seq<Pixel<C>>): (r: seq<Pixel<C>>)
    ensures |r| <= |grid|
    ensures forall i :: 0 <= i < |r| ==> Coordinate(r[i]) !in Coords(pixels)
  {
    if grid == [] then []
    else if Coordinate(grid[0]) in Coords(pixels) then RemovePixels(grid[1..], pixels)
    else [grid[0]] + RemovePixels(grid[1..], pixels)
  }

  /** `fillBackground(color, pixels)`: the background without the covered
      pixels, then the overlay (`r.concat`). */
  function FillBackground<C>(color: C, pixels: seq<Pixel<C>>): (r: seq<Pixel<C>>)
    ensures |pixels| <= |r| <= WIDTH * HEIGHT + |pixels| && r[|r| - |pixels|..] == pixels
    ensures forall i :: 0 <= i < |r| - |pixels| ==> r[i].color == color && Coordinate(r[i]) !in Coords(pixels)
  {
    RemovePixelsColor(Background(color), pixels, color);
    RemovePixels(Background(color), pixels) + pixels
  }

  /** removePixels keeps pixels of the grid, so a one-coloured grid stays one-coloured. */
  lemma {:induction false} RemovePixelsColor<C>(grid: seq<Pixel<C>>, pixels: seq<Pixel<C>>, color: C)
    requires forall i :: 0 <= i < |grid| ==> grid[i].color == color
    ensures forall i :: 0 <= i < |RemovePixels(grid, pixels)| ==> RemovePixels(grid, pixels)[i].color == color
    decreases |grid|
  {
    if grid != [] {
      RemovePixelsColor(grid[1..], pixels, color);
    }
  }

  /** removePixels keeps the grid's order: its result is a subsequence of the grid. */
  lemma {:induction false} RemovePixelsIsSubsequence<C>(grid: seq<Pixel<C>>, pixels: seq<Pixel<C>>)
    ensures IsSubsequence(RemovePixels(grid, pixels), grid)
    decreases |grid|
  {
    if grid != [] {
      RemovePixelsIsSubsequence(grid[1..], pixels);
      var r := RemovePixels(grid, pixels);
      if Coordinate(grid[0]) !in Coords(pixels) {
        assert r[0] == grid[0] && r[1..] == RemovePixels(grid[1..], pixels);
      }
    }
  }

  /** removePixels drops a grid pixel exactly when some overlay pixel lies
      on its cell, and keeps every other one as often as the grid has it. */
  lemma {:induction false} RemovePixelsKeeps<C>(grid: seq<Pixel<C>>, pixels: seq<Pixel<C>>, p: Pixel<C>)
    ensures multiset(RemovePixels(grid, pixels))[p]
         == if Coordinate(p) in CoordSet(pixels) then 0 else multiset(grid)[p]
    decreases |grid|
  {
    CoordsMembership(pixels, Coordinate(p));
    if grid != [] {
      RemovePixelsKeeps(grid[1..], pixels, p);
      assert grid == [grid[0]] + grid[1..];
      CoordsMembership(pixels, Coordinate(grid[0]));
    }
  }

  /** The cells left after removePixels are the grid's cells minus the
      overlay's; a grid of distinct cells stays distinct. */
  lemma {:induction false} RemovePixelsCells<C>(grid: seq<Pixel<C>>, pixels: seq<Pixel<C>>)
    ensures CoordSet(RemovePixels(grid, pixels)) == CoordSet(grid) - CoordSet(pixels)
    ensures DistinctCoords(grid) ==> DistinctCoords(RemovePixels(grid, pixels))
    decreases |grid|
  {
    if grid != [] {
      var first, rest := grid[0], grid[1..];
      var c := Coordinate(first);
      RemovePixelsCells(rest, pixels);
      CoordsMembership(pixels, c);
      assert grid == [first] + rest;
      CoordSetCons(first, rest);
      if c !in Coords(pixels) {
        var tail := RemovePixels(rest, pixels);
        CoordSetCons(first, tail);
        if DistinctCoords(grid) {
          assert c !in CoordSet(tail) by {
            forall i | 0 <= i < |rest| ensures Coordinate(rest[i]) != c {
              assert rest[i] == grid[i + 1];
            }
          }
          var r := [first] + tail;
          forall i, j | 0 <= i < j < |r| ensures Coordinate(r[i]) != Coordinate(r[j]) {
            if i == 0 {
              assert Coordinate(tail[j - 1]) in CoordSet(tail);
            } else {
              assert r[i] == tail[i - 1] && r[j] == tail[j - 1];
            }
          }
        }
      }
    }
  }

  /** fillBackground puts the overlay last, unchanged and in order, after a
      subsequence of the background that avoids every overlay cell. */
  lemma FillBackgroundOverlay<C>(color: C, pixels: seq<Pixel<C>>)
    ensures |pixels| <= |FillBackground(color, pixels)|
    ensures FillBackground(color, pixels)[|FillBackground(color, pixels)| - |pixels|..] == pixels
    ensures IsSubsequence(FillBackground(color, pixels)[..|FillBackground(color, pixels)| - |pixels|], Background(color))
    ensures CoordSet(FillBackground(color, pixels)[..|FillBackground(color, pixels)| - |pixels|])
         == CoordSet(Background(color)) - CoordSet(pixels)
  {
    var kept := RemovePixels(Background(color), pixels);
    var r := FillBackground(color, pixels);
    assert r[..|r| - |pixels|] == kept;
    assert r[|r| - |pixels|..] == pixels;
    RemovePixelsIsSubsequence(Background(color), pixels);
    RemovePixelsCells(Background(color), pixels);
  }

  /** With overlay pixels on distinct in-range cells, fillBackground is a
      full frame: every cell of the board exactly once, WIDTH * HEIGHT pixels. */
  lemma FillBackgroundFullFrame<C>(color: C, pixels: seq<Pixel<C>>)
    requires DistinctCoords(pixels) && AllInBounds(pixels)
    ensures FullFrame(FillBackground(color, pixels))
    ensures |FillBackground(color, pixels)| == WIDTH * HEIGHT
  {
    var bg := Background(color);
    var kept := RemovePixels(bg, pixels);
    BackgroundIsFullFrame(color);
    RemovePixelsCells(bg, pixels);
    assert CoordSet(pixels) <= Board() by {
      forall c | c in CoordSet(pixels) ensures c in Board() {
        var i :| 0 <= i < |pixels| && Coordinate(pixels[i]) == c;
        assert InBounds(c);
        assert c == (c.0, c.1);
      }
    }
    ConcatDistinct(kept, pixels);
    FullFrameSize(FillBackground(color, pixels));
  }

  /** The first version's own call: a red pixel at (12, 12) on the blue
      background yields a full frame whose last pixel is the red one. */
  lemma FirstFrame()
    ensures FullFrame(FillBackground("#6495ed", [Pixel(12, 12, "#ff0000")]))
    ensures var f := FillBackground("#6495ed", [Pixel(12, 12, "#ff0000")]);
      |f| == WIDTH * HEIGHT && f[|f| - 1] == Pixel(12, 12, "#ff0000")
  {
    FillBackgroundFullFrame("#6495ed", [Pixel(12, 12, "#ff0000")]);
    FillBackgroundOverlay("#6495ed", [Pixel(12, 12, "#ff0000")]);
  }
}
