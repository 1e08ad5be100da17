/** The single pixel that the arrow keys move over a blue background. */
module SinglePixel {
  import opened Pixels
  import opened Results
  import opened Gridmaps
  import opened MapOverlay
  import opened Directions

  const RED := "#ff0000"

  /** calculatePixelPos: the two-element position moved one step along an
      arrow key; every other key is refused with the "direction we don't
      support" error. */
  function CalculatePixelPos(direction: string, pixelPos: seq<int>): (r: Result<seq<int>>)
    requires |pixelPos| == 2
    ensures r.Ok? <==> IsArrow(direction)
    ensures r.Ok? ==> |r.value| == 2 && (r.value[0], r.value[1]) == Shift((pixelPos[0], pixelPos[1]), direction)
    ensures r.Err? ==> r.error == UnsupportedDirection(direction)
  {
    var x, y := pixelPos[0], pixelPos[1];
    if direction == "left" then Ok([x - 1, y])
    else if direction == "right" then Ok([x + 1, y])
    else if direction == "up" then Ok([x, y - 1])
    else if direction == "down" then Ok([x, y + 1])
    else Err(UnsupportedDirection(direction))
  }

  /** Pressing the opposite key brings the pixel back. */
  lemma CalculatePixelPosUndo(direction: string, pixelPos: seq<int>)
    requires |pixelPos| == 2 && IsArrow(direction)
    ensures IsArrow(Opposite(direction))
    ensures CalculatePixelPos(Opposite(direction), CalculatePixelPos(direction, pixelPos).value) == Ok(pixelPos)
  {
    var moved := CalculatePixelPos(direction, pixelPos).value;
    ShiftFacts((pixelPos[0], pixelPos[1]), direction);
    var back := CalculatePixelPos(Opposite(direction), moved).value;
    assert pixelPos == [pixelPos[0], pixelPos[1]];
    assert back == [pixelPos[0], pixelPos[1]];
  }

  /** The world movePixel displays: a fresh blue background in which the
      red pixel has been written at the new position. */
  function MovedWorld(newX: int, newY: int): (r: Gridmap<string>)
    ensures Valid(r)
    ensures Lookup(r, (newX, newY)) == Some(Pixel(newX, newY, RED))
  {
    Assign(BackgroundGridmap(BACKGROUND_COLOR), Pixel(newX, newY, RED))
  }

  /** movePixel: builds the blue background object, moves the position and
      writes the red pixel into the background in place. */
  method MovePixel(direction: string, pixelPos: seq<int>) returns (result: Result<(seq<int>, GridObject<string>)>)
    requires |pixelPos| == 2
    ensures result.Ok? <==> IsArrow(direction)
    ensures result.Err? ==> result.error == UnsupportedDirection(direction)
    ensures result.Ok? ==> result.value.0 == CalculatePixelPos(direction, pixelPos).value
    ensures result.Ok? ==>
      fresh(result.value.1) && result.value.1.Value() == MovedWorld(result.value.0[0], result.value.0[1])
  {
    var blue := MakeBackground(BACKGROUND_COLOR);
    var background := ToGridmap(blue);
    var newPos :- CalculatePixelPos(direction, pixelPos);
    var newPixel := Pixel(newPos[0], newPos[1], RED);
    background.SetPixel(newPixel);
    result := Ok((newPos, background));
  }

  /** The moved world holds the red pixel at the new position and the blue
      background everywhere else on the board. Nothing checks the bounds:
      inside the board the 625 keys stay in background order, while a
      position off the board adds one more key at the end. */
  lemma MovedWorldCells(newX: int, newY: int)
    ensures Valid(MovedWorld(newX, newY))
    ensures Lookup(MovedWorld(newX, newY), (newX, newY)) == Some(Pixel(newX, newY, RED))
    ensures forall k :: k in Board() && k != (newX, newY) ==>
      Lookup(MovedWorld(newX, newY), k) == Some(Pixel(k.0, k.1, BACKGROUND_COLOR))
    ensures InBounds((newX, newY)) ==> MovedWorld(newX, newY).keys == Coords(Background(BACKGROUND_COLOR))
    ensures InBounds((newX, newY)) ==> FullFrame(PixelsOf(MovedWorld(newX, newY)))
    ensures !InBounds((newX, newY)) ==>
      MovedWorld(newX, newY).keys == Coords(Background(BACKGROUND_COLOR)) + [(newX, newY)]
    ensures |MovedWorld(newX, newY).keys| == WIDTH * HEIGHT + (if InBounds((newX, newY)) then 0 else 1)
  {
    var bg := BackgroundGridmap(BACKGROUND_COLOR);
    var w := MovedWorld(newX, newY);
    BackgroundGridmapFacts(BACKGROUND_COLOR);
    BackgroundIsFullFrame(BACKGROUND_COLOR);
    assert Coordinate(Pixel(newX, newY, RED)) == (newX, newY);
    forall k | k in Board() && k != (newX, newY)
      ensures Lookup(w, k) == Some(Pixel(k.0, k.1, BACKGROUND_COLOR))
    {
      assert k in bg.cells;
    }
    assert |Coords(Background(BACKGROUND_COLOR))| == WIDTH * HEIGHT;
    if InBounds((newX, newY)) {
      assert (newX, newY) in Board();
      assert w.keys == bg.keys;
      BoardKeysGiveFullFrame(w, BACKGROUND_COLOR);
    } else {
      assert (newX, newY) !in bg.cells;
    }
  }
}
