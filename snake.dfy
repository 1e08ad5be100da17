/** The snake of the versions without an apple: a list of pixels, head
    first, that moves one cell per key press and ends the game when it
    leaves the board or runs into its own body. */
module Snake {
  import opened Pixels
  import opened Results
  import opened Gridmaps
  import opened MapOverlay
  import opened Directions

  const GREEN := "#00ff00"

  /** calculateNewHead: the head moved one cell along an arrow key, keeping
      its colour. "c" ends the program; any other key is refused. */
  function CalculateNewHead<C>(direction: string, pixel: Pixel<C>): (r: Result<Pixel<C>>)
    ensures r.Ok? <==> IsArrow(direction)
    ensures r.Ok? ==> Coordinate(r.value) == Shift(Coordinate(pixel), direction) && r.value.color == pixel.color
    ensures direction == "c" ==> r == Err(Quit)
    ensures !IsArrow(direction) && direction != "c" ==> r == Err(UnsupportedDirection(direction))
  {
    var Pixel(x, y, color) := pixel;
    if direction == "left" then Ok(Pixel(x - 1, y, color))
    else if direction == "right" then Ok(Pixel(x + 1, y, color))
    else if direction == "up" then Ok(Pixel(x, y - 1, color))
    else if direction == "down" then Ok(Pixel(x, y + 1, color))
    else if direction == "c" then Err(Quit)
    else Err(UnsupportedDirection(direction))
  }

  /** Pressing the opposite key moves a head back to where it was. */
  lemma CalculateNewHeadUndo<C>(direction: string, pixel: Pixel<C>)
    requires IsArrow(direction)
    ensures IsArrow(Opposite(direction))
    ensures CalculateNewHead(Opposite(direction), CalculateNewHead(direction, pixel).value) == Ok(pixel)
  {
    ShiftFacts(Coordinate(pixel), direction);
  }

  /** Each segment shares a side with the next one. */
  ghost predicate Connected<C>(snake: seq<Pixel<C>>)
  {
    forall i :: 0 <= i < |snake| - 1 ==> Adjacent(Coordinate(snake[i]), Coordinate(snake[i + 1]))
  }

  /** A snake as the game keeps it: not empty, on the board, never
      crossing itself, and in one piece. */
  ghost predicate WellFormed<C>(snake: seq<Pixel<C>>)
  {
    |snake| > 0 && DistinctCoords(snake) && AllInBounds(snake) && Connected(snake)
  }

  /** Every segment has the given colour. */
  ghost predicate Colored<C>(snake: seq<Pixel<C>>, color: C)
  {
    forall i :: 0 <= i < |snake| ==> snake[i].color == color
  }

  /** The body that stays put: the snake without its last segment (`r.dropLast(1, snake)`). */
  function Body<C>(snake: seq<Pixel<C>>): (r: seq<Pixel<C>>)
    requires |snake| > 0
    ensures |r| == |snake| - 1 && r + [snake[|snake| - 1]] == snake
  {
    snake[..|snake| - 1]
  }

  /** moveSnake: the new head in front of the body, and the frame that
      draws it over the background. The moved snake has the same length;
      its head is the old head shifted along the key, in the old head's
      colour, and every other segment takes the place of the one before
      it, so a one-coloured snake stays one-coloured. */
  function MoveSnake(direction: string, snake: seq<Pixel<string>>): (r: Result<(seq<Pixel<string>>, Gridmap<string>)>)
    requires |snake| > 0
    ensures r.Ok? <==> IsArrow(direction)
    ensures r.Err? ==> r.error == CalculateNewHead(direction, snake[0]).error
    ensures r.Ok? ==> |r.value.0| == |snake|
    ensures r.Ok? ==> Coordinate(r.value.0[0]) == Shift(Coordinate(snake[0]), direction)
    ensures r.Ok? ==> r.value.0[0].color == snake[0].color
    ensures r.Ok? ==> forall i :: 0 < i < |snake| ==> r.value.0[i] == snake[i - 1]
    ensures r.Ok? && Colored(snake, snake[0].color) ==> Colored(r.value.0, snake[0].color)
  {
    var newSnakeBody := Body(snake);
    var newSnakeHead :- CalculateNewHead(direction, snake[0]);
    var newSnake := [newSnakeHead] + newSnakeBody;
    Ok((newSnake, FillBackground(BACKGROUND_COLOR, newSnake)))
  }

  /** The frame of a moved snake: each segment's pixel on its cell, the
      background colour on every other cell of the board, and, while the
      snake stays on the board, every cell exactly once. */
  lemma MoveSnakeFrame(direction: string, snake: seq<Pixel<string>>)
    requires |snake| > 0 && IsArrow(direction)
    requires DistinctCoords(MoveSnake(direction, snake).value.0)
    ensures var (newSnake, world) := MoveSnake(direction, snake).value;
      Valid(world)
      && (forall i :: 0 <= i < |newSnake| ==> Lookup(world, Coordinate(newSnake[i])) == Some(newSnake[i]))
      && (forall k :: k in Board() && k !in CoordSet(newSnake) ==>
            Lookup(world, k) == Some(Pixel(k.0, k.1, BACKGROUND_COLOR)))
      && (AllInBounds(newSnake) ==> FullFrame(PixelsOf(world)))
  {
    var (newSnake, world) := MoveSnake(direction, snake).value;
    FillBackgroundLookup(BACKGROUND_COLOR, newSnake, (0, 0));
    forall i | 0 <= i < |newSnake|
      ensures Lookup(world, Coordinate(newSnake[i])) == Some(newSnake[i])
    {
      FillBackgroundLookup(BACKGROUND_COLOR, newSnake, Coordinate(newSnake[i]));
      LastWithDistinct(newSnake, i);
    }
    forall k | k in Board() && k !in CoordSet(newSnake)
      ensures Lookup(world, k) == Some(Pixel(k.0, k.1, BACKGROUND_COLOR))
    {
      FillBackgroundLookup(BACKGROUND_COLOR, newSnake, k);
    }
  }

  /** isSnakeRunsIntoWall: the moved head is off the board. */
  function IsSnakeRunsIntoWall(snake: seq<Pixel<string>>, direction: string): (r: Result<bool>)
    requires |snake| > 0
    ensures r.Ok? <==> IsArrow(direction)
    ensures r.Err? ==> r.error == CalculateNewHead(direction, snake[0]).error
    ensures r.Ok? ==> (r.value <==> !InBounds(Shift(Coordinate(snake[0]), direction)))
  {
    var (newSnake, _) :- MoveSnake(direction, snake);
    var head := newSnake[0];
    Ok(head.x < 0 || head.x >= WIDTH || head.y < 0 || head.y >= HEIGHT)
  }

  /** isSnakeEatsItself: the moved head's coordinate is one of the moved
      body's. The last segment has moved on, so the cell it leaves is
      free to enter. */
  function IsSnakeEatsItself(snake: seq<Pixel<string>>, direction: string): (r: Result<bool>)
    requires |snake| > 0
    ensures r.Ok? <==> IsArrow(direction)
    ensures r.Err? ==> r.error == CalculateNewHead(direction, snake[0]).error
    ensures r.Ok? ==> (r.value <==> Shift(Coordinate(snake[0]), direction) in CoordSet(Body(snake)))
  {
    var (newSnake, _) :- MoveSnake(direction, snake);
    var snakeCoords := Coords(newSnake);
    var head, tail := snakeCoords[0], snakeCoords[1..];
    assert tail == Coords(Body(snake));
    CoordsMembership(Body(snake), head);
    Ok(head in tail)
  }

  /** isGameOver: either check fires. Both are evaluated, so an unknown
      key fails the same way whichever is asked first. */
  function IsGameOver(snake: seq<Pixel<string>>, direction: string): (r: Result<bool>)
    requires |snake| > 0
    ensures r.Ok? <==> IsArrow(direction)
    ensures r.Err? ==> r.error == CalculateNewHead(direction, snake[0]).error
    ensures r.Ok? ==>
      (r.value <==> (var h := Shift(Coordinate(snake[0]), direction); !InBounds(h) || h in CoordSet(Body(snake))))
  {
    match (IsSnakeEatsItself(snake, direction), IsSnakeRunsIntoWall(snake, direction))
    case (Ok(eatsItself), Ok(runsIntoWall)) => Ok(eatsItself || runsIntoWall)
    case (Err(e), _) => Err(e)
    case (_, Err(e)) => Err(e)
  }

  /** One key press of moveAndDisplaySnakeOnKeypress: a losing move is
      refused before any new snake is built; otherwise the snake moves and
      the new frame is what gets displayed. */
  function OnKeypress(snake: seq<Pixel<string>>, direction: string): (r: Result<(seq<Pixel<string>>, Gridmap<string>)>)
    requires |snake| > 0
    ensures r == Err(GameOver) <==>
      IsArrow(direction) && (var h := Shift(Coordinate(snake[0]), direction); !InBounds(h) || h in CoordSet(Body(snake)))
    ensures r.Err? && r.error != GameOver ==> CalculateNewHead(direction, snake[0]) == Err(r.error)
    ensures r.Ok? ==> r == MoveSnake(direction, snake)
  {
    var gameOver :- IsGameOver(snake, direction);
    if gameOver then Err(GameOver) else MoveSnake(direction, snake)
  }

  /** The game keeps its snake well formed: a key press that neither
      ends the game nor quits yields a well-formed snake of the same
      length, and its frame covers the board once. It succeeds exactly
      when the moved head stays on the board and off the body. */
  lemma OnKeypressKeepsWellFormed(snake: seq<Pixel<string>>, direction: string)
    requires WellFormed(snake)
    ensures OnKeypress(snake, direction).Ok? <==>
      IsArrow(direction) && (var h := Shift(Coordinate(snake[0]), direction); InBounds(h) && h !in CoordSet(Body(snake)))
    ensures OnKeypress(snake, direction).Ok? ==>
      var (newSnake, world) := OnKeypress(snake, direction).value;
      WellFormed(newSnake) && |newSnake| == |snake| && Valid(world) && FullFrame(PixelsOf(world))
  {
    var r := OnKeypress(snake, direction);
    if r.Ok? {
      var (newSnake, world) := r.value;
      var h := Shift(Coordinate(snake[0]), direction);
      var body := Body(snake);
      assert newSnake == [newSnake[0]] + body;
      assert DistinctCoords(newSnake) by {
        forall i, j | 0 <= i < j < |newSnake|
          ensures Coordinate(newSnake[i]) != Coordinate(newSnake[j])
        {
          if i == 0 {
            assert newSnake[j] == body[j - 1];
          }
        }
      }
      assert AllInBounds(newSnake);
      assert Connected(newSnake) by {
        forall i | 0 <= i < |newSnake| - 1
          ensures Adjacent(Coordinate(newSnake[i]), Coordinate(newSnake[i + 1]))
        {
          if i == 0 {
            ShiftFacts(Coordinate(snake[0]), direction);
            assert Adjacent(Coordinate(snake[0]), h);
          }
        }
      }
      MoveSnakeFrame(direction, snake);
    }
  }

  /** The program's test: "right" moves the three-segment snake one cell
      to the right, colours unchanged. */
  lemma MoveSnakeRightExample()
    ensures MoveSnake("right", [Pixel(12, 12, GREEN), Pixel(11, 12, GREEN), Pixel(10, 12, GREEN)]).Ok?
    ensures MoveSnake("right", [Pixel(12, 12, GREEN), Pixel(11, 12, GREEN), Pixel(10, 12, GREEN)]).value.0
         == [Pixel(13, 12, GREEN), Pixel(12, 12, GREEN), Pixel(11, 12, GREEN)]
  {
  }

  /** The starting snake of main is well formed. */
  lemma InitialSnakeWellFormed()
    ensures WellFormed([Pixel(12, 12, GREEN), Pixel(11, 12, GREEN), Pixel(10, 12, GREEN)])
  {
  }
}
