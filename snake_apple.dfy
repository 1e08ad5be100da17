/** The snake that eats apples: the apple sits on a free cell, the snake
    grows by one segment when its head reaches it, and a new apple is put
    on a cell picked at random among the cells the snake does not cover. */
module AppleSnake {
  import opened Pixels
  import opened Results
  import opened Gridmaps
  import opened MapOverlay
  import opened Directions
  import Snake

  const APPLE_COLOR := "#FFFF00"

  /** The cell the head enters when the key is pressed. */
  function NextCell<C>(snake: seq<Pixel<C>>, direction: string): Coord
    requires |snake| > 0 && IsArrow(direction)
  {
    Shift(Coordinate(snake[0]), direction)
  }

  /** isSnakeEatsApple: the moved head lands on the apple's cell, whatever
      the colours. */
  function IsSnakeEatsApple(snake: seq<Pixel<string>>, direction: string, apple: Pixel<string>): (r: Result<bool>)
    requires |snake| > 0
    ensures r.Ok? <==> IsArrow(direction)
    ensures r.Err? ==> r.error == Snake.CalculateNewHead(direction, snake[0]).error
    ensures r.Ok? ==> (r.value <==> NextCell(snake, direction) == Coordinate(apple))
  {
    var head :- Snake.CalculateNewHead(direction, snake[0]);
    Ok(SameCoordinate(head, apple))
  }

  // ---------------------------------------------------------------------
  // Apple placement

  /** `r.differenceWith` with coordinate equality: the pixels of `first`,
      in order, whose cell is not covered by `second`, each cell once. */
  function DifferenceWith<C>(first: seq<Pixel<C>>, second: seq<Pixel<C>>): seq<Pixel<C>>
    decreases |first|
  {
    if first == [] then []
    else
      var out := DifferenceWith(first[..|first| - 1], second);
      var p := first[|first| - 1];
      if Coordinate(p) in CoordSet(second) || Coordinate(p) in CoordSet(out) then out else out + [p]
  }

  /** differenceWith is the set difference on cells, without duplicates,
      in the order of the first list. */
  lemma {:induction false} DifferenceWithFacts<C>(first: seq<Pixel<C>>, second: seq<Pixel<C>>)
    ensures CoordSet(DifferenceWith(first, second)) == CoordSet(first) - CoordSet(second)
    ensures DistinctCoords(DifferenceWith(first, second))
    ensures IsSubsequence(DifferenceWith(first, second), first)
    decreases |first|
  {
    if first != [] {
      var front := first[..|first| - 1];
      var p := first[|first| - 1];
      var out := DifferenceWith(front, second);
      DifferenceWithFacts(front, second);
      assert first == front + [p];
      CoordSetSnoc(front, p);
      SubsequenceSnoc(out, front, p);
      if !(Coordinate(p) in CoordSet(second) || Coordinate(p) in CoordSet(out)) {
        var d := out + [p];
        CoordSetSnoc(out, p);
        assert DistinctCoords(d) by {
          forall i | 0 <= i < |out| ensures Coordinate(d[i]) != Coordinate(p) {
            assert Coordinate(out[i]) in CoordSet(out);
          }
        }
      }
    }
  }

  /** The index `Math.floor(Math.random() * arr.length)` for a draw `rnd`
      in [0, 1). */
  function RandIndex(rnd: real, n: nat): int
  {
    (rnd * n as real).Floor
  }

  lemma RandIndexInRange(rnd: real, n: nat)
    requires 0.0 <= rnd < 1.0 && n > 0
    ensures 0 <= RandIndex(rnd, n) < n
  {
    var x := rnd * n as real;
    assert 0.0 <= x by {
      assert 0.0 <= n as real;
    }
    assert x < n as real by {
      assert (1.0 - rnd) * n as real > 0.0;
    }
  }

  /** randNth: the element at the drawn index; nothing (`undefined`) for
      an empty list. */
  function RandNth<T>(arr: seq<T>, rnd: real): (r: Option<T>)
    requires 0.0 <= rnd < 1.0
    ensures r.Some? <==> |arr| > 0
    ensures r.Some? ==> 0 <= RandIndex(rnd, |arr|) < |arr| && r.value == arr[RandIndex(rnd, |arr|)]
  {
    var i := RandIndex(rnd, |arr|);
    if |arr| > 0 then RandIndexInRange(rnd, |arr|); Some(arr[i]) else None
  }

  /** Every element of a non-empty list is drawn for some `rnd`. */
  lemma RandNthReaches<T>(arr: seq<T>, i: int)
    requires 0 <= i < |arr|
    ensures 0.0 <= i as real / |arr| as real < 1.0
    ensures RandNth(arr, i as real / |arr| as real) == Some(arr[i])
  {
    var n := |arr| as real;
    var rnd := i as real / n;
    assert rnd * n == i as real;
    assert RandIndex(rnd, |arr|) == i;
  }

  /** placeApple: the world's pixels on cells the snake does not cover,
      one of them picked by the draw `rnd` and painted yellow. With no
      free cell left the program crashes; here that is NoFreeCell. */
  function PlaceApple(snake: seq<Pixel<string>>, world: Gridmap<string>, rnd: real): (r: Result<Pixel<string>>)
    requires Valid(world) && 0.0 <= rnd < 1.0
    ensures r.Ok? <==> !(world.cells.Keys <= CoordSet(snake))
    ensures r.Err? ==> r.error == NoFreeCell
    ensures r.Ok? ==> Coordinate(r.value) in world.cells && Coordinate(r.value) !in CoordSet(snake)
    ensures r.Ok? ==> r.value == world.cells[Coordinate(r.value)].(color := APPLE_COLOR)
  {
    var worldArray := PixelsOf(world);
    var placesWithoutSnek := DifferenceWith(worldArray, snake);
    PlaceAppleFacts(snake, world, rnd);
    match RandNth(placesWithoutSnek, rnd)
    case None => Err(NoFreeCell)
    case Some(applePixel) => Ok(applePixel.(color := APPLE_COLOR))
  }

  /** The free list holds the world's own pixels, one per free cell. */
  lemma PlaceAppleFacts(snake: seq<Pixel<string>>, world: Gridmap<string>, rnd: real)
    requires Valid(world) && 0.0 <= rnd < 1.0
    ensures var free := DifferenceWith(PixelsOf(world), snake);
      CoordSet(free) == world.cells.Keys - CoordSet(snake)
      && (|free| > 0 <==> !(world.cells.Keys <= CoordSet(snake)))
      && forall i :: 0 <= i < |free| ==> Coordinate(free[i]) in world.cells && free[i] == world.cells[Coordinate(free[i])]
  {
    var worldArray := PixelsOf(world);
    var free := DifferenceWith(worldArray, snake);
    PixelsOfKeys(world);
    DifferenceWithFacts(worldArray, snake);
    forall i | 0 <= i < |free|
      ensures Coordinate(free[i]) in world.cells && free[i] == world.cells[Coordinate(free[i])]
    {
      SubsequenceElement(free, worldArray, i);
      var j :| 0 <= j < |worldArray| && free[i] == worldArray[j];
      assert worldArray[j] == world.cells[world.keys[j]];
    }
    if |free| > 0 {
      assert Coordinate(free[0]) in CoordSet(free);
    } else {
      forall k | k in world.cells.Keys ensures k in CoordSet(snake) {
        assert k !in CoordSet(free);
      }
    }
  }

  /** The apple is drawn from the free cells in world order, and every
      free cell is the apple's for some draw. */
  lemma PlaceAppleReachesEveryFreeCell(snake: seq<Pixel<string>>, world: Gridmap<string>, c: Coord)
    requires Valid(world) && c in world.cells && c !in CoordSet(snake)
    ensures exists rnd :: 0.0 <= rnd < 1.0 && PlaceApple(snake, world, rnd) == Ok(world.cells[c].(color := APPLE_COLOR))
  {
    var free := DifferenceWith(PixelsOf(world), snake);
    PlaceAppleFacts(snake, world, 0.0);
    assert c in CoordSet(free);
    var i :| 0 <= i < |free| && Coordinate(free[i]) == c;
    RandNthReaches(free, i);
    var rnd := i as real / |free| as real;
    assert PlaceApple(snake, world, rnd) == Ok(world.cells[c].(color := APPLE_COLOR));
  }

  // ---------------------------------------------------------------------
  // Moving and growing

  /** moveSnake with apples: the new head goes in front; when it lands on
      the apple the whole old snake stays behind it and a new apple is
      placed on the fresh background, otherwise the last segment is
      dropped and the apple stays. The world is background, snake and
      apple merged in that order. */
  function MoveSnake(direction: string, snake: seq<Pixel<string>>, apple: Pixel<string>, rnd: real): (r: Result<(seq<Pixel<string>>, Pixel<string>, Gridmap<string>)>)
    requires |snake| > 0 && 0.0 <= rnd < 1.0
    ensures r.Ok? ==> IsArrow(direction) && |r.value.0| > 0
    ensures !IsArrow(direction) ==> r == Err(Snake.CalculateNewHead(direction, snake[0]).error)
  {
    var newSnakeBody := Snake.Body(snake);
    var newSnakeHead :- Snake.CalculateNewHead(direction, snake[0]);
    // the same key was just accepted, so this second head computation succeeds too
    var snakeAteApple := IsSnakeEatsApple(snake, direction, apple).value;
    var newSnake := if snakeAteApple then [newSnakeHead] + snake else [newSnakeHead] + newSnakeBody;
    var world := BackgroundGridmap(BACKGROUND_COLOR);
    var newApple :- if snakeAteApple then PlaceApple(newSnake, world, rnd) else Ok(apple);
    Ok((newSnake, newApple, CreateWorld(world, newSnake, newApple)))
  }

  /** The snake moveSnake builds: the new head before the whole old snake
      when the apple is eaten, before the body otherwise. */
  function MovedSnake(direction: string, snake: seq<Pixel<string>>, apple: Pixel<string>): (r: seq<Pixel<string>>)
    requires |snake| > 0 && IsArrow(direction)
    ensures |r| > 0 && Coordinate(r[0]) == NextCell(snake, direction) && r[0].color == snake[0].color
    ensures r[1..] == if NextCell(snake, direction) == Coordinate(apple) then snake else Snake.Body(snake)
    ensures CoordSet(r) == CoordSet(r[1..]) + {NextCell(snake, direction)}
  {
    var head := Snake.CalculateNewHead(direction, snake[0]).value;
    var r := [head] + (if NextCell(snake, direction) == Coordinate(apple) then snake else Snake.Body(snake));
    assert r == [r[0]] + r[1..];
    CoordSetCons(r[0], r[1..]);
    r
  }

  /** A successful move builds the moved snake. */
  lemma MoveSnakeGrows(direction: string, snake: seq<Pixel<string>>, apple: Pixel<string>, rnd: real)
    requires |snake| > 0 && 0.0 <= rnd < 1.0
    requires MoveSnake(direction, snake, apple, rnd).Ok?
    ensures IsArrow(direction)
    ensures MoveSnake(direction, snake, apple, rnd).value.0 == MovedSnake(direction, snake, apple)
  {
  }

  /** What a move does for an arrow key. It fails only when the apple is
      eaten and the grown snake covers the whole board. The snake is the
      moved one; the apple stays unless eaten, and a new one is a yellow
      pixel on a board cell off the grown snake; the world draws them over
      the background. */
  lemma MoveSnakeOutcome(direction: string, snake: seq<Pixel<string>>, apple: Pixel<string>, rnd: real)
    requires |snake| > 0 && 0.0 <= rnd < 1.0 && IsArrow(direction)
    ensures var r := MoveSnake(direction, snake, apple, rnd);
      (r.Err? <==> NextCell(snake, direction) == Coordinate(apple) && Board() <= CoordSet(snake) + {Coordinate(apple)})
      && (r.Err? ==> r.error == NoFreeCell)
    ensures var r := MoveSnake(direction, snake, apple, rnd);
      r.Ok? ==>
        r.value.0 == MovedSnake(direction, snake, apple) && r.value.2 == CreateWorld(BackgroundGridmap(BACKGROUND_COLOR), r.value.0, r.value.1)
    ensures var r := MoveSnake(direction, snake, apple, rnd);
      r.Ok? && NextCell(snake, direction) != Coordinate(apple) ==> r.value.1 == apple
    ensures var r := MoveSnake(direction, snake, apple, rnd);
      r.Ok? && NextCell(snake, direction) == Coordinate(apple) ==>
        var newApple := r.value.1;
        newApple == Pixel(newApple.x, newApple.y, APPLE_COLOR)
        && Coordinate(newApple) in Board() && Coordinate(newApple) !in CoordSet(r.value.0)
  {
    var r := MoveSnake(direction, snake, apple, rnd);
    var newSnake := MovedSnake(direction, snake, apple);
    var world := BackgroundGridmap(BACKGROUND_COLOR);
    BackgroundGridmapFacts(BACKGROUND_COLOR);
    if NextCell(snake, direction) == Coordinate(apple) {
      var placed := PlaceApple(newSnake, world, rnd);
      assert r == if placed.Err? then Err(placed.error) else Ok((newSnake, placed.value, CreateWorld(world, newSnake, placed.value)));
      if placed.Ok? {
        var k := Coordinate(placed.value);
        assert world.cells[k] == Pixel(k.0, k.1, BACKGROUND_COLOR);
      }
    } else {
      assert r == Ok((newSnake, apple, CreateWorld(world, newSnake, apple)));
    }
  }

  /** isSnakeRunsIntoWall: the moved head is off the board. */
  function IsSnakeRunsIntoWall(snake: seq<Pixel<string>>, direction: string): (r: Result<bool>)
    requires |snake| > 0
    ensures r.Ok? <==> IsArrow(direction)
    ensures r.Err? ==> r.error == Snake.CalculateNewHead(direction, snake[0]).error
    ensures r.Ok? ==> (r.value <==> !InBounds(NextCell(snake, direction)))
  {
    var head :- Snake.CalculateNewHead(direction, snake[0]);
    Ok(head.x < 0 || head.x >= WIDTH || head.y < 0 || head.y >= HEIGHT)
  }

  /** isSnakeEatsItself: after the move, the head's cell is one of the
      other segments'. Without the apple the last segment has moved on;
      with it the old tail stays and counts. The move places an apple of
      its own, which is thrown away, so it takes a draw of its own. */
  function IsSnakeEatsItself(snake: seq<Pixel<string>>, apple: Pixel<string>, direction: string, rnd: real): (r: Result<bool>)
    requires |snake| > 0 && 0.0 <= rnd < 1.0
    ensures r.Ok? <==> MoveSnake(direction, snake, apple, rnd).Ok?
    ensures r.Err? ==> r.error == MoveSnake(direction, snake, apple, rnd).error
    ensures r.Ok? ==> (r.value <==>
      NextCell(snake, direction)
        in CoordSet(if NextCell(snake, direction) == Coordinate(apple) then snake else Snake.Body(snake)))
  {
    var moved :- MoveSnake(direction, snake, apple, rnd);
    MoveSnakeGrows(direction, snake, apple, rnd);
    MovedHeadInTail(direction, snake, apple);
    var snakeCoords := Coords(moved.0);
    var head, tail := snakeCoords[0], snakeCoords[1..];
    Ok(head in tail)
  }

  /** The moved head's cell is among the other segments' cells exactly when
      it is a cell of the part of the old snake that stays. */
  lemma MovedHeadInTail(direction: string, snake: seq<Pixel<string>>, apple: Pixel<string>)
    requires |snake| > 0 && IsArrow(direction)
    ensures var coords := Coords(MovedSnake(direction, snake, apple));
      coords[0] in coords[1..] <==>
      NextCell(snake, direction)
        in CoordSet(if NextCell(snake, direction) == Coordinate(apple) then snake else Snake.Body(snake))
  {
    var newSnake := MovedSnake(direction, snake, apple);
    var coords := Coords(newSnake);
    assert coords[1..] == Coords(newSnake[1..]);
    CoordsMembership(newSnake[1..], coords[0]);
  }

  /** isGameOver: either check fires; both are evaluated. */
  function IsGameOver(snake: seq<Pixel<string>>, apple: Pixel<string>, direction: string, rnd: real): (r: Result<bool>)
    requires |snake| > 0 && 0.0 <= rnd < 1.0
    ensures r.Ok? <==> MoveSnake(direction, snake, apple, rnd).Ok?
    ensures r.Err? ==> r.error == MoveSnake(direction, snake, apple, rnd).error
    ensures r.Ok? ==> (r.value <==>
      !InBounds(NextCell(snake, direction))
      || NextCell(snake, direction)
           in CoordSet(if NextCell(snake, direction) == Coordinate(apple) then snake else Snake.Body(snake)))
  {
    match (IsSnakeEatsItself(snake, apple, direction, rnd), IsSnakeRunsIntoWall(snake, direction))
    case (Ok(eatsItself), Ok(runsIntoWall)) => Ok(eatsItself || runsIntoWall)
    case (Err(e), _) => Err(e)
    case (_, Err(e)) => Err(e)
  }

  /** One key press of moveAndDisplaySnakeOnKeypress. The game-over check
      and the real move each draw their own random number. */
  function OnKeypress(snake: seq<Pixel<string>>, apple: Pixel<string>, direction: string, rndCheck: real, rndMove: real): (r: Result<(seq<Pixel<string>>, Pixel<string>, Gridmap<string>)>)
    requires |snake| > 0 && 0.0 <= rndCheck < 1.0 && 0.0 <= rndMove < 1.0
    ensures r.Ok? ==> r == MoveSnake(direction, snake, apple, rndMove)
  {
    var gameOver :- IsGameOver(snake, apple, direction, rndCheck);
    if gameOver then Err(GameOver) else MoveSnake(direction, snake, apple, rndMove)
  }

  // ---------------------------------------------------------------------
  // The game's invariant

  /** A game in progress: a well-formed snake and a yellow apple on a
      board cell the snake does not cover. */
  ghost predicate Playing(snake: seq<Pixel<string>>, apple: Pixel<string>)
  {
    Snake.WellFormed(snake)
    && InBounds(Coordinate(apple)) && Coordinate(apple) !in CoordSet(snake)
    && apple.color == APPLE_COLOR
  }

  /** The frame of a game in progress: the apple on its cell, each segment
      on its own, the background on every other cell, every cell once. */
  lemma WorldOfPlaying(snake: seq<Pixel<string>>, apple: Pixel<string>)
    requires Playing(snake, apple)
    ensures var world := CreateWorld(BackgroundGridmap(BACKGROUND_COLOR), snake, apple);
      Valid(world)
      && Lookup(world, Coordinate(apple)) == Some(apple)
      && (forall i :: 0 <= i < |snake| ==> Lookup(world, Coordinate(snake[i])) == Some(snake[i]))
      && (forall k :: k in Board() && k != Coordinate(apple) && k !in CoordSet(snake) ==>
            Lookup(world, k) == Some(Pixel(k.0, k.1, BACKGROUND_COLOR)))
      && FullFrame(PixelsOf(world))
  {
    var bg := BackgroundGridmap(BACKGROUND_COLOR);
    var world := CreateWorld(bg, snake, apple);
    BackgroundGridmapFacts(BACKGROUND_COLOR);
    CoordSetInBoard(snake);
    CreateWorldLookup(bg, snake, apple, Coordinate(apple));
    forall i | 0 <= i < |snake| ensures Lookup(world, Coordinate(snake[i])) == Some(snake[i]) {
      CreateWorldLookup(bg, snake, apple, Coordinate(snake[i]));
      LastWithDistinct(snake, i);
    }
    forall k | k in Board() && k != Coordinate(apple) && k !in CoordSet(snake)
      ensures Lookup(world, k) == Some(Pixel(k.0, k.1, BACKGROUND_COLOR))
    {
      CreateWorldLookup(bg, snake, apple, k);
    }
    assert world.keys == bg.keys;
    BoardKeysGiveFullFrame(world, BACKGROUND_COLOR);
  }

  /** A move that neither leaves the board nor enters the staying body
      keeps the snake well formed, and the apple off it unless eaten. */
  lemma MovedSnakeWellFormed(direction: string, snake: seq<Pixel<string>>, apple: Pixel<string>)
    requires Playing(snake, apple) && IsArrow(direction)
    requires InBounds(NextCell(snake, direction))
    requires NextCell(snake, direction)
      !in CoordSet(if NextCell(snake, direction) == Coordinate(apple) then snake else Snake.Body(snake))
    ensures Snake.WellFormed(MovedSnake(direction, snake, apple))
    ensures NextCell(snake, direction) != Coordinate(apple) ==>
      Coordinate(apple) !in CoordSet(MovedSnake(direction, snake, apple))
  {
    var h := NextCell(snake, direction);
    var newSnake := MovedSnake(direction, snake, apple);
    var body := newSnake[1..];
    var ate := h == Coordinate(apple);
    assert AllInBounds(newSnake) by {
      forall i | 0 <= i < |newSnake| ensures InBounds(Coordinate(newSnake[i])) {
        if i > 0 {
          assert newSnake[i] == body[i - 1] == snake[i - 1];
        }
      }
    }
    assert DistinctCoords(newSnake) by {
      forall i, j | 0 <= i < j < |newSnake|
        ensures Coordinate(newSnake[i]) != Coordinate(newSnake[j])
      {
        if i == 0 {
          assert Coordinate(body[j - 1]) in CoordSet(body);
        } else {
          assert newSnake[i] == snake[i - 1] && newSnake[j] == snake[j - 1];
        }
      }
    }
    assert Snake.Connected(newSnake) by {
      forall i | 0 <= i < |newSnake| - 1
        ensures Adjacent(Coordinate(newSnake[i]), Coordinate(newSnake[i + 1]))
      {
        if i == 0 {
          ShiftFacts(Coordinate(snake[0]), direction);
          assert newSnake[1] == snake[0];
        } else {
          assert newSnake[i] == snake[i - 1] && newSnake[i + 1] == snake[i];
        }
      }
    }
  }

  /** How a game in progress ends. A key press ends the game exactly when
      the head would leave the board or enter the part of the body that
      stays; it fails for want of a free cell exactly when the apple eaten
      was the last free cell. */
  lemma OnKeypressEnds(snake: seq<Pixel<string>>, apple: Pixel<string>, direction: string, rndCheck: real, rndMove: real)
    requires Playing(snake, apple)
    requires 0.0 <= rndCheck < 1.0 && 0.0 <= rndMove < 1.0
    ensures OnKeypress(snake, apple, direction, rndCheck, rndMove) == Err(GameOver) <==>
      IsArrow(direction)
      && (!InBounds(NextCell(snake, direction)) || NextCell(snake, direction) in CoordSet(Snake.Body(snake)))
    ensures OnKeypress(snake, apple, direction, rndCheck, rndMove) == Err(NoFreeCell) <==>
      IsArrow(direction) && NextCell(snake, direction) == Coordinate(apple)
      && Board() <= CoordSet(snake) + {Coordinate(apple)}
  {
    if !IsArrow(direction) {
      assert Snake.CalculateNewHead(direction, snake[0]).Err?;
    } else {
      MoveSnakeOutcome(direction, snake, apple, rndCheck);
      MoveSnakeOutcome(direction, snake, apple, rndMove);
    }
  }

  /** ... and otherwise the snake keeps its length or, having eaten, grows
      by one, and the new game is again in progress. */
  lemma OnKeypressKeepsPlaying(snake: seq<Pixel<string>>, apple: Pixel<string>, direction: string, rndCheck: real, rndMove: real)
    requires Playing(snake, apple)
    requires 0.0 <= rndCheck < 1.0 && 0.0 <= rndMove < 1.0
    ensures OnKeypress(snake, apple, direction, rndCheck, rndMove).Ok? ==>
      var (newSnake, newApple, world) := OnKeypress(snake, apple, direction, rndCheck, rndMove).value;
      Playing(newSnake, newApple)
      && |newSnake| == |snake| + (if NextCell(snake, direction) == Coordinate(apple) then 1 else 0)
      && world == CreateWorld(BackgroundGridmap(BACKGROUND_COLOR), newSnake, newApple)
  {
    var r := OnKeypress(snake, apple, direction, rndCheck, rndMove);
    if r.Ok? {
      var h := NextCell(snake, direction);
      var ate := h == Coordinate(apple);
      assert InBounds(h) && h !in CoordSet(if ate then snake else Snake.Body(snake)) by {
        var g := IsGameOver(snake, apple, direction, rndCheck);
        assert g.Ok? && !g.value;
      }
      MoveSnakeOutcome(direction, snake, apple, rndMove);
      MovedSnakeWellFormed(direction, snake, apple);
      var (newSnake, newApple, world) := r.value;
      assert newSnake == MovedSnake(direction, snake, apple);
      assert InBounds(Coordinate(newApple)) && newApple.color == APPLE_COLOR by {
        if ate {
          var c := Coordinate(newApple);
          assert c in Board();
        }
      }
    }
  }

  /** main: the opening snake, and an apple placed on the background,
      make a game in progress. */
  lemma InitialGame(rnd: real)
    requires 0.0 <= rnd < 1.0
    ensures Valid(BackgroundGridmap(BACKGROUND_COLOR))
    ensures var snake := [Pixel(12, 12, Snake.GREEN), Pixel(11, 12, Snake.GREEN), Pixel(10, 12, Snake.GREEN)];
      var apple := PlaceApple(snake, BackgroundGridmap(BACKGROUND_COLOR), rnd);
      apple.Ok? && Playing(snake, apple.value)
  {
    var snake := [Pixel(12, 12, Snake.GREEN), Pixel(11, 12, Snake.GREEN), Pixel(10, 12, Snake.GREEN)];
    var world := BackgroundGridmap(BACKGROUND_COLOR);
    Snake.InitialSnakeWellFormed();
    assert world.cells.Keys == Board() by {
      BackgroundGridmapFacts(BACKGROUND_COLOR);
    }
    assert (0, 0) !in CoordSet(snake) by {
      assert Coords(snake) == [(12, 12), (11, 12), (10, 12)];
      CoordsMembership(snake, (0, 0));
    }
    var placed := PlaceApple(snake, world, rnd);
    assert placed.Ok? by {
      assert (0, 0) in Board();
    }
    var apple := placed.value;
    assert InBounds(Coordinate(apple)) by {
      assert Coordinate(apple) in Board();
    }
  }
}
