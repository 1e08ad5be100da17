# Snake game on a 25×25 grid, modelled in Dafny

The program is a terminal snake game that draws onto a 25×25 LED grid. It
grew in six versions, `solutions/challenge1.js` to `solutions/challenge6.js`.
Each version repeats most of the previous one, so every shared definition is
modelled once:

- **Pixels** (`pixels.dfy`). `makePixel`, the cell identity `getCoordinate`
  and `isSameCoordinate`, and `makeBackground`. `makeBackground` is a method
  with the program's nested loops, proved against the value `Background`.
  - It is identical in all six files. Versions 4–6 add a final `toGridmap`.
  - The key string `x + " " + y` is defined and proved to carry exactly the
    cell's coordinates, so the rest of the model uses the pair `(x, y)`.
- **Gridmaps** (`gridmaps.dfy`). The JavaScript object keyed by coordinates:
  - a datatype holding the insertion-ordered key list and the map;
  - the class `GridObject`, whose `SetPixel` writes in place;
  - `toGridmap` and `fromGridmap`, as loops over such an object;
  - `r.merge` and `r.mergeAll` (`Object.assign` semantics).

  `setPixel`, `toGridmap` and `fromGridmap` are the same in challenge2.js to
  challenge6.js; `r.merge` is used in challenge3.js to challenge5.js and
  `r.mergeAll` in challenge6.js.
- **ListOverlay** (`list_overlay.dfy`). `removePixels` and the list
  `fillBackground` of challenge1.js and challenge2.js.
- **MapOverlay** (`map_overlay.dfy`). The background gridmap, the merge-based
  `fillBackground` of challenge3.js to challenge5.js, and `createWorld` of
  challenge6.js.
- **Directions** (`directions.dfy`). The four arrow keys and their unit steps.
  They are the reference against which the `switch` statements are checked.
- **SinglePixel** (`single_pixel.dfy`). `calculatePixelPos` and `movePixel`
  of challenge3.js.
- **Snake** (`snake.dfy`). `calculateNewHead`, `moveSnake`, the collision
  checks, and one key press of the game loop, from challenge4.js and
  challenge5.js. Version 4 has no game-over check; otherwise the two share
  this code.
- **AppleSnake** (`snake_apple.dfy`). challenge6.js: eating and growth,
  `placeApple` with `r.differenceWith` and the random pick, the collision
  checks over the growing move, and one key press.

Errors that the program throws or that end it become values of
`Results.Result`:
- an unknown key gives `UnsupportedDirection`;
- the `"c"` key (`process.exit()`) gives `Quit`;
- `"GAME OVER!"` gives `GameOver`;
- the crash of `placeApple` when no free cell is left gives `NoFreeCell`.

`Math.random()` becomes a parameter `rnd` in `[0, 1)`. The index it yields is
`floor(rnd * n)`, as in `randNth`.

## Model

| member | source | states |
|---|---|---|
| Pixels.Background | solutions/challenge1.js:12-17 | the background list has WIDTH*HEIGHT pixels, every one on the board and of the given colour |
| Pixels.MakeBackground | solutions/challenge1.js:12-18 | the nested loops push exactly the list `Background(color)` |
| Pixels.BackgroundAt | solutions/challenge3.js:18-24 | the pixel at index `x*HEIGHT + y` is `(x, y, color)`: x-major, then y |
| Pixels.BackgroundIsFullFrame | solutions/challenge2.js:17-23 | the background has WIDTH*HEIGHT pixels, covers every board cell exactly once, and all pixels have the given colour |
| Pixels.Coordinate | solutions/challenge6.js:39 | the cell identity of a pixel, its position without its colour; its partner CoordinateKeyIsIdentity shows that it identifies cells exactly as the `"x y"` key does |
| Pixels.CoordinateKey | solutions/challenge6.js:39 | the key is the decimal x, one space, then the decimal y: the first space in it splits it back into exactly the two coordinates |
| Pixels.SameCoordinate | solutions/challenge6.js:41 | true iff the two pixels have the same `"x y"` key, i.e. lie on the same cell, whatever their colours |
| Pixels.CoordinateKeyIsIdentity | solutions/challenge6.js:39-41 | two pixels have the same `"x y"` key iff they have the same coordinates, whatever their colours |
| Pixels.IntToStringInjective | solutions/challenge6.js:39 | the decimal rendering of integers used in the key is injective |
| Pixels.FullFrameSize | solutions/challenge1.js:36-40 | a list that covers each board cell exactly once has WIDTH*HEIGHT pixels |
| Gridmaps.Assign | solutions/challenge6.js:47-51 | `grid[key] = pixel`: the pixel's cell now holds it, every other cell is unchanged, an existing key keeps its place, a new key goes last, and validity is kept |
| Gridmaps.GridObject.constructor | solutions/challenge6.js:57-61 | the object literal `{}`: no keys |
| Gridmaps.GridObject.SetPixel | solutions/challenge4.js:43-47 | setPixel writes into the object in place; its new value is `Assign` of the old value |
| Gridmaps.ToGridmap | solutions/challenge4.js:50-60 | the reduce over setPixel leaves a fresh object whose value is `GridmapOf(pixels)` |
| Gridmaps.FromGridmap | solutions/challenge4.js:62-75 | the reduce with `acc.push(grid[coord])` over `Object.keys` returns `PixelsOf(grid)` |
| Gridmaps.SetAll | solutions/challenge2.js:53-63 | the reduce of setPixel over a list; its partners SetAllLookup and SetAllValid state that the last write to a cell wins, every other cell keeps its entry, and validity and the old key order are kept |
| Gridmaps.GridmapOf | solutions/challenge2.js:57-63 | the value of toGridmap; its partners ToGridmapLastWins and ToGridmapRoundTrip state that each listed cell holds the last pixel on it, the keys are exactly the listed cells, and for distinct cells fromGridmap gives the list back |
| Gridmaps.PixelsOf | solutions/challenge2.js:65-78 | the value of fromGridmap; its partner PixelsOfKeys states one pixel per key, in key order, each stored under its own cell, and no cell twice |
| Gridmaps.MergeAll | solutions/challenge6.js:35 | the value of `r.mergeAll`; its partner MergeAllLookup states that the result is valid and holds at each cell the entry of the last layer that has it |
| Gridmaps.Merge | solutions/challenge5.js:32 | the value of `r.merge`; its partner MergeLookup states that b wins where it has the cell and a elsewhere, with a's keys first |
| Gridmaps.SetAllLookup | solutions/challenge2.js:53-63 | after writing a list, each cell holds the last pixel written to it, and cells not written keep their old entry |
| Gridmaps.SetAllValid | solutions/challenge2.js:53-63 | writing a list keeps the gridmap valid and the old keys as a prefix; the key set becomes the old keys plus the written cells |
| Gridmaps.SetAllKeepsKeys | solutions/challenge5.js:29-33 | writing only cells that are already present leaves the key order unchanged |
| Gridmaps.SetAllAppendsKeys | solutions/challenge2.js:53-63 | writing pixels on distinct new cells appends their cells to the keys, in list order |
| Gridmaps.ToGridmapLastWins | solutions/challenge4.js:50-60 | toGridmap holds, at each cell, the last pixel of the list with that cell; its keys are exactly the listed cells |
| Gridmaps.PixelsOfKeys | solutions/challenge2.js:65-78 | fromGridmap returns one pixel per key, in key order, each stored under its own cell |
| Gridmaps.ToGridmapRoundTrip | solutions/challenge4.js:162-167 | for pixels on distinct cells, fromGridmap(toGridmap(ps)) is ps in the same order, and the keys are the cells in list order |
| Gridmaps.FromGridmapRoundTrip | solutions/challenge3.js:61-74 | toGridmap(fromGridmap(g)) rebuilds g: the same keys, in the same order, with the same pixels |
| Gridmaps.MergeAllLookup | solutions/challenge6.js:35 | `r.mergeAll` holds, at each cell, the entry of the last layer that has that cell |
| Gridmaps.MergeLookup | solutions/challenge5.js:32 | `r.merge(a, b)`: b wins where it has the cell, a elsewhere; the cells are the union of both; a's key order is a prefix, and it is unchanged when b adds no new cell; the result equals writing b's pixels over a in b's key order |
| Gridmaps.ToGridmapOfNothing | solutions/challenge4.js:150-153 | toGridmap([]) is the empty object |
| Gridmaps.ToGridmapOfOne | solutions/challenge4.js:155-159 | toGridmap of the pixel (0,0,0) is `{"0 0": pixel}` |
| Gridmaps.RoundTripExample | solutions/challenge3.js:159-165 | the test's three pixels survive the round trip |
| ListOverlay.RemovePixels | solutions/challenge1.js:20-34 | removePixels (the same code as challenge2.js) is no longer than the grid, and no pixel it keeps lies on a cell of the overlay |
| ListOverlay.FillBackground | solutions/challenge1.js:36-40 | fillBackground (the same in challenge2.js) ends with the overlay, unchanged; every pixel before it has the background colour and lies on a cell the overlay does not cover; the length is between the overlay's and WIDTH*HEIGHT more |
| ListOverlay.RemovePixelsIsSubsequence | solutions/challenge1.js:20-34 | removePixels returns a subsequence of the grid, in the grid's order |
| ListOverlay.RemovePixelsKeeps | solutions/challenge2.js:27-40 | each grid pixel is dropped iff an overlay pixel lies on its cell, colour ignored; otherwise all its occurrences are kept |
| ListOverlay.RemovePixelsCells | solutions/challenge1.js:28-31 | the cells left are the grid's cells minus the overlay's; pixels on distinct cells stay on distinct cells |
| ListOverlay.RemovePixelsColor | solutions/challenge1.js:28-31 | the filter keeps only grid pixels, so a one-coloured grid stays one-coloured |
| ListOverlay.FillBackgroundOverlay | solutions/challenge1.js:36-40 | fillBackground ends with the overlay, unchanged and in order; before it comes a subsequence of the background covering exactly the uncovered cells |
| ListOverlay.FillBackgroundFullFrame | solutions/challenge2.js:42-46 | with an overlay on distinct board cells, the frame covers every cell exactly once and has WIDTH*HEIGHT pixels |
| ListOverlay.FirstFrame | solutions/challenge1.js:50 | the first version's frame, a red pixel at (12,12) on blue, is a full frame that ends with the red pixel |
| MapOverlay.BackgroundGridmap | solutions/challenge5.js:19-25 | the background gridmap is valid |
| MapOverlay.MakeBackgroundGridmap | solutions/challenge6.js:19-25 | the loops and then toGridmap leave a fresh object holding the background gridmap |
| MapOverlay.BackgroundGridmapFacts | solutions/challenge6.js:19-25 | the background gridmap has one key per board cell, in x-major order, and holds a pixel of the given colour at each cell |
| MapOverlay.BoardKeysGiveFullFrame | solutions/challenge5.js:60-73 | fromGridmap of a gridmap keyed like the background is a full frame of WIDTH*HEIGHT pixels |
| MapOverlay.FillBackground | solutions/challenge3.js:30-34 | the merge-based fillBackground (the same in challenge4.js and challenge5.js); its partner FillBackgroundLookup states what every cell holds and that the frame is full |
| MapOverlay.FillBackgroundLookup | solutions/challenge5.js:29-33 | merged fillBackground has every board cell; an overlaid cell holds the overlay's last pixel there, any other board cell the background colour; with the overlay on the board, the keys keep background order and the frame is full |
| MapOverlay.CreateWorld | solutions/challenge6.js:29-37 | createWorld over a world gridmap; its partner CreateWorldLookup states that the apple wins at its cell, then the snake, then the world |
| MapOverlay.CreateWorldUnfold | solutions/challenge6.js:29-37 | `r.mergeAll([w, s, a])` equals merging the snake's gridmap over the world and then the apple's over that, and every gridmap along the way is valid |
| MapOverlay.CreateWorldLookup | solutions/challenge6.js:29-37 | createWorld holds the apple at its cell, else the snake's pixel, else the world's; its cells are the union of the three; the keys keep the world's order when snake and apple lie on world cells |
| MapOverlay.MergeTwice | solutions/challenge6.js:35 | two merges in a row: the top layer wins, then the middle one, then the bottom; the cells are the union of the three; the bottom's key order stays when the upper layers add no cell |
| Directions.ShiftFacts | solutions/challenge6.js:115-119 | each arrow moves to an adjacent, different cell, and the opposite arrow moves back |
| SinglePixel.CalculatePixelPos | solutions/challenge3.js:106-119 | succeeds iff the key is an arrow; the result is the position shifted by that arrow's unit vector; any other key is refused as unsupported |
| SinglePixel.CalculatePixelPosUndo | solutions/challenge3.js:112-116 | moving with the opposite key returns the original position |
| SinglePixel.MovedWorld | solutions/challenge3.js:122-125 | the world movePixel builds is a valid gridmap holding the red pixel at the new position |
| SinglePixel.MovePixel | solutions/challenge3.js:121-127 | an unknown key is refused; otherwise it returns the moved position and a fresh object holding `MovedWorld` at that position |
| SinglePixel.MovedWorldCells | solutions/challenge3.js:122-125 | the new cell holds the red pixel and every other board cell stays blue. Nothing checks bounds: on the board the 625 keys keep background order and the frame is full; off the board one key is appended |
| Snake.CalculateNewHead | solutions/challenge5.js:104-118 | an arrow moves the head by its unit vector, keeping the colour; "c" quits; any other key is unsupported |
| Snake.CalculateNewHeadUndo | solutions/challenge4.js:106-120 | moving the head with the opposite key returns the original head |
| Snake.Body | solutions/challenge5.js:123 | `r.dropLast(1, snake)`: one segment shorter, and putting the last segment back gives the snake |
| Snake.MoveSnake | solutions/challenge4.js:123-130 | succeeds iff the key is an arrow; the length is kept; the head is the shifted old head in its colour; every other segment takes the place of the one before; a one-coloured snake stays one-coloured |
| Snake.MoveSnakeFrame | solutions/challenge5.js:122-129 | the frame shows each segment on its cell and the background on every other board cell; for a snake on the board every cell appears once |
| Snake.IsSnakeRunsIntoWall | solutions/challenge5.js:131-135 | true iff the moved head is off the board |
| Snake.IsSnakeEatsItself | solutions/challenge5.js:137-145 | true iff the moved head lies on the body without its last segment, so the cell the tail leaves may be entered |
| Snake.IsGameOver | solutions/challenge5.js:147-151 | true iff the moved head is off the board or on the remaining body; unknown keys fail as calculateNewHead does |
| Snake.OnKeypress | solutions/challenge5.js:154-164 | the key press ends in GameOver iff the move loses; otherwise it fails only as calculateNewHead fails, or it is the move |
| Snake.OnKeypressKeepsWellFormed | solutions/challenge5.js:154-164 | from a well-formed snake (on the board, no cell twice, segments adjacent) a key press succeeds iff the move is safe, and then gives a well-formed snake of the same length and a full frame |
| Snake.MoveSnakeRightExample | solutions/challenge5.js:178-182 | the program's test: "right" turns [(12,12),(11,12),(10,12)] into [(13,12),(12,12),(11,12)] with colours unchanged |
| Snake.InitialSnakeWellFormed | solutions/challenge5.js:167 | the starting snake is well formed |
| AppleSnake.IsSnakeEatsApple | solutions/challenge6.js:140-143 | true iff the moved head's cell is the apple's, colours ignored |
| AppleSnake.DifferenceWith | solutions/challenge6.js:171 | `r.differenceWith` on cells; its partner DifferenceWithFacts states the set difference of cells, each once, in the first list's order |
| AppleSnake.DifferenceWithFacts | solutions/challenge6.js:169-171 | `r.differenceWith` on cells gives the first list's cells minus the second's, each cell once, in the first list's order |
| AppleSnake.RandIndex | solutions/challenge6.js:174 | `Math.floor(rnd * n)`; its partner RandIndexInRange states that it is a valid index for rnd in [0,1) and n > 0 |
| AppleSnake.RandIndexInRange | solutions/challenge6.js:174 | `floor(rnd * n)` is a valid index for rnd in [0,1) and n > 0 |
| AppleSnake.RandNth | solutions/challenge6.js:174 | randNth yields an element iff the list is non-empty, namely the one at index `floor(rnd * n)` |
| AppleSnake.RandNthReaches | solutions/challenge6.js:174 | every element of a non-empty list is drawn for some rnd in [0,1) |
| AppleSnake.PlaceApple | solutions/challenge6.js:167-185 | succeeds iff some world cell is free of the snake; the apple is the world's pixel on a free cell, painted "#FFFF00"; otherwise NoFreeCell |
| AppleSnake.PlaceAppleFacts | solutions/challenge6.js:169-171 | the free list holds the world's own pixels, one per cell of the world not covered by the snake |
| AppleSnake.PlaceAppleReachesEveryFreeCell | solutions/challenge6.js:171-175 | every free cell of the world receives the apple for some draw |
| AppleSnake.MoveSnake | solutions/challenge6.js:128-138 | the move succeeds only for an arrow key and yields a non-empty snake; other keys fail as calculateNewHead does |
| AppleSnake.MovedSnake | solutions/challenge6.js:129-133 | the moved head, in the old head's colour, in front of the whole old snake when the apple is eaten, and in front of the body without its last segment otherwise |
| AppleSnake.MoveSnakeGrows | solutions/challenge6.js:128-138 | a move succeeds only for an arrow key, and then its snake is the moved snake |
| AppleSnake.MoveSnakeOutcome | solutions/challenge6.js:128-138 | for an arrow, the move fails (NoFreeCell) iff the apple is eaten and the grown snake covers the board; otherwise the snake is the moved one; the apple stays unless eaten, and a new one is yellow on a board cell off the snake; the world is createWorld over the background |
| AppleSnake.IsSnakeRunsIntoWall | solutions/challenge6.js:146-149 | true iff the moved head is off the board |
| AppleSnake.IsSnakeEatsItself | solutions/challenge6.js:151-159 | fails iff the move fails; true iff the moved head lies on the rest of the moved snake: the whole old snake after eating, the body without its tail otherwise |
| AppleSnake.MovedHeadInTail | solutions/challenge6.js:151-159 | the moved head is among the other segments iff its cell is on the part of the old snake that stays: all of it after eating, the body without its tail otherwise |
| AppleSnake.IsGameOver | solutions/challenge6.js:161-165 | fails iff the move fails; true iff the moved head is off the board or on the rest of the moved snake |
| AppleSnake.OnKeypress | solutions/challenge6.js:188-198 | a successful key press is the move made with the second draw |
| AppleSnake.WorldOfPlaying | solutions/challenge6.js:29-37 | in a game in progress the world shows the apple, each segment, the background on every other cell, and every cell once |
| AppleSnake.MovedSnakeWellFormed | solutions/challenge6.js:128-133 | a safe move keeps the snake well formed, and off the apple unless eaten |
| AppleSnake.OnKeypressEnds | solutions/challenge6.js:188-198 | from a game in progress, GameOver happens iff the key is an arrow and the head would leave the board or enter the staying body; NoFreeCell iff the apple is eaten on the last free cell |
| AppleSnake.OnKeypressKeepsPlaying | solutions/challenge6.js:188-198 | from a game in progress, a successful key press keeps the snake's length or, after eating, grows it by one; the new snake and apple are again a game in progress, and the world is drawn from them |
| AppleSnake.InitialGame | solutions/challenge6.js:200-204 | main's apple placement on the starting board succeeds and starts a game in progress |

## Left out

- `makeRequest` in every version is an HTTP POST through the `request` library. It is I/O and is not modelled; the model stops at the pixel list that would be sent.
- `readOneInputChar` and `readArrowKeys` are keypress listeners on the terminal. They are not modelled; the key name is a parameter.
- `moveAndDisplay…OnKeypress`, `main` and the top-level script calls are not modelled as a loop. One key press is modelled (`Snake.OnKeypress`, `AppleSnake.OnKeypress`), with the start states as lemmas.
- `runtests` reflects over `global` and logs to the console. It is not modelled; the tests it runs are lemmas.
- The `"c"` key calls `process.exit()`. It is modelled as the error `Quit`, not as ending a process.
- `Math.random()` is not modelled. Each draw is a parameter in `[0, 1)`; the model proves every free cell reachable, but uniformity is outside it.
- `placeApple` recolours, in place, a pixel object shared with the freshly built world. The model returns a recoloured copy. The world is rebuilt on every move and the apple is merged over that cell, so the frame is the same.
- `assertIsArray` and `assertIsObject` are type checks. They are Dafny types here. `calculatePixelPos`'s length assertion is its precondition. `r.head([])` is `undefined`, and calculateNewHead's `assertIsObject` then throws (challenge4.js:107, challenge5.js:105, challenge6.js:111); the model requires a non-empty snake instead.
- `createWorld` converts a world or snake given as a list with `toGridmap` (its `r.is(Array, …)` branches). `MapOverlay.CreateWorld` takes the world only as a gridmap and the snake only as a list, which is what both of its callers pass (challenge6.js:136 and 204), so no reachable case is lost.
- In challenge1.js `assert` is used without being imported. That failure is not modelled.
- Converting a JavaScript number to a string writes large values in exponent form. The key is modelled for integers in plain decimal.
- Ramda's `merge`, `mergeAll`, `differenceWith`, `dropLast`, `concat`, `head` and `tail` follow their documented semantics. The library's own code is not modelled.
- PlaceApple: on a full board the program crashes with a TypeError (`undefined.color`). The model returns `NoFreeCell` instead.
