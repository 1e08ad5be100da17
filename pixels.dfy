/** Pixels, their coordinates, and the full-frame background that every
    version of the game draws first. */
module Pixels {

  /** The board is WIDTH columns by HEIGHT rows. */
  const WIDTH: int := 25
  const HEIGHT: int := 25

  type Coord = (int, int)

  /** `makePixel(x, y, color)`: a plain record. The colour is opaque data. */
  datatype Pixel<C> = Pixel(x: int, y: int, color: C)

  /** The identity of a cell, colour ignored. The program uses the string
      `x + " " + y` (see CoordinateKey); CoordinateKeyIsIdentity shows that
      the pair carries exactly the same information. */
  function Coordinate<C>(p: Pixel<C>): Coord
  {
    (p.x, p.y)
  }

  /** `isSameCoordinate`: the two keys are the same string. */
  function SameCoordinate<C>(p: Pixel<C>, q: Pixel<C>): (r: bool)
    ensures r <==> CoordinateKey(p) == CoordinateKey(q)
  {
    CoordinateKeyIsIdentity(p, q);
    Coordinate(p) == Coordinate(q)
  }

  predicate InBounds(c: Coord)
  {
    0 <= c.0 < WIDTH && 0 <= c.1 < HEIGHT
  }

  /** The coordinates of a pixel list, in order. */
  function Coords<C>(ps: seq<Pixel<C>>): seq<Coord>
  {
    seq(|ps|, i requires 0 <= i < |ps| => Coordinate(ps[i]))
  }

  lemma CoordsSnoc<C>(ps: seq<Pixel<C>>)
    requires ps != []
    ensures Coords(ps) == Coords(ps[..|ps| - 1]) + [Coordinate(ps[|ps| - 1])]
  {
    var a, b := Coords(ps), Coords(ps[..|ps| - 1]) + [Coordinate(ps[|ps| - 1])];
    assert |a| == |b|;
    forall i | 0 <= i < |a| ensures a[i] == b[i] {
      if i < |ps| - 1 {
        assert b[i] == Coords(ps[..|ps| - 1])[i];
      }
    }
  }

  /** The set of coordinates a pixel list covers. */
  function CoordSet<C>(ps: seq<Pixel<C>>): set<Coord>
  {
    set i | 0 <= i < |ps| :: Coordinate(ps[i])
  }

  /** The listed coordinates and the covered cells agree. */
  lemma CoordsMembership<C>(pixels: seq<Pixel<C>>, c: Coord)
    ensures c in Coords(pixels) <==> c in CoordSet(pixels)
  {
    if c in CoordSet(pixels) {
      var i :| 0 <= i < |pixels| && Coordinate(pixels[i]) == c;
      assert Coords(pixels)[i] == c;
    }
  }

  lemma CoordSetSnoc<C>(ps: seq<Pixel<C>>, p: Pixel<C>)
    ensures CoordSet(ps + [p]) == CoordSet(ps) + {Coordinate(p)}
  {
    var q := ps + [p];
    assert Coordinate(q[|ps|]) == Coordinate(p);
    forall c | c in CoordSet(q) ensures c in CoordSet(ps) + {Coordinate(p)} {
      var i :| 0 <= i < |q| && Coordinate(q[i]) == c;
      if i < |ps| {
        assert Coordinate(ps[i]) == c;
      }
    }
    forall c | c in CoordSet(ps) ensures c in CoordSet(q) {
      var i :| 0 <= i < |ps| && Coordinate(ps[i]) == c;
      assert Coordinate(q[i]) == c;
    }
  }

  /** The cells of a list with a pixel put in front. */
  lemma CoordSetCons<C>(p: Pixel<C>, ps: seq<Pixel<C>>)
    ensures CoordSet([p] + ps) == CoordSet(ps) + {Coordinate(p)}
  {
    var q := [p] + ps;
    assert Coordinate(q[0]) == Coordinate(p);
    forall c | c in CoordSet(q) ensures c in CoordSet(ps) + {Coordinate(p)} {
      var i :| 0 <= i < |q| && Coordinate(q[i]) == c;
      if i > 0 {
        assert Coordinate(ps[i - 1]) == c;
      }
    }
    forall c | c in CoordSet(ps) ensures c in CoordSet(q) {
      var i :| 0 <= i < |ps| && Coordinate(ps[i]) == c;
      assert Coordinate(q[i + 1]) == c;
    }
  }
  /** The cells of a non-empty list: those of all but its last pixel, and the last one's. */
  lemma CoordSetFront<C>(ps: seq<Pixel<C>>)
    requires ps != []
    ensures CoordSet(ps) == CoordSet(ps[..|ps| - 1]) + {Coordinate(ps[|ps| - 1])}
  {
    assert ps == ps[..|ps| - 1] + [ps[|ps| - 1]];
    CoordSetSnoc(ps[..|ps| - 1], ps[|ps| - 1]);
  }

  /** No two pixels of the list share a cell. */
  ghost predicate DistinctCoords<C>(ps: seq<Pixel<C>>)
  {
    forall i, j :: 0 <= i < j < |ps| ==> Coordinate(ps[i]) != Coordinate(ps[j])
  }

  ghost predicate AllInBounds<C>(ps: seq<Pixel<C>>)
  {
    forall i :: 0 <= i < |ps| ==> InBounds(Coordinate(ps[i]))
  }

  /** a can be obtained from b by deleting elements: order is preserved. */
  ghost predicate IsSubsequence<T>(a: seq<T>, b: seq<T>)
    decreases |b|
  {
    a == [] || (b != [] && ((a[0] == b[0] && IsSubsequence(a[1..], b[1..])) || IsSubsequence(a, b[1..])))
  }

  /** Appending to the longer list keeps a subsequence; appending the same
      element to both extends it. */
  lemma {:induction false} SubsequenceSnoc<T>(a: seq<T>, b: seq<T>, x: T)
    requires IsSubsequence(a, b)
    ensures IsSubsequence(a, b + [x])
    ensures IsSubsequence(a + [x], b + [x])
    decreases |b|
  {
    if b == [] {
      assert a == [];
      assert (a + [x])[1..] == [];
    } else {
      assert (b + [x])[1..] == b[1..] + [x];
      if a == [] {
        assert IsSubsequence(a, b[1..]);
        SubsequenceSnoc(a, b[1..], x);
        assert IsSubsequence(a + [x], b[1..] + [x]);
      } else if a[0] == b[0] && IsSubsequence(a[1..], b[1..]) {
        SubsequenceSnoc(a[1..], b[1..], x);
        assert (a + [x])[1..] == a[1..] + [x];
      } else {
        SubsequenceSnoc(a, b[1..], x);
      }
    }
  }

  /** Every element of a subsequence occurs in the longer list. */
  lemma {:induction false} SubsequenceElement<T>(a: seq<T>, b: seq<T>, i: int)
    requires IsSubsequence(a, b) && 0 <= i < |a|
    ensures exists j :: 0 <= j < |b| && a[i] == b[j]
    decreases |b|
  {
    if a[0] == b[0] && IsSubsequence(a[1..], b[1..]) {
      if i > 0 {
        SubsequenceElement(a[1..], b[1..], i - 1);
        var j :| 0 <= j < |b[1..]| && a[1..][i - 1] == b[1..][j];
        assert a[i] == b[j + 1];
      } else {
        assert a[i] == b[0];
      }
    } else {
      SubsequenceElement(a, b[1..], i);
      var j :| 0 <= j < |b[1..]| && a[i] == b[1..][j];
      assert a[i] == b[j + 1];
    }
  }

  /** Every cell of the board. */
  function Board(): set<Coord>
  {
    set x, y | 0 <= x < WIDTH && 0 <= y < HEIGHT :: (x, y)
  }

  /** What the renderer needs: every cell of the board exactly once. */
  ghost predicate FullFrame<C>(ps: seq<Pixel<C>>)
  {
    DistinctCoords(ps) && CoordSet(ps) == Board()
  }

  // ---------------------------------------------------------------------
  // The decimal key `x + " " + y`

  function Digit(d: int): char
    requires 0 <= d < 10
  {
    (48 + d) as char
  }

  /** JavaScript's decimal rendering of a non-negative integer. */
  function NatToString(n: nat): string
    decreases n
  {
    if n < 10 then [Digit(n)] else NatToString(n / 10) + [Digit(n % 10)]
  }

  function IntToString(n: int): string
  {
    if n < 0 then "-" + NatToString(-n) else NatToString(n)
  }

  /** `getCoordinate`: the key under which a gridmap stores a pixel. */
  function CoordinateKey<C>(p: Pixel<C>): (r: string)
    ensures SpaceIndex(r) == |IntToString(p.x)| < |r|
    ensures r[..SpaceIndex(r)] == IntToString(p.x) && r[SpaceIndex(r) + 1..] == IntToString(p.y)
  {
    IntToStringShape(p.x);
    SpaceIndexAfterWord(IntToString(p.x), IntToString(p.y));
    IntToString(p.x) + " " + IntToString(p.y)
  }

  ghost predicate IsDigits(s: string)
  {
    forall i :: 0 <= i < |s| ==> '0' <= s[i] <= '9'
  }

  lemma {:induction false} NatToStringShape(n: nat)
    ensures |NatToString(n)| >= 1 && IsDigits(NatToString(n))
    ensures n < 10 ==> NatToString(n) == [Digit(n)]
    ensures n >= 10 ==> |NatToString(n)| >= 2
    ensures NatToString(n)[|NatToString(n)| - 1] == Digit(n % 10)
    decreases n
  {
    if n >= 10 {
      NatToStringShape(n / 10);
    }
  }

  lemma {:induction false} NatToStringInjective(a: nat, b: nat)
    requires NatToString(a) == NatToString(b)
    ensures a == b
    decreases a
  {
    NatToStringShape(a);
    NatToStringShape(b);
    if a >= 10 && b >= 10 {
      var s := NatToString(a);
      assert s == NatToString(a / 10) + [Digit(a % 10)];
      assert s == NatToString(b / 10) + [Digit(b % 10)];
      assert NatToString(a / 10) == s[..|s| - 1] == NatToString(b / 10);
      NatToStringInjective(a / 10, b / 10);
    }
  }

  lemma IntToStringShape(n: int)
    ensures |IntToString(n)| >= 1
    ensures forall i :: 0 <= i < |IntToString(n)| ==> IntToString(n)[i] != ' '
    ensures IntToString(n)[0] == '-' <==> n < 0
  {
    NatToStringShape(if n < 0 then -n else n);
  }

  lemma IntToStringInjective(a: int, b: int)
    requires IntToString(a) == IntToString(b)
    ensures a == b
  {
    IntToStringShape(a);
    IntToStringShape(b);
    if a < 0 {
      assert NatToString(-a) == IntToString(a)[1..] == NatToString(-b);
      NatToStringInjective(-a, -b);
    } else {
      NatToStringInjective(a, b);
    }
  }

  /** The position of the first space in a string, or its length. */
  function SpaceIndex(s: string): nat
  {
    if s == [] || s[0] == ' ' then 0 else 1 + SpaceIndex(s[1..])
  }

  lemma {:induction false} SpaceIndexAfterWord(w: string, t: string)
    requires forall i :: 0 <= i < |w| ==> w[i] != ' '
    ensures SpaceIndex(w + " " + t) == |w|
    decreases |w|
  {
    if w != [] {
      assert (w + " " + t)[1..] == w[1..] + " " + t;
      SpaceIndexAfterWord(w[1..], t);
    }
  }

  /** Joining two space-free words with one space can be undone. */
  lemma SplitAtSpace(s1: string, t1: string, s2: string, t2: string)
    requires forall i :: 0 <= i < |s1| ==> s1[i] != ' '
    requires forall i :: 0 <= i < |s2| ==> s2[i] != ' '
    requires s1 + " " + t1 == s2 + " " + t2
    ensures s1 == s2 && t1 == t2
  {
    var u := s1 + " " + t1;
    SpaceIndexAfterWord(s1, t1);
    SpaceIndexAfterWord(s2, t2);
    assert s1 == u[..|s1|] == s2;
    assert t1 == u[|s1| + 1..] == t2;
  }

  /** Two pixels get the same gridmap key exactly when they lie on the same
      cell: the string key and the coordinate pair are interchangeable. */
  lemma CoordinateKeyIsIdentity<C>(p: Pixel<C>, q: Pixel<C>)
    ensures CoordinateKey(p) == CoordinateKey(q) <==> Coordinate(p) == Coordinate(q)
  {
    if CoordinateKey(p) == CoordinateKey(q) {
      IntToStringShape(p.x);
      IntToStringShape(q.x);
      SplitAtSpace(IntToString(p.x), IntToString(p.y), IntToString(q.x), IntToString(q.y));
      IntToStringInjective(p.x, q.x);
      IntToStringInjective(p.y, q.y);
    }
  }

  // ---------------------------------------------------------------------
  // The background

  /** The background as the nested loops build it: x-major, then y. */
  function Background<C>(color: C): (r: seq<Pixel<C>>)
    ensures |r| == WIDTH * HEIGHT && AllInBounds(r)
    ensures forall i :: 0 <= i < |r| ==> r[i].color == color
  {
    seq(WIDTH * HEIGHT, i requires 0 <= i < WIDTH * HEIGHT => Pixel(i / HEIGHT, i % HEIGHT, color))
  }

  lemma RowMajorIndex(x: int, y: int)
    requires 0 <= y < HEIGHT
    ensures (x * HEIGHT + y) / HEIGHT == x && (x * HEIGHT + y) % HEIGHT == y
  {
  }

  /** Cell (x, y) sits at position x * HEIGHT + y of the background. */
  lemma BackgroundAt<C>(color: C, x: int, y: int)
    requires InBounds((x, y))
    ensures 0 <= x * HEIGHT + y < |Background(color)|
    ensures Background(color)[x * HEIGHT + y] == Pixel(x, y, color)
  {
    RowMajorIndex(x, y);
  }

  /** `makeBackground` (list form): for each x in [0, WIDTH), for each y in
      [0, HEIGHT), push a pixel of the given colour. */
  method MakeBackground<C>(color: C) returns (grid: seq<Pixel<C>>)
    ensures grid == Background(color)
  {
    grid := [];
    var x := 0;
    while x < WIDTH
      invariant 0 <= x <= WIDTH
      invariant grid == Background(color)[..x * HEIGHT]
    {
      var y := 0;
      while y < HEIGHT
        invariant 0 <= y <= HEIGHT
        invariant grid == Background(color)[..x * HEIGHT + y]
      {
        BackgroundAt(color, x, y);
        grid := grid + [Pixel(x, y, color)];
        y := y + 1;
      }
      x := x + 1;
    }
  }

  /** The background has one pixel per cell, all of the given colour, and
      nothing outside the board. */
  lemma BackgroundIsFullFrame<C>(color: C)
    ensures |Background(color)| == WIDTH * HEIGHT
    ensures FullFrame(Background(color)) && AllInBounds(Background(color))
    ensures forall i :: 0 <= i < |Background(color)| ==> Background(color)[i].color == color
  {
    var bg := Background(color);
    forall i, j | 0 <= i < j < |bg|
      ensures Coordinate(bg[i]) != Coordinate(bg[j])
    {
      assert i == (i / HEIGHT) * HEIGHT + i % HEIGHT;
      assert j == (j / HEIGHT) * HEIGHT + j % HEIGHT;
    }
    forall c | c in Board()
      ensures c in CoordSet(bg)
    {
      BackgroundAt(color, c.0, c.1);
    }
    forall c | c in CoordSet(bg)
      ensures c in Board()
    {
      var i :| 0 <= i < |bg| && Coordinate(bg[i]) == c;
    }
  }

  // ---------------------------------------------------------------------
  // Counting cells

  lemma {:induction false} DistinctCoordSetSize<C>(ps: seq<Pixel<C>>)
    requires DistinctCoords(ps)
    ensures |CoordSet(ps)| == |ps|
    decreases |ps|
  {
    if ps != [] {
      var n := |ps| - 1;
      var front, last := ps[..n], ps[n];
      assert DistinctCoords(front);
      DistinctCoordSetSize(front);
      CoordSetFront(ps);
      assert Coordinate(last) !in CoordSet(front) by {
        forall i | 0 <= i < n ensures Coordinate(front[i]) != Coordinate(last) {
          assert front[i] == ps[i];
        }
      }
    }
  }

  /** A full frame has exactly WIDTH * HEIGHT pixels. */
  lemma FullFrameSize<C>(ps: seq<Pixel<C>>)
    requires FullFrame(ps)
    ensures |ps| == WIDTH * HEIGHT
  {
    var bg := Background(0);
    BackgroundIsFullFrame(0);
    DistinctCoordSetSize(ps);
    DistinctCoordSetSize(bg);
  }

  /** Putting two cell-disjoint lists of distinct cells side by side keeps the
      cells distinct, and the covered cells add up. */
  lemma ConcatDistinct<C>(a: seq<Pixel<C>>, b: seq<Pixel<C>>)
    requires DistinctCoords(a) && DistinctCoords(b)
    requires CoordSet(a) !! CoordSet(b)
    ensures DistinctCoords(a + b)
    ensures CoordSet(a + b) == CoordSet(a) + CoordSet(b)
  {
    var ab := a + b;
    forall i, j | 0 <= i < j < |ab|
      ensures Coordinate(ab[i]) != Coordinate(ab[j])
    {
      if i < |a| && j >= |a| {
        assert Coordinate(ab[i]) in CoordSet(a);
        assert Coordinate(ab[j]) == Coordinate(b[j - |a|]);
        assert Coordinate(b[j - |a|]) in CoordSet(b);
      } else if i >= |a| {
        assert Coordinate(ab[i]) == Coordinate(b[i - |a|]);
      }
    }
    forall c | c in CoordSet(ab)
      ensures c in CoordSet(a) + CoordSet(b)
    {
      var i :| 0 <= i < |ab| && Coordinate(ab[i]) == c;
      if i >= |a| { assert Coordinate(b[i - |a|]) == c; }
    }
    forall c | c in CoordSet(b)
      ensures c in CoordSet(ab)
    {
      var i :| 0 <= i < |b| && Coordinate(b[i]) == c;
      assert Coordinate(ab[|a| + i]) == c;
    }
    forall c | c in CoordSet(a)
      ensures c in CoordSet(ab)
    {
      var i :| 0 <= i < |a| && Coordinate(a[i]) == c;
      assert Coordinate(ab[i]) == c;
    }
  }
}
