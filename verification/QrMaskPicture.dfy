/** The eight mask patterns as pictures of one period (ISO/IEC 18004 section 7.8.2). */
module QrMaskPicture {
  import opened QrGrid
  import opened QrMask

  /** The rows of one period; every pattern repeats after six columns. */
  function Picture(mask: nat): (rows: seq<string>)
    requires mask < 8
    ensures rows != [] && forall y :: 0 <= y < |rows| ==> |rows[y]| == 6
  {
    if mask == 0 then ["#.#.#.", ".#.#.#"]
    else if mask == 1 then ["######", "......"]
    else if mask == 2 then ["#..#.."]
    else if mask == 3 then ["#..#..", "..#..#", ".#..#."]
    else if mask == 4 then ["###...", "###...", "...###", "...###"]
    else if mask == 5 then ["######", "#.....", "#..#..", "#.#.#.", "#..#..", "#....."]
    else if mask == 6 then ["######", "###...", "##.##.", "#.#.#.", "#.##.#", "#...##"]
    else ["#.#.#.", "...###", "#...##", ".#.#.#", "###...", ".###.."]
  }

  /** Which columns of one period a row inverts. */
  lemma Row(row: string, x: nat)
    requires x < 6 && |row| == 6
    ensures row[x] == if x == 0 then row[0] else if x == 1 then row[1] else if x == 2 then row[2]
      else if x == 3 then row[3] else if x == 4 then row[4] else row[5]
  {}

  lemma Period0(x: nat, y: nat)
    requires x < 6 && y < 2
    ensures Inverts(0, x, y) <==> Picture(0)[y][x] == '#'
  {
    Row(Picture(0)[y], x);
    if y == 0 {
      assert Picture(0)[y] == "#.#.#.";
    } else {
      assert Picture(0)[y] == ".#.#.#";
    }
  }

  lemma Period1(x: nat, y: nat)
    requires x < 6 && y < 2
    ensures Inverts(1, x, y) <==> Picture(1)[y][x] == '#'
  {
    Row(Picture(1)[y], x);
    if y == 0 {
      assert Picture(1)[y] == "######";
    } else {
      assert Picture(1)[y] == "......";
    }
  }

  lemma Period2(x: nat, y: nat)
    requires x < 6 && y < 1
    ensures Inverts(2, x, y) <==> Picture(2)[y][x] == '#'
  {
    Row(Picture(2)[y], x);
  }

  lemma Period3(x: nat, y: nat)
    requires x < 6 && y < 3
    ensures Inverts(3, x, y) <==> Picture(3)[y][x] == '#'
  {
    Row(Picture(3)[y], x);
    if y == 0 {
      assert Picture(3)[y] == "#..#..";
    } else if y == 1 {
      assert Picture(3)[y] == "..#..#";
    } else {
      assert Picture(3)[y] == ".#..#.";
    }
  }

  lemma Period4(x: nat, y: nat)
    requires x < 6 && y < 4
    ensures Inverts(4, x, y) <==> Picture(4)[y][x] == '#'
  {
    Row(Picture(4)[y], x);
    if y == 0 {
      assert Picture(4)[y] == "###...";
    } else if y == 1 {
      assert Picture(4)[y] == "###...";
    } else if y == 2 {
      assert Picture(4)[y] == "...###";
    } else {
      assert Picture(4)[y] == "...###";
    }
  }

  lemma Period5(x: nat, y: nat)
    requires x < 6 && y < 6
    ensures Inverts(5, x, y) <==> Picture(5)[y][x] == '#'
  {
    Row(Picture(5)[y], x);
    if y == 0 {
      assert Picture(5)[y] == "######";
    } else if y == 1 {
      assert Picture(5)[y] == "#.....";
    } else if y == 2 {
      assert Picture(5)[y] == "#..#..";
    } else if y == 3 {
      assert Picture(5)[y] == "#.#.#.";
    } else if y == 4 {
      assert Picture(5)[y] == "#..#..";
    } else {
      assert Picture(5)[y] == "#.....";
    }
  }

  lemma SmallProduct(x: nat, y: nat)
    requires y < 6
    ensures x * y == if y == 0 then 0 else if y == 1 then x else if y == 2 then 2 * x
      else if y == 3 then 3 * x else if y == 4 then 4 * x else 5 * x
  {}

  predicate SixFor(p: nat) { (p % 2 + p % 3) % 2 == 0 }

  predicate SevenFor(sum: nat, p: nat) { (sum % 2 + p % 3) % 2 == 0 }

  predicate FiveFor(p: nat) { p % 2 + p % 3 == 0 }

  lemma AreFor(x: nat, y: nat)
    ensures Inverts(5, x, y) == FiveFor(x * y)
    ensures Inverts(6, x, y) == SixFor(x * y) && Inverts(7, x, y) == SevenFor(x + y, x * y)
  {}

  lemma Period6Row0(x: nat)
    requires x < 6
    ensures SixFor(0) <==> "######"[x] == '#'
  {
    assert x == 0 || x == 1 || x == 2 || x == 3 || x == 4 || x == 5;
  }

  lemma Period6Row1(x: nat)
    requires x < 6
    ensures SixFor(x) <==> "###..."[x] == '#'
  {
    assert x == 0 || x == 1 || x == 2 || x == 3 || x == 4 || x == 5;
  }

  lemma Period6Row2(x: nat)
    requires x < 6
    ensures SixFor(2 * x) <==> "##.##."[x] == '#'
  {
    assert x == 0 || x == 1 || x == 2 || x == 3 || x == 4 || x == 5;
  }

  lemma Period6Row3(x: nat)
    requires x < 6
    ensures SixFor(3 * x) <==> "#.#.#."[x] == '#'
  {
    assert x == 0 || x == 1 || x == 2 || x == 3 || x == 4 || x == 5;
  }

  lemma Period6Row4(x: nat)
    requires x < 6
    ensures SixFor(4 * x) <==> "#.##.#"[x] == '#'
  {
    assert x == 0 || x == 1 || x == 2 || x == 3 || x == 4 || x == 5;
  }

  lemma Period6Row5(x: nat)
    requires x < 6
    ensures SixFor(5 * x) <==> "#...##"[x] == '#'
  {
    assert x == 0 || x == 1 || x == 2 || x == 3 || x == 4 || x == 5;
  }

  lemma Period7Row0(x: nat)
    requires x < 6
    ensures SevenFor(x + 0, 0) <==> "#.#.#."[x] == '#'
  {
    assert x == 0 || x == 1 || x == 2 || x == 3 || x == 4 || x == 5;
  }

  lemma Period7Row1(x: nat)
    requires x < 6
    ensures SevenFor(x + 1, x) <==> "...###"[x] == '#'
  {
    assert x == 0 || x == 1 || x == 2 || x == 3 || x == 4 || x == 5;
  }

  lemma Period7Row2(x: nat)
    requires x < 6
    ensures SevenFor(x + 2, 2 * x) <==> "#...##"[x] == '#'
  {
    assert x == 0 || x == 1 || x == 2 || x == 3 || x == 4 || x == 5;
  }

  lemma Period7Row3(x: nat)
    requires x < 6
    ensures SevenFor(x + 3, 3 * x) <==> ".#.#.#"[x] == '#'
  {
    assert x == 0 || x == 1 || x == 2 || x == 3 || x == 4 || x == 5;
  }

  lemma Period7Row4(x: nat)
    requires x < 6
    ensures SevenFor(x + 4, 4 * x) <==> "###..."[x] == '#'
  {
    assert x == 0 || x == 1 || x == 2 || x == 3 || x == 4 || x == 5;
  }

  lemma Period7Row5(x: nat)
    requires x < 6
    ensures SevenFor(x + 5, 5 * x) <==> ".###.."[x] == '#'
  {
    assert x == 0 || x == 1 || x == 2 || x == 3 || x == 4 || x == 5;
  }

  lemma Period6(x: nat, y: nat)
    requires x < 6 && y < 6
    ensures Inverts(6, x, y) <==> Picture(6)[y][x] == '#'
  {
    hide Inverts, SixFor, SevenFor;
    AreFor(x, y);
    SmallProduct(x, y);
    if y == 0 {
      Period6Row0(x);
    } else if y == 1 {
      Period6Row1(x);
    } else if y == 2 {
      Period6Row2(x);
    } else if y == 3 {
      Period6Row3(x);
    } else if y == 4 {
      Period6Row4(x);
    } else {
      Period6Row5(x);
    }
  }

  lemma Period7(x: nat, y: nat)
    requires x < 6 && y < 6
    ensures Inverts(7, x, y) <==> Picture(7)[y][x] == '#'
  {
    hide Inverts, SixFor, SevenFor;
    AreFor(x, y);
    SmallProduct(x, y);
    if y == 0 {
      Period7Row0(x);
    } else if y == 1 {
      Period7Row1(x);
    } else if y == 2 {
      Period7Row2(x);
    } else if y == 3 {
      Period7Row3(x);
    } else if y == 4 {
      Period7Row4(x);
    } else {
      Period7Row5(x);
    }
  }

  lemma InPeriod(mask: nat, x: nat, y: nat)
    requires mask < 8 && x < 6 && y < |Picture(mask)|
    ensures Inverts(mask, x, y) <==> Picture(mask)[y][x] == '#'
  {
    hide Inverts;
    if mask == 0 {
      Period0(x, y);
    } else if mask == 1 {
      Period1(x, y);
    } else if mask == 2 {
      Period2(x, y);
    } else if mask == 3 {
      Period3(x, y);
    } else if mask == 4 {
      Period4(x, y);
    } else if mask == 5 {
      Period5(x, y);
    } else if mask == 6 {
      Period6(x, y);
    } else {
      Period7(x, y);
    }
  }

  lemma ProductInPeriod(x: nat, y: nat)
    ensures x * y % 2 == (x % 6) * (y % 6) % 2 && x * y % 3 == (x % 6) * (y % 6) % 3
  {
    var a, b, r, s := x / 6, y / 6, x % 6, y % 6;
    assert x * y == 6 * (a * y + r * b) + r * s by { Expanded(a, b, r, s); }
    SixTimes(r * s, a * y + r * b);
  }

  lemma Expanded(a: nat, b: nat, r: nat, s: nat)
    ensures (6 * a + r) * (6 * b + s) == 6 * (a * (6 * b + s) + r * b) + r * s
  {}

  lemma SixTimes(x: nat, k: nat)
    ensures (6 * k + x) % 2 == x % 2 && (6 * k + x) % 3 == x % 3
  {
    Multiples(3 * k, x);
    Multiples(2 * k, x);
    assert 6 * k == 2 * (3 * k) == 3 * (2 * k);
  }

  lemma Multiples(k: nat, z: nat)
    ensures (2 * k + z) % 2 == z % 2 && (3 * k + z) % 3 == z % 3
  {}

  lemma SumInPeriod(x: nat, y: nat)
    ensures (x + y) % 2 == (x % 6 + y % 2) % 2
    ensures (x + y) % 2 == (x % 6 + y % 6) % 2
    ensures (x + y) % 3 == (x % 6 + y % 3) % 3
  {
    Multiples(3 * (x / 6) + y / 2, x % 6 + y % 2);
    assert x + y == 2 * (3 * (x / 6) + y / 2) + (x % 6 + y % 2);
    Multiples(3 * (x / 6) + 3 * (y / 6), x % 6 + y % 6);
    assert x + y == 2 * (3 * (x / 6) + 3 * (y / 6)) + (x % 6 + y % 6);
    Multiples(2 * (x / 6) + y / 3, x % 6 + y % 3);
    assert x + y == 3 * (2 * (x / 6) + y / 3) + (x % 6 + y % 3);
  }

  lemma BlocksInPeriod(x: nat, y: nat)
    ensures (x / 3 + y / 2) % 2 == (x % 6 / 3 + y % 4 / 2) % 2
  {
    var a, r, b, s := x / 6, x % 6, y / 4, y % 4;
    assert x / 3 == 2 * a + r / 3 && y / 2 == 2 * b + s / 2;
  }

  lemma SameFor(p: nat, q: nat, sum: nat, other: nat)
    requires p % 2 == q % 2 && p % 3 == q % 3 && sum % 2 == other % 2
    ensures FiveFor(p) == FiveFor(q) && SixFor(p) == SixFor(q) && SevenFor(sum, p) == SevenFor(other, q)
  {}

  lemma PlainMasks(x: nat, y: nat)
    ensures Inverts(0, x, y) == ((x + y) % 2 == 0) && Inverts(1, x, y) == (y % 2 == 0)
    ensures Inverts(4, x, y) == ((x / 3 + y / 2) % 2 == 0)
  {}

  lemma ThirdMasks(x: nat, y: nat)
    ensures Inverts(2, x, y) == (x % 3 == 0) && Inverts(3, x, y) == ((x + y) % 3 == 0)
  {}

  lemma PlainInPeriod(x: nat, y: nat)
    ensures Inverts(0, x, y) <==> Inverts(0, x % 6, y % 2)
    ensures Inverts(1, x, y) <==> Inverts(1, x % 6, y % 2)
    ensures Inverts(4, x, y) <==> Inverts(4, x % 6, y % 4)
  {
    hide Inverts;
    PlainMasks(x, y);
    PlainMasks(x % 6, y % 2);
    PlainMasks(x % 6, y % 4);
    SumInPeriod(x, y);
    BlocksInPeriod(x, y);
  }

  lemma ThirdsInPeriod(x: nat, y: nat)
    ensures Inverts(2, x, y) <==> Inverts(2, x % 6, 0)
    ensures Inverts(3, x, y) <==> Inverts(3, x % 6, y % 3)
  {
    hide Inverts;
    ThirdMasks(x, y);
    ThirdMasks(x % 6, 0);
    ThirdMasks(x % 6, y % 3);
    SumInPeriod(x, y);
    SixTimes(x % 6, x / 6);
  }

  lemma ProductsInPeriod(x: nat, y: nat)
    ensures Inverts(5, x, y) <==> Inverts(5, x % 6, y % 6)
    ensures Inverts(6, x, y) <==> Inverts(6, x % 6, y % 6)
    ensures Inverts(7, x, y) <==> Inverts(7, x % 6, y % 6)
  {
    hide Inverts, FiveFor, SixFor, SevenFor;
    AreFor(x, y);
    AreFor(x % 6, y % 6);
    ProductInPeriod(x, y);
    SumInPeriod(x, y);
    SameFor(x * y, (x % 6) * (y % 6), x + y, x % 6 + y % 6);
  }

  lemma Periodic(mask: nat, x: nat, y: nat)
    requires mask < 8
    ensures Inverts(mask, x, y) <==> Inverts(mask, x % 6, y % |Picture(mask)|)
  {
    hide Inverts;
    PlainInPeriod(x, y);
    ThirdsInPeriod(x, y);
    ProductsInPeriod(x, y);
    Heights();
    hide Picture;
  }

  lemma Heights()
    ensures |Picture(0)| == |Picture(1)| == 2 && |Picture(2)| == 1 && |Picture(3)| == 3 && |Picture(4)| == 4
    ensures |Picture(5)| == |Picture(6)| == |Picture(7)| == 6
  {}

  /** Every pattern is its picture, repeated in both directions. */
  lemma MaskIsPicture(mask: nat, x: nat, y: nat)
    requires mask < 8
    ensures Inverts(mask, x, y) <==> Picture(mask)[y % |Picture(mask)|][x % 6] == '#'
  {
    InPeriod(mask, x % 6, y % |Picture(mask)|);
    Periodic(mask, x, y);
  }

  /** The mask as it lies on the grid: row y, column x. */
  lemma MaskOnGrid(g: Grid, isFunction: Grid, mask: nat, x: nat, y: nat)
    requires Square(g, |g|) && Square(isFunction, |g|) && mask < 8 && x < |g| && y < |g|
    ensures Masked(g, isFunction, mask)[y][x]
         == (g[y][x] != (Picture(mask)[y % |Picture(mask)|][x % 6] == '#' && !isFunction[y][x]))
  {
    hide Inverts, Picture, Masked;
    MaskIsPicture(mask, x, y);
    assert At(Masked(g, isFunction, mask), Cell(x, y)) == Masked(g, isFunction, mask)[y][x];
  }
}
