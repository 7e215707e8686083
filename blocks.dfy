/** The block grid of `main`'s loop: the origins it visits and the blocks
    `SubImage` cuts out around them.

    The outer loop runs x over 0, B, 2B, ... below the width and the inner
    loop y over 0, B, 2B, ... below the height, B being the block size, at
    least 1. With B <= 0 the rectangle of the first block does not meet the
    image, so its average divides by zero (when the height is 0 and the
    width is not, the outer loop never ends instead). */
module Blocks {
  import opened Arith

  /** The far edge, along one axis, of [origin, origin + blockSize)
      intersected with [0, limit), as `SubImage` clips it. */
  function BlockEnd(origin: int, blockSize: int, limit: int): (r: int) {
    if origin + blockSize < limit then origin + blockSize else limit
  }

  /** image.Rectangle: the points with minX <= x < maxX and minY <= y < maxY. */
  datatype Rectangle = Rectangle(minX: int, minY: int, maxX: int, maxY: int)

  /** Point (x, y) lies in r. */
  predicate Contains(r: Rectangle, x: int, y: int) {
    r.minX <= x < r.maxX && r.minY <= y < r.maxY
  }

  predicate Empty(r: Rectangle) {
    r.minX >= r.maxX || r.minY >= r.maxY
  }

  /** image.Rect(x0, y0, x1, y1): the corners swapped where needed. */
  function Rect(x0: int, y0: int, x1: int, y1: int): (r: Rectangle)
    ensures r.minX <= r.maxX && r.minY <= r.maxY
    ensures {r.minX, r.maxX} == {x0, x1} && {r.minY, r.maxY} == {y0, y1}
  {
    Rectangle(if x0 <= x1 then x0 else x1, if y0 <= y1 then y0 else y1,
              if x0 <= x1 then x1 else x0, if y0 <= y1 then y1 else y0)
  }

  /** Rectangle.Intersect: the largest rectangle inside both, or the zero
      rectangle when they do not overlap. */
  function Intersect(r: Rectangle, s: Rectangle): (t: Rectangle)
    ensures Empty(t) ==> t == Rectangle(0, 0, 0, 0)
    ensures forall x, y :: Contains(t, x, y) <==> Contains(r, x, y) && Contains(s, x, y)
  {
    var t := Rectangle(if r.minX < s.minX then s.minX else r.minX,
                       if r.minY < s.minY then s.minY else r.minY,
                       if r.maxX > s.maxX then s.maxX else r.maxX,
                       if r.maxY > s.maxY then s.maxY else r.maxY);
    if Empty(t) then Rectangle(0, 0, 0, 0) else t
  }

  /** The bounds of `source.SubImage(image.Rect(x, y, x+B, y+B))` for an
      image with bounds [0, width) x [0, height): the intersection, and the
      zero rectangle of an empty image where they do not meet. */
  function SubImageBounds(x: int, y: int, blockSize: int, width: int, height: int): (r: Rectangle) {
    Intersect(Rect(x, y, x + blockSize, y + blockSize), Rectangle(0, 0, width, height))
  }

  /** For B >= 1 and an origin inside the image, the block is
      [x, BlockEnd(x)) x [y, BlockEnd(y)). */
  lemma SubImageIsClippedBlock(x: int, y: int, blockSize: int, width: int, height: int)
    requires blockSize >= 1 && 0 <= x < width && 0 <= y < height
    ensures SubImageBounds(x, y, blockSize, width, height)
            == Rectangle(x, y, BlockEnd(x, blockSize, width), BlockEnd(y, blockSize, height))
  {
  }

  /** For B <= 0 the first block, at (0, 0), is empty. */
  lemma NonPositiveFirstBlockIsEmpty(blockSize: int, width: int, height: int)
    requires blockSize <= 0
    ensures SubImageBounds(0, 0, blockSize, width, height) == Rectangle(0, 0, 0, 0)
  {
  }

  /** The origins the inner loop visits for column x, from y on. */
  function ColumnOrigins(x: int, y: int, height: int, blockSize: int): (r: seq<(int, int)>)
    requires blockSize >= 1
    ensures forall o :: o in r ==> o.0 == x && y <= o.1 < height
    decreases height - y
  {
    if y >= height then [] else [(x, y)] + ColumnOrigins(x, y + blockSize, height, blockSize)
  }

  /** The origins both loops visit, in order, from column x on. */
  function Origins(x: int, width: int, height: int, blockSize: int): (r: seq<(int, int)>)
    requires blockSize >= 1
    ensures forall o :: o in r ==> x <= o.0 < width && 0 <= o.1 < height
    decreases width - x
  {
    if x >= width then [] else ColumnOrigins(x, 0, height, blockSize) + Origins(x + blockSize, width, height, blockSize)
  }

  /** Two distinct multiples of blockSize are at least blockSize apart. */
  lemma MultiplesApart(a: int, b: int, blockSize: int)
    requires blockSize >= 1 && a % blockSize == 0 && b % blockSize == 0 && a < b
    ensures a + blockSize <= b
  {
    var p, q := a / blockSize, b / blockSize;
    assert a == blockSize * p && b == blockSize * q;
    assert p < q by {
      if q <= p {
        MulMonotone(blockSize, q, p);
      }
    }
    MulMonotone(blockSize, p + 1, q);
  }

  /** The next multiple of blockSize after a multiple. */
  lemma NextMultiple(a: int, blockSize: int)
    requires blockSize >= 1 && a % blockSize == 0
    ensures (a + blockSize) % blockSize == 0
  {
    MulStep(blockSize, a / blockSize + 1);
    DivModUnique(a + blockSize, blockSize, a / blockSize + 1, 0);
  }

  /** ColumnOrigins(x, y) holds (x, b) for exactly the multiples b of
      blockSize in [y, height), when y is a multiple itself. */
  lemma {:induction false} ColumnOriginsExactly(x: int, y: int, height: int, blockSize: int)
    requires blockSize >= 1 && y >= 0 && y % blockSize == 0
    ensures forall a, b :: (a, b) in ColumnOrigins(x, y, height, blockSize) <==>
              a == x && y <= b < height && b % blockSize == 0
    decreases height - y
  {
    if y < height {
      NextMultiple(y, blockSize);
      ColumnOriginsExactly(x, y + blockSize, height, blockSize);
      forall b | y < b < height && b % blockSize == 0
        ensures y + blockSize <= b
      {
        MultiplesApart(y, b, blockSize);
      }
    }
  }

  /** Origins(x) holds exactly the pairs of multiples of blockSize in
      [x, width) x [0, height), when x is a multiple itself. */
  lemma {:induction false} OriginsFromExactly(x: int, width: int, height: int, blockSize: int)
    requires blockSize >= 1 && x >= 0 && x % blockSize == 0
    ensures forall a, b :: (a, b) in Origins(x, width, height, blockSize) <==>
              x <= a < width && 0 <= b < height && a % blockSize == 0 && b % blockSize == 0
    decreases width - x
  {
    if x < width {
      NextMultiple(x, blockSize);
      OriginsFromExactly(x + blockSize, width, height, blockSize);
      ColumnOriginsExactly(x, 0, height, blockSize);
      forall a | x < a < width && a % blockSize == 0
        ensures x + blockSize <= a
      {
        MultiplesApart(x, a, blockSize);
      }
    }
  }

  /** The block loop visits (x, y) exactly when x and y are multiples of
      blockSize with x < width and y < height. */
  lemma OriginsExactly(width: int, height: int, blockSize: int)
    requires blockSize >= 1
    ensures forall x, y :: (x, y) in Origins(0, width, height, blockSize) <==>
              0 <= x < width && 0 <= y < height && x % blockSize == 0 && y % blockSize == 0
  {
    OriginsFromExactly(0, width, height, blockSize);
  }

  /** Origin p comes before origin q: x outer, y inner. */
  predicate Before(p: (int, int), q: (int, int)) {
    p.0 < q.0 || (p.0 == q.0 && p.1 < q.1)
  }

  predicate InOrder(s: seq<(int, int)>) {
    forall i, j :: 0 <= i < j < |s| ==> Before(s[i], s[j])
  }

  lemma {:induction false} ColumnOriginsInOrder(x: int, y: int, height: int, blockSize: int)
    requires blockSize >= 1
    ensures InOrder(ColumnOrigins(x, y, height, blockSize))
    decreases height - y
  {
    if y < height {
      ColumnOriginsInOrder(x, y + blockSize, height, blockSize);
      var rest := ColumnOrigins(x, y + blockSize, height, blockSize);
      assert forall k :: 0 <= k < |rest| ==> rest[k] in rest;
    }
  }

  lemma {:induction false} OriginsFromInOrder(x: int, width: int, height: int, blockSize: int)
    requires blockSize >= 1
    ensures InOrder(Origins(x, width, height, blockSize))
    decreases width - x
  {
    if x < width {
      var column := ColumnOrigins(x, 0, height, blockSize);
      var later := Origins(x + blockSize, width, height, blockSize);
      ColumnOriginsInOrder(x, 0, height, blockSize);
      OriginsFromInOrder(x + blockSize, width, height, blockSize);
      assert forall k :: 0 <= k < |column| ==> column[k] in column;
      assert forall k :: 0 <= k < |later| ==> later[k] in later;
    }
  }

  /** The block loop visits its origins in increasing order, x outer and
      y inner, so it visits each one once. */
  lemma OriginsInOrder(width: int, height: int, blockSize: int)
    requires blockSize >= 1
    ensures InOrder(Origins(0, width, height, blockSize))
  {
    OriginsFromInOrder(0, width, height, blockSize);
  }

  /** (i, j) lies in the block `SubImage` averages for origin o: the
      half-open [o, o + blockSize) on each axis, clipped to the image. */
  predicate InBlock(i: int, j: int, o: (int, int), blockSize: int, width: int, height: int) {
    o.0 <= i < BlockEnd(o.0, blockSize, width) && o.1 <= j < BlockEnd(o.1, blockSize, height)
  }

  /** The multiple of blockSize at or just below i. */
  function BlockStart(i: int, blockSize: int): (r: int)
    requires blockSize >= 1
    ensures r % blockSize == 0 && r <= i < r + blockSize
    ensures i >= 0 ==> r >= 0
  {
    var start := i - i % blockSize;
    DivModUnique(start, blockSize, i / blockSize, 0);
    if i >= 0 then NonNegativeMultiple(start, blockSize); start else start
  }

  /** A multiple of blockSize above -blockSize is not negative. */
  lemma NonNegativeMultiple(a: int, blockSize: int)
    requires blockSize >= 1 && a % blockSize == 0 && a > -blockSize
    ensures a >= 0
  {
    if a < 0 {
      MultiplesApart(a, 0, blockSize);
    }
  }

  /** A multiple of blockSize whose block holds i is BlockStart(i). */
  lemma BlockStartUnique(i: int, a: int, blockSize: int)
    requires blockSize >= 1 && a % blockSize == 0 && a <= i < a + blockSize
    ensures a == BlockStart(i, blockSize)
  {
    var s := BlockStart(i, blockSize);
    if a < s {
      MultiplesApart(a, s, blockSize);
    } else if s < a {
      MultiplesApart(s, a, blockSize);
    }
  }

  /** The averaged blocks partition the image: every pixel lies in the
      block of exactly one visited origin. */
  lemma BlocksPartitionImage(width: int, height: int, blockSize: int, i: int, j: int)
    requires blockSize >= 1 && 0 <= i < width && 0 <= j < height
    ensures (BlockStart(i, blockSize), BlockStart(j, blockSize)) in Origins(0, width, height, blockSize)
    ensures InBlock(i, j, (BlockStart(i, blockSize), BlockStart(j, blockSize)), blockSize, width, height)
    ensures forall o :: o in Origins(0, width, height, blockSize) && InBlock(i, j, o, blockSize, width, height) ==>
              o == (BlockStart(i, blockSize), BlockStart(j, blockSize))
  {
    OriginsExactly(width, height, blockSize);
    var a, b := BlockStart(i, blockSize), BlockStart(j, blockSize);
    assert 0 <= a < width && 0 <= b < height;
    forall o | o in Origins(0, width, height, blockSize) && InBlock(i, j, o, blockSize, width, height)
      ensures o == (BlockStart(i, blockSize), BlockStart(j, blockSize))
    {
      BlockStartUnique(i, o.0, blockSize);
      BlockStartUnique(j, o.1, blockSize);
    }
  }
}
