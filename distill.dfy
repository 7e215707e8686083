/** The block loop of `main`: repaint the image block by block, in place.

    For each origin of the block grid (module Blocks) the program averages
    the block `[x, x+B) x [y, y+B)` clipped to the image (`SubImage`),
    matches the average to the palette and fills the closed square
    `[x, x+B] x [y, y+B]` with the match. All of it happens on one pixel
    array, so a block is averaged after the blocks before it have painted
    their extra column and row into it.

    The loop structure (which origins, in which order, what each pass
    paints) does not depend on how a block's colour is chosen, so `Step`,
    `Column`, `Columns` and `Run` take that choice as a function `colourOf`
    from the current image and an origin to a colour, or None where the
    program panics; `BlockColours` is the choice the program makes. */
module Distill {
  import opened Colour
  import opened Average
  import opened Matcher
  import opened Fill
  import opened Blocks

  /** The colour the program paints the block at (x, y) of g with: the
      palette match of the block's average. None where it panics: a zero
      uint32 pixel count divides by zero, and a nil colour from
      nearestColour makes `Set` call a method on nil. */
  function BlockColour(g: Image, height: int, x: int, y: int, blockSize: int,
                       palette: seq<RGBA>, dist: (RGBA, RGBA) -> real): (r: Option<RGBA>)
  {
    if IsRect(g, |g|, height) && 0 <= x < |g| && 0 <= y < height && blockSize >= 1 then
      match BlockAverage(g, x, BlockEnd(x, blockSize, |g|), y, BlockEnd(y, blockSize, height))
      case None => None
      case Some(average) => Nearest(average, palette, dist)
    else None
  }

  function BlockColours(height: int, blockSize: int, palette: seq<RGBA>, dist: (RGBA, RGBA) -> real)
    : (r: (Image, int, int) -> Option<RGBA>)
  {
    (g, x, y) => BlockColour(g, height, x, y, blockSize, palette, dist)
  }

  /** colourOf only ever picks palette colours. */
  ghost predicate PicksFrom(colourOf: (Image, int, int) -> Option<RGBA>, palette: seq<RGBA>) {
    forall g, x, y :: colourOf(g, x, y).Some? ==> colourOf(g, x, y).value in palette
  }

  /** The program paints every block in a colour of the palette. */
  lemma BlockColoursPickFromPalette(height: int, blockSize: int, palette: seq<RGBA>, dist: (RGBA, RGBA) -> real)
    ensures PicksFrom(BlockColours(height, blockSize, palette, dist), palette)
  {
    forall g, x, y | BlockColours(height, blockSize, palette, dist)(g, x, y).Some?
      ensures BlockColours(height, blockSize, palette, dist)(g, x, y).value in palette
    {
      if IsRect(g, |g|, height) && 0 <= x < |g| && 0 <= y < height && blockSize >= 1 {
        var average := BlockAverage(g, x, BlockEnd(x, blockSize, |g|), y, BlockEnd(y, blockSize, height));
        NearestIsMember(average.value, palette, dist);
      }
    }
  }

  /** What the program paints the block at (x, y) with, given the results
      of calculateAverageBlockColour and nearestColour there. */
  lemma BlockColourOf(g: Image, height: int, x: int, y: int, blockSize: int, palette: seq<RGBA>,
                      dist: (RGBA, RGBA) -> real, average: Option<RGBA>, nearest: Option<RGBA>)
    requires IsRect(g, |g|, height) && 0 <= x < |g| && 0 <= y < height && blockSize >= 1
    requires average == BlockAverage(g, x, BlockEnd(x, blockSize, |g|), y, BlockEnd(y, blockSize, height))
    requires average.Some? ==> nearest == Nearest(average.value, palette, dist)
    ensures average.None? ==> BlockColours(height, blockSize, palette, dist)(g, x, y).None?
    ensures average.Some? ==> BlockColours(height, blockSize, palette, dist)(g, x, y) == nearest
  {
  }

  /** The filled image keeps the shape of the image. */
  lemma FilledIsRect(g: Image, width: int, height: int, blockX: int, blockY: int, blockSize: int, c: RGBA)
    requires IsRect(g, width, height)
    ensures IsRect(Filled(g, blockX, blockY, blockSize, c), width, height)
  {
  }

  /** One pass of the loop body at origin (x, y). */
  function Step(g: Image, x: int, y: int, blockSize: int, colourOf: (Image, int, int) -> Option<RGBA>)
    : (r: Option<Image>)
  {
    match colourOf(g, x, y)
    case None => None
    case Some(c) => Some(Filled(g, x, y, blockSize, c))
  }

  /** The loop body run at each origin in turn. */
  function Run(g: Image, origins: seq<(int, int)>, blockSize: int,
               colourOf: (Image, int, int) -> Option<RGBA>): (r: Option<Image>)
    decreases |origins|
  {
    if origins == [] then Some(g)
    else
      match Step(g, origins[0].0, origins[0].1, blockSize, colourOf)
      case None => None
      case Some(next) => Run(next, origins[1..], blockSize, colourOf)
  }

  /** The inner loop over y for column x, from y on. */
  function Column(g: Image, height: int, x: int, y: int, blockSize: int,
                  colourOf: (Image, int, int) -> Option<RGBA>): (r: Option<Image>)
    requires IsRect(g, |g|, height) && blockSize >= 1
    ensures r.Some? ==> IsRect(r.value, |g|, height)
    decreases height - y
  {
    if y >= height then Some(g)
    else
      match colourOf(g, x, y)
      case None => None
      case Some(c) =>
        FilledIsRect(g, |g|, height, x, y, blockSize, c);
        Column(Filled(g, x, y, blockSize, c), height, x, y + blockSize, blockSize, colourOf)
  }

  /** The outer loop over x, from column x on. */
  function Columns(g: Image, height: int, x: int, blockSize: int,
                   colourOf: (Image, int, int) -> Option<RGBA>): (r: Option<Image>)
    requires IsRect(g, |g|, height) && blockSize >= 1
    ensures r.Some? ==> IsRect(r.value, |g|, height)
    decreases |g| - x
  {
    if x >= |g| then Some(g)
    else
      match Column(g, height, x, 0, blockSize, colourOf)
      case None => None
      case Some(next) => Columns(next, height, x + blockSize, blockSize, colourOf)
  }

  /** The image the block loop leaves, or None where the program panics. */
  function Distilled(g: Image, height: int, blockSize: int, palette: seq<RGBA>,
                     dist: (RGBA, RGBA) -> real): (r: Option<Image>)
    requires IsRect(g, |g|, height) && blockSize >= 1
  {
    Columns(g, height, 0, blockSize, BlockColours(height, blockSize, palette, dist))
  }

  /** One pass of the inner loop at (x, y), when colourOf picks c there:
      the rest of the column runs on the filled image. */
  lemma ColumnAdvances(g: Image, next: Image, height: int, x: int, y: int, blockSize: int,
                       colourOf: (Image, int, int) -> Option<RGBA>, c: RGBA)
    requires IsRect(g, |g|, height) && y < height && blockSize >= 1
    requires colourOf(g, x, y) == Some(c) && next == Filled(g, x, y, blockSize, c)
    ensures IsRect(next, |g|, height)
    ensures Column(g, height, x, y, blockSize, colourOf) == Column(next, height, x, y + blockSize, blockSize, colourOf)
  {
    FilledIsRect(g, |g|, height, x, y, blockSize, c);
  }

  /** The inner loop's invariant is kept by one pass: what the column
      yields from its start is what it yields from the next origin on. */
  lemma ColumnInvariantKept(start: Image, g: Image, next: Image, height: int, x: int, y: int, nextY: int,
                            blockSize: int, colourOf: (Image, int, int) -> Option<RGBA>, c: RGBA)
    requires IsRect(start, |g|, height) && IsRect(g, |g|, height) && y < height && blockSize >= 1
    requires Column(start, height, x, 0, blockSize, colourOf) == Column(g, height, x, y, blockSize, colourOf)
    requires colourOf(g, x, y) == Some(c) && next == Filled(g, x, y, blockSize, c) && nextY == y + blockSize
    ensures IsRect(next, |g|, height)
    ensures Column(start, height, x, 0, blockSize, colourOf) == Column(next, height, x, nextY, blockSize, colourOf)
  {
    ColumnAdvances(g, next, height, x, y, blockSize, colourOf, c);
  }

  /** The outer loop's invariant is kept by one pass: once the inner loop
      has run over column x, the block loop goes on from x + blockSize. */
  lemma ColumnsInvariantKept(result: Option<Image>, start: Image, next: Image, height: int, x: int, nextX: int, y: int,
                             blockSize: int, colourOf: (Image, int, int) -> Option<RGBA>)
    requires IsRect(start, |start|, height) && IsRect(next, |start|, height) && 0 <= x < |start| && blockSize >= 1
    requires result == Columns(start, height, x, blockSize, colourOf)
    requires y >= height && Column(start, height, x, 0, blockSize, colourOf) == Column(next, height, x, y, blockSize, colourOf)
    requires nextX == x + blockSize
    ensures result == Columns(next, height, nextX, blockSize, colourOf)
  {
  }

  /** The block loop of `main` (its lines between opening and saving the
      image), with `opts.BlockSize` as blockSize and the extracted palette. */
  method DistillBlocks(img: array2<RGBA>, blockSize: int, palette: seq<RGBA>, dist: (RGBA, RGBA) -> real)
    returns (ok: bool)
    requires blockSize >= 1
    modifies img
    ensures ok == Distilled(old(Grid(img)), img.Length1, blockSize, palette, dist).Some?
    ensures ok ==> Grid(img) == Distilled(old(Grid(img)), img.Length1, blockSize, palette, dist).value
  {
    var width, height := img.Length0, img.Length1;
    ghost var colourOf := BlockColours(height, blockSize, palette, dist);
    ghost var cur := Grid(img);
    ghost var result := Columns(cur, height, 0, blockSize, colourOf);
    var x := 0;
    while x < width
      invariant 0 <= x
      invariant cur == Grid(img) && IsRect(cur, width, height)
      invariant result == Columns(cur, height, x, blockSize, colourOf)
      decreases width - x
    {
      ghost var columnStart := cur;
      var y := 0;
      while y < height
        invariant 0 <= y
        invariant cur == Grid(img) && IsRect(cur, width, height)
        invariant Column(columnStart, height, x, 0, blockSize, colourOf)
                  == Column(cur, height, x, y, blockSize, colourOf)
        decreases height - y
      {
        var average := CalculateAverageBlockColour(img, x, y, BlockEnd(x, blockSize, width), BlockEnd(y, blockSize, height));
        if average.None? {
          // integer divide by zero: the program panics
          BlockColourOf(cur, height, x, y, blockSize, palette, dist, average, None);
          return false;
        }
        var nearest := NearestColour(average.value, palette, dist);
        BlockColourOf(cur, height, x, y, blockSize, palette, dist, average, nearest);
        if nearest.None? {
          // Set converts a nil colour: the program panics
          return false;
        }
        ghost var before, previousY := cur, y;
        FillBlock(x, y, blockSize, nearest.value, img);
        cur := Grid(img);
        y := y + blockSize;
        ColumnInvariantKept(columnStart, before, cur, height, x, previousY, y, blockSize, colourOf, nearest.value);
      }
      ghost var previousX := x;
      x := x + blockSize;
      ColumnsInvariantKept(result, columnStart, cur, height, previousX, x, y, blockSize, colourOf);
    }
    return true;
  }

  /** With a block size of 0 or less the program panics at the first
      block: the rectangle SubImage cuts there holds no pixel, so the pixel
      count is zero. */
  lemma NonPositiveBlockSizePanics(g: Image, height: int, blockSize: int)
    requires IsRect(g, |g|, height) && blockSize <= 0
    ensures var r := SubImageBounds(0, 0, blockSize, |g|, height);
            Within(g, r.minX, r.maxX, r.minY, r.maxY) && BlockAverage(g, r.minX, r.maxX, r.minY, r.maxY) == None
  {
    NonPositiveFirstBlockIsEmpty(blockSize, |g|, height);
  }

  /** Running the loop body over a + b runs it over a, then over b. */
  lemma {:induction false} RunAppend(g: Image, a: seq<(int, int)>, b: seq<(int, int)>, blockSize: int,
                                     colourOf: (Image, int, int) -> Option<RGBA>)
    ensures Run(g, a + b, blockSize, colourOf) ==
              match Run(g, a, blockSize, colourOf)
              case None => None
              case Some(next) => Run(next, b, blockSize, colourOf)
    decreases |a|
  {
    if a == [] {
      assert a + b == b;
    } else {
      assert (a + b)[0] == a[0] && (a + b)[1..] == a[1..] + b;
      match Step(g, a[0].0, a[0].1, blockSize, colourOf)
      case None =>
      case Some(next) =>
        RunAppend(next, a[1..], b, blockSize, colourOf);
    }
  }

  /** The inner loop runs the loop body at the origins of its column. */
  lemma {:induction false} ColumnVisitsColumnOrigins(g: Image, height: int, x: int, y: int, blockSize: int,
                                                     colourOf: (Image, int, int) -> Option<RGBA>)
    requires IsRect(g, |g|, height) && blockSize >= 1
    ensures Column(g, height, x, y, blockSize, colourOf)
            == Run(g, ColumnOrigins(x, y, height, blockSize), blockSize, colourOf)
    decreases height - y
  {
    if y < height {
      var rest := ColumnOrigins(x, y + blockSize, height, blockSize);
      assert ([(x, y)] + rest)[0] == (x, y) && ([(x, y)] + rest)[1..] == rest;
      match colourOf(g, x, y)
      case None =>
      case Some(c) =>
        FilledIsRect(g, |g|, height, x, y, blockSize, c);
        ColumnVisitsColumnOrigins(Filled(g, x, y, blockSize, c), height, x, y + blockSize, blockSize, colourOf);
    }
  }

  /** The two loops run the loop body at each origin of Origins, in order:
      the block loop is the loop body run over the block grid. */
  lemma {:induction false} ColumnsVisitOrigins(g: Image, height: int, x: int, blockSize: int,
                                               colourOf: (Image, int, int) -> Option<RGBA>)
    requires IsRect(g, |g|, height) && blockSize >= 1
    ensures Columns(g, height, x, blockSize, colourOf)
            == Run(g, Origins(x, |g|, height, blockSize), blockSize, colourOf)
    decreases |g| - x
  {
    if x < |g| {
      RunAppend(g, ColumnOrigins(x, 0, height, blockSize), Origins(x + blockSize, |g|, height, blockSize),
                blockSize, colourOf);
      ColumnVisitsColumnOrigins(g, height, x, 0, blockSize, colourOf);
      match Column(g, height, x, 0, blockSize, colourOf)
      case None =>
      case Some(next) =>
        ColumnsVisitOrigins(next, height, x + blockSize, blockSize, colourOf);
    }
  }

  /** The image the program leaves is the loop body run over the block
      grid, origin by origin. */
  lemma DistilledRunsOverGrid(g: Image, height: int, blockSize: int, palette: seq<RGBA>, dist: (RGBA, RGBA) -> real)
    requires IsRect(g, |g|, height) && blockSize >= 1
    ensures Distilled(g, height, blockSize, palette, dist)
            == Run(g, Origins(0, |g|, height, blockSize), blockSize, BlockColours(height, blockSize, palette, dist))
  {
    ColumnsVisitOrigins(g, height, 0, blockSize, BlockColours(height, blockSize, palette, dist));
  }

  /** Every pixel of `r` is a palette colour or the pixel of `g` there. */
  ghost predicate RepaintedFrom(r: Image, g: Image, width: int, height: int, palette: seq<RGBA>)
    requires IsRect(r, width, height) && IsRect(g, width, height)
  {
    forall i, j :: 0 <= i < width && 0 <= j < height ==> r[i][j] in palette || r[i][j] == g[i][j]
  }

  /** Painting the closed square at (x, y) in a palette colour, then
      painting the rows from y + blockSize on, paints the rows from y on. */
  lemma RepaintAfterFill(g: Image, next: Image, r: Image, width: int, height: int, x: int, y: int, blockSize: int,
                         c: RGBA, palette: seq<RGBA>)
    requires IsRect(g, width, height) && IsRect(r, width, height) && 0 <= x && 0 <= y && blockSize >= 1
    requires next == Filled(g, x, y, blockSize, c) && c in palette
    requires RepaintedFrom(r, next, width, height, palette)
    requires forall i, j :: x <= i <= x + blockSize && i < width && y + blockSize <= j < height ==> r[i][j] in palette
    ensures RepaintedFrom(r, g, width, height, palette)
    ensures forall i, j :: x <= i <= x + blockSize && i < width && y <= j < height ==> r[i][j] in palette
  {
    forall i, j | 0 <= i < width && 0 <= j < height
      ensures r[i][j] in palette || r[i][j] == g[i][j]
    {
      assert next[i][j] == if InClosedBlock(i, j, x, y, blockSize) then c else g[i][j];
    }
    forall i, j | x <= i <= x + blockSize && i < width && y <= j < height
      ensures r[i][j] in palette
    {
      if j < y + blockSize {
        assert next[i][j] == c;
      }
    }
  }

  /** The inner loop paints, in palette colours, every pixel of the columns
      x to x + blockSize from row y down, and leaves the others unchanged or
      in palette colours. */
  lemma {:induction false} ColumnPaints(g: Image, height: int, x: int, y: int, blockSize: int,
                                        colourOf: (Image, int, int) -> Option<RGBA>, palette: seq<RGBA>)
    requires IsRect(g, |g|, height) && 0 <= x && 0 <= y && blockSize >= 1 && PicksFrom(colourOf, palette)
    requires Column(g, height, x, y, blockSize, colourOf).Some?
    ensures RepaintedFrom(Column(g, height, x, y, blockSize, colourOf).value, g, |g|, height, palette)
    ensures forall i, j :: x <= i <= x + blockSize && i < |g| && y <= j < height ==>
              Column(g, height, x, y, blockSize, colourOf).value[i][j] in palette
    decreases height - y
  {
    if y < height {
      var c := colourOf(g, x, y).value;
      var next := Filled(g, x, y, blockSize, c);
      ColumnAdvances(g, next, height, x, y, blockSize, colourOf, c);
      ColumnPaints(next, height, x, y + blockSize, blockSize, colourOf, palette);
      RepaintAfterFill(g, next, Column(next, height, x, y + blockSize, blockSize, colourOf).value,
                       |g|, height, x, y, blockSize, c, palette);
    }
  }

  /** The outer loop paints, in palette colours, every pixel of the columns
      from x on, and leaves the others unchanged or in palette colours. */
  lemma {:induction false} ColumnsPaint(g: Image, height: int, x: int, blockSize: int,
                                        colourOf: (Image, int, int) -> Option<RGBA>, palette: seq<RGBA>)
    requires IsRect(g, |g|, height) && 0 <= x && blockSize >= 1 && PicksFrom(colourOf, palette)
    requires Columns(g, height, x, blockSize, colourOf).Some?
    ensures RepaintedFrom(Columns(g, height, x, blockSize, colourOf).value, g, |g|, height, palette)
    ensures forall i, j :: x <= i < |g| && 0 <= j < height ==>
              Columns(g, height, x, blockSize, colourOf).value[i][j] in palette
    decreases |g| - x
  {
    if x < |g| {
      var next := Column(g, height, x, 0, blockSize, colourOf).value;
      ColumnPaints(g, height, x, 0, blockSize, colourOf, palette);
      ColumnsPaint(next, height, x + blockSize, blockSize, colourOf, palette);
    }
  }

  /** When the block loop finishes, every pixel of the image is a palette
      colour: the closed squares cover the whole image. */
  lemma DistilledIsQuantised(g: Image, height: int, blockSize: int, palette: seq<RGBA>, dist: (RGBA, RGBA) -> real)
    requires IsRect(g, |g|, height) && blockSize >= 1
    requires Distilled(g, height, blockSize, palette, dist).Some?
    ensures forall i, j :: 0 <= i < |g| && 0 <= j < height ==>
              Distilled(g, height, blockSize, palette, dist).value[i][j] in palette
  {
    BlockColoursPickFromPalette(height, blockSize, palette, dist);
    ColumnsPaint(g, height, 0, blockSize, BlockColours(height, blockSize, palette, dist), palette);
  }
}
