/** fillBlock: paint one colour over a block of the image, in place.

    Both loops run to `<=` their bound, so the square painted is the closed
    [blockX, blockX + blockSize] x [blockY, blockY + blockSize]: one column
    and one row more than the block, reaching into the neighbouring blocks
    to the right and below. `image.RGBA.Set` ignores points outside the
    image, so a square that sticks out is clipped. */
module Fill {
  import opened Colour

  /** (x, y) lies in the closed square fillBlock paints. */
  predicate InClosedBlock(x: int, y: int, blockX: int, blockY: int, blockSize: int) {
    blockX <= x <= blockX + blockSize && blockY <= y <= blockY + blockSize
  }

  /** The image after fillBlock: the closed square in `fillColour`, every
      other pixel as before. */
  function Filled(g: Image, blockX: int, blockY: int, blockSize: int, fillColour: RGBA): (r: Image) {
    seq(|g|, x requires 0 <= x < |g| =>
      seq(|g[x]|, y requires 0 <= y < |g[x]| =>
        if InClosedBlock(x, y, blockX, blockY, blockSize) then fillColour else g[x][y]))
  }

  /** `image.RGBA.Set` with an opaque colour: writes the pixel when (x, y)
      is inside the image and does nothing otherwise. */
  method Set(img: array2<RGBA>, x: int, y: int, c: RGBA)
    modifies img
    ensures forall i, j :: 0 <= i < img.Length0 && 0 <= j < img.Length1 ==>
              img[i, j] == if i == x && j == y then c else old(img[i, j])
  {
    if 0 <= x < img.Length0 && 0 <= y < img.Length1 {
      img[x, y] := c;
    }
  }

  /** fillBlock(blockX, blockY, blockSize, fillColour, img). */
  method FillBlock(blockX: int, blockY: int, blockSize: int, fillColour: RGBA, img: array2<RGBA>)
    modifies img
    ensures forall x, y :: 0 <= x < img.Length0 && 0 <= y < img.Length1 ==>
              img[x, y] == if InClosedBlock(x, y, blockX, blockY, blockSize) then fillColour else old(img[x, y])
    ensures Grid(img) == Filled(old(Grid(img)), blockX, blockY, blockSize, fillColour)
  {
    var x := blockX;
    while x <= blockX + blockSize
      invariant blockX <= x && (blockSize >= 0 ==> x <= blockX + blockSize + 1)
      invariant forall i, j :: 0 <= i < img.Length0 && 0 <= j < img.Length1 ==>
                  img[i, j] == if blockX <= i < x && blockY <= j <= blockY + blockSize then fillColour else old(img[i, j])
    {
      var y := blockY;
      while y <= blockY + blockSize
        invariant blockY <= y <= blockY + blockSize + 1
        invariant forall i, j :: 0 <= i < img.Length0 && 0 <= j < img.Length1 ==>
                    img[i, j] == if (blockX <= i < x || (i == x && j < y)) && blockY <= j <= blockY + blockSize
                                 then fillColour else old(img[i, j])
      {
        Set(img, x, y, fillColour);
        y := y + 1;
      }
      x := x + 1;
    }
    SameImage(Grid(img), Filled(old(Grid(img)), blockX, blockY, blockSize, fillColour), img.Length0, img.Length1);
  }

  /** Painting the same square in the same colour twice is painting it once. */
  lemma FillIsIdempotent(g: Image, blockX: int, blockY: int, blockSize: int, fillColour: RGBA, width: int, height: int)
    requires IsRect(g, width, height)
    ensures Filled(Filled(g, blockX, blockY, blockSize, fillColour), blockX, blockY, blockSize, fillColour)
            == Filled(g, blockX, blockY, blockSize, fillColour)
  {
    var once := Filled(g, blockX, blockY, blockSize, fillColour);
    SameImage(Filled(once, blockX, blockY, blockSize, fillColour), once, width, height);
  }

  /** The closed square reaches one column into the block to the right and
      one row into the block below: their first pixels take the colour. */
  lemma FillReachesNextBlocks(g: Image, blockX: int, blockY: int, blockSize: int, fillColour: RGBA, width: int, height: int)
    requires IsRect(g, width, height) && blockSize >= 0
    requires 0 <= blockX && blockX + blockSize < width && 0 <= blockY && blockY + blockSize < height
    ensures Filled(g, blockX, blockY, blockSize, fillColour)[blockX + blockSize][blockY] == fillColour
    ensures Filled(g, blockX, blockY, blockSize, fillColour)[blockX][blockY + blockSize] == fillColour
  {
  }
}
