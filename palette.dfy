/** extractProminentColours: the palette of dominant colours.

    The clustering itself is `prominentcolor.KmeansWithAll`, a library call
    whose algorithm is not part of this model: it is a parameter, given the
    number of colours wanted, the image and the sample width, and answering
    either a list of colour items or an error. What the program does around
    it is modelled: the sample width is half the image width, truncated; on
    an error there is no palette; otherwise every item becomes one opaque
    palette colour, in the same order, each channel cut to its low 8 bits. */
module Palette {
  import opened Colour

  /** prominentcolor.ColorItem: a cluster's colour, with uint32 channels,
      and the number of pixels in the cluster. */
  datatype ColourItem = ColourItem(r: uint32, g: uint32, b: uint32, count: int)

  /** `color.RGBA{uint8(R), uint8(G), uint8(B), 255}` for an item. */
  function ToRGBA(item: ColourItem): (r: RGBA) {
    RGBA(Trunc8(item.r), Trunc8(item.g), Trunc8(item.b), 255)
  }

  /** extractProminentColours(image); `kmeans` stands for KmeansWithAll. */
  method ExtractProminentColours(img: array2<RGBA>, maxDominantColours: int,
                                 kmeans: (int, Image, nat) -> Outcome<seq<ColourItem>>)
    returns (prominentColours: Outcome<seq<RGBA>>)
    ensures var colours := kmeans(maxDominantColours, Grid(img), img.Length0 / 2);
            && (colours.Failure? ==> prominentColours == Failure(colours.error))
            && (colours.Success? ==>
                  && prominentColours.Success?
                  && |prominentColours.value| == |colours.value|
                  && forall i :: 0 <= i < |colours.value| ==>
                       prominentColours.value[i] == ToRGBA(colours.value[i]))
  {
    var sampleWidth := img.Length0 / 2;
    var colours := kmeans(maxDominantColours, Grid(img), sampleWidth);
    if colours.Failure? {
      return Failure(colours.error);
    }
    var converted: seq<RGBA> := [];
    for i := 0 to |colours.value|
      invariant |converted| == i
      invariant forall k :: 0 <= k < i ==> converted[k] == ToRGBA(colours.value[k])
    {
      var item := colours.value[i];
      converted := converted + [RGBA(Trunc8(item.r), Trunc8(item.g), Trunc8(item.b), 255)];
    }
    prominentColours := Success(converted);
  }

  /** An item whose channels already fit in 8 bits keeps them exactly; a
      wider channel keeps its value modulo 256. */
  lemma ToRGBAKeepsLowBits(item: ColourItem)
    ensures ToRGBA(item).a == 255
    ensures item.r < 256 && item.g < 256 && item.b < 256 ==>
              ToRGBA(item) == RGBA(item.r, item.g, item.b, 255)
    ensures ToRGBA(item).r == item.r % 256 && ToRGBA(item).g == item.g % 256 && ToRGBA(item).b == item.b % 256
  {
  }
}
