/** nearestColour: the palette entry perceptually closest to a colour.

    The program measures the CIEDE2000 difference from the colour to every
    palette entry, in palette order, and keeps an entry only when its
    difference is strictly below the best so far, which starts at
    math.MaxFloat64. The colour-difference formula is a parameter here:
    `dist(c, p)` is the difference from c to palette entry p. A float64 NaN
    or +Inf compares like any real at or above MaxFloat64, since the best so
    far never exceeds MaxFloat64, so reals stand for all float64 results. */
module Matcher {
  import opened Colour

  /** math.MaxFloat64, (2 - 2^-52) * 2^1023, exactly. */
  const MaxFloat64: real := 179769313486231570814527423731704356798070567525844996598917476803157260780028538760589558632766878171540458953514382464234321326889464182768467546703537516986049910576551282076245490090389328944075868508455133942304583236903222948165808559332123348274797826204144723168738177180919299881250404026184124858368.0

  /** The loop's state after the first n palette entries: closestDistance,
      and the index of the entry held in nearestColour (None while it is nil). */
  function Scan(c: RGBA, palette: seq<RGBA>, dist: (RGBA, RGBA) -> real, n: nat): (r: (real, Option<nat>))
    requires n <= |palette|
    ensures r.0 <= MaxFloat64
    ensures r.1.Some? ==> r.1.value < n && r.0 == dist(c, palette[r.1.value])
  {
    if n == 0 then (MaxFloat64, None)
    else
      var (closest, index) := Scan(c, palette, dist, n - 1);
      var d := dist(c, palette[n - 1]);
      if d < closest then (d, Some(n - 1)) else (closest, index)
  }

  /** The index of the entry nearestColour returns, or None where it returns nil. */
  function NearestIndex(c: RGBA, palette: seq<RGBA>, dist: (RGBA, RGBA) -> real): (r: Option<nat>) {
    Scan(c, palette, dist, |palette|).1
  }

  /** The entry nearestColour returns, or None where it returns nil. */
  function Nearest(c: RGBA, palette: seq<RGBA>, dist: (RGBA, RGBA) -> real): (r: Option<RGBA>) {
    match NearestIndex(c, palette, dist)
    case None => None
    case Some(i) => Some(palette[i])
  }

  /** Among the first n entries, entry i is the first one at the least
      distance from c, and that distance is below MaxFloat64. */
  predicate IsNearestAmong(c: RGBA, palette: seq<RGBA>, dist: (RGBA, RGBA) -> real, n: int, i: int)
    requires n <= |palette|
  {
    0 <= i < n && dist(c, palette[i]) < MaxFloat64 &&
    (forall j :: 0 <= j < n ==> dist(c, palette[i]) <= dist(c, palette[j])) &&
    (forall j :: 0 <= j < i ==> dist(c, palette[i]) < dist(c, palette[j]))
  }

  predicate IsNearest(c: RGBA, palette: seq<RGBA>, dist: (RGBA, RGBA) -> real, i: int) {
    IsNearestAmong(c, palette, dist, |palette|, i)
  }

  /** What the loop has found after n entries: nothing while every entry
      so far is at MaxFloat64 or beyond, else the first nearest one. */
  lemma {:induction false} ScanFindsFirstNearest(c: RGBA, palette: seq<RGBA>, dist: (RGBA, RGBA) -> real, n: nat)
    requires n <= |palette|
    ensures Scan(c, palette, dist, n).1.None? <==> forall j :: 0 <= j < n ==> dist(c, palette[j]) >= MaxFloat64
    ensures Scan(c, palette, dist, n).1.None? ==> Scan(c, palette, dist, n).0 == MaxFloat64
    ensures Scan(c, palette, dist, n).1.Some? ==> IsNearestAmong(c, palette, dist, n, Scan(c, palette, dist, n).1.value)
  {
    if n > 0 {
      ScanFindsFirstNearest(c, palette, dist, n - 1);
    }
  }

  /** Two first-nearest entries are the same entry. */
  lemma FirstNearestIsUnique(c: RGBA, palette: seq<RGBA>, dist: (RGBA, RGBA) -> real, i: int, k: int)
    requires IsNearest(c, palette, dist, i) && IsNearest(c, palette, dist, k)
    ensures i == k
  {
  }

  /** nearestColour returns nil exactly when no entry is below MaxFloat64
      (in particular for an empty palette), and otherwise entry i exactly
      when i is the lowest-index entry at the least distance. */
  lemma NearestIndexIsFirstMinimum(c: RGBA, palette: seq<RGBA>, dist: (RGBA, RGBA) -> real)
    ensures NearestIndex(c, palette, dist).None? <==>
              forall j :: 0 <= j < |palette| ==> dist(c, palette[j]) >= MaxFloat64
    ensures forall i :: NearestIndex(c, palette, dist) == Some(i) <==> IsNearest(c, palette, dist, i)
  {
    ScanFindsFirstNearest(c, palette, dist, |palette|);
    forall i | IsNearest(c, palette, dist, i)
      ensures NearestIndex(c, palette, dist) == Some(i)
    {
      FirstNearestIsUnique(c, palette, dist, i, NearestIndex(c, palette, dist).value);
    }
  }

  /** What nearestColour returns is a palette entry. */
  lemma NearestIsMember(c: RGBA, palette: seq<RGBA>, dist: (RGBA, RGBA) -> real)
    ensures Nearest(c, palette, dist).Some? ==> Nearest(c, palette, dist).value in palette
  {
  }

  /** A colour that is itself in the palette is matched to itself, when the
      difference is never negative, is zero from a colour to itself and
      only then. */
  lemma MemberMatchesItself(c: RGBA, palette: seq<RGBA>, dist: (RGBA, RGBA) -> real)
    requires c in palette
    requires forall a, b :: dist(a, b) >= 0.0
    requires forall a, b :: dist(a, b) == 0.0 <==> a == b
    ensures Nearest(c, palette, dist) == Some(c)
  {
    var k :| 0 <= k < |palette| && palette[k] == c;
    NearestIndexIsFirstMinimum(c, palette, dist);
    assert dist(c, palette[k]) == 0.0;
    var i := NearestIndex(c, palette, dist).value;
    assert dist(c, palette[i]) <= dist(c, palette[k]);
  }

  /** nearestColour(colour, possibleColours). */
  method NearestColour(colour: RGBA, possibleColours: seq<RGBA>, dist: (RGBA, RGBA) -> real)
    returns (nearestColour: Option<RGBA>)
    ensures nearestColour == Nearest(colour, possibleColours, dist)
    ensures nearestColour.None? <==>
              forall j :: 0 <= j < |possibleColours| ==> dist(colour, possibleColours[j]) >= MaxFloat64
    ensures nearestColour.Some? ==>
              exists i :: IsNearest(colour, possibleColours, dist, i) && nearestColour.value == possibleColours[i]
  {
    var closestDistance := MaxFloat64;
    nearestColour := None;
    ghost var index: Option<nat> := None;
    for n := 0 to |possibleColours|
      invariant (closestDistance, index) == Scan(colour, possibleColours, dist, n)
      invariant nearestColour == if index.None? then None else Some(possibleColours[index.value])
    {
      var distance := dist(colour, possibleColours[n]);
      if distance < closestDistance {
        closestDistance := distance;
        nearestColour := Some(possibleColours[n]);
        index := Some(n);
      }
    }
    NearestIndexIsFirstMinimum(colour, possibleColours, dist);
  }
}
