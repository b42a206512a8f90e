/**
 * The size of a notification window. The measured size of the message label
 * comes from the windowing toolkit and is a parameter here; what is modelled
 * is the padding and the clamp into a fixed range.
 */
module Dimensions {

  const WidthPadding: int := 40
  const HeightPadding: int := 80
  const MinWidth: int := 300
  const MaxWidth: int := 500
  const MinHeight: int := 100
  const MaxHeight: int := 300

  function Min(a: int, b: int): (m: int) { if a <= b then a else b }

  function Max(a: int, b: int): (m: int) { if a <= b then b else a }

  /** `max(lo, min(x, hi))`: the point of `[lo, hi]` nearest to `x`. */
  function Clamp(x: int, lo: int, hi: int): (r: int)
    requires lo <= hi
    ensures lo <= r <= hi
    ensures lo <= x <= hi ==> r == x
    ensures x < lo ==> r == lo
    ensures hi < x ==> r == hi
  {
    Max(lo, Min(x, hi))
  }

  /** The notification size for a message label that measures `reqWidth` by `reqHeight`. */
  function TextDimensions(reqWidth: int, reqHeight: int): (wh: (int, int))
    ensures MinWidth <= wh.0 <= MaxWidth
    ensures MinHeight <= wh.1 <= MaxHeight
    ensures MinWidth <= reqWidth + WidthPadding <= MaxWidth ==> wh.0 == reqWidth + WidthPadding
    ensures MinHeight <= reqHeight + HeightPadding <= MaxHeight ==> wh.1 == reqHeight + HeightPadding
    ensures reqWidth + WidthPadding < MinWidth ==> wh.0 == MinWidth
    ensures MaxWidth < reqWidth + WidthPadding ==> wh.0 == MaxWidth
    ensures reqHeight + HeightPadding < MinHeight ==> wh.1 == MinHeight
    ensures MaxHeight < reqHeight + HeightPadding ==> wh.1 == MaxHeight
  {
    (Clamp(reqWidth + WidthPadding, MinWidth, MaxWidth),
     Clamp(reqHeight + HeightPadding, MinHeight, MaxHeight))
  }

  /** Clamping twice is clamping once. */
  lemma ClampIdempotent(x: int, lo: int, hi: int)
    requires lo <= hi
    ensures Clamp(Clamp(x, lo, hi), lo, hi) == Clamp(x, lo, hi)
  {
  }

  /** A wider (or taller) measurement never yields a smaller window. */
  lemma ClampMonotone(x: int, y: int, lo: int, hi: int)
    requires lo <= hi
    requires x <= y
    ensures Clamp(x, lo, hi) <= Clamp(y, lo, hi)
  {
  }

  /** A size that is already in range is left as it is by the clamp. */
  lemma DimensionsClampIdempotent(reqWidth: int, reqHeight: int)
    ensures var wh := TextDimensions(reqWidth, reqHeight);
            Clamp(wh.0, MinWidth, MaxWidth) == wh.0 && Clamp(wh.1, MinHeight, MaxHeight) == wh.1
  {
  }
}
