/** The geometry test that ends an auto-played (not confirmed full-screen)
    session: the video's on-screen width, rounded to whole pixels, is
    compared with its width before the session and with the viewport width. */
module AutoplayExit {

  function Abs(x: int): (a: nat)
    ensures a == x || a == -x
  {
    if x >= 0 then x else -x
  }

  /** JavaScript's Math.round: the nearest integer, halves rounded up. */
  function Round(x: real): (n: int)
    ensures n as real - 0.5 <= x < n as real + 0.5
  {
    (x + 0.5).Floor
  }

  /** The session has shrunk back: the rounded distance to the original width
      is strictly smaller than the rounded distance to the viewport width.
      A video whose original width already filled the viewport never looks
      closer to its original size, so such a session is never ended this way. */
  function CloserToOriginal(width: real, originalWidth: int, viewportWidth: int): (closer: bool)
    ensures closer ==> originalWidth != viewportWidth
  {
    Abs(Round(width - originalWidth as real)) < Abs(Round(width - viewportWidth as real))
  }

  /** Rounding commutes with subtracting a whole number of pixels. */
  lemma RoundShift(x: real, n: int)
    ensures Round(x - n as real) == Round(x) - n
  {
    var a, b := Round(x - n as real), Round(x) - n;
    assert a as real - 0.5 <= x - n as real < a as real + 0.5;
    assert b as real - 0.5 <= x - n as real < b as real + 0.5;
  }

  /** Only the rounded width matters: the test is the integer comparison of
      the rounded width's distances to the two reference widths. */
  lemma CloserUsesRoundedWidth(width: real, originalWidth: int, viewportWidth: int)
    ensures CloserToOriginal(width, originalWidth, viewportWidth)
        <==> Abs(Round(width) - originalWidth) < Abs(Round(width) - viewportWidth)
  {
    RoundShift(width, originalWidth);
    RoundShift(width, viewportWidth);
  }

  /** When the original width is below the viewport width, the session ends
      exactly when the rounded width falls below the midpoint of the two. */
  lemma CloserIsBelowMidpoint(width: real, originalWidth: int, viewportWidth: int)
    requires originalWidth < viewportWidth
    ensures CloserToOriginal(width, originalWidth, viewportWidth)
        <==> 2 * Round(width) < originalWidth + viewportWidth
  {
    CloserUsesRoundedWidth(width, originalWidth, viewportWidth);
  }

  /** When the video was laid out wider than the viewport, the session ends
      exactly when the rounded width rises above the midpoint of the two. */
  lemma CloserIsAboveMidpoint(width: real, originalWidth: int, viewportWidth: int)
    requires originalWidth > viewportWidth
    ensures CloserToOriginal(width, originalWidth, viewportWidth)
        <==> 2 * Round(width) > originalWidth + viewportWidth
  {
    CloserUsesRoundedWidth(width, originalWidth, viewportWidth);
  }

  /** At its original width (different from the viewport's) the session ends;
      at the viewport width it continues. */
  lemma ExitAtOriginalStayAtViewport(originalWidth: int, viewportWidth: int)
    requires originalWidth != viewportWidth
    ensures CloserToOriginal(originalWidth as real, originalWidth, viewportWidth)
    ensures !CloserToOriginal(viewportWidth as real, originalWidth, viewportWidth)
  {
    RoundShift(0.0, -originalWidth);
    RoundShift(0.0, -viewportWidth);
    CloserUsesRoundedWidth(originalWidth as real, originalWidth, viewportWidth);
    CloserUsesRoundedWidth(viewportWidth as real, originalWidth, viewportWidth);
  }
}
