/** The cadence detector's last step: snapping a measured frame rate to the
    nearest standard broadcast or cinema rate. Rates are in milli-frames per
    second (23.976 fps is 23976), so every comparison is exact. */
module Cadence {

  /** The standard rates, in the order the detector lists them. */
  const CommonRates: seq<int> := [23976, 24000, 25000, 29970, 30000, 50000, 59940, 60000]

  function Dist(rate: int, measured: int): (d: nat)
    ensures d == 0 <==> rate == measured
  {
    if rate >= measured then rate - measured else measured - rate
  }

  /** The reduction over the rate list: `prev` is the candidate so far and it
      is replaced only by a rate that is STRICTLY closer, so on a tie the rate
      met first is kept. */
  function Nearest(prev: int, rest: seq<int>, measured: int): (r: int)
    ensures r == prev || r in rest
    ensures Dist(r, measured) <= Dist(prev, measured)
    ensures r != prev ==> Dist(r, measured) < Dist(prev, measured)
    ensures forall x :: x in rest ==> Dist(r, measured) <= Dist(x, measured)
    decreases |rest|
  {
    if rest == [] then prev
    else
      var next := if Dist(rest[0], measured) < Dist(prev, measured) then rest[0] else prev;
      Nearest(next, rest[1..], measured)
  }

  /** The rate of `rates` nearest to `measured`; the list is never empty. */
  function ClosestRate(rates: seq<int>, measured: int): (r: int)
    requires |rates| > 0
    ensures r in rates
    ensures forall x :: x in rates ==> Dist(r, measured) <= Dist(x, measured)
  {
    Nearest(rates[0], rates[1..], measured)
  }

  /** The detector's choice for a measured rate. */
  function SnapRate(measured: int): (r: int)
    ensures r in CommonRates
    ensures forall x :: x in CommonRates ==> Dist(r, measured) <= Dist(x, measured)
  {
    ClosestRate(CommonRates, measured)
  }

  /** When the reduction ends on a rate other than its starting candidate,
      every rate before that one was strictly farther: a tie goes to the rate
      met first. */
  lemma {:induction false} NearestFirstOnTie(prev: int, rest: seq<int>, measured: int, j: nat)
    requires j < |rest|
    requires Dist(rest[j], measured) == Dist(Nearest(prev, rest, measured), measured)
    ensures Nearest(prev, rest, measured) == prev
         || exists i :: 0 <= i <= j && rest[i] == Nearest(prev, rest, measured)
    decreases |rest|
  {
    var r := Nearest(prev, rest, measured);
    var next := if Dist(rest[0], measured) < Dist(prev, measured) then rest[0] else prev;
    assert r == Nearest(next, rest[1..], measured);
    if j == 0 {
      // the result is prev, rest[0], or strictly nearer than both
    } else {
      NearestFirstOnTie(next, rest[1..], measured, j - 1);
      if r != next {
        var i :| 0 <= i <= j - 1 && rest[1..][i] == r;
        assert rest[i + 1] == r;
      } else if next == rest[0] {
        assert rest[0] == r;
      }
    }
  }

  /** On a tie between two listed rates, the one listed first wins. */
  lemma ClosestFirstOnTie(rates: seq<int>, measured: int, j: nat)
    requires j < |rates|
    requires Dist(rates[j], measured) == Dist(ClosestRate(rates, measured), measured)
    ensures exists i :: 0 <= i <= j && rates[i] == ClosestRate(rates, measured)
  {
    var r := ClosestRate(rates, measured);
    if j == 0 {
      assert rates[0] == r;
    } else {
      NearestFirstOnTie(rates[0], rates[1..], measured, j - 1);
      if r != rates[0] {
        var i :| 0 <= i <= j - 1 && rates[1..][i] == r;
        assert rates[i + 1] == r;
      }
    }
  }

  /** A measurement that is already a standard rate is kept as it is. */
  lemma SnapStandard(x: int)
    requires x in CommonRates
    ensures SnapRate(x) == x
  {
    assert Dist(SnapRate(x), x) <= Dist(x, x) == 0;
  }

  /** Snapping twice changes nothing. */
  lemma SnapIdempotent(measured: int)
    ensures SnapRate(SnapRate(measured)) == SnapRate(measured)
  {
    SnapStandard(SnapRate(measured));
  }

  /** Sixty deltas averaging 16.683 ms measure 59.941 fps; the nearest
      standard rate is 59.94, not 60. */
  lemma SnapNtscSixty()
    ensures SnapRate(59941) == 59940
  {
    var r := SnapRate(59941);
    assert Dist(r, 59941) <= Dist(CommonRates[6], 59941) == 1;
    assert 59940 <= r <= 59942;
  }

  /** 54.97 fps lies half-way between 50 and 59.94: the tie goes to 50, the
      rate listed first. */
  lemma SnapTieGoesLower()
    ensures SnapRate(54970) == 50000
  {
    var r := SnapRate(54970);
    assert Dist(r, 54970) <= Dist(50000, 54970) == 4970;
  }
}
