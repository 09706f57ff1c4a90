/** The crossbow's recoil: how far the held crossbow is pushed back towards
    the camera. It grows while the bow is drawn and eases back otherwise,
    clamped to [0, MaxRecoil]. */
module Crossbow {

  const MaxRecoil: real := 0.1
  /** Recoil gained per second while drawn. */
  const DrawRate: real := 10.0
  /** Recoil lost per second while released. */
  const EaseRate: real := 8.0

  function Min(a: real, b: real): (r: real)
    ensures r <= a && r <= b && (r == a || r == b)
  {
    if a <= b then a else b
  }

  function Max(a: real, b: real): (r: real)
    ensures r >= a && r >= b && (r == a || r == b)
  {
    if a >= b then a else b
  }

  /** One frame of recoil. */
  function RecoilStep(recoil: real, drawn: bool, delta: real): (r: real)
    ensures drawn ==> r <= MaxRecoil
    ensures !drawn ==> r >= 0.0
    ensures drawn && delta >= 0.0 ==> r >= recoil || r == MaxRecoil
    ensures !drawn && delta >= 0.0 ==> r <= recoil || r == 0.0
    ensures drawn && recoil + delta * DrawRate <= MaxRecoil ==> r == recoil + delta * DrawRate
    ensures !drawn && recoil - delta * EaseRate >= 0.0 ==> r == recoil - delta * EaseRate
    ensures drawn && recoil + delta * DrawRate > MaxRecoil ==> r == MaxRecoil
    ensures !drawn && recoil - delta * EaseRate < 0.0 ==> r == 0.0
  {
    if drawn then Min(recoil + delta * DrawRate, MaxRecoil)
    else Max(recoil - delta * EaseRate, 0.0)
  }

  /** Recoil that starts within [0, MaxRecoil] stays there after a frame
      with non-negative time, drawn or not. */
  lemma RecoilStaysClamped(recoil: real, drawn: bool, delta: real)
    requires 0.0 <= recoil <= MaxRecoil && delta >= 0.0
    ensures 0.0 <= RecoilStep(recoil, drawn, delta) <= MaxRecoil
  {
  }

  /** Drawn long enough, the crossbow reaches full recoil; released long
      enough, it returns to rest. */
  lemma RecoilSaturates(recoil: real, delta: real)
    requires 0.0 <= recoil <= MaxRecoil && delta >= 0.01
    ensures RecoilStep(recoil, true, delta) == MaxRecoil
    ensures delta >= 0.0125 ==> RecoilStep(recoil, false, delta) == 0.0
  {
  }

  /** The recoil kept by the crossbow's frame callback. */
  class Crossbow {
    var recoil: real

    constructor ()
      ensures recoil == 0.0
    {
      recoil := 0.0;
    }

    method Frame(drawn: bool, delta: real)
      modifies this
      ensures recoil == RecoilStep(old(recoil), drawn, delta)
      ensures 0.0 <= old(recoil) <= MaxRecoil && delta >= 0.0 ==> 0.0 <= recoil <= MaxRecoil
    {
      if drawn {
        recoil := Min(recoil + delta * DrawRate, MaxRecoil);
      } else {
        recoil := Max(recoil - delta * EaseRate, 0.0);
      }
      if 0.0 <= old(recoil) <= MaxRecoil && delta >= 0.0 {
        RecoilStaysClamped(old(recoil), drawn, delta);
      }
    }
  }
}
