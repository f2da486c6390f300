/** One tick of the pan/tilt tracking loop: centre error of the largest
    detected box in the 240x320 frame, deadzoned and clipped proportional
    steps accumulated into the targets, a sinusoidal search target after
    three seconds without a face, 15% smoothing of the positions toward the
    targets, hard position limits, and the ASCII command line. */
module PanTilt {
  import opened Wrappers
  import opened Text
  import opened Select

  const CenterX: int := 120
  const CenterY: int := 160
  const GainX: real := 0.012
  const GainY: real := 0.15
  const DeadzoneX: nat := 10
  const DeadzoneY: nat := 8
  const MaxStepX: real := 2.0
  const MaxStepY: real := 3.0
  const Smoothing: real := 0.15
  const LostTimeout: real := 3.0
  const SearchTilt: real := 50.0
  const Shoulder: real := 60.0
  const BaseMin: real := 15.0
  const BaseMax: real := 165.0
  const CamMin: real := 10.0
  const CamMax: real := 140.0

  /** A detector box: corner, width and height in pixels. */
  datatype Rect = Rect(x: int, y: int, w: int, h: int)

  function Areas(faces: seq<Rect>): (a: seq<real>)
    ensures |a| == |faces|
    ensures forall i :: 0 <= i < |faces| ==> a[i] == (faces[i].w * faces[i].h) as real
  {
    seq(|faces|, i requires 0 <= i < |faces| => (faces[i].w * faces[i].h) as real)
  }

  function Abs(i: int): nat {
    if i < 0 then -i else i
  }

  /** Horizontal error: frame centre minus box centre, the centre taken
      as the floor of `x + w / 2` (`w // 2` floors); positive when the face
      is left of the centre line. */
  function ErrX(r: Rect): (e: int)
    ensures 2 * (CenterX - e) <= 2 * r.x + r.w < 2 * (CenterX - e) + 2
    ensures e > 0 <==> 2 * r.x + r.w < 2 * CenterX
  {
    CenterX - (r.x + r.w / 2)
  }

  /** Vertical error, the same way: positive when the face is above the
      centre line. */
  function ErrY(r: Rect): (e: int)
    ensures 2 * (CenterY - e) <= 2 * r.y + r.h < 2 * (CenterY - e) + 2
    ensures e > 0 <==> 2 * r.y + r.h < 2 * CenterY
  {
    CenterY - (r.y + r.h / 2)
  }

  /** `np.clip`. */
  function Clip(v: real, lo: real, hi: real): (r: real)
    requires lo <= hi
    ensures lo <= r <= hi
    ensures lo <= v <= hi ==> r == v
    ensures v < lo ==> r == lo
    ensures v > hi ==> r == hi
  {
    if v < lo then lo else if v > hi then hi else v
  }

  /** Change applied to a target on one axis: nothing inside the strict
      deadzone, otherwise the proportional step clipped to `maxStep`. */
  function AxisStep(err: int, deadzone: nat, gain: real, maxStep: real): (d: real)
    requires gain > 0.0 && maxStep >= 0.0
    ensures Abs(err) <= deadzone ==> d == 0.0
    ensures -maxStep <= d <= maxStep
    ensures err > 0 ==> d >= 0.0
    ensures err < 0 ==> d <= 0.0
    ensures Abs(err) > deadzone && -maxStep <= err as real * gain <= maxStep ==> d == err as real * gain
  {
    if Abs(err) > deadzone then Clip(err as real * gain, -maxStep, maxStep) else 0.0
  }

  /** Pan target while searching: `90 + 40 * sin(t / 2)`, given the sine. */
  function SearchPan(sine: real): (t: real)
    requires -1.0 <= sine <= 1.0
    ensures 50.0 <= t <= 130.0
  {
    90.0 + 40.0 * sine
  }

  /** One smoothing step: move 15% of the remaining way to the target. */
  function Smooth(pos: real, target: real): (p: real)
    ensures target - p == 0.85 * (target - pos)
    ensures pos <= target ==> pos <= p <= target
    ensures target <= pos ==> target <= p <= pos
    ensures pos != target ==> p != pos && p != target
  {
    pos + (target - pos) * Smoothing
  }

  /** The line sent to the base/shoulder/camera controller. */
  function Command(posBase: real, posCamV: real): (cmd: string)
    ensures |cmd| >= 3 && cmd[|cmd| - 3..] == ",1\n"
  {
    IntToString(Trunc(posBase)) + "," + IntToString(Trunc(Shoulder)) + "," +
    IntToString(Trunc(posCamV)) + ",1\n"
  }

  /** For positions inside their limits the command is four unsigned
      decimal fields, the truncated base, 60, the truncated tilt and 1,
      each within the servo range. */
  lemma CommandFields(posBase: real, posCamV: real)
    requires BaseMin <= posBase <= BaseMax && CamMin <= posCamV <= CamMax
    ensures var cmd := Command(posBase, posCamV);
            cmd[|cmd| - 1] == '\n' &&
            ParseFields(Split(cmd[..|cmd| - 1], ',')) == Some([posBase.Floor, 60, posCamV.Floor, 1])
    ensures 15 <= posBase.Floor <= 165 && 10 <= posCamV.Floor <= 140
  {
    var vals: seq<nat> := [posBase.Floor, 60, posCamV.Floor, 1];
    var cmd := Command(posBase, posCamV);
    CommandIsJoin(posBase, posCamV);
    assert cmd[..|cmd| - 1] == Join(Fields(vals), ',');
    FieldsHaveNoComma(vals);
    SplitJoin(Fields(vals), ',');
    ParseFieldsOfFields(vals);
  }

  lemma CommandIsJoin(posBase: real, posCamV: real)
    requires posBase >= 0.0 && posCamV >= 0.0
    ensures Command(posBase, posCamV) ==
            Join(Fields([posBase.Floor, 60, posCamV.Floor, 1]), ',') + "\n"
  {
    var b: nat, c: nat := posBase.Floor, posCamV.Floor;
    var x, z := NatToString(b), NatToString(c);
    assert Trunc(Shoulder) == 60;
    assert NatToString(60) == "60" && NatToString(1) == "1";
    assert Fields([b, 60, c, 1]) == [x, "60", z, "1"];
    JoinThree(x, "60", z, ["1"], ',');
    assert Join(["1"], ',') == "1";
    assert [x, "60", z] + ["1"] == [x, "60", z, "1"];
    assert ",1\n" == "," + ("1" + "\n");
    CommandShape(x, "60", z, "1", "\n");
  }

  /** `a,b,c,d` followed by `tail`, grouped as written and one field at a time. */
  lemma CommandShape(a: string, b: string, c: string, d: string, tail: string)
    ensures a + "," + b + "," + c + ("," + (d + tail)) == a + ("," + (b + ("," + (c + ("," + d))))) + tail
  {
  }

  /** A face whose box centre is the frame centre leaves both targets as they are. */
  lemma CenteredFaceHoldsTargets(r: Rect)
    requires r.x + r.w / 2 == CenterX && r.y + r.h / 2 == CenterY
    ensures AxisStep(ErrX(r), DeadzoneX, GainX, MaxStepX) == 0.0
    ensures AxisStep(ErrY(r), DeadzoneY, GainY, MaxStepY) == 0.0
  {
  }

  /** The tracking state, updated in place once per loop iteration. */
  class Controller {
    var targetBase: real
    var targetCamV: real
    var posBase: real
    var posCamV: real
    /** Time of the last frame with a detection. */
    var lastSeen: real

    ghost predicate Valid()
      reads this
    {
      BaseMin <= posBase <= BaseMax && CamMin <= posCamV <= CamMax
    }

    constructor (start: real)
      ensures Valid()
      ensures targetBase == 90.0 && targetCamV == 45.0
      ensures posBase == 90.0 && posCamV == 45.0 && lastSeen == start
    {
      targetBase, targetCamV := 90.0, 45.0;
      posBase, posCamV := 90.0, 45.0;
      lastSeen := start;
    }

    /** One tick at time `now`; `sine` stands for `sin(now * 0.5)`. Returns
        the index of the tracked box, if any, and the command line sent. */
    method Tick(faces: seq<Rect>, now: real, sine: real) returns (tracked: Option<nat>, cmd: string)
      requires Valid() && -1.0 <= sine <= 1.0
      modifies this
      ensures Valid()
      ensures tracked.Some? <==> |faces| > 0
      ensures tracked.Some? ==>
                && IsFirstMax(Areas(faces), tracked.value)
                && lastSeen == now
                && targetBase == old(targetBase) + AxisStep(ErrX(faces[tracked.value]), DeadzoneX, GainX, MaxStepX)
                && targetCamV == old(targetCamV) + AxisStep(ErrY(faces[tracked.value]), DeadzoneY, GainY, MaxStepY)
      ensures tracked.None? ==> lastSeen == old(lastSeen)
      ensures tracked.None? && now - old(lastSeen) <= LostTimeout ==>
                targetBase == old(targetBase) && targetCamV == old(targetCamV)
      ensures tracked.None? && now - old(lastSeen) > LostTimeout ==>
                targetBase == SearchPan(sine) && targetCamV == SearchTilt
      ensures posBase == Clip(Smooth(old(posBase), targetBase), BaseMin, BaseMax)
      ensures posCamV == Clip(Smooth(old(posCamV), targetCamV), CamMin, CamMax)
      ensures cmd == Command(posBase, posCamV)
    {
      if |faces| > 0 {
        lastSeen := now;
        var k := FirstMax(Areas(faces));
        tracked := Some(k);
        var errX, errY := ErrX(faces[k]), ErrY(faces[k]);
        if Abs(errX) > DeadzoneX {
          targetBase := targetBase + Clip(errX as real * GainX, -MaxStepX, MaxStepX);
        }
        if Abs(errY) > DeadzoneY {
          var stepY := Clip(errY as real * GainY, -MaxStepY, MaxStepY);
          targetCamV := targetCamV + stepY;
        }
      } else {
        tracked := None;
        if now - lastSeen > LostTimeout {
          targetBase := SearchPan(sine);
          targetCamV := SearchTilt;
        }
      }
      posBase := posBase + (targetBase - posBase) * Smoothing;
      posCamV := posCamV + (targetCamV - posCamV) * Smoothing;
      posBase := Clip(posBase, BaseMin, BaseMax);
      posCamV := Clip(posCamV, CamMin, CamMax);
      cmd := Command(posBase, posCamV);
    }
  }
}
