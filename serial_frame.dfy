/** The manual-control console: it reads four sliders for each of the four
    arms and sends all sixteen positions, then the mode flag 1, as one
    `$`-framed, comma-separated ASCII line. */
module SerialFrame {
  import opened Text
  import opened Wrappers

  /** The joints of one arm, in the order they are sent. */
  datatype Joint = Base | Homb | Vert | Horz

  const JointOrder: seq<Joint> := [Base, Homb, Vert, Horz]
  const Arms: nat := 4
  const SliderMax: nat := 180

  /** The slider bank: position of the slider for `arm` (1 to 4) and `joint`. */
  type Sliders = (nat, Joint) -> nat

  /** Every slider lies in 0..180, the range the sliders are created with. */
  predicate InRange(pos: Sliders) {
    forall arm: nat, j: Joint :: 1 <= arm <= Arms ==> pos(arm, j) <= SliderMax
  }

  /** The sliders as created: Base 90, Homb 60, Vert 45, Horz 90 on every arm. */
  function Initial(arm: nat, j: Joint): nat {
    match j
    case Base => 90
    case Homb => 60
    case Vert => 45
    case Horz => 90
  }

  /** Arm-major collection of the slider values, one arm at a time. */
  method CollectValues(pos: Sliders) returns (vals: seq<nat>)
    ensures |vals| == Arms * |JointOrder|
    ensures forall arm, j :: 1 <= arm <= Arms && 0 <= j < |JointOrder| ==>
              vals[4 * (arm - 1) + j] == pos(arm, JointOrder[j])
  {
    vals := [];
    for arm := 1 to Arms + 1
      invariant |vals| == 4 * (arm - 1)
      invariant forall a, j :: 1 <= a < arm && 0 <= j < 4 ==>
                  vals[4 * (a - 1) + j] == pos(a, JointOrder[j])
    {
      vals := vals + [pos(arm, Base)];
      vals := vals + [pos(arm, Homb)];
      vals := vals + [pos(arm, Vert)];
      vals := vals + [pos(arm, Horz)];
    }
  }

  /** The line sent to the controller: `$v1,...,vn,1` and a newline. */
  function EncodeFrame(vals: seq<nat>): (line: string)
    ensures |line| >= 4 && line[0] == '$' && line[|line| - 3..] == ",1\n"
  {
    "$" + Join(Fields(vals), ',') + ",1\n"
  }

  /** The receiving side: strip `$` and the newline, split on commas, parse. */
  function DecodeFrame(line: string): Option<seq<nat>> {
    if |line| >= 2 && line[0] == '$' && line[|line| - 1] == '\n'
    then ParseFields(Split(line[1..|line| - 1], ','))
    else None
  }

  /** Decoding an encoded frame gives back the values followed by the mode flag 1. */
  lemma FrameRoundTrip(vals: seq<nat>)
    requires |vals| >= 1
    ensures DecodeFrame(EncodeFrame(vals)) == Some(vals + [1])
  {
    FrameSplit(vals);
    ParseFieldsOfFields(vals + [1]);
  }

  /** Between `$` and the newline, a frame splits into the fields of the
      values and the flag. */
  lemma FrameSplit(vals: seq<nat>)
    requires |vals| >= 1
    ensures var line := EncodeFrame(vals);
            |line| >= 2 && line[0] == '$' && line[|line| - 1] == '\n' &&
            Split(line[1..|line| - 1], ',') == Fields(vals + [1])
  {
    var fs := Fields(vals + [1]);
    JoinAppend(Fields(vals), "1", ',');
    assert fs == Fields(vals) + ["1"];
    StripFrame(Join(Fields(vals), ','));
    FieldsHaveNoComma(vals + [1]);
    SplitJoin(fs, ',');
  }

  /** What lies between the `$` and the newline of a frame. */
  lemma StripFrame(body: string)
    ensures var line := "$" + body + ",1\n";
            line[0] == '$' && line[|line| - 1] == '\n' && line[1..|line| - 1] == body + [','] + "1"
  {
  }

  /** A frame of sixteen slider values splits into seventeen fields, each of
      one to three decimal digits. */
  lemma FrameFields(vals: seq<nat>)
    requires |vals| == 16
    requires forall i :: 0 <= i < |vals| ==> vals[i] <= SliderMax
    ensures var line := EncodeFrame(vals);
            var fs := Split(line[1..|line| - 1], ',');
            |fs| == 17 &&
            forall k :: 0 <= k < 17 ==> 1 <= |fs[k]| <= 3 && AllDigits(fs[k])
  {
    FrameSplit(vals);
    forall k | 0 <= k < 17
      ensures 1 <= |Fields(vals + [1])[k]| <= 3
    {
      NatToStringLength((vals + [1])[k]);
    }
  }

  /** The four joint values of an untouched arm, as sent. */
  const InitialArm: string := "90,60,45,90"

  /** With untouched sliders the frame is `90,60,45,90` four times, then the flag. */
  lemma InitialFrame(vals: seq<nat>)
    requires |vals| == 16
    requires forall arm, j :: 1 <= arm <= Arms && 0 <= j < |JointOrder| ==>
               vals[4 * (arm - 1) + j] == Initial(arm, JointOrder[j])
    ensures EncodeFrame(vals) ==
            "$" + (InitialArm + "," + InitialArm + "," + InitialArm + "," + InitialArm) + ",1\n"
  {
    var v: seq<nat> := [90, 60, 45, 90];
    InitialValues(vals);
    InitialEncoding(v);
  }

  lemma InitialValues(vals: seq<nat>)
    requires |vals| == 16
    requires forall arm, j :: 1 <= arm <= Arms && 0 <= j < |JointOrder| ==>
               vals[4 * (arm - 1) + j] == Initial(arm, JointOrder[j])
    ensures var v: seq<nat> := [90, 60, 45, 90]; vals == v + v + v + v
  {
    var v: seq<nat> := [90, 60, 45, 90];
    forall i | 0 <= i < 16
      ensures vals[i] == (v + v + v + v)[i]
    {
      var arm, j := i / 4 + 1, i % 4;
      assert 4 * (arm - 1) + j == i;
      assert vals[4 * (arm - 1) + j] == Initial(arm, JointOrder[j]);
    }
  }

  lemma InitialEncoding(v: seq<nat>)
    requires v == [90, 60, 45, 90]
    ensures EncodeFrame(v + v + v + v) ==
            "$" + (InitialArm + "," + InitialArm + "," + InitialArm + "," + InitialArm) + ",1\n"
  {
    var q := ["90", "60", "45", "90"];
    assert Fields(v) == q by {
      assert NatToString(90) == "90" && NatToString(60) == "60" && NatToString(45) == "45";
    }
    FieldsConcat(v, v);
    FieldsConcat(v + v, v);
    FieldsConcat(v + v + v, v);
    ArmJoin(q);
    FourArms(q, InitialArm);
  }

  /** The four fields of an untouched arm joined by commas. */
  lemma ArmJoin(q: seq<string>)
    requires q == ["90", "60", "45", "90"]
    ensures Join(q, ',') == InitialArm
  {
    assert Join(q[3..], ',') == "90";
    assert Join(q[2..], ',') == "45,90";
    assert Join(q[1..], ',') == "60,45,90";
  }

  /** Four copies of the same fields make four copies of their join. */
  lemma FourArms(q: seq<string>, arm: string)
    requires |q| >= 1 && Join(q, ',') == arm
    ensures Join(q + q + q + q, ',') == arm + "," + arm + "," + arm + "," + arm
  {
    JoinConcat(q, q, ',');
    JoinConcat(q + q, q, ',');
    JoinConcat(q + q + q, q, ',');
  }

  lemma FieldsConcat(a: seq<nat>, b: seq<nat>)
    ensures Fields(a + b) == Fields(a) + Fields(b)
  {
  }
}
