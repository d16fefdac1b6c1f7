/** The reinforcement-learning data types (rl_interface/src/lib.rs): the
    observation handed to an agent and the action it sends back, with their
    flat vector encodings. Floats are only carried, never computed on, so an
    `f32` is its IEEE 754 bit pattern. */
module RlInterface {
  import opened Wrappers

  /** An `f32` as its 32-bit pattern. */
  type F32 = bv32

  /** The pattern of `0.0` (positive zero). */
  const Zero: F32 := 0

  /** `Observation`: the state of the aircraft. */
  datatype Observation = Observation(
    positionX: F32,
    positionY: F32,
    velocityX: F32,
    velocityY: F32,
    rotation: F32,
    angularVelocity: F32)

  /** `Observation::new`: every field is zero. */
  function NewObservation(): (o: Observation)
    ensures ToVec(o) == [Zero, Zero, Zero, Zero, Zero, Zero]
  {
    Observation(Zero, Zero, Zero, Zero, Zero, Zero)
  }

  /** `Observation::to_vec`: the six fields, in declaration order. */
  function ToVec(o: Observation): (v: seq<F32>)
    ensures |v| == 6
    ensures v[0] == o.positionX && v[1] == o.positionY
    ensures v[2] == o.velocityX && v[3] == o.velocityY
    ensures v[4] == o.rotation && v[5] == o.angularVelocity
  {
    [o.positionX, o.positionY, o.velocityX, o.velocityY, o.rotation, o.angularVelocity]
  }

  /** The encoding loses nothing: each field sits at its own position, so
      distinct observations have distinct vectors. */
  lemma ToVecInjective(a: Observation, b: Observation)
    ensures ToVec(a) == ToVec(b) <==> a == b
  {
    if ToVec(a) == ToVec(b) {
      assert ToVec(a)[0] == ToVec(b)[0] && ToVec(a)[1] == ToVec(b)[1] && ToVec(a)[2] == ToVec(b)[2];
      assert ToVec(a)[3] == ToVec(b)[3] && ToVec(a)[4] == ToVec(b)[4] && ToVec(a)[5] == ToVec(b)[5];
    }
  }

  /** `Action`: the control inputs. */
  datatype Action = Action(thrust: F32, elevator: F32, rudder: F32)

  /** `Action::neutral`: no thrust and centred control surfaces. */
  function Neutral(): (a: Action)
    ensures a.thrust == Zero && a.elevator == Zero && a.rudder == Zero
  {
    Action(Zero, Zero, Zero)
  }

  /** `Action::from_vec`: the first three values are thrust, elevator and
      rudder; a shorter slice gives no action. */
  function FromVec(values: seq<F32>): (r: Option<Action>)
    ensures r.None? <==> |values| < 3
  {
    if |values| >= 3 then Some(Action(values[0], values[1], values[2])) else None
  }

  /** Decoding the three fields of an action gives that action back. */
  lemma FromVecRoundTrip(a: Action)
    ensures FromVec([a.thrust, a.elevator, a.rudder]) == Some(a)
  {
  }

  /** Only the first three values matter: extra elements are ignored. */
  lemma FromVecIgnoresExtra(values: seq<F32>, extra: seq<F32>)
    requires |values| >= 3
    ensures FromVec(values + extra) == FromVec(values)
    ensures FromVec(values) == FromVec(values[..3])
  {
  }

  /** The value decoded from a long enough slice puts each field at its
      position: thrust first, then elevator, then rudder. */
  lemma FromVecPositions(values: seq<F32>)
    requires |values| >= 3
    ensures FromVec(values).Some?
    ensures var a := FromVec(values).value;
      [a.thrust, a.elevator, a.rudder] == values[..3]
  {
  }
}
