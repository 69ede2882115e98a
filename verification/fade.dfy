/**
 * The top-level loop's own state: the global opacity of the rain surface, which
 * fades in over time, and the flag selecting rain or camera mode, flipped by
 * the space key.
 */
module Fade {

  /** An optional constructor argument; None stands for the default `alpha=None`. */
  datatype Option<T> = None | Some(value: T)

  /** Start opacity when the argument is falsy. */
  const DEFAULT_ALPHA: int := 50
  /** The fade advances on ticks divisible by this period... */
  const FADE_PERIOD: int := 20
  /** ...while the opacity is below this limit... */
  const FADE_LIMIT: int := 150
  /** ...by this much. */
  const FADE_STEP: int := 3
  /** The largest opacity a fade from below the limit can reach: 50 + 34 * 3. */
  const FADE_CEILING: int := FADE_LIMIT + FADE_STEP - 1

  /** `alpha if alpha else 50`: both None and 0 are falsy and give the default. */
  function StartAlpha(alpha: Option<int>): (a: int)
    ensures alpha == None ==> a == DEFAULT_ALPHA
    ensures alpha == Some(0) ==> a == DEFAULT_ALPHA
    ensures alpha.Some? && alpha.value != 0 ==> a == alpha.value
  {
    match alpha
    case Some(v) => if v != 0 then v else DEFAULT_ALPHA
    case None => DEFAULT_ALPHA
  }

  /** One fade step on tick `ticks`. */
  function FadeStep(alpha: int, ticks: nat): (a: int)
    ensures a != alpha <==> ticks % FADE_PERIOD == 0 && alpha < FADE_LIMIT
    ensures a == alpha || a == alpha + FADE_STEP
  {
    if ticks % FADE_PERIOD == 0 && alpha < FADE_LIMIT then alpha + FADE_STEP else alpha
  }

  /** The space key flips the mode; otherwise the mode stays. */
  function Toggle(runCamera: bool, space: bool): (r: bool)
    ensures r != runCamera <==> space
  {
    if space then !runCamera else runCamera
  }

  /** What one iteration of the loop reads: whether space is held, and the tick counter. */
  datatype FrameInput = FrameInput(space: bool, ticks: nat)

  /** The loop's state: the surface opacity and the mode flag. */
  datatype LoopState = LoopState(alpha: int, runCamera: bool)

  /** One iteration: flip the mode on space, then, in rain mode only, take a fade step. */
  function Step(s: LoopState, input: FrameInput): (t: LoopState)
    ensures t.runCamera != s.runCamera <==> input.space
    ensures t.runCamera ==> t.alpha == s.alpha
    ensures !t.runCamera ==> t.alpha == FadeStep(s.alpha, input.ticks)
  {
    var run := Toggle(s.runCamera, input.space);
    LoopState(if run then s.alpha else FadeStep(s.alpha, input.ticks), run)
  }

  /** The state after a sequence of iterations. */
  function Run(s: LoopState, inputs: seq<FrameInput>): (t: LoopState)
    ensures t.alpha <= s.alpha + FADE_STEP * |inputs|
    decreases |inputs|
  {
    if inputs == [] then s else Run(Step(s, inputs[0]), inputs[1..])
  }

  /** Number of iterations in which space is held. */
  function Presses(inputs: seq<FrameInput>): nat {
    if inputs == [] then 0 else (if inputs[0].space then 1 else 0) + Presses(inputs[1..])
  }

  /** The opacity never decreases over a run. */
  lemma {:induction false} RunMonotone(s: LoopState, inputs: seq<FrameInput>)
    ensures s.alpha <= Run(s, inputs).alpha
    decreases |inputs|
  {
    if inputs != [] {
      RunMonotone(Step(s, inputs[0]), inputs[1..]);
    }
  }

  /** From any opacity up to 152 the opacity stays at most 152: the fade stops at the first value reaching 150. */
  lemma {:induction false} RunBounded(s: LoopState, inputs: seq<FrameInput>)
    requires s.alpha <= FADE_CEILING
    ensures Run(s, inputs).alpha <= FADE_CEILING
    decreases |inputs|
  {
    if inputs != [] {
      RunBounded(Step(s, inputs[0]), inputs[1..]);
    }
  }

  /** The opacity only moves in steps of 3: its residue modulo 3 is kept over a run. */
  lemma {:induction false} RunResidue(s: LoopState, inputs: seq<FrameInput>)
    ensures Run(s, inputs).alpha % FADE_STEP == s.alpha % FADE_STEP
    decreases |inputs|
  {
    if inputs != [] {
      var s' := Step(s, inputs[0]);
      assert s'.alpha % FADE_STEP == s.alpha % FADE_STEP;
      RunResidue(s', inputs[1..]);
    }
  }

  /** From the start the program uses (`alpha=0`, hence 50), the opacity runs through 50, 53, ..., 152 and nothing else. */
  lemma RunFromDefault(inputs: seq<FrameInput>)
    ensures var a := Run(LoopState(StartAlpha(Some(0)), false), inputs).alpha;
      DEFAULT_ALPHA <= a <= FADE_CEILING && a % FADE_STEP == DEFAULT_ALPHA % FADE_STEP
  {
    var s := LoopState(StartAlpha(Some(0)), false);
    RunMonotone(s, inputs);
    RunBounded(s, inputs);
    RunResidue(s, inputs);
  }

  /** The mode is a two-state machine: after a run it has flipped exactly when space was held an odd number of times. */
  lemma {:induction false} RunMode(s: LoopState, inputs: seq<FrameInput>)
    ensures Run(s, inputs).runCamera == (s.runCamera != (Presses(inputs) % 2 == 1))
    decreases |inputs|
  {
    if inputs != [] {
      RunMode(Step(s, inputs[0]), inputs[1..]);
    }
  }

  /** While the camera is shown the opacity is frozen. */
  lemma StepInCameraMode(s: LoopState, input: FrameInput)
    requires Toggle(s.runCamera, input.space)
    ensures Step(s, input).alpha == s.alpha
  {
  }

  class Matrix {
    /** Global opacity of the rain surface. */
    var alphaValue: int
    /** True while the camera overlay is shown. */
    var runCamera: bool

    /** The fade-in and mode part of `Matrix.__init__`. */
    constructor (alpha: Option<int>)
      ensures alphaValue == StartAlpha(alpha) && !runCamera
    {
      alphaValue := if alpha.Some? && alpha.value != 0 then alpha.value else DEFAULT_ALPHA;
      runCamera := false;
    }

    /** The loop's state as a value. */
    function State(): LoopState
      reads this
    {
      LoopState(alphaValue, runCamera)
    }

    /** One iteration of `hello_neo`'s loop, restricted to the opacity and the mode. */
    method Frame(space: bool, ticks: nat)
      modifies this
      ensures State() == Step(old(State()), FrameInput(space, ticks))
    {
      if !runCamera && space {
        runCamera := true;
      } else if runCamera && space {
        runCamera := false;
      }
      if !runCamera {
        if ticks % FADE_PERIOD == 0 && alphaValue < FADE_LIMIT {
          alphaValue := alphaValue + FADE_STEP;
        }
      }
    }

    /** `hello_neo`'s loop over a finite sequence of iterations. */
    method HelloNeo(inputs: seq<FrameInput>)
      modifies this
      ensures State() == Run(old(State()), inputs)
    {
      for i := 0 to |inputs|
        invariant Run(State(), inputs[i..]) == Run(old(State()), inputs)
      {
        assert inputs[i..][1..] == inputs[i + 1..];
        Frame(inputs[i].space, inputs[i].ticks);
      }
    }
  }
}
