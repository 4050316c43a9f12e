/**
 Turning the control panel's integer slider positions into the run's duration
 and initial neuron state (V, m, h, n): every state slider is divided by 10 and
 the voltage is then multiplied back by 10, so V keeps the slider's value while
 the gating variables move in steps of 0.1.
 */
module InitialConditions {

  /** The five slider positions: duration (ms), V (mV), and the gating sliders m, h, n. */
  datatype Sliders = Sliders(duration: int, v: int, m: int, h: int, n: int)

  /** The membrane voltage and the three gating variables. */
  datatype NeuronState = NeuronState(v: real, m: real, h: real, n: real)

  /** The ranges the sliders are created with: duration 0..100, V -100..100, m, h, n 0..10. */
  predicate InSliderRanges(s: Sliders) {
    && 0 <= s.duration <= 100
    && -100 <= s.v <= 100
    && 0 <= s.m <= 10
    && 0 <= s.h <= 10
    && 0 <= s.n <= 10
  }

  /** Every state slider position p is read as p / SliderStep. */
  const SliderStep: real := 10.0

  /** The initial state read off the sliders (dividing every slider by 10, then undoing it for V). */
  function InitialState(s: Sliders): (st: NeuronState)
    ensures st.v == s.v as real
    ensures SliderStep * st.m == s.m as real
    ensures SliderStep * st.h == s.h as real
    ensures SliderStep * st.n == s.n as real
    ensures InSliderRanges(s) ==> -100.0 <= st.v <= 100.0
    ensures InSliderRanges(s) ==> 0.0 <= st.m <= 1.0 && 0.0 <= st.h <= 1.0 && 0.0 <= st.n <= 1.0
  {
    NeuronState((s.v as real / SliderStep) * SliderStep,
      s.m as real / SliderStep, s.h as real / SliderStep, s.n as real / SliderStep)
  }

  /** Decoding loses nothing: different state slider positions give different initial states. */
  lemma InitialStateInjective(a: Sliders, b: Sliders)
    requires InitialState(a) == InitialState(b)
    ensures a.v == b.v && a.m == b.m && a.h == b.h && a.n == b.n
  {
    assert a.m as real == SliderStep * InitialState(a).m == b.m as real;
    assert a.h as real == SliderStep * InitialState(a).h == b.h as real;
    assert a.n as real == SliderStep * InitialState(a).n == b.n as real;
  }

  /** The sliders' initial positions (-67, 1, 5, 3) give V = -67 mV, m = 0.1, h = 0.5, n = 0.3. */
  lemma DefaultSliderState()
    ensures InitialState(Sliders(40, -67, 1, 5, 3)) == NeuronState(-67.0, 0.1, 0.5, 0.3)
  {
  }
}
