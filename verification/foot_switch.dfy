/** The debounced foot switch: each poll adds a share of the refresh period
    to a timer and the pin reading (0 or 1) to an accumulator. When the timer
    passes the refresh period the window closes: the state becomes whether
    more than half the window's reads were high, a rising edge flips the
    toggle, and timer and accumulator start again from zero. The pin read is
    a parameter. */
module FootSwitch {
  datatype Switch = Switch(
    refreshRate: real,
    mult: real,
    timerIncrement: real,
    accumulator: int,
    lastState: bool,
    toggleState: bool,
    timer: real)

  /** The constructor's default number of polls per refresh period. */
  const DefaultDivision: real := 4.0

  /** The constructor: `mult` is `1 / division` and each poll advances the
      timer by `refreshRate * mult`; both states start false and both
      counters at zero. */
  function New(refreshRate: real, division: real): (s: Switch)
    requires division != 0.0
    ensures s.mult * division == 1.0
    ensures s.timerIncrement * division == refreshRate
    ensures s.refreshRate == refreshRate
    ensures s.accumulator == 0 && s.timer == 0.0
    ensures !s.lastState && !s.toggleState
  {
    var mult := 1.0 / division;
    Switch(refreshRate, mult, refreshRate * mult, 0, false, false, 0.0)
  }

  /** The 0/1 value of a pin read. */
  function Bit(high: bool): int
  {
    if high then 1 else 0
  }

  /** The window's vote: more than half of its reads were high. */
  predicate Vote(accumulator: int, mult: real)
  {
    accumulator as real * mult > 0.5
  }

  /** `update()` with `high` the pin read. */
  function Update(s: Switch, high: bool): (r: Switch)
    ensures r.refreshRate == s.refreshRate && r.mult == s.mult && r.timerIncrement == s.timerIncrement
    ensures (r.timer == 0.0 && r.accumulator == 0) || (r.lastState == s.lastState && r.toggleState == s.toggleState)
  {
    var timer := s.timer + s.timerIncrement;
    var accumulator := s.accumulator + Bit(high);
    if timer > s.refreshRate then
      var newState := Vote(accumulator, s.mult);
      var toggle := if newState && !s.lastState then !s.toggleState else s.toggleState;
      s.(accumulator := 0, lastState := newState, toggleState := toggle, timer := 0.0)
    else
      s.(accumulator := accumulator, timer := timer)
  }

  /** `getState()`. */
  function State(s: Switch): bool
  {
    s.lastState
  }

  /** `getToggleState()`. */
  function ToggleState(s: Switch): bool
  {
    s.toggleState
  }

  /** Inside a window a poll only counts: the timer advances by its share,
      the accumulator by the read, and both states stay put. */
  lemma PollInsideWindow(s: Switch, high: bool)
    requires s.timer + s.timerIncrement <= s.refreshRate
    ensures var r := Update(s, high);
      && r.timer == s.timer + s.timerIncrement
      && r.accumulator == s.accumulator + Bit(high)
      && State(r) == State(s) && ToggleState(r) == ToggleState(s)
  {
  }

  /** The poll that takes the timer past the refresh period closes the
      window: the state is the majority vote of the window's reads and the
      counters restart. */
  lemma PollClosesWindow(s: Switch, high: bool)
    requires s.timer + s.timerIncrement > s.refreshRate
    ensures var r := Update(s, high);
      && State(r) == Vote(s.accumulator + Bit(high), s.mult)
      && r.timer == 0.0 && r.accumulator == 0
  {
  }

  /** The toggle flips exactly on a rising edge of the debounced state. */
  lemma ToggleOnRisingEdge(s: Switch, high: bool)
    ensures var r := Update(s, high);
      ToggleState(r) != ToggleState(s) <==> State(r) && !State(s)
  {
  }

  /** The polls of `highs`, in order. */
  function UpdateAll(s: Switch, highs: seq<bool>): (r: Switch)
    ensures r.refreshRate == s.refreshRate && r.mult == s.mult && r.timerIncrement == s.timerIncrement
    decreases |highs|
  {
    if |highs| == 0 then s else Update(UpdateAll(s, highs[..|highs| - 1]), highs[|highs| - 1])
  }

  /** The number of high reads. */
  function CountHigh(highs: seq<bool>): (n: nat)
    ensures n <= |highs|
    decreases |highs|
  {
    if |highs| == 0 then 0 else CountHigh(highs[..|highs| - 1]) + Bit(highs[|highs| - 1])
  }

  /** With the default division and a positive refresh period, the fifth
      poll from the start of a window closes it: the state becomes true
      exactly when at least three of the five reads were high, and the toggle
      flips on a rising edge. `WindowPrefix` covers the four polls before. */
  lemma FiveReadWindow(s: Switch, highs: seq<bool>)
    requires s.refreshRate > 0.0 && s.mult * DefaultDivision == 1.0 && s.timerIncrement * DefaultDivision == s.refreshRate
    requires s.timer == 0.0 && s.accumulator == 0 && |highs| == 5
    ensures var r := UpdateAll(s, highs);
      && r.timer == 0.0 && r.accumulator == 0
      && State(r) == (CountHigh(highs) >= 3)
      && (ToggleState(r) != ToggleState(s) <==> State(r) && !State(s))
  {
    var p := UpdateAll(s, highs[..4]);
    WindowPrefix(s, highs, 4);
    assert highs[..5] == highs;
    assert UpdateAll(s, highs) == Update(p, highs[4]);
    PollClosesWindow(p, highs[4]);
    ToggleOnRisingEdge(p, highs[4]);
    var n := CountHigh(highs);
    assert n == p.accumulator + Bit(highs[4]);
    MajorityOfFive(n, s.mult);
  }

  /** With `mult` a quarter, a count of high reads votes high from three up. */
  lemma MajorityOfFive(n: int, mult: real)
    requires mult * DefaultDivision == 1.0
    ensures Vote(n, mult) == (n >= 3)
  {
    assert mult == 0.25;
  }

  /** The first `k < 5` polls of a default window only count. */
  lemma {:induction false} WindowPrefix(s: Switch, highs: seq<bool>, k: nat)
    requires s.refreshRate > 0.0 && s.timerIncrement * DefaultDivision == s.refreshRate
    requires s.timer == 0.0 && s.accumulator == 0 && k < 5 && k <= |highs|
    ensures var p := UpdateAll(s, highs[..k]);
      && p.timer == k as real * s.timerIncrement && p.accumulator == CountHigh(highs[..k])
      && State(p) == State(s) && ToggleState(p) == ToggleState(s)
  {
    if k > 0 {
      WindowPrefix(s, highs, k - 1);
      var q := UpdateAll(s, highs[..k - 1]);
      assert highs[..k][..k - 1] == highs[..k - 1];
      assert UpdateAll(s, highs[..k]) == Update(q, highs[k - 1]);
      assert q.timer + s.timerIncrement == k as real * s.timerIncrement;
      PollInsideWindow(q, highs[k - 1]);
      assert CountHigh(highs[..k]) == CountHigh(highs[..k - 1]) + Bit(highs[k - 1]);
    }
  }

  /** A freshly built default switch is at the start of a window. */
  lemma NewStartsWindow(refreshRate: real)
    requires refreshRate > 0.0
    ensures var s := New(refreshRate, DefaultDivision);
      && s.mult * DefaultDivision == 1.0 && s.timerIncrement * DefaultDivision == s.refreshRate
      && s.timer == 0.0 && s.accumulator == 0 && !State(s) && !ToggleState(s)
  {
  }
}
