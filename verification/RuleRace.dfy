/** Overlapping evaluations of one rule on one device. The throttle test and the mark of an
    alarm are separate steps of spawned tasks, so that other evaluations come in between. */
module RuleRace {
  import opened Text
  import opened RuleEngine

  /** `throttle` is the window that the evaluation met, in minutes. */
  datatype Event =
    | Tested(c: nat, at: int, throttle: int, passed: bool)
    | Marked(c: nat, at: int, throttle: int)   // the alarm is raised

  /** `passed` are the evaluations that passed their test and have not marked yet, with their
      windows, and `triggered` is the last mark. */
  datatype State = State(clock: int, triggered: Option<int>, passed: map<nat, int>, used: set<nat>, log: seq<Event>)

  datatype Step =
    | Test(c: nat, throttle: int)   // check_dedup
    | Mark(c: nat)                  // mark_triggered
    | Tick(seconds: nat)

  const Init := State(0, None, map[], {}, [])

  function Next(s: State, step: Step): State {
    match step
    case Test(c, throttle) =>
      if c in s.used then s else
      var passes := !Throttled(Memory(None, s.triggered), s.clock, throttle);
      s.(passed := if passes then s.passed[c := throttle] else s.passed, used := s.used + {c},
         log := s.log + [Tested(c, s.clock, throttle, passes)])
    case Mark(c) =>
      if c !in s.passed then s else
      s.(triggered := Some(s.clock), passed := s.passed - {c}, log := s.log + [Marked(c, s.clock, s.passed[c])])
    case Tick(seconds) => s.(clock := s.clock + seconds)
  }

  function Run(s: State, steps: seq<Step>): State {
    if steps == [] then s else Next(Run(s, steps[..|steps| - 1]), steps[|steps| - 1])
  }

  // ----- The invariant -------------------------------------------------------------------------

  /** The alarms of the log so far are at least `gap` seconds old at `now`. */
  ghost predicate AllOlder(log: seq<Event>, upTo: nat, now: int, gap: int)
    requires upTo <= |log|
  {
    forall k | 0 <= k < upTo && log[k].Marked? :: now - log[k].at >= gap
  }

  ghost predicate LastMark(s: State) {
    match s.triggered
    case None => forall k | 0 <= k < |s.log| :: !s.log[k].Marked?
    case Some(t) =>
      && t <= s.clock && (exists k :: 0 <= k < |s.log| && s.log[k].Marked? && s.log[k].at == t)
      && forall k | 0 <= k < |s.log| && s.log[k].Marked? :: s.log[k].at <= t
  }

  /** A test passes exactly when every alarm marked before it is out of its window. */
  ghost predicate TestsExact(log: seq<Event>) {
    forall t | 0 <= t < |log| && log[t].Tested? ::
      log[t].passed <==> AllOlder(log, t, log[t].at, 60 * log[t].throttle)
  }

  /** Every alarm and every evaluation under way has passed its one test before. */
  ghost predicate TestedAt(log: seq<Event>, t: nat, c: nat, throttle: int) {
    t < |log| && log[t].Tested? && log[t].c == c && log[t].passed && log[t].throttle == throttle
  }

  ghost predicate TestsDone(s: State) {
    && (forall t | 0 <= t < |s.log| && s.log[t].Tested? :: s.log[t].c in s.used && s.log[t].at <= s.clock)
    && (forall t, u | 0 <= t < u < |s.log| && s.log[t].Tested? && s.log[u].Tested? :: s.log[t].c != s.log[u].c)
    && (forall c | c in s.passed :: exists t: nat :: TestedAt(s.log, t, c, s.passed[c]))
    && (forall j | 0 <= j < |s.log| && s.log[j].Marked? ::
          exists t: nat :: t < j && TestedAt(s.log, t, s.log[j].c, s.log[j].throttle) && s.log[t].at <= s.log[j].at)
  }

  ghost predicate Inv(s: State) { LastMark(s) && TestsExact(s.log) && TestsDone(s) }

  lemma PassesIff(s: State, throttle: int)
    requires LastMark(s)
    ensures !Throttled(Memory(None, s.triggered), s.clock, throttle)
            <==> AllOlder(s.log, |s.log|, s.clock, 60 * throttle)
  {
  }

  lemma ExactAppend(log: seq<Event>, e: Event)
    requires TestsExact(log)
    requires e.Tested? ==> (e.passed <==> AllOlder(log, |log|, e.at, 60 * e.throttle))
    ensures TestsExact(log + [e])
  {
    var log' := log + [e];
    forall t | 0 <= t < |log'| && log'[t].Tested?
      ensures log'[t].passed <==> AllOlder(log', t, log'[t].at, 60 * log'[t].throttle)
    {
      assert forall k | 0 <= k < t :: log'[k] == log[k];
      if t < |log| {
        var gap := 60 * log[t].throttle;
        assert AllOlder(log', t, log'[t].at, gap) == AllOlder(log, t, log[t].at, gap);
      }
    }
  }

  lemma TestedStays(log: seq<Event>, e: Event, t: nat, c: nat, throttle: int)
    requires TestedAt(log, t, c, throttle)
    ensures TestedAt(log + [e], t, c, throttle)
  {
  }

  lemma MarksTestedAppend(s: State, e: Event)
    requires TestsDone(s)
    requires e.Marked? ==> exists t: nat :: TestedAt(s.log, t, e.c, e.throttle) && s.log[t].at <= e.at
    ensures var log := s.log + [e];
            forall j | 0 <= j < |log| && log[j].Marked? ::
              exists t: nat :: t < j && TestedAt(log, t, log[j].c, log[j].throttle) && log[t].at <= log[j].at
  {
    var log := s.log + [e];
    forall j | 0 <= j < |log| && log[j].Marked?
      ensures exists t: nat :: t < j && TestedAt(log, t, log[j].c, log[j].throttle) && log[t].at <= log[j].at
    {
      if j < |s.log| {
        var t: nat :| t < j && TestedAt(s.log, t, s.log[j].c, s.log[j].throttle) && s.log[t].at <= s.log[j].at;
        TestedStays(s.log, e, t, log[j].c, log[j].throttle);
      } else {
        var t: nat :| TestedAt(s.log, t, e.c, e.throttle) && s.log[t].at <= e.at;
        TestedStays(s.log, e, t, e.c, e.throttle);
      }
    }
  }

  lemma TestInv(s: State, c: nat, throttle: int)
    requires Inv(s)
    ensures Inv(Next(s, Test(c, throttle)))
  {
    if c !in s.used {
      var s' := Next(s, Test(c, throttle));
      var e := s'.log[|s.log|];
      PassesIff(s, throttle);
      ExactAppend(s.log, e);
      MarksTestedAppend(s, e);
      forall d | d in s'.passed ensures exists t: nat :: TestedAt(s'.log, t, d, s'.passed[d]) {
        if d == c {
          assert TestedAt(s'.log, |s.log|, c, throttle) by { assert e.passed; }
        } else {
          var t: nat :| TestedAt(s.log, t, d, s.passed[d]);
          TestedStays(s.log, e, t, d, s.passed[d]);
        }
      }
      LastMarkTested(s, e, s');
    }
  }

  lemma LastMarkTested(s: State, e: Event, s': State)
    requires LastMark(s) && e.Tested? && s'.log == s.log + [e] && s'.triggered == s.triggered && s'.clock == s.clock
    ensures LastMark(s')
  {
    if s.triggered.Some? {
      var k :| 0 <= k < |s.log| && s.log[k].Marked? && s.log[k].at == s.triggered.value;
      assert s'.log[k] == s.log[k];
    }
  }

  lemma MarkInv(s: State, c: nat)
    requires Inv(s)
    ensures Inv(Next(s, Mark(c)))
  {
    if c in s.passed {
      var s' := Next(s, Mark(c));
      var e := Marked(c, s.clock, s.passed[c]);
      assert s'.log[|s.log|] == e;
      ExactAppend(s.log, e);
      MarksTestedAppend(s, e);
      forall d | d in s'.passed ensures exists t: nat :: TestedAt(s'.log, t, d, s'.passed[d]) {
        var t: nat :| TestedAt(s.log, t, d, s.passed[d]);
        TestedStays(s.log, e, t, d, s.passed[d]);
      }
    }
  }

  lemma {:induction false} Reachable(steps: seq<Step>)
    ensures Inv(Run(Init, steps))
  {
    if steps != [] {
      var s := Run(Init, steps[..|steps| - 1]);
      Reachable(steps[..|steps| - 1]);
      match steps[|steps| - 1]
      case Test(c, throttle) => TestInv(s, c, throttle);
      case Mark(c) => MarkInv(s, c);
      case Tick(seconds) =>
    }
  }

  // ----- What overlapping does to the spacing -----------------------------------------------------

  /** In every interleaving two alarms are the later one's window apart whenever its test came
      after the earlier one's mark. */
  lemma SpacedWhenTestFollows(steps: seq<Step>, k: nat, t: nat, j: nat)
    requires var log := Run(Init, steps).log;
             && k < t < j < |log| && log[k].Marked? && log[j].Marked? && log[t].Tested? && log[t].c == log[j].c
    ensures var log := Run(Init, steps).log; log[j].at - log[k].at >= 60 * log[j].throttle
  {
    var log := Run(Init, steps).log;
    Reachable(steps);
    var u: nat :| u < j && TestedAt(log, u, log[j].c, log[j].throttle) && log[u].at <= log[j].at;
    assert u == t;
    assert AllOlder(log, t, log[t].at, 60 * log[t].throttle);
  }

  /** Two evaluations that both test before either marks both raise an alarm. */
  lemma OverlapRaisesTwice()
    ensures Run(Init, [Test(0, 60), Test(1, 60), Mark(0), Mark(1)]).log
         == [Tested(0, 0, 60, true), Tested(1, 0, 60, true), Marked(0, 0, 60), Marked(1, 0, 60)]
  {
    var steps := [Test(0, 60), Test(1, 60), Mark(0), Mark(1)];
    assert steps[..3][..2] == steps[..2] && steps[..2][..1] == steps[..1] && steps[..1][..0] == [];
    assert Run(Init, steps[..1]) == State(0, None, map[0 := 60], {0}, [Tested(0, 0, 60, true)]);
    var s2 := Run(Init, steps[..2]);
    assert s2.passed == map[0 := 60, 1 := 60] && s2.triggered == None && s2.clock == 0;
    var s3 := Run(Init, steps[..3]);
    assert s3.passed == map[1 := 60] && s3.clock == 0;
  }

  // ----- Exactly when the spacing is safe ----------------------------------------------------------

  ghost predicate Spaced(log: seq<Event>) {
    forall k, j | 0 <= k < j < |log| && log[k].Marked? && log[j].Marked? ::
      log[j].at - log[k].at >= 60 * log[j].throttle
  }

  /** Whatever is under way finishes, in any order and at any time; nothing new begins. */
  predicate NoTests(steps: seq<Step>) { forall i | 0 <= i < |steps| :: !steps[i].Test? }

  ghost predicate KeepsSpacing(s: State) { forall more | NoTests(more) :: Spaced(Run(s, more).log) }

  /** An evaluation under way whose window matters is the only one. */
  ghost predicate Alone(s: State) {
    forall c | c in s.passed && s.passed[c] > 0 :: s.passed.Keys == {c}
  }

  /** ... and the last alarm is out of that window. */
  ghost predicate Calm(s: State) {
    && Spaced(s.log) && Alone(s)
    && forall c | c in s.passed && s.passed[c] > 0 ::
         s.triggered.Some? ==> s.clock - s.triggered.value >= 60 * s.passed[c]
  }

  lemma NoOther(s: State, c: nat, d: nat)
    requires Alone(s) && c in s.passed && d in s.passed && c != d
    ensures s.passed[d] <= 0
  {
    assert c in s.passed.Keys;
  }

  lemma CalmMark(s: State, c: nat)
    requires Inv(s) && Calm(s)
    ensures Calm(Next(s, Mark(c)))
  {
    if c in s.passed {
      var s' := Next(s, Mark(c));
      var e := Marked(c, s.clock, s.passed[c]);
      forall k | 0 <= k < |s.log| && s.log[k].Marked? ensures e.at - s.log[k].at >= 60 * e.throttle {
        assert s.log[k].at <= s.triggered.value;
      }
      SpacedAppend(s.log, e);
      forall d | d in s'.passed ensures s'.passed[d] <= 0 { NoOther(s, c, d); }
    }
  }

  lemma SpacedAppend(log: seq<Event>, e: Event)
    requires Spaced(log)
    requires e.Marked? ==> forall k | 0 <= k < |log| && log[k].Marked? :: e.at - log[k].at >= 60 * e.throttle
    ensures Spaced(log + [e])
  {
  }

  lemma {:induction false} CalmRun(s: State, more: seq<Step>)
    requires Inv(s) && Calm(s) && NoTests(more)
    ensures Inv(Run(s, more)) && Calm(Run(s, more))
  {
    if more != [] {
      var t := Run(s, more[..|more| - 1]);
      CalmRun(s, more[..|more| - 1]);
      match more[|more| - 1]
      case Mark(c) => MarkInv(t, c); CalmMark(t, c);
      case Tick(seconds) =>
    }
  }

  lemma MarkNow(s: State, c: nat, k: nat)
    requires c in s.passed && k < |s.log| && s.log[k].Marked? && s.clock - s.log[k].at < 60 * s.passed[c]
    ensures !Spaced(Next(s, Mark(c)).log)
  {
    var log := Next(s, Mark(c)).log;
    assert log[k] == s.log[k] && log[|s.log|] == Marked(c, s.clock, s.passed[c]);
  }

  lemma RunTwo(s: State, a: Step, b: Step)
    ensures Run(s, []) == s && Run(s, [a]) == Next(s, a) && Run(s, [a, b]) == Next(Next(s, a), b)
  {
    assert [a, b][..1] == [a] && [a][..0] == [];
  }

  lemma Another(keys: set<nat>, c: nat) returns (d: nat)
    requires c in keys && keys != {c}
    ensures d in keys && d != c
  {
    assert keys == {c} + (keys - {c});
    d :| d in keys - {c};
  }

  lemma TwoBreak(s: State, c: nat, d: nat)
    requires c in s.passed && d in s.passed && c != d && s.passed[c] > 0
    ensures !KeepsSpacing(s)
  {
    var s1 := Next(s, Mark(d));
    assert s1.log[|s.log|] == Marked(d, s.clock, s.passed[d]) && s1.passed[c] == s.passed[c];
    MarkNow(s1, c, |s.log|);
    RunTwo(s, Mark(d), Mark(c));
    assert NoTests([Mark(d), Mark(c)]);
  }

  lemma RestlessBreaks(s: State)
    requires Inv(s) && !Calm(s)
    ensures !KeepsSpacing(s)
  {
    if !Spaced(s.log) {
      assert Run(s, []) == s && NoTests([]);
    } else if !Alone(s) {
      var c :| c in s.passed && s.passed[c] > 0 && s.passed.Keys != {c};
      var d := Another(s.passed.Keys, c);
      TwoBreak(s, c, d);
    } else {
      var c :| c in s.passed && s.passed[c] > 0 && s.triggered.Some?
               && s.clock - s.triggered.value < 60 * s.passed[c];
      var k :| 0 <= k < |s.log| && s.log[k].Marked? && s.log[k].at == s.triggered.value;
      MarkNow(s, c, k);
      RunTwo(s, Mark(c), Mark(c));
      assert NoTests([Mark(c)]);
    }
  }

  /** In every reachable state: however the evaluations under way finish, the alarms stay
      spaced exactly when they were so far, at most one of the evaluations has passed a throttle
      test, and the last alarm is out of its window. */
  lemma SpacingKeptIff(steps: seq<Step>)
    ensures KeepsSpacing(Run(Init, steps)) <==> Calm(Run(Init, steps))
  {
    var s := Run(Init, steps);
    Reachable(steps);
    if Calm(s) {
      forall more | NoTests(more) ensures Spaced(Run(s, more).log) { CalmRun(s, more); }
    } else {
      RestlessBreaks(s);
    }
  }

  ghost predicate AloneRun(steps: seq<Step>) { forall n | 0 <= n <= |steps| :: Alone(Run(Init, steps[..n])) }

  lemma AlonePrefix(steps: seq<Step>, m: nat)
    requires AloneRun(steps) && m <= |steps|
    ensures AloneRun(steps[..m]) && Alone(Run(Init, steps[..m]))
  {
    forall n | 0 <= n <= m ensures Alone(Run(Init, steps[..m][..n])) { assert steps[..m][..n] == steps[..n]; }
  }

  lemma CalmTest(s: State, c: nat, throttle: int)
    requires Inv(s) && Calm(s) && Alone(Next(s, Test(c, throttle)))
    ensures Calm(Next(s, Test(c, throttle)))
  {
    if c !in s.used { SpacedAppend(s.log, Next(s, Test(c, throttle)).log[|s.log|]); }
  }

  lemma {:induction false} AloneIsCalm(steps: seq<Step>)
    requires AloneRun(steps)
    ensures Calm(Run(Init, steps))
  {
    if steps != [] {
      var m := |steps| - 1;
      var s := Run(Init, steps[..m]);
      AlonePrefix(steps, m);
      AloneIsCalm(steps[..m]);
      Reachable(steps[..m]);
      assert steps[..|steps|] == steps && Alone(Run(Init, steps));
      match steps[m]
      case Test(c, throttle) => CalmTest(s, c, throttle);
      case Mark(c) => CalmMark(s, c);
      case Tick(seconds) =>
    }
  }

  /** Along a whole run: from no point of it can the scheduler bring two alarms too close
      exactly when at no point an evaluation that passed a throttle test has another one beside
      it. */
  lemma SafeExactlyWhenAlone(steps: seq<Step>)
    ensures (forall n | 0 <= n <= |steps| :: KeepsSpacing(Run(Init, steps[..n]))) <==> AloneRun(steps)
  {
    if AloneRun(steps) {
      forall n | 0 <= n <= |steps| ensures KeepsSpacing(Run(Init, steps[..n])) {
        AlonePrefix(steps, n);
        AloneIsCalm(steps[..n]);
        SpacingKeptIff(steps[..n]);
      }
    } else {
      var n :| 0 <= n <= |steps| && !Alone(Run(Init, steps[..n]));
      SpacingKeptIff(steps[..n]);
    }
  }
}
