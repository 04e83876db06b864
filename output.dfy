/** The output side of the follower: the lines read from followed files, the
    idle separator, and the loop in Tailer.run that prints them (the second
    goroutine of tf.go, with its `activitySeen` flag).

    Time is discrete here. `Tick` stands for the expiry of the loop's timer:
    one whole timeout elapsed with no activity received. The loop creates a
    fresh timer on every iteration, so each activity restarts the countdown
    and a long quiet period is a run of consecutive ticks. */
module Output {
  import opened FileSystem

  /** One line read from a followed file, as sent on the activity channel:
      the name the file was opened under, and the text of the line. */
  datatype Activity = Activity(file: Path, text: Line)

  /** One printed line: a followed file's text, or the idle separator. */
  datatype Printed = Text(line: Line) | Separator

  /** What the output loop reacts to. */
  datatype Input = Delivered(activity: Activity) | Tick

  const SeparatorLine: string := "----------------------------------------"

  /** The characters fmt.Println writes before its newline. */
  function Render(p: Printed): string
  {
    match p
    case Text(line) => line
    case Separator => SeparatorLine
  }

  lemma SeparatorIsFortyDashes()
    ensures |Render(Separator)| == 40
    ensures forall i | 0 <= i < |Render(Separator)| :: Render(Separator)[i] == '-'
  {
  }

  /** One iteration of the loop: the new `activitySeen` and what it prints.
      An activity prints its text and sets the flag; an expiry prints the
      separator only when the flag is set, and leaves the flag cleared. */
  function LiveStep(seen: bool, e: Input): (bool, seq<Printed>)
  {
    match e
    case Delivered(a) => (true, [Text(a.text)])
    case Tick => (false, if seen then [Separator] else [])
  }

  /** Everything the loop prints for `es`, starting with flag `seen`. */
  function LiveRun(seen: bool, es: seq<Input>): seq<Printed>
    decreases |es|
  {
    if es == [] then []
    else LiveStep(seen, es[0]).1 + LiveRun(LiveStep(seen, es[0]).0, es[1..])
  }

  /** The flag after the loop has handled `es`. */
  function LiveSeen(seen: bool, es: seq<Input>): bool
    decreases |es|
  {
    if es == [] then seen else LiveSeen(LiveStep(seen, es[0]).0, es[1..])
  }

  /** The output loop of Tailer.run over a finite stretch of its input; the
      flag starts false as in tf.go. */
  method OutputLoop(events: seq<Input>) returns (printed: seq<Printed>)
    ensures printed == LiveRun(false, events)
  {
    var activitySeen := false;
    printed := [];
    for i := 0 to |events|
      invariant printed == LiveRun(false, events[..i])
      invariant activitySeen == LiveSeen(false, events[..i])
    {
      LiveRunAppend(false, events[..i], [events[i]]);
      assert events[..i + 1] == events[..i] + [events[i]];
      assert [events[i]][1..] == [];
      match events[i]
      case Delivered(a) =>
        activitySeen := true;
        printed := printed + [Text(a.text)];
      case Tick =>
        if activitySeen {
          printed := printed + [Separator];
          activitySeen := false;
        }
    }
    assert events[..|events|] == events;
  }

  /** The followed files' lines among what was printed, in order. */
  function Texts(out: seq<Printed>): seq<Line>
    decreases |out|
  {
    if out == [] then []
    else (if out[0].Text? then [out[0].line] else []) + Texts(out[1..])
  }

  /** The text of every activity among the inputs, in order. */
  function ActivityTexts(es: seq<Input>): seq<Line>
    decreases |es|
  {
    if es == [] then []
    else (if es[0].Delivered? then [es[0].activity.text] else []) + ActivityTexts(es[1..])
  }

  /** A quiet period of `n` consecutive expiries. */
  function Ticks(n: nat): (r: seq<Input>)
    ensures |r| == n && forall i | 0 <= i < n :: r[i] == Tick
  {
    seq(n, i => Tick)
  }

  /** Every separator stands right after a printed text line, or first of all
      only when the flag was already set: no two separators are adjacent. */
  ghost predicate Separated(seen: bool, out: seq<Printed>)
  {
    && (out != [] && out[0].Separator? ==> seen)
    && forall i | 0 < i < |out| && out[i].Separator? :: out[i - 1].Text?
  }

  lemma {:induction false} TextsAppend(a: seq<Printed>, b: seq<Printed>)
    ensures Texts(a + b) == Texts(a) + Texts(b)
    decreases |a|
  {
    if a != [] {
      assert (a + b)[1..] == a[1..] + b;
      TextsAppend(a[1..], b);
    } else {
      assert a + b == b;
    }
  }

  /** Processing two stretches of input in turn prints what processing their
      concatenation prints. */
  lemma {:induction false} LiveRunAppend(seen: bool, a: seq<Input>, b: seq<Input>)
    ensures LiveRun(seen, a + b) == LiveRun(seen, a) + LiveRun(LiveSeen(seen, a), b)
    ensures LiveSeen(seen, a + b) == LiveSeen(LiveSeen(seen, a), b)
    decreases |a|
  {
    if a != [] {
      assert (a + b)[0] == a[0];
      assert (a + b)[1..] == a[1..] + b;
      LiveRunAppend(LiveStep(seen, a[0]).0, a[1..], b);
    } else {
      assert a + b == b;
    }
  }

  /** Every line received is printed exactly once, in the order received:
      the loop neither drops nor repeats text. */
  lemma {:induction false} LiveRunPrintsEveryLine(seen: bool, es: seq<Input>)
    ensures Texts(LiveRun(seen, es)) == ActivityTexts(es)
    decreases |es|
  {
    if es != [] {
      var step := LiveStep(seen, es[0]);
      TextsAppend(step.1, LiveRun(step.0, es[1..]));
      LiveRunPrintsEveryLine(step.0, es[1..]);
    }
  }

  /** At most one separator per quiet period: a separator is only ever printed
      right after a text line (or first, when the flag was already set). From
      the initial state, no separator can come before the first line. */
  lemma {:induction false} LiveRunSeparated(seen: bool, es: seq<Input>)
    ensures Separated(seen, LiveRun(seen, es))
    decreases |es|
  {
    if es != [] {
      var step := LiveStep(seen, es[0]);
      var rest := LiveRun(step.0, es[1..]);
      LiveRunSeparated(step.0, es[1..]);
      var out := LiveRun(seen, es);
      assert out == step.1 + rest;
      if es[0].Delivered? {
        // A text line sets the flag; whatever `rest` prints first follows it.
        assert step.1 == [Text(es[0].activity.text)] && step.0;
        forall i | 0 < i < |out| && out[i].Separator?
          ensures out[i - 1].Text?
        {
          assert out[i] == rest[i - 1];
          if i > 1 {
            assert out[i - 1] == rest[i - 2];
          }
        }
      } else if seen {
        // The separator clears the flag, so `rest` cannot open with another.
        assert step.1 == [Separator] && !step.0;
        forall i | 0 < i < |out| && out[i].Separator?
          ensures out[i - 1].Text?
        {
          assert out[i] == rest[i - 1];
          assert i > 1;
          assert out[i - 1] == rest[i - 2];
        }
      } else {
        assert step.1 == [] && !step.0;
        assert out == rest;
      }
    }
  }

  /** A quiet period that starts with the flag clear prints nothing and leaves
      the flag clear. */
  lemma {:induction false} QuietPrintsNothing(n: nat)
    ensures LiveRun(false, Ticks(n)) == []
    ensures LiveSeen(false, Ticks(n)) == false
  {
    if n > 0 {
      assert Ticks(n)[1..] == Ticks(n - 1);
      QuietPrintsNothing(n - 1);
    }
  }

  /** A line followed by a quiet period of any length (at least one timeout)
      prints the line and exactly one separator, whatever came before. */
  lemma {:induction false} OneSeparatorPerQuietPeriod(seen: bool, before: seq<Input>, a: Activity, n: nat)
    requires n > 0
    ensures LiveRun(seen, before + [Delivered(a)] + Ticks(n))
         == LiveRun(seen, before) + [Text(a.text), Separator]
  {
    var s := LiveSeen(seen, before);
    LiveRunAppend(seen, before, [Delivered(a)] + Ticks(n));
    assert before + [Delivered(a)] + Ticks(n) == before + ([Delivered(a)] + Ticks(n));
    assert ([Delivered(a)] + Ticks(n))[1..] == Ticks(n);
    assert Ticks(n)[1..] == Ticks(n - 1);
    QuietPrintsNothing(n - 1);
  }

  /** If nothing is ever read, nothing is ever printed: no separator appears
      when no line has been printed. */
  lemma NoLinesNoOutput(es: seq<Input>)
    requires forall i | 0 <= i < |es| :: es[i] == Tick
    ensures LiveRun(false, es) == []
  {
    assert es == Ticks(|es|);
    QuietPrintsNothing(|es|);
  }
}
