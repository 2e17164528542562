/**
  Properties of the log parser beyond its specification: lines that change nothing, the last
  report of a variable winning, repeated time markers, and lines before the first marker.
 */
module LogProperties {
  import opened Wrappers
  import opened FloatLiteral
  import opened LineClassifier
  import opened LogParser

  /** Running over `a + b` is running over `a`, then over `b` from where `a` left off. */
  lemma {:induction false} RunAppend(st: ParserState, a: seq<LineKind>, b: seq<LineKind>)
    ensures Run(st, a + b) == match Run(st, a)
                              case Err(e) => Err(e)
                              case Ok(s) => Run(s, b)
    decreases |a|
  {
    if a == [] {
      assert a + b == b;
    } else {
      assert (a + b)[0] == a[0] && (a + b)[1..] == a[1..] + b;
      if Step(st, a[0]).Ok? {
        RunAppend(Step(st, a[0]).value, a[1..], b);
      }
    }
  }

  /** Inserting `ks` where the parser has reached `st` makes no difference when `ks` leaves `st` as it is. */
  lemma InsertNoOp(a: seq<LineKind>, ks: seq<LineKind>, b: seq<LineKind>)
    requires forall st :: Run(st, ks) == Ok(st)
    ensures ParseKinds(a + ks + b) == ParseKinds(a + b)
  {
    assert a + ks + b == a + (ks + b);
    RunAppend(Init, a, ks + b);
    RunAppend(Init, a, b);
    if Run(Init, a).Ok? {
      RunAppend(Run(Init, a).value, ks, b);
    }
  }

  /** A report for `rho` or of the `diagonal` solver whose residual is a number leaves all state unchanged. */
  lemma ExcludedReportNoOp(st: ParserState, kind: SolverKind, variable: string, residual: string)
    requires Excluded(kind, variable) && IsFloatLiteral(residual)
    ensures Step(st, Report(kind, variable, residual)) == Ok(st)
  {
  }

  /** So does a line that is neither a time marker nor a solver report. */
  lemma OtherLineNoOp(st: ParserState)
    ensures Step(st, Other) == Ok(st)
  {
  }

  /** Consequently, either kind of line can be dropped from the log without changing the parse. */
  lemma SkippedLineInvisible(a: seq<LineKind>, k: LineKind, b: seq<LineKind>)
    requires k.Other? || (k.Report? && Excluded(k.kind, k.variable) && IsFloatLiteral(k.residual))
    ensures ParseKinds(a + [k] + b) == ParseKinds(a + b)
  {
    forall st: ParserState
      ensures Run(st, [k]) == Ok(st)
    {
      assert [k][1..] == [];
    }
    InsertNoOp(a, [k], b);
  }

  /** A kept report adds or replaces its variable's pending residual and changes nothing else. */
  lemma KeptReportStep(st: ParserState, kind: SolverKind, variable: string, residual: string)
    requires !Excluded(kind, variable) && IsFloatLiteral(residual)
    ensures Step(st, Report(kind, variable, residual)) ==
            Ok(ParserState(st.currentTime, st.tempResiduals[variable := residual], st.parsed))
  {
  }

  /** Within one pending step, a second report for the same variable replaces the first. */
  lemma LastReportWins(st: ParserState, k1: SolverKind, k2: SolverKind, v: string, x1: string, x2: string)
    requires !Excluded(k1, v) && !Excluded(k2, v) && IsFloatLiteral(x1) && IsFloatLiteral(x2)
    ensures Run(st, [Report(k1, v, x1), Report(k2, v, x2)]) == Run(st, [Report(k2, v, x2)])
  {
    var a, b := Report(k1, v, x1), Report(k2, v, x2);
    var s1 := ParserState(st.currentTime, st.tempResiduals[v := x1], st.parsed);
    KeptReportStep(st, k1, v, x1);
    KeptReportStep(s1, k2, v, x2);
    KeptReportStep(st, k2, v, x2);
    Overwrite(st.tempResiduals, v, x1, x2);
    RunPair(st, a, b);
    RunSingle(s1, b);
    RunSingle(st, b);
  }

  lemma Overwrite(m: map<string, string>, v: string, x1: string, x2: string)
    ensures m[v := x1][v := x2] == m[v := x2]
  {
  }

  lemma RunSingle(st: ParserState, k: LineKind)
    ensures Run(st, [k]) == Step(st, k)
  {
    assert [k][1..] == [];
  }

  lemma RunPair(st: ParserState, a: LineKind, b: LineKind)
    ensures Step(st, a).Err? ==> Run(st, [a, b]) == Err(Step(st, a).error)
    ensures Step(st, a).Ok? ==> Run(st, [a, b]) == Run(Step(st, a).value, [b])
  {
    assert [a, b][1..] == [b];
  }

  /**
    A time marker directly after another one: the first opens a step with nothing pending, which
    the second drops, so the pair parses as the second alone.
   */
  lemma RepeatedMarker(a: seq<LineKind>, t1: string, t2: string, b: seq<LineKind>)
    requires IsFloatLiteral(t1)
    ensures ParseKinds(a + [TimeMarker(t1), TimeMarker(t2)] + b) == ParseKinds(a + [TimeMarker(t2)] + b)
  {
    var tail := [TimeMarker(t2)] + b;
    Regroup(a, TimeMarker(t1), TimeMarker(t2), b);
    RunAppend(Init, a, [TimeMarker(t1)] + tail);
    RunAppend(Init, a, tail);
    if Run(Init, a).Ok? {
      MarkerThenMarker(Run(Init, a).value, t1, t2, b);
    }
  }

  lemma Regroup(a: seq<LineKind>, k1: LineKind, k2: LineKind, b: seq<LineKind>)
    ensures a + [k1, k2] + b == a + ([k1] + ([k2] + b))
    ensures a + [k2] + b == a + ([k2] + b)
  {
    assert [k1, k2] == [k1] + [k2];
  }

  lemma MarkerThenMarker(s: ParserState, t1: string, t2: string, b: seq<LineKind>)
    requires IsFloatLiteral(t1)
    ensures Run(s, [TimeMarker(t1)] + ([TimeMarker(t2)] + b)) == Run(s, [TimeMarker(t2)] + b)
  {
    RunCons(s, TimeMarker(t1), [TimeMarker(t2)] + b);
    var s1 := Step(s, TimeMarker(t1)).value;
    assert Flush(s1) == Flush(s);
    RunCons(s1, TimeMarker(t2), b);
    RunCons(s, TimeMarker(t2), b);
  }

  lemma TwoMarkersOneReportRun(t1: string, t2: string, kind: SolverKind, v: string, x: string)
    requires IsFloatLiteral(t1) && IsFloatLiteral(t2) && IsFloatLiteral(x) && !Excluded(kind, v)
    ensures Run(Init, [TimeMarker(t1), TimeMarker(t2), Report(kind, v, x)]) ==
            Ok(ParserState(Some(t2), map[v := x], Empty))
  {
    var s1 := ParserState(Some(t1), map[], Empty);
    var s2 := ParserState(Some(t2), map[], Empty);
    assert Flush(Init) == Empty && Flush(s1) == Empty;
    RunCons(Init, TimeMarker(t1), [TimeMarker(t2), Report(kind, v, x)]);
    RunPair(s1, TimeMarker(t2), Report(kind, v, x));
    RunSingle(s2, Report(kind, v, x));
    KeptReportStep(s2, kind, v, x);
  }

  lemma RunCons(st: ParserState, k: LineKind, rest: seq<LineKind>)
    ensures Step(st, k).Err? ==> Run(st, [k] + rest) == Err(Step(st, k).error)
    ensures Step(st, k).Ok? ==> Run(st, [k] + rest) == Run(Step(st, k).value, rest)
  {
    assert ([k] + rest)[1..] == rest;
  }

  /** The example of a log with two time markers and then one kept report: one step, under the second time. */
  lemma TwoMarkersOneReport(t1: string, t2: string, kind: SolverKind, v: string, x: string)
    requires IsFloatLiteral(t1) && IsFloatLiteral(t2) && IsFloatLiteral(x) && !Excluded(kind, v)
    ensures ParseKinds([TimeMarker(t1), TimeMarker(t2), Report(kind, v, x)]) == Ok(Parsed([t2], map[v := [x]]))
  {
    TwoMarkersOneReportRun(t1, t2, kind, v, x);
    var ks := [TimeMarker(t1), TimeMarker(t2), Report(kind, v, x)];
    var s3 := ParserState(Some(t2), map[v := x], Empty);
    assert ParseKinds(ks) == Ok(Flush(s3));
    FlushOne(t2, v, x);
  }

  /** Flushing a single pending residual into an empty store. */
  lemma FlushOne(t: string, v: string, x: string)
    ensures Flush(ParserState(Some(t), map[v := x], Empty)) == Parsed([t], map[v := [x]])
  {
    assert v in map[v := x];
    AppendOne(t, v, x);
  }

  lemma AppendOne(t: string, v: string, x: string)
    ensures AppendRecord(Empty, Record(t, map[v := x])) == Parsed([t], map[v := [x]])
  {
    var p := AppendRecord(Empty, Record(t, map[v := x]));
    assert p.residuals[v] == Lookup(map[], v) + [x] == [x];
    SingleKey(p.residuals, v, [x]);
  }

  lemma SingleKey(m: map<string, seq<string>>, v: string, y: seq<string>)
    requires m.Keys == {v} && m[v] == y
    ensures m == map[v := y]
  {
  }

  // ---------------------------------------------------------------------------
  // Reports before the first time marker

  lemma {:induction false} FirstMalformedAppend(pre: seq<LineKind>, ks: seq<LineKind>)
    requires forall i :: 0 <= i < |pre| ==> TokenOk(pre[i])
    ensures FirstMalformed(pre + ks) == FirstMalformed(ks)
    decreases |pre|
  {
    if pre == [] {
      assert pre + ks == ks;
    } else {
      assert (pre + ks)[0] == pre[0] && (pre + ks)[1..] == pre[1..] + ks;
      FirstMalformedAppend(pre[1..], ks);
    }
  }

  lemma {:induction false} RecordsAfterUnmarked(pre: seq<LineKind>, ks: seq<LineKind>)
    requires forall i :: 0 <= i < |pre| ==> !pre[i].TimeMarker?
    ensures Records(pre + ks) == Records(ks)
    decreases |pre|
  {
    if pre == [] {
      assert pre + ks == ks;
    } else {
      assert (pre + ks)[0] == pre[0] && (pre + ks)[1..] == pre[1..] + ks;
      RecordsAfterUnmarked(pre[1..], ks);
    }
  }

  /**
    Lines before the first time marker are never emitted: when their numbers are well formed,
    the log parses as if they were absent.
   */
  lemma LeadingReportsIgnored(pre: seq<LineKind>, ks: seq<LineKind>)
    requires forall i :: 0 <= i < |pre| ==> !pre[i].TimeMarker? && TokenOk(pre[i])
    ensures ParseKinds(pre + ks) == ParseKinds(ks)
  {
    FirstMalformedAppend(pre, ks);
    RecordsAfterUnmarked(pre, ks);
    ParseKindsSpec(pre + ks);
    ParseKindsSpec(ks);
  }

  /** The parse of log lines, stated over the lines themselves. */
  lemma ParseLogSpec(lines: seq<string>)
    ensures ParseLog(lines) == match FirstMalformed(ClassifyAll(lines))
                               case Some(t) => Err(MalformedNumber(t))
                               case None => Ok(Flatten(Records(ClassifyAll(lines))))
  {
    ParseKindsSpec(ClassifyAll(lines));
  }

  // ---------------------------------------------------------------------------
  // The lines of the log

  /** Each line is classified on its own: classifying a log is classifying its two parts. */
  lemma ClassifyAllAppend(a: seq<string>, b: seq<string>)
    ensures ClassifyAll(a + b) == ClassifyAll(a) + ClassifyAll(b)
  {
    var ks, ka, kb := ClassifyAll(a + b), ClassifyAll(a), ClassifyAll(b);
    forall i | 0 <= i < |ks|
      ensures ks[i] == (ka + kb)[i]
    {
      if i >= |a| {
        assert (a + b)[i] == b[i - |a|];
      }
    }
  }

  /** A line of the log that is neither a time marker nor a solver report can be dropped. */
  lemma OtherLogLineInvisible(a: seq<string>, line: string, b: seq<string>)
    requires Classify(line).Other?
    ensures ParseLog(a + [line] + b) == ParseLog(a + b)
  {
    ClassifyAllAppend(a + [line], b);
    ClassifyAllAppend(a, [line]);
    ClassifyAllAppend(a, b);
    assert ClassifyAll([line]) == [Other];
    SkippedLineInvisible(ClassifyAll(a), Other, ClassifyAll(b));
  }

  /**
    A time line whose value starts with U+001C: `line.strip()` leaves the separator in the
    value, `float` rejects it, and the whole parse fails on that token.
   */
  lemma SeparatorTimeRejected()
    ensures ParseLog(["Time = \U{1C}1"]) == Err(MalformedNumber("\U{1C}1"))
  {
    var v := "\U{1C}1";
    SeparatorTimeClassified();
    assert ClassifyAll(["Time = \U{1C}1"]) == [TimeMarker(v)];
    SeparatorNotStripped();
    RunSingle(Init, TimeMarker(v));
  }

  /** `line.strip()` keeps U+001C, so the time line's value is the separator and the digit. */
  lemma SeparatorTimeClassified()
    ensures Classify("Time = \U{1C}1") == TimeMarker("\U{1C}1")
  {
    var v := "\U{1C}1";
    TimeLineClassified("", v, "");
    assert "" + (TimePrefix + v) + "" == "Time = \U{1C}1";
  }
}
