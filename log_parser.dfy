/**
  The log parser: a fold of the per-line classification over the log, with a
  pending time step (`current_time` and `temp_residuals`) that is flushed into the
  collected time steps and per-variable residual lists at the next time marker and
  at the end of the log.

  Times and residuals are kept as the tokens the patterns matched; a token that
  Python's `float()` rejects ends the parse with an error, as the `ValueError`
  does in the program.
 */
module LogParser {
  import opened Wrappers
  import opened Text
  import opened FloatLiteral
  import opened LineClassifier

  /** What `parse_log_file` returns: the time steps and, per variable, its residuals in flush order. */
  datatype Parsed = Parsed(timeSteps: seq<string>, residuals: map<string, seq<string>>)

  /** The loop's state: the pending step's time, its residuals so far, and what has been flushed. */
  datatype ParserState = ParserState(currentTime: Option<string>, tempResiduals: map<string, string>, parsed: Parsed)

  /** The `ValueError` of `float()` on a time or residual token. */
  datatype ParseError = MalformedNumber(token: string)

  /** One flushed time step: its time and the last residual of every variable reported in it. */
  datatype Record = Record(time: string, values: map<string, string>)

  const Empty: Parsed := Parsed([], map[])
  const Init: ParserState := ParserState(None, map[], Empty)

  /** `residuals[v]` of the `defaultdict(list)`: the empty list for a variable never appended to. */
  function Lookup(residuals: map<string, seq<string>>, v: string): seq<string> {
    if v in residuals then residuals[v] else []
  }

  /** The value list of `v` after one flush of `values`: one more entry exactly when `v` was reported. */
  function Appended(residuals: map<string, seq<string>>, values: map<string, string>, v: string): seq<string> {
    Lookup(residuals, v) + (if v in values then [values[v]] else [])
  }

  /** Appending one time step: its time, and one value to the list of each variable it holds. */
  function AppendRecord(p: Parsed, r: Record): (q: Parsed)
    ensures q.timeSteps == p.timeSteps + [r.time]
    ensures q.residuals.Keys == p.residuals.Keys + r.values.Keys
    ensures forall v :: v in q.residuals ==> q.residuals[v] == Appended(p.residuals, r.values, v)
  {
    Parsed(p.timeSteps + [r.time],
           map v | v in p.residuals.Keys + r.values.Keys :: Appended(p.residuals, r.values, v))
  }

  /** The pending step is flushed when there is a current time and at least one residual for it. */
  function Flush(st: ParserState): (p: Parsed)
    ensures st.currentTime.Some? && st.tempResiduals.Keys != {} ==>
              p == AppendRecord(st.parsed, Record(st.currentTime.value, st.tempResiduals))
    ensures st.currentTime.None? || st.tempResiduals.Keys == {} ==> p == st.parsed
  {
    if st.currentTime.Some? && st.tempResiduals.Keys != {} then
      AppendRecord(st.parsed, Record(st.currentTime.value, st.tempResiduals))
    else st.parsed
  }

  /** Reports for `rho` and reports of the `diagonal` solver are skipped. */
  predicate Excluded(kind: SolverKind, variable: string) {
    variable == "rho" || kind == Diagonal
  }

  /** One line of the loop body, on its classification. */
  function Step(st: ParserState, k: LineKind): Result<ParserState, ParseError> {
    match k
    case TimeMarker(t) =>
      if IsFloatLiteral(t) then Ok(ParserState(Some(t), map[], Flush(st))) else Err(MalformedNumber(t))
    case Report(kind, v, x) =>
      if !IsFloatLiteral(x) then Err(MalformedNumber(x))
      else if Excluded(kind, v) then Ok(st)
      else Ok(st.(tempResiduals := st.tempResiduals[v := x]))
    case Other => Ok(st)
  }

  /** The loop over the classified lines `ks`, from state `st`; the first error stops it. */
  function Run(st: ParserState, ks: seq<LineKind>): Result<ParserState, ParseError>
    decreases |ks|
  {
    if ks == [] then Ok(st)
    else
      match Step(st, ks[0])
      case Err(e) => Err(e)
      case Ok(next) => Run(next, ks[1..])
  }

  /** The parse of classified lines: the loop, then the final flush. */
  function ParseKinds(ks: seq<LineKind>): Result<Parsed, ParseError> {
    match Run(Init, ks)
    case Err(e) => Err(e)
    case Ok(st) => Ok(Flush(st))
  }

  function ClassifyAll(lines: seq<string>): (ks: seq<LineKind>)
    ensures |ks| == |lines| && forall i :: 0 <= i < |lines| ==> ks[i] == Classify(lines[i])
  {
    seq(|lines|, i requires 0 <= i < |lines| => Classify(lines[i]))
  }

  /** `parse_log_file` on the lines of the log. */
  function ParseLog(lines: seq<string>): Result<Parsed, ParseError> {
    ParseKinds(ClassifyAll(lines))
  }

  /** The value lists once the variables in `done` have had their pending residual appended. */
  function AppendedFor(residuals: map<string, seq<string>>, values: map<string, string>, done: set<string>)
    : map<string, seq<string>>
    requires done <= values.Keys
  {
    map v | v in residuals.Keys + done :: Lookup(residuals, v) + (if v in done then [values[v]] else [])
  }

  lemma AppendedForOneMore(residuals: map<string, seq<string>>, values: map<string, string>, done: set<string>, v: string)
    requires done <= values.Keys && v in values && v !in done
    ensures var m := AppendedFor(residuals, values, done);
      m[v := Lookup(m, v) + [values[v]]] == AppendedFor(residuals, values, done + {v})
  {
    var m := AppendedFor(residuals, values, done);
    var m' := AppendedFor(residuals, values, done + {v});
    assert m[v := Lookup(m, v) + [values[v]]].Keys == m'.Keys;
    assert Lookup(m, v) == Lookup(residuals, v) by {
      if v in m {
        assert m[v] == Lookup(residuals, v) + [];
      }
    }
  }

  lemma AppendedForNone(residuals: map<string, seq<string>>, values: map<string, string>)
    ensures AppendedFor(residuals, values, {}) == residuals
  {
    var m := AppendedFor(residuals, values, {});
    forall v | v in residuals
      ensures m[v] == residuals[v]
    {
      assert m[v] == residuals[v] + [];
    }
  }

  lemma AppendedForAll(p: Parsed, r: Record)
    ensures AppendedFor(p.residuals, r.values, r.values.Keys) == AppendRecord(p, r).residuals
  {
  }

  /** The flush loop: append the time, then each pending residual to its variable's list. */
  method FlushInto(timeSteps: seq<string>, residuals: map<string, seq<string>>, time: string,
                   tempResiduals: map<string, string>)
    returns (timeSteps': seq<string>, residuals': map<string, seq<string>>)
    ensures Parsed(timeSteps', residuals') == AppendRecord(Parsed(timeSteps, residuals), Record(time, tempResiduals))
  {
    timeSteps' := timeSteps + [time];
    residuals' := residuals;
    var todo := tempResiduals.Keys;
    ghost var done: set<string> := {};
    AppendedForNone(residuals, tempResiduals);
    while todo != {}
      invariant done <= tempResiduals.Keys && todo <= tempResiduals.Keys && done !! todo
      invariant forall u :: u in tempResiduals ==> u in done || u in todo
      invariant residuals' == AppendedFor(residuals, tempResiduals, done)
      decreases |todo|
    {
      var v :| v in todo;
      AppendedForOneMore(residuals, tempResiduals, done, v);
      residuals' := residuals'[v := Lookup(residuals', v) + [tempResiduals[v]]];
      todo := todo - {v};
      done := done + {v};
    }
    assert done == tempResiduals.Keys;
    AppendedForAll(Parsed(timeSteps, residuals), Record(time, tempResiduals));
  }

  /** `parse_log_file`, as the program runs it: one pass over the lines, then the last flush. */
  method ParseLogFile(lines: seq<string>) returns (r: Result<Parsed, ParseError>)
    ensures r == ParseLog(lines)
  {
    ghost var ks := ClassifyAll(lines);
    var timeSteps: seq<string> := [];
    var residuals: map<string, seq<string>> := map[];
    var currentTime: Option<string> := None;
    var tempResiduals: map<string, string> := map[];
    for i := 0 to |lines|
      invariant Run(ParserState(currentTime, tempResiduals, Parsed(timeSteps, residuals)), ks[i..]) == Run(Init, ks)
    {
      assert ks[i..][1..] == ks[i + 1..];
      var line := lines[i];
      match Classify(line)
      case TimeMarker(t) =>
        if currentTime.Some? && tempResiduals.Keys != {} {
          timeSteps, residuals := FlushInto(timeSteps, residuals, currentTime.value, tempResiduals);
        }
        if !IsFloatLiteral(t) {
          return Err(MalformedNumber(t));
        }
        currentTime := Some(t);
        tempResiduals := map[];
      case Report(kind, variable, residual) =>
        if !IsFloatLiteral(residual) {
          return Err(MalformedNumber(residual));
        }
        if !Excluded(kind, variable) {
          tempResiduals := tempResiduals[variable := residual];
        }
      case Other =>
    }
    assert ks[|lines|..] == [];
    if currentTime.Some? && tempResiduals.Keys != {} {
      timeSteps, residuals := FlushInto(timeSteps, residuals, currentTime.value, tempResiduals);
    }
    r := Ok(Parsed(timeSteps, residuals));
  }

  // ---------------------------------------------------------------------------
  // A reference definition of the parse, by time step rather than by line

  /** A report the loop keeps in the pending step. */
  predicate Counts(k: LineKind) {
    k.Report? && !Excluded(k.kind, k.variable)
  }

  /** The classified lines up to the next time marker: the step that a marker opens. */
  function UntilMarker(ks: seq<LineKind>): (seg: seq<LineKind>)
    ensures |seg| <= |ks| && seg == ks[..|seg|]
    ensures forall i :: 0 <= i < |seg| ==> !seg[i].TimeMarker?
    ensures |seg| < |ks| ==> ks[|seg|].TimeMarker?
    decreases |ks|
  {
    if ks == [] || ks[0].TimeMarker? then [] else [ks[0]] + UntilMarker(ks[1..])
  }

  /** The variables of the kept reports in `seg`. */
  function ReportedIn(seg: seq<LineKind>): set<string> {
    set i | 0 <= i < |seg| && Counts(seg[i]) :: seg[i].variable
  }

  /** The residual of the last kept report for `v` in `seg`, if there is one. */
  function LastValue(seg: seq<LineKind>, v: string): (r: Option<string>)
    ensures r.Some? <==> v in ReportedIn(seg)
    decreases |seg|
  {
    if seg == [] then None
    else
      var k := seg[|seg| - 1];
      ReportedInSnoc(seg);
      if Counts(k) && k.variable == v then Some(k.residual) else LastValue(seg[..|seg| - 1], v)
  }

  /** The last value wins: `LastValue` is the residual of a kept report for `v` that no later one for `v` follows. */
  lemma {:induction false} LastValueIsLast(seg: seq<LineKind>, v: string)
    requires LastValue(seg, v).Some?
    ensures exists i :: 0 <= i < |seg| && Counts(seg[i]) && seg[i].variable == v
                        && seg[i].residual == LastValue(seg, v).value
                        && forall j :: i < j < |seg| ==> !(Counts(seg[j]) && seg[j].variable == v)
    decreases |seg|
  {
    var k := seg[|seg| - 1];
    if Counts(k) && k.variable == v {
      assert seg[|seg| - 1] == k;
    } else {
      var front := seg[..|seg| - 1];
      LastValueIsLast(front, v);
      var i :| 0 <= i < |front| && Counts(front[i]) && front[i].variable == v
               && front[i].residual == LastValue(front, v).value
               && forall j :: i < j < |front| ==> !(Counts(front[j]) && front[j].variable == v);
      assert seg[i] == front[i];
      assert forall j :: i < j < |front| ==> seg[j] == front[j];
    }
  }

  lemma ReportedInSnoc(seg: seq<LineKind>)
    requires seg != []
    ensures var k := seg[|seg| - 1];
      ReportedIn(seg) == ReportedIn(seg[..|seg| - 1]) + (if Counts(k) then {k.variable} else {})
  {
    var front := seg[..|seg| - 1];
    forall v | v in ReportedIn(front)
      ensures v in ReportedIn(seg)
    {
      var i :| 0 <= i < |front| && Counts(front[i]) && front[i].variable == v;
      assert seg[i] == front[i];
    }
  }

  /** The pending step after the lines `seg`: every kept variable with its last residual. */
  function Pending(seg: seq<LineKind>): (values: map<string, string>)
    ensures values.Keys == ReportedIn(seg)
    ensures forall v :: v in values ==> LastValue(seg, v) == Some(values[v])
  {
    map v | v in ReportedIn(seg) :: LastValue(seg, v).value
  }

  /** A step is emitted only when it holds at least one residual. */
  function RecordIf(time: string, values: map<string, string>): seq<Record> {
    if values.Keys != {} then [Record(time, values)] else []
  }

  /**
    The time steps of `ks`: one per time marker, holding the kept reports up to the next
    marker, dropped when it holds none. Lines before the first marker belong to none.
   */
  function Records(ks: seq<LineKind>): seq<Record>
    decreases |ks|
  {
    if ks == [] then []
    else (if ks[0].TimeMarker? then RecordIf(ks[0].time, Pending(UntilMarker(ks[1..]))) else []) + Records(ks[1..])
  }

  /** Appending the time steps `recs` in order. */
  function AppendAll(p: Parsed, recs: seq<Record>): Parsed
    decreases |recs|
  {
    if recs == [] then p else AppendAll(AppendRecord(p, recs[0]), recs[1..])
  }

  /** What the parse collects from the time steps `recs`. */
  function Flatten(recs: seq<Record>): Parsed {
    AppendAll(Empty, recs)
  }

  /** The token a line hands to `float()`, if any. */
  predicate TokenOk(k: LineKind) {
    match k
    case TimeMarker(t) => IsFloatLiteral(t)
    case Report(_, _, x) => IsFloatLiteral(x)
    case Other => true
  }

  function Token(k: LineKind): string
    requires !k.Other?
  {
    if k.TimeMarker? then k.time else k.residual
  }

  /** The first token in `ks` that `float()` rejects. */
  function FirstMalformed(ks: seq<LineKind>): (r: Option<string>)
    ensures r.None? <==> forall i :: 0 <= i < |ks| ==> TokenOk(ks[i])
    ensures r.Some? ==> exists i :: 0 <= i < |ks| && !TokenOk(ks[i]) && Token(ks[i]) == r.value
                                   && forall j :: 0 <= j < i ==> TokenOk(ks[j])
    decreases |ks|
  {
    if ks == [] then None
    else if !TokenOk(ks[0]) then Some(Token(ks[0]))
    else
      var r := FirstMalformed(ks[1..]);
      FirstMalformedShift(ks, r);
      r
  }

  lemma FirstMalformedShift(ks: seq<LineKind>, r: Option<string>)
    requires ks != [] && TokenOk(ks[0])
    requires r.None? <==> forall i :: 0 <= i < |ks[1..]| ==> TokenOk(ks[1..][i])
    requires r.Some? ==> exists i :: 0 <= i < |ks[1..]| && !TokenOk(ks[1..][i]) && Token(ks[1..][i]) == r.value
                                   && forall j :: 0 <= j < i ==> TokenOk(ks[1..][j])
    ensures r.None? <==> forall i :: 0 <= i < |ks| ==> TokenOk(ks[i])
    ensures r.Some? ==> exists i :: 0 <= i < |ks| && !TokenOk(ks[i]) && Token(ks[i]) == r.value
                                   && forall j :: 0 <= j < i ==> TokenOk(ks[j])
  {
    assert forall i :: 1 <= i < |ks| ==> ks[i] == ks[1..][i - 1];
    if r.Some? {
      var i :| 0 <= i < |ks[1..]| && !TokenOk(ks[1..][i]) && Token(ks[1..][i]) == r.value
               && forall j :: 0 <= j < i ==> TokenOk(ks[1..][j]);
      assert ks[i + 1] == ks[1..][i];
    }
  }

  // ---------------------------------------------------------------------------
  // The loop computes the reference definition

  lemma {:induction false} LastValueCons(k: LineKind, seg: seq<LineKind>, v: string)
    ensures LastValue([k] + seg, v)
         == if LastValue(seg, v).Some? then LastValue(seg, v)
            else if Counts(k) && k.variable == v then Some(k.residual) else None
    decreases |seg|
  {
    if seg != [] {
      var front := seg[..|seg| - 1];
      assert ([k] + seg)[..|seg|] == [k] + front;
      LastValueCons(k, front, v);
    }
  }

  /** A kept report adds its variable to the pending step unless a later report for it follows. */
  lemma PendingCons(k: LineKind, seg: seq<LineKind>)
    ensures Pending([k] + seg) == (if Counts(k) then map[k.variable := k.residual] else map[]) + Pending(seg)
  {
    var lhs := Pending([k] + seg);
    var rhs := (if Counts(k) then map[k.variable := k.residual] else map[]) + Pending(seg);
    forall v | v in lhs || v in rhs
      ensures v in lhs && v in rhs && lhs[v] == rhs[v]
    {
      LastValueCons(k, seg, v);
    }
    assert lhs.Keys == rhs.Keys;
  }

  /** The step that is pending when the state `st` goes on with the line kinds `seg`. */
  function Head(st: ParserState, seg: seq<LineKind>): seq<Record> {
    if st.currentTime.Some? then RecordIf(st.currentTime.value, st.tempResiduals + Pending(seg)) else []
  }

  lemma {:induction false} AppendAllConcat(p: Parsed, a: seq<Record>, b: seq<Record>)
    ensures AppendAll(p, a + b) == AppendAll(AppendAll(p, a), b)
    decreases |a|
  {
    if a != [] {
      assert (a + b)[0] == a[0];
      assert (a + b)[1..] == a[1..] + b;
      AppendAllConcat(AppendRecord(p, a[0]), a[1..], b);
    } else {
      assert a + b == b;
    }
  }

  lemma FlushIsHead(st: ParserState)
    ensures Flush(st) == AppendAll(st.parsed, Head(st, []))
  {
    assert st.tempResiduals + Pending([]) == st.tempResiduals;
  }

  /** What the parse from state `st` over `ks` collects, by the reference definition. */
  function View(st: ParserState, ks: seq<LineKind>): Parsed {
    AppendAll(st.parsed, Head(st, UntilMarker(ks)) + Records(ks))
  }

  lemma MarkerKeepsView(st: ParserState, t: string, rest: seq<LineKind>)
    requires IsFloatLiteral(t)
    ensures View(Step(st, TimeMarker(t)).value, rest) == View(st, [TimeMarker(t)] + rest)
  {
    var ks := [TimeMarker(t)] + rest;
    assert ks[1..] == rest;
    FlushIsHead(st);
    EmptyMerge(Pending(UntilMarker(rest)));
    AppendAllConcat(st.parsed, Head(st, []), Records(ks));
  }

  lemma UpdateThenMerge(m: map<string, string>, v: string, x: string, q: map<string, string>)
    ensures m[v := x] + q == m + (map[v := x] + q)
  {
    var lhs := m[v := x] + q;
    var rhs := m + (map[v := x] + q);
    assert lhs.Keys == rhs.Keys;
  }

  lemma ReportKeepsView(st: ParserState, k: LineKind, rest: seq<LineKind>)
    requires !k.TimeMarker? && TokenOk(k)
    ensures View(Step(st, k).value, rest) == View(st, [k] + rest)
  {
    var ks := [k] + rest;
    var next := Step(st, k).value;
    assert ks[1..] == rest;
    PendingCons(k, UntilMarker(rest));
    assert UntilMarker(ks) == [k] + UntilMarker(rest);
    assert Records(ks) == Records(rest);
    assert next.parsed == st.parsed;
    if Counts(k) {
      KeptReportPending(st, k, rest);
    } else {
      assert next == st;
      EmptyMerge(Pending(UntilMarker(rest)));
    }
    assert Head(next, UntilMarker(rest)) == Head(st, UntilMarker(ks));
  }

  lemma EmptyMerge(q: map<string, string>)
    ensures map[] + q == q
  {
  }

  lemma KeptReportPending(st: ParserState, k: LineKind, rest: seq<LineKind>)
    requires Counts(k) && TokenOk(k)
    requires Pending(UntilMarker([k] + rest)) == map[k.variable := k.residual] + Pending(UntilMarker(rest))
    ensures Head(Step(st, k).value, UntilMarker(rest)) == Head(st, UntilMarker([k] + rest))
  {
    var q := Pending(UntilMarker(rest));
    UpdateThenMerge(st.tempResiduals, k.variable, k.residual, q);
  }

  /** The loop from any state computes the reference definition from that state. */
  lemma {:induction false} RunComputesView(st: ParserState, ks: seq<LineKind>)
    requires forall i :: 0 <= i < |ks| ==> TokenOk(ks[i])
    ensures Run(st, ks).Ok?
    ensures Flush(Run(st, ks).value) == View(st, ks)
    decreases |ks|
  {
    if ks == [] {
      FlushIsHead(st);
    } else {
      var k, rest := ks[0], ks[1..];
      assert ks == [k] + rest;
      assert forall i :: 0 <= i < |rest| ==> rest[i] == ks[i + 1];
      RunComputesView(Step(st, k).value, rest);
      if k.TimeMarker? {
        MarkerKeepsView(st, k.time, rest);
      } else {
        ReportKeepsView(st, k, rest);
      }
    }
  }

  lemma StepError(st: ParserState, k: LineKind)
    ensures Step(st, k).Err? <==> !TokenOk(k)
    ensures Step(st, k).Err? ==> Step(st, k).error == MalformedNumber(Token(k))
  {
  }

  /** The loop stops with an error exactly when some token is malformed, and names the first one. */
  lemma {:induction false} RunError(st: ParserState, ks: seq<LineKind>)
    ensures Run(st, ks).Err? <==> FirstMalformed(ks).Some?
    ensures Run(st, ks).Err? ==> Run(st, ks).error == MalformedNumber(FirstMalformed(ks).value)
    decreases |ks|
  {
    if ks != [] {
      StepError(st, ks[0]);
      if TokenOk(ks[0]) {
        RunError(Step(st, ks[0]).value, ks[1..]);
      }
    }
  }

  /**
    The parse of classified lines: the first malformed token is the error; without one, the
    result is the time steps of the reference definition, collected in order.
   */
  lemma ParseKindsSpec(ks: seq<LineKind>)
    ensures ParseKinds(ks) == match FirstMalformed(ks)
                              case Some(t) => Err(MalformedNumber(t))
                              case None => Ok(Flatten(Records(ks)))
  {
    RunError(Init, ks);
    if FirstMalformed(ks).None? {
      RunComputesView(Init, ks);
      assert Head(Init, UntilMarker(ks)) + Records(ks) == Records(ks);
    }
  }

  // ---------------------------------------------------------------------------
  // The shape of what the parse collects

  function Times(recs: seq<Record>): (times: seq<string>)
    ensures |times| == |recs| && forall i :: 0 <= i < |recs| ==> times[i] == recs[i].time
  {
    seq(|recs|, i requires 0 <= i < |recs| => recs[i].time)
  }

  /** The values of `v` in the time steps `recs`, in order, skipping the steps without one. */
  function Series(recs: seq<Record>, v: string): (r: seq<string>)
    ensures |r| <= |recs|
    decreases |recs|
  {
    if recs == [] then []
    else (if v in recs[0].values then [recs[0].values[v]] else []) + Series(recs[1..], v)
  }

  /** The variables of the time steps `recs`. */
  function KeysOf(recs: seq<Record>): set<string> {
    set i, v | 0 <= i < |recs| && v in recs[i].values :: v
  }

  lemma KeysOfCons(recs: seq<Record>)
    requires recs != []
    ensures KeysOf(recs) == recs[0].values.Keys + KeysOf(recs[1..])
  {
    forall v | v in KeysOf(recs)
      ensures v in recs[0].values.Keys + KeysOf(recs[1..])
    {
      var i :| 0 <= i < |recs| && v in recs[i].values;
      if i > 0 {
        assert recs[1..][i - 1] == recs[i];
      }
    }
    forall v | v in KeysOf(recs[1..])
      ensures v in KeysOf(recs)
    {
      var i :| 0 <= i < |recs[1..]| && v in recs[1..][i].values;
      assert recs[i + 1] == recs[1..][i];
    }
  }

  /** A variable of some time step has at least one value in its series. */
  lemma {:induction false} SeriesNonEmpty(recs: seq<Record>, v: string)
    requires v in KeysOf(recs)
    ensures |Series(recs, v)| >= 1
    decreases |recs|
  {
    KeysOfCons(recs);
    if v !in recs[0].values {
      SeriesNonEmpty(recs[1..], v);
    }
  }

  lemma {:induction false} AppendAllTimes(p: Parsed, recs: seq<Record>)
    ensures AppendAll(p, recs).timeSteps == p.timeSteps + Times(recs)
    decreases |recs|
  {
    if recs != [] {
      AppendAllTimes(AppendRecord(p, recs[0]), recs[1..]);
      assert Times(recs) == [recs[0].time] + Times(recs[1..]);
    }
  }

  lemma {:induction false} AppendAllKeys(p: Parsed, recs: seq<Record>)
    ensures AppendAll(p, recs).residuals.Keys == p.residuals.Keys + KeysOf(recs)
    decreases |recs|
  {
    if recs == [] {
      assert KeysOf(recs) == {};
    } else {
      AppendAllKeys(AppendRecord(p, recs[0]), recs[1..]);
      KeysOfCons(recs);
    }
  }

  lemma {:induction false} AppendAllSeries(p: Parsed, recs: seq<Record>, v: string)
    requires v in AppendAll(p, recs).residuals
    ensures AppendAll(p, recs).residuals[v] == Lookup(p.residuals, v) + Series(recs, v)
    decreases |recs|
  {
    if recs != [] {
      var q := AppendRecord(p, recs[0]);
      var head := if v in recs[0].values then [recs[0].values[v]] else [];
      assert AppendAll(p, recs) == AppendAll(q, recs[1..]);
      AppendAllSeries(q, recs[1..], v);
      LookupAppended(p, recs[0], v);
      SeriesCons(recs, v);
      ConcatAssoc(Lookup(p.residuals, v), head, Series(recs[1..], v));
    }
  }

  lemma SeriesCons(recs: seq<Record>, v: string)
    requires recs != []
    ensures Series(recs, v) == (if v in recs[0].values then [recs[0].values[v]] else []) + Series(recs[1..], v)
  {
  }

  lemma ConcatAssoc(a: seq<string>, b: seq<string>, c: seq<string>)
    ensures a + b + c == a + (b + c)
  {
  }

  lemma LookupAppended(p: Parsed, r: Record, v: string)
    ensures Lookup(AppendRecord(p, r).residuals, v) == Appended(p.residuals, r.values, v)
  {
  }

  /** Every time step the reference definition emits holds at least one variable, and never `rho`. */
  lemma {:induction false} RecordsShape(ks: seq<LineKind>)
    ensures forall i :: 0 <= i < |Records(ks)| ==>
              Records(ks)[i].values.Keys != {} && "rho" !in Records(ks)[i].values
    decreases |ks|
  {
    if ks != [] {
      RecordsShape(ks[1..]);
    }
  }

  /**
    What a successful parse returns: one time per emitted step, in order; the variables are
    those of the steps; each variable's list holds its values in step order, at least one and
    at most one per time step; `rho` is never among them.
   */
  lemma ParsedShape(ks: seq<LineKind>, p: Parsed)
    requires ParseKinds(ks) == Ok(p)
    ensures p.timeSteps == Times(Records(ks))
    ensures p.residuals.Keys == KeysOf(Records(ks)) && "rho" !in p.residuals
    ensures forall v :: v in p.residuals ==> p.residuals[v] == Series(Records(ks), v)
    ensures forall v :: v in p.residuals ==> 1 <= |p.residuals[v]| <= |p.timeSteps|
  {
    ParsedIsFlatten(ks, p);
    RecordsShape(ks);
    FlattenShape(Records(ks));
  }

  /** Every report in `ks` names a variable that `(\w+)` matched. */
  predicate WordVariables(ks: seq<LineKind>) {
    forall i :: 0 <= i < |ks| && ks[i].Report? ==> ks[i].variable != [] && AllWord(ks[i].variable)
  }

  lemma ClassifiedVariables(lines: seq<string>)
    ensures WordVariables(ClassifyAll(lines))
  {
    var ks := ClassifyAll(lines);
    forall i | 0 <= i < |ks| && ks[i].Report?
      ensures ks[i].variable != [] && AllWord(ks[i].variable)
    {
      ReportVariableIsWord(lines[i]);
    }
  }

  /** Every time step in `recs` holds only variables that are non-empty runs of word characters. */
  predicate WordRecords(recs: seq<Record>) {
    forall i :: 0 <= i < |recs| ==> WordKeys(recs[i].values)
  }

  predicate WordKeys(values: map<string, string>) {
    forall v :: v in values ==> v != [] && AllWord(v)
  }

  /** The time steps hold only variables that reports in `ks` named. */
  lemma {:induction false} RecordsVariables(ks: seq<LineKind>)
    requires WordVariables(ks)
    ensures WordRecords(Records(ks))
    decreases |ks|
  {
    if ks != [] {
      var rest := ks[1..];
      forall i | 0 <= i < |rest| && rest[i].Report?
        ensures rest[i].variable != [] && AllWord(rest[i].variable)
      {
        assert rest[i] == ks[i + 1];
      }
      RecordsVariables(rest);
      var later := Records(rest);
      var seg := UntilMarker(rest);
      forall v | v in ReportedIn(seg)
        ensures v != [] && AllWord(v)
      {
        var i :| 0 <= i < |seg| && Counts(seg[i]) && seg[i].variable == v;
        assert seg[i] == rest[i];
      }
      var head := if ks[0].TimeMarker? then RecordIf(ks[0].time, Pending(seg)) else [];
      var all := Records(ks);
      assert all == head + later;
      forall i | 0 <= i < |all|
        ensures WordKeys(all[i].values)
      {
        if i < |head| {
          assert all[i] == Record(ks[0].time, Pending(seg));
        } else {
          assert all[i] == later[i - |head|];
        }
      }
    } else {
      assert Records(ks) == [];
    }
  }

  /** Every variable a successful parse returns is a name `(\w+)` matched: non-empty word characters. */
  lemma ParsedVariablesAreWords(lines: seq<string>, p: Parsed)
    requires ParseLog(lines) == Ok(p)
    ensures forall v :: v in p.residuals ==> v != [] && AllWord(v)
  {
    var ks := ClassifyAll(lines);
    var recs := Records(ks);
    ParsedIsFlatten(ks, p);
    AppendAllKeys(Empty, recs);
    ClassifiedVariables(lines);
    RecordsVariables(ks);
    forall v | v in p.residuals
      ensures v != [] && AllWord(v)
    {
      assert v in KeysOf(recs);
      var i, w :| 0 <= i < |recs| && w in recs[i].values && w == v;
      assert WordKeys(recs[i].values);
    }
  }

  lemma ParsedIsFlatten(ks: seq<LineKind>, p: Parsed)
    requires ParseKinds(ks) == Ok(p)
    ensures p == Flatten(Records(ks))
  {
    ParseKindsSpec(ks);
  }

  lemma FlattenShape(recs: seq<Record>)
    requires forall i :: 0 <= i < |recs| ==> "rho" !in recs[i].values
    ensures Flatten(recs).timeSteps == Times(recs)
    ensures Flatten(recs).residuals.Keys == KeysOf(recs) && "rho" !in Flatten(recs).residuals
    ensures forall v :: v in Flatten(recs).residuals ==> Flatten(recs).residuals[v] == Series(recs, v)
    ensures forall v :: v in Flatten(recs).residuals ==> 1 <= |Flatten(recs).residuals[v]| <= |recs|
  {
    var p := Flatten(recs);
    AppendAllTimes(Empty, recs);
    AppendAllKeys(Empty, recs);
    forall v | v in p.residuals
      ensures p.residuals[v] == Series(recs, v) && 1 <= |p.residuals[v]| <= |recs|
    {
      AppendAllSeries(Empty, recs, v);
      SeriesNonEmpty(recs, v);
    }
    assert "rho" !in KeysOf(recs);
  }
}
