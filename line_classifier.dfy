/**
  The two regular expressions of the log parser, written out over character
  positions, and the resulting classification of one log line:

    time marker    `^Time = (.+)$` on the stripped line
    solver report  `^\s*(\w*)(PCG|PBiCGStab|PBiCG|GAMG|smoothSolver|diagonal):\s+Solving for (\w+),.*Initial residual = ([0-9.e+-]+)`
                   on the line as read (a prefix match: the rest of the line is not looked at)
 */
module LineClassifier {
  import opened Wrappers
  import opened Text

  datatype SolverKind = PCG | PBiCGStab | PBiCG | GAMG | SmoothSolver | Diagonal

  function KindName(k: SolverKind): string {
    match k
    case PCG => "PCG"
    case PBiCGStab => "PBiCGStab"
    case PBiCG => "PBiCG"
    case GAMG => "GAMG"
    case SmoothSolver => "smoothSolver"
    case Diagonal => "diagonal"
  }

  /** What a line of the log is, for the parser. */
  datatype LineKind =
    | TimeMarker(time: string)
    | Report(kind: SolverKind, variable: string, residual: string)
    | Other

  const TimePrefix: string := "Time = "
  const SolvingFor: string := "Solving for "
  const InitialResidual: string := "Initial residual = "

  /** The character class `[0-9.e+-]` of the residual token. */
  predicate IsNumChar(c: char) {
    IsDigit(c) || c == '.' || c == 'e' || c == '+' || c == '-'
  }

  predicate AllNum(s: string) {
    forall i :: 0 <= i < |s| ==> IsNumChar(s[i])
  }

  /** The end of the run of `[0-9.e+-]` characters that starts at `i`. */
  function NumEnd(s: string, i: nat): (k: nat)
    requires i <= |s|
    ensures i <= k <= |s|
    ensures forall m :: i <= m < k ==> IsNumChar(s[m])
    ensures k < |s| ==> !IsNumChar(s[k])
    decreases |s| - i
  {
    if i == |s| || !IsNumChar(s[i]) then i else NumEnd(s, i + 1)
  }

  /** The solver kind whose name ends a word token; the alternation in the pattern finds no other. */
  function KindSuffix(token: string): (r: Option<SolverKind>)
    ensures r.Some? ==> EndsWith(token, KindName(r.value))
    ensures r.None? ==> forall k :: !EndsWith(token, KindName(k))
  {
    if EndsWith(token, "PCG") then Some(PCG)
    else if EndsWith(token, "PBiCGStab") then Some(PBiCGStab)
    else if EndsWith(token, "PBiCG") then Some(PBiCG)
    else if EndsWith(token, "GAMG") then Some(GAMG)
    else if EndsWith(token, "smoothSolver") then Some(SmoothSolver)
    else if EndsWith(token, "diagonal") then Some(Diagonal)
    else None
  }

  lemma SuffixOfSuffix(token: string, a: string, b: string)
    requires EndsWith(token, a) && EndsWith(token, b)
    ensures |a| <= |b| ==> EndsWith(b, a)
    ensures |b| <= |a| ==> EndsWith(a, b)
  {
    if |a| <= |b| {
      assert b[|b| - |a|..] == token[|token| - |a|..];
    } else {
      assert a[|a| - |b|..] == token[|token| - |b|..];
    }
  }

  /** No solver name is a suffix of another, so a token ends with at most one of them. */
  lemma KindSuffixUnique(token: string, k1: SolverKind, k2: SolverKind)
    requires EndsWith(token, KindName(k1)) && EndsWith(token, KindName(k2))
    ensures k1 == k2
  {
    SuffixOfSuffix(token, KindName(k1), KindName(k2));
  }

  /** The time marker pattern: the stripped line is `Time = ` followed by at least one character and no line break. */
  function TimeValue(line: string): Option<string> {
    var t := Strip(line);
    if |t| > |TimePrefix| && StartsWith(t, TimePrefix) && NoNewline(t[|TimePrefix|..])
    then Some(t[|TimePrefix|..])
    else None
  }

  /** `Initial residual = ` at `j`, followed by at least one character of `[0-9.e+-]`. */
  predicate ResidualAt(s: string, j: nat) {
    LiteralAt(s, j, InitialResidual) && j + |InitialResidual| < |s| && IsNumChar(s[j + |InitialResidual|])
  }

  /** The last `j` in `[lo, hi)` where `ResidualAt(s, j)` holds: where the greedy `.*` stops. */
  function LastResidual(s: string, lo: nat, hi: nat): (r: Option<nat>)
    requires lo <= hi <= |s|
    ensures r.Some? ==> lo <= r.value < hi && ResidualAt(s, r.value)
    ensures r.Some? ==> forall k :: r.value < k < hi ==> !ResidualAt(s, k)
    ensures r.None? ==> forall k :: lo <= k < hi ==> !ResidualAt(s, k)
    decreases hi - lo
  {
    if hi == lo then None
    else if ResidualAt(s, hi - 1) then Some(hi - 1)
    else LastResidual(s, lo, hi - 1)
  }

  /** The positions the solver report pattern reaches, when it matches. */
  datatype ReportMatch = ReportMatch(
    start: nat,     // after the leading `\s*`
    colon: nat,     // the `:` after the word token
    varStart: nat,  // after `Solving for `
    comma: nat,     // the `,` after the variable
    at: nat,        // the last `Initial residual = `
    numStart: nat,  // after it, where the residual token starts
    numEnd: nat,    // the end of the residual token
    kind: SolverKind)

  /** The solver report pattern, matched at the start of `s`: `\s*(\w*)(PCG|...|diagonal):` first. */
  function MatchReport(s: string): (r: Option<ReportMatch>)
    ensures r.Some? ==> r.value.start <= r.value.colon < r.value.varStart < r.value.comma < r.value.at
                        && r.value.numStart == r.value.at + |InitialResidual| && r.value.numStart < r.value.numEnd <= |s|
  {
    var p := SpaceEnd(s, 0);
    var q := WordEnd(s, p);
    if q < |s| && s[q] == ':' then
      match KindSuffix(s[p..q])
      case None => None
      case Some(kind) =>
        match MatchVariable(s, q)
        case None => None
        case Some((u, w)) =>
          match MatchResidual(s, w)
          case None => None
          case Some((j, v, x)) => Some(ReportMatch(p, q, u, w, j, v, x, kind))
    else None
  }

  /** `\s+Solving for (\w+),` after the colon at `q`: where the variable starts and where the comma is. */
  function MatchVariable(s: string, q: nat): (r: Option<(nat, nat)>)
    requires q < |s|
    ensures r.Some? ==> q < r.value.0 < r.value.1 < |s|
  {
    var g := SpaceEnd(s, q + 1);
    if g > q + 1 && LiteralAt(s, g, SolvingFor) then
      var u := g + |SolvingFor|;
      var w := WordEnd(s, u);
      if w > u && w < |s| && s[w] == ',' then Some((u, w)) else None
    else None
  }

  /**
    `.*Initial residual = ([0-9.e+-]+)` after the comma at `w`: where the last literal on the line
    is, and where the residual token after it starts and ends.
   */
  function MatchResidual(s: string, w: nat): (r: Option<(nat, nat, nat)>)
    requires w < |s|
    ensures r.Some? ==> w < r.value.0 && r.value.1 == r.value.0 + |InitialResidual| && r.value.1 < r.value.2 <= |s|
  {
    match LastResidual(s, w + 1, LineEnd(s, w + 1))
    case None => None
    case Some(j) =>
      var v := j + |InitialResidual|;
      Some((j, v, NumEnd(s, v)))
  }

  /** The classification of one line: a time marker first, then a solver report, else anything else. */
  function Classify(line: string): LineKind {
    match TimeValue(line)
    case Some(t) => TimeMarker(t)
    case None =>
      match MatchReport(line)
      case Some(m) => Report(m.kind, line[m.varStart..m.comma], line[m.numStart..m.numEnd])
      case None => Other
  }

  /** The pieces of a time marker line: white space, `Time = `, the value, white space. */
  predicate TimeParts(lead: string, value: string, trail: string) {
    && AllSpace(lead) && AllSpace(trail)
    && value != [] && NoNewline(value) && !IsSpace(value[|value| - 1])
  }

  /** Every line made of the pieces of a time marker is classified as that marker. */
  lemma TimeLineClassified(lead: string, value: string, trail: string)
    requires TimeParts(lead, value, trail)
    ensures Classify(lead + (TimePrefix + value) + trail) == TimeMarker(value)
  {
    var x := TimePrefix + value;
    assert x[|x| - 1] == value[|value| - 1];
    StripAround(lead, x, trail);
    assert x[|TimePrefix|..] == value;
  }

  lemma TimeValueSplit(line: string) returns (lead: string, trail: string)
    requires TimeValue(line).Some?
    ensures AllSpace(lead) && AllSpace(trail)
    ensures line == lead + (TimePrefix + TimeValue(line).value) + trail
  {
    var t := Strip(line);
    lead, trail := StripSplit(line);
    var value := t[|TimePrefix|..];
    var p := t[..|TimePrefix|];
    assert p == TimePrefix;
    assert t == p + value;
  }

  lemma TimeValueShape(line: string) returns (lead: string, trail: string)
    requires TimeValue(line).Some?
    ensures TimeParts(lead, TimeValue(line).value, trail)
    ensures line == lead + (TimePrefix + TimeValue(line).value) + trail
  {
    lead, trail := TimeValueSplit(line);
    TimeValueEnds(line);
  }

  /** The value of a time marker ends where the stripped line does, on a character that is not white space. */
  lemma TimeValueEnds(line: string)
    requires TimeValue(line).Some?
    ensures !IsSpace(TimeValue(line).value[|TimeValue(line).value| - 1])
  {
    var t := Strip(line);
    LastOfSuffix(t, |TimePrefix|);
  }

  lemma LastOfSuffix(t: string, n: nat)
    requires n < |t|
    ensures t[n..][|t| - n - 1] == t[|t| - 1]
  {
  }

  /** Every line classified as a time marker is made of the pieces of one. */
  lemma TimeMarkerShape(line: string)
    requires Classify(line).TimeMarker?
    ensures exists lead, trail :: TimeParts(lead, Classify(line).time, trail)
                                  && line == lead + (TimePrefix + Classify(line).time) + trail
  {
    var lead, trail := TimeValueShape(line);
  }

  /**
    Where the pieces of a solver report sit in `s`: white space up to `a`, a word token ending
    in the solver name up to the colon at `c`, white space up to `Solving for ` at `g`, the
    variable from `u` up to the comma at `w`, any text without a line break up to
    `Initial residual = ` at `j`, and the residual token from `v` up to `x`; after it nothing
    that extends the token and no later `Initial residual = ` on the same line.
   */
  predicate ReportAt(s: string, a: nat, c: nat, g: nat, u: nat, w: nat, j: nat, v: nat, x: nat, kind: SolverKind) {
    ReportHeadAt(s, a, c, g, u, kind) && ReportTailAt(s, u, w, j, v, x)
  }

  /** The part of the layout up to and including `Solving for `, which ends at `u`. */
  predicate ReportHeadAt(s: string, a: nat, c: nat, g: nat, u: nat, kind: SolverKind) {
    && a + |KindName(kind)| <= c && c + 1 < g && u == g + |SolvingFor| && u <= |s|
    && (forall m :: 0 <= m < a ==> IsSpace(s[m]))
    && (forall m :: a <= m < c ==> IsWordChar(s[m]))
    && EndsWith(s[a..c], KindName(kind)) && s[c] == ':'
    && (forall m :: c + 1 <= m < g ==> IsSpace(s[m]))
    && LiteralAt(s, g, SolvingFor)
  }

  /** The part of the layout from the variable at `u` to the end of the residual token at `x`. */
  predicate ReportTailAt(s: string, u: nat, w: nat, j: nat, v: nat, x: nat) {
    && u < w
    && ResidualTailAt(s, w, j, v, x)
    && (forall m :: u <= m < w ==> IsWordChar(s[m]))
    && s[w] == ','
  }

  /**
    The part of the layout after the comma at `w`: any text without a line break up to the
    last `Initial residual = ` of the line at `j`, and the residual token from `v` up to `x`.
   */
  predicate ResidualTailAt(s: string, w: nat, j: nat, v: nat, x: nat) {
    && w < j && v == j + |InitialResidual| && v < x <= |s|
    && (forall m :: w < m < j ==> s[m] != '\n')
    && LiteralAt(s, j, InitialResidual)
    && (forall m :: v <= m < x ==> IsNumChar(s[m]))
    && (x < |s| ==> !IsNumChar(s[x]))
    && (forall k :: x <= k < LineEnd(s, x) ==> !ResidualAt(s, k))
  }

  lemma LastResidualIs(s: string, lo: nat, hi: nat, j: nat)
    requires lo <= j < hi <= |s| && ResidualAt(s, j)
    requires forall k :: j < k < hi ==> !ResidualAt(s, k)
    ensures LastResidual(s, lo, hi) == Some(j)
    decreases hi - j
  {
    if hi - 1 > j {
      LastResidualIs(s, lo, hi - 1, j);
    }
  }

  lemma NumEndIs(s: string, i: nat, k: nat)
    requires i <= k <= |s|
    requires forall m :: i <= m < k ==> IsNumChar(s[m])
    requires k < |s| ==> !IsNumChar(s[k])
    ensures NumEnd(s, i) == k
    decreases k - i
  {
    if i < k {
      NumEndIs(s, i + 1, k);
    }
  }

  /** No `Initial residual = ` starts inside the residual literal or the residual token that follows it. */
  lemma NoResidualInside(s: string, j: nat, v: nat, x: nat, k: nat)
    requires LiteralAt(s, j, InitialResidual) && v == j + |InitialResidual| && v <= x <= |s|
    requires forall m :: v <= m < x ==> IsNumChar(s[m])
    requires j < k < x
    ensures !ResidualAt(s, k)
  {
    if k < v {
      assert s[k] == InitialResidual[k - j];
    }
    assert ResidualAt(s, k) ==> s[k] == 'I' by {
      if ResidualAt(s, k) {
        assert s[k..k + |InitialResidual|][0] == s[k];
      }
    }
  }

  lemma KindSuffixIs(token: string, kind: SolverKind)
    requires EndsWith(token, KindName(kind))
    ensures KindSuffix(token) == Some(kind)
  {
    var r := KindSuffix(token);
    if r.Some? {
      KindSuffixUnique(token, r.value, kind);
    }
  }

  /** The solver report pattern reaches exactly the positions of a report laid out in `s`. */
  lemma MatchReportAt(s: string, a: nat, c: nat, g: nat, u: nat, w: nat, j: nat, v: nat, x: nat, kind: SolverKind)
    requires ReportAt(s, a, c, g, u, w, j, v, x, kind)
    ensures MatchReport(s) == Some(ReportMatch(a, c, u, w, j, v, x, kind))
  {
    SpaceEndIs(s, 0, a);
    WordEndIs(s, a, c);
    KindSuffixIs(s[a..c], kind);
    MatchVariableAt(s, c, g, u, w);
    MatchResidualAt(s, w, j, v, x);
    MatchReportFrom(s, a, c, u, w, j, v, x, kind);
  }

  lemma MatchReportFrom(s: string, a: nat, c: nat, u: nat, w: nat, j: nat, v: nat, x: nat, kind: SolverKind)
    requires SpaceEnd(s, 0) == a && a <= |s| && WordEnd(s, a) == c && c < |s| && s[c] == ':'
    requires KindSuffix(s[a..c]) == Some(kind)
    requires MatchVariable(s, c) == Some((u, w)) && MatchResidual(s, w) == Some((j, v, x))
    ensures MatchReport(s) == Some(ReportMatch(a, c, u, w, j, v, x, kind))
  {
  }

  lemma MatchVariableAt(s: string, c: nat, g: nat, u: nat, w: nat)
    requires c + 1 < g && u == g + |SolvingFor| && u < w < |s|
    requires forall m :: c + 1 <= m < g ==> IsSpace(s[m])
    requires LiteralAt(s, g, SolvingFor)
    requires forall m :: u <= m < w ==> IsWordChar(s[m])
    requires s[w] == ','
    ensures MatchVariable(s, c) == Some((u, w))
  {
    SpaceEndIs(s, c + 1, g);
    WordEndIs(s, u, w);
  }

  lemma MatchResidualAt(s: string, w: nat, j: nat, v: nat, x: nat)
    requires ResidualTailAt(s, w, j, v, x)
    ensures MatchResidual(s, w) == Some((j, v, x))
  {
    LineEndAfter(s, w + 1, j, v, x);
    NoLaterResidual(s, w, j, v, x);
    LastResidualIs(s, w + 1, LineEnd(s, x), j);
    NumEndIs(s, v, x);
    MatchResidualFrom(s, w, j);
  }

  lemma MatchResidualFrom(s: string, w: nat, j: nat)
    requires w < |s| && LastResidual(s, w + 1, LineEnd(s, w + 1)) == Some(j)
    ensures MatchResidual(s, w) == Some((j, j + |InitialResidual|, NumEnd(s, j + |InitialResidual|)))
  {
  }

  /** No `Initial residual = ` starts after `j` on its line, inside the token or past it. */
  lemma NoLaterResidual(s: string, w: nat, j: nat, v: nat, x: nat)
    requires ResidualTailAt(s, w, j, v, x)
    ensures forall k :: j < k < LineEnd(s, x) ==> !ResidualAt(s, k)
  {
    forall k | j < k < x
      ensures !ResidualAt(s, k)
    {
      NoResidualInside(s, j, v, x, k);
    }
  }

  lemma LineEndAfter(s: string, i: nat, j: nat, v: nat, x: nat)
    requires i <= j && v == j + |InitialResidual| && v <= x <= |s|
    requires forall m :: i <= m < j ==> s[m] != '\n'
    requires LiteralAt(s, j, InitialResidual)
    requires forall m :: v <= m < x ==> IsNumChar(s[m])
    ensures LineEnd(s, i) == LineEnd(s, x)
  {
    var e := LineEnd(s, x);
    forall m | i <= m < e
      ensures s[m] != '\n'
    {
      if j <= m < v {
        assert s[m] == InitialResidual[m - j];
      }
    }
    LineEndIs(s, i, e);
  }

  /** A line whose stripped text starts with a word token and a colon is no time marker. */
  lemma NotTimeMarker(s: string, a: nat, c: nat, g: nat)
    requires a < c < g < |s|
    requires forall m :: 0 <= m < a ==> IsSpace(s[m])
    requires forall m :: a <= m < c ==> IsWordChar(s[m])
    requires s[c] == ':' && !IsSpace(s[g])
    ensures TimeValue(s).None?
  {
    assert AllSpace(s[..a]);
    StripFrom(s, a, g);
    forall k | g < k <= |s| && Strip(s) == s[a..k]
      ensures !StartsWith(Strip(s), TimePrefix)
    {
      WordColonNotTime(s, a, c, k);
    }
  }

  /** A word token followed by a colon does not begin with `Time = `. */
  lemma WordColonNotTime(s: string, a: nat, c: nat, k: nat)
    requires a < c < k <= |s|
    requires forall m :: a <= m < c ==> IsWordChar(s[m])
    requires s[c] == ':'
    ensures !StartsWith(s[a..k], TimePrefix)
  {
    var t := s[a..k];
    var m := if c - a < 5 then c - a else 4;
    assert t[m] == s[a + m];
    Mismatch(t, TimePrefix, m);
  }

  lemma Mismatch(t: string, lit: string, m: nat)
    requires m < |lit| && m < |t| && t[m] != lit[m]
    ensures !StartsWith(t, lit)
  {
    if |lit| <= |t| {
      assert t[..|lit|][m] == t[m];
    }
  }

  lemma KindNameLength(k: SolverKind)
    ensures 3 <= |KindName(k)|
  {
  }

  lemma LiteralHead(s: string, i: nat, lit: string)
    requires LiteralAt(s, i, lit) && lit != []
    ensures i < |s| && s[i] == lit[0]
  {
    assert s[i..i + |lit|][0] == s[i];
  }

  lemma ReportAtNotTime(s: string, a: nat, c: nat, g: nat, u: nat, w: nat, j: nat, v: nat, x: nat, kind: SolverKind)
    requires ReportAt(s, a, c, g, u, w, j, v, x, kind)
    ensures TimeValue(s).None?
  {
    KindNameLength(kind);
    LiteralHead(s, g, SolvingFor);
    NotTimeMarker(s, a, c, g);
  }

  lemma ClassifiedReport(s: string, m: ReportMatch)
    requires TimeValue(s).None? && MatchReport(s) == Some(m)
    ensures Classify(s) == Report(m.kind, s[m.varStart..m.comma], s[m.numStart..m.numEnd])
  {
    var r := MatchReport(s);
    assert r.value == m;
  }

  /** A line laid out as a solver report is classified as that report. */
  lemma ReportAtClassified(s: string, a: nat, c: nat, g: nat, u: nat, w: nat, j: nat, v: nat, x: nat, kind: SolverKind)
    requires ReportAt(s, a, c, g, u, w, j, v, x, kind)
    ensures Classify(s) == Report(kind, s[u..w], s[v..x])
  {
    ReportAtNotTime(s, a, c, g, u, w, j, v, x, kind);
    MatchReportAt(s, a, c, g, u, w, j, v, x, kind);
    ClassifiedReport(s, ReportMatch(a, c, u, w, j, v, x, kind));
  }

  /** What a match of the tail after the comma guarantees about `s`. */
  lemma MatchResidualShape(s: string, u: nat, w: nat)
    requires u < w < |s| && MatchResidual(s, w).Some?
    requires forall i :: u <= i < w ==> IsWordChar(s[i])
    requires s[w] == ','
    ensures var (j, v, x) := MatchResidual(s, w).value; ReportTailAt(s, u, w, j, v, x)
  {
    var (j, v, x) := MatchResidual(s, w).value;
    var e := LineEnd(s, w + 1);
    assert LastResidual(s, w + 1, e) == Some(j);
    LineEndAfter(s, w + 1, j, v, x);
  }

  /** What a match of `\s+Solving for (\w+),` guarantees about `s`. */
  lemma MatchVariableShape(s: string, q: nat) returns (g: nat)
    requires q < |s| && MatchVariable(s, q).Some?
    ensures var (u, w) := MatchVariable(s, q).value;
      && q + 1 < g && u == g + |SolvingFor|
      && (forall i :: q + 1 <= i < g ==> IsSpace(s[i]))
      && LiteralAt(s, g, SolvingFor)
      && (forall i :: u <= i < w ==> IsWordChar(s[i]))
      && s[w] == ','
  {
    g := SpaceEnd(s, q + 1);
  }

  lemma MatchReportSteps(s: string)
    requires MatchReport(s).Some?
    ensures var m := MatchReport(s).value;
      && SpaceEnd(s, 0) == m.start && WordEnd(s, m.start) == m.colon && m.colon < |s| && s[m.colon] == ':'
      && KindSuffix(s[m.start..m.colon]) == Some(m.kind)
      && MatchVariable(s, m.colon) == Some((m.varStart, m.comma))
      && MatchResidual(s, m.comma) == Some((m.at, m.numStart, m.numEnd))
  {
  }

  /** Every match of the solver report pattern is laid out as a report. */
  lemma MatchReportShape(s: string) returns (g: nat)
    requires MatchReport(s).Some?
    ensures var m := MatchReport(s).value;
      ReportAt(s, m.start, m.colon, g, m.varStart, m.comma, m.at, m.numStart, m.numEnd, m.kind)
  {
    var m := MatchReport(s).value;
    MatchReportSteps(s);
    g := MatchVariableShape(s, m.colon);
    MatchResidualShape(s, m.varStart, m.comma);
  }

  lemma ClassifiedAsReport(s: string)
    requires Classify(s).Report?
    ensures TimeValue(s).None? && MatchReport(s).Some?
    ensures var m := MatchReport(s).value;
      Classify(s) == Report(m.kind, s[m.varStart..m.comma], s[m.numStart..m.numEnd])
  {
  }

  /** Every line classified as a report is laid out as that report. */
  lemma ReportShape(s: string) returns (a: nat, c: nat, g: nat, u: nat, w: nat, j: nat, v: nat, x: nat)
    requires Classify(s).Report?
    ensures ReportAt(s, a, c, g, u, w, j, v, x, Classify(s).kind)
    ensures Classify(s).variable == s[u..w] && Classify(s).residual == s[v..x]
  {
    ClassifiedAsReport(s);
    var m := MatchReport(s).value;
    g := MatchReportShape(s);
    a, c, u, w, j, v, x := m.start, m.colon, m.varStart, m.comma, m.at, m.numStart, m.numEnd;
  }

  /** The variable of a report is what `(\w+)` matched: a non-empty run of word characters. */
  lemma ReportVariableIsWord(s: string)
    requires Classify(s).Report?
    ensures Classify(s).variable != [] && AllWord(Classify(s).variable)
  {
    var a, c, g, u, w, j, v, x := ReportShape(s);
    assert ReportTailAt(s, u, w, j, v, x);
    forall m | 0 <= m < w - u
      ensures IsWordChar(s[u..w][m])
    {
      assert s[u..w][m] == s[u + m];
    }
  }

  /** Some positions lay out `s` as a report of `kind` for `variable` with residual token `residual`. */
  ghost predicate LaidOutAsReport(s: string, kind: SolverKind, variable: string, residual: string) {
    exists a: nat, c: nat, g: nat, u: nat, w: nat, j: nat, v: nat, x: nat ::
      ReportAt(s, a, c, g, u, w, j, v, x, kind) && variable == s[u..w] && residual == s[v..x]
  }

  lemma ReportClassifiedOnlyIfLaidOut(s: string, kind: SolverKind, variable: string, residual: string)
    requires Classify(s) == Report(kind, variable, residual)
    ensures LaidOutAsReport(s, kind, variable, residual)
  {
    var a, c, g, u, w, j, v, x := ReportShape(s);
  }

  lemma LaidOutClassifiedAsReport(s: string, kind: SolverKind, variable: string, residual: string)
    requires LaidOutAsReport(s, kind, variable, residual)
    ensures Classify(s) == Report(kind, variable, residual)
  {
    forall a: nat, c: nat, g: nat, u: nat, w: nat, j: nat, v: nat, x: nat |
      ReportAt(s, a, c, g, u, w, j, v, x, kind) && variable == s[u..w] && residual == s[v..x]
      ensures Classify(s) == Report(kind, variable, residual)
    {
      ReportAtClassified(s, a, c, g, u, w, j, v, x, kind);
    }
  }

  /**
    A line is classified as a report of `kind` for `variable` with residual token `residual`
    exactly when it is laid out as such a report.
   */
  lemma ReportClassification(s: string, kind: SolverKind, variable: string, residual: string)
    ensures Classify(s) == Report(kind, variable, residual) <==> LaidOutAsReport(s, kind, variable, residual)
  {
    if Classify(s) == Report(kind, variable, residual) {
      ReportClassifiedOnlyIfLaidOut(s, kind, variable, residual);
    }
    if LaidOutAsReport(s, kind, variable, residual) {
      LaidOutClassifiedAsReport(s, kind, variable, residual);
    }
  }
}
