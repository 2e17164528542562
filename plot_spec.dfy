/**
  What `write_gnuplot_script` produces from the parsed time steps and residuals: the data
  file `residuals.dat` (a header naming the plotted variables, then one row per time step)
  and the gnuplot script (a fixed preamble, then one plot clause per variable).

  Numbers are written with `:.6e`; that rendering is the parameter `fmt`, applied to the
  matched token. The paths are parameters too: `dataPath` is the data file as the script
  names it and `outputFile` the PNG file of the batch mode.
 */
module PlotSpec {
  import opened Text
  import Wrappers
  import LineClassifier
  import LogParser

  // ---------------------------------------------------------------------------
  // Columns

  /** Radiation residuals, which are not plotted. */
  const RadiationPrefix: string := "ILambda_"

  predicate Plotted(name: string) {
    !StartsWith(name, RadiationPrefix)
  }

  /** The residual lists of the plotted variables. */
  function Filtered(residuals: map<string, seq<string>>): (f: map<string, seq<string>>)
    ensures forall v :: v in f <==> v in residuals && Plotted(v)
    ensures forall v :: v in f ==> f[v] == residuals[v]
  {
    map v | v in residuals && Plotted(v) :: residuals[v]
  }

  /** The plotted variables, sorted: the columns after the time. */
  function Columns(residuals: map<string, seq<string>>): (cols: seq<string>)
    ensures StrictlySorted(cols)
    ensures forall v :: v in cols <==> v in residuals && Plotted(v)
    ensures |cols| == |Filtered(residuals).Keys|
    ensures forall j :: 0 <= j < |cols| ==> cols[j] in residuals && Plotted(cols[j])
  {
    Sorted(Filtered(residuals).Keys)
  }

  // ---------------------------------------------------------------------------
  // The table

  /** One cell of the data file: the value at that index of the variable's list, or `NaN`. */
  datatype Cell = Value(token: string) | NaN

  /**
    Row `i` of the table. A variable's cell holds the `i`-th value of its list, whichever time
    step that value came from, and `NaN` once the list is exhausted.
   */
  function Row(residuals: map<string, seq<string>>, cols: seq<string>, i: nat): (cells: seq<Cell>)
    requires forall j :: 0 <= j < |cols| ==> cols[j] in residuals
    ensures |cells| == |cols|
    ensures forall j :: 0 <= j < |cols| ==>
              cells[j] == if i < |residuals[cols[j]]| then Value(residuals[cols[j]][i]) else NaN
  {
    seq(|cols|, j requires 0 <= j < |cols| =>
      if i < |residuals[cols[j]]| then Value(residuals[cols[j]][i]) else NaN)
  }

  /** One row per time step, one cell per column of `cols`. */
  function Grid(timeSteps: seq<string>, residuals: map<string, seq<string>>, cols: seq<string>): (rows: seq<seq<Cell>>)
    requires forall j :: 0 <= j < |cols| ==> cols[j] in residuals
    ensures |rows| == |timeSteps|
    ensures forall i :: 0 <= i < |rows| ==> rows[i] == Row(residuals, cols, i)
  {
    seq(|timeSteps|, i requires 0 <= i < |timeSteps| => Row(residuals, cols, i))
  }

  /** The cells of the data file: one row per time step, one cell per plotted variable. */
  function Table(timeSteps: seq<string>, residuals: map<string, seq<string>>): seq<seq<Cell>> {
    Grid(timeSteps, residuals, Columns(residuals))
  }

  /**
    The table has one row per time step and one cell per column; the cell of column `j` in
    row `i` holds the `i`-th value of that variable's list, or `NaN` past its end.
   */
  lemma TableCells(timeSteps: seq<string>, residuals: map<string, seq<string>>)
    ensures var rows, cols := Table(timeSteps, residuals), Columns(residuals);
            && |rows| == |timeSteps|
            && (forall i :: 0 <= i < |rows| ==> |rows[i]| == |cols|)
            && forall i, j :: 0 <= i < |rows| && 0 <= j < |cols| ==>
                 rows[i][j] == if i < |residuals[cols[j]]| then Value(residuals[cols[j]][i]) else NaN
  {
  }

  // ---------------------------------------------------------------------------
  // The data file as text

  function HeaderLine(cols: seq<string>): string {
    "# Time " + Join(cols, " ")
  }

  function CellText(fmt: string -> string, c: Cell): string {
    match c
    case Value(t) => fmt(t)
    case NaN => "NaN"
  }

  /** Each cell written after a space. */
  function CellsText(fmt: string -> string, cells: seq<Cell>): string
    decreases |cells|
  {
    if cells == [] then "" else " " + CellText(fmt, cells[0]) + CellsText(fmt, cells[1..])
  }

  function RowLine(fmt: string -> string, time: string, cells: seq<Cell>): string {
    fmt(time) + CellsText(fmt, cells)
  }

  /** The rows, each ended by a line break. */
  function RowsText(fmt: string -> string, timeSteps: seq<string>, rows: seq<seq<Cell>>): string
    requires |rows| == |timeSteps|
    decreases |rows|
  {
    if rows == [] then ""
    else RowLine(fmt, timeSteps[0], rows[0]) + "\n" + RowsText(fmt, timeSteps[1..], rows[1..])
  }

  /** The contents of `residuals.dat`. */
  function DataFile(fmt: string -> string, timeSteps: seq<string>, residuals: map<string, seq<string>>): string {
    HeaderLine(Columns(residuals)) + "\n" + RowsText(fmt, timeSteps, Table(timeSteps, residuals))
  }

  /** The written rows, one line each, without the line breaks. */
  function RowLines(fmt: string -> string, timeSteps: seq<string>, rows: seq<seq<Cell>>): (ls: seq<string>)
    requires |rows| == |timeSteps|
    ensures |ls| == |rows| && forall i :: 0 <= i < |rows| ==> ls[i] == RowLine(fmt, timeSteps[i], rows[i])
  {
    seq(|rows|, i requires 0 <= i < |rows| => RowLine(fmt, timeSteps[i], rows[i]))
  }

  /** The lines of the data file; the last break leaves an empty piece after it. */
  function DataLines(fmt: string -> string, timeSteps: seq<string>, residuals: map<string, seq<string>>): (ls: seq<string>)
    ensures |ls| == |timeSteps| + 2
  {
    [HeaderLine(Columns(residuals))] + (RowLines(fmt, timeSteps, Table(timeSteps, residuals)) + [""])
  }

  /** The written cells, one string each. */
  function CellTexts(fmt: string -> string, cells: seq<Cell>): (ts: seq<string>)
    ensures |ts| == |cells| && forall j :: 0 <= j < |cells| ==> ts[j] == CellText(fmt, cells[j])
  {
    seq(|cells|, j requires 0 <= j < |cells| => CellText(fmt, cells[j]))
  }

  lemma CellTextsCons(fmt: string -> string, cells: seq<Cell>)
    requires cells != []
    ensures CellTexts(fmt, cells) == [CellText(fmt, cells[0])] + CellTexts(fmt, cells[1..])
  {
    assert forall j :: 1 <= j < |cells| ==> cells[j] == cells[1..][j - 1];
  }

  lemma JoinCons(first: string, parts: seq<string>, sep: string)
    requires parts != []
    ensures Join([first] + parts, sep) == first + sep + Join(parts, sep)
  {
    assert ([first] + parts)[1..] == parts;
  }

  lemma {:induction false} CellsTextJoin(fmt: string -> string, first: string, cells: seq<Cell>)
    ensures first + CellsText(fmt, cells) == Join([first] + CellTexts(fmt, cells), " ")
    decreases |cells|
  {
    if cells == [] {
      assert [first] + CellTexts(fmt, cells) == [first];
      assert first + CellsText(fmt, cells) == first;
    } else {
      var c := CellText(fmt, cells[0]);
      CellsTextJoin(fmt, c, cells[1..]);
      CellTextsCons(fmt, cells);
      JoinCons(first, [c] + CellTexts(fmt, cells[1..]), " ");
      CellsAssoc(first, c, CellsText(fmt, cells[1..]));
    }
  }

  lemma CellsAssoc(first: string, c: string, rest: string)
    ensures first + (" " + c + rest) == first + " " + (c + rest)
  {
  }

  /** A row line is the written time and the written cells, separated by single spaces. */
  lemma RowFields(fmt: string -> string, time: string, cells: seq<Cell>)
    requires ' ' !in fmt(time)
    requires forall j :: 0 <= j < |cells| && cells[j].Value? ==> ' ' !in fmt(cells[j].token)
    ensures Split(RowLine(fmt, time, cells), ' ')
            == [fmt(time)] + CellTexts(fmt, cells)
  {
    var parts := [fmt(time)] + CellTexts(fmt, cells);
    CellsTextJoin(fmt, fmt(time), cells);
    forall i | 0 <= i < |parts|
      ensures ' ' !in parts[i]
    {
      if i > 0 {
        assert parts[i] == CellText(fmt, cells[i - 1]);
      }
    }
    SplitJoin(parts, ' ');
  }

  /** The header names `#`, `Time` and the columns, separated by single spaces. */
  lemma HeaderFields(cols: seq<string>)
    requires cols != []
    requires forall j :: 0 <= j < |cols| ==> ' ' !in cols[j]
    ensures Split(HeaderLine(cols), ' ') == ["#", "Time"] + cols
  {
    var parts := ["#", "Time"] + cols;
    assert parts[1..][1..] == cols;
    assert Join(parts, " ") == HeaderLine(cols);
    SplitJoin(parts, ' ');
  }

  lemma {:induction false} RowsTextJoin(fmt: string -> string, timeSteps: seq<string>, rows: seq<seq<Cell>>)
    requires |rows| == |timeSteps|
    ensures RowsText(fmt, timeSteps, rows) == Join(RowLines(fmt, timeSteps, rows) + [""], "\n")
    decreases |rows|
  {
    if rows != [] {
      RowsTextJoin(fmt, timeSteps[1..], rows[1..]);
      RowLinesCons(fmt, timeSteps, rows);
      var rest := RowLines(fmt, timeSteps[1..], rows[1..]);
      JoinCons(RowLine(fmt, timeSteps[0], rows[0]), rest + [""], "\n");
      assert RowLines(fmt, timeSteps, rows) + [""] == [RowLine(fmt, timeSteps[0], rows[0])] + (rest + [""]);
    }
  }

  lemma RowLinesCons(fmt: string -> string, timeSteps: seq<string>, rows: seq<seq<Cell>>)
    requires |rows| == |timeSteps| && rows != []
    ensures RowLines(fmt, timeSteps, rows)
            == [RowLine(fmt, timeSteps[0], rows[0])] + RowLines(fmt, timeSteps[1..], rows[1..])
  {
    var ls := RowLines(fmt, timeSteps, rows);
    var rest := RowLines(fmt, timeSteps[1..], rows[1..]);
    forall i | 1 <= i < |rows|
      ensures ls[i] == rest[i - 1]
    {
      assert rows[1..][i - 1] == rows[i];
      assert timeSteps[1..][i - 1] == timeSteps[i];
    }
  }

  /**
    The data file is the header line and one line per time step, each ended by a line break,
    when neither the names nor the written numbers hold a line break.
   */
  lemma DataFileLines(fmt: string -> string, timeSteps: seq<string>, residuals: map<string, seq<string>>)
    requires forall v :: v in residuals ==> '\n' !in v
    requires forall t :: '\n' !in fmt(t)
    ensures Split(DataFile(fmt, timeSteps, residuals), '\n') == DataLines(fmt, timeSteps, residuals)
  {
    var cols := Columns(residuals);
    var rows := Table(timeSteps, residuals);
    var lines := RowLines(fmt, timeSteps, rows);
    RowsTextJoin(fmt, timeSteps, rows);
    JoinCons(HeaderLine(cols), lines + [""], "\n");
    LinesHaveNoBreak(fmt, timeSteps, residuals);
    SplitJoin(DataLines(fmt, timeSteps, residuals), '\n');
  }

  lemma LinesHaveNoBreak(fmt: string -> string, timeSteps: seq<string>, residuals: map<string, seq<string>>)
    requires forall v :: v in residuals ==> '\n' !in v
    requires forall t :: '\n' !in fmt(t)
    ensures var parts := DataLines(fmt, timeSteps, residuals);
            forall i :: 0 <= i < |parts| ==> '\n' !in parts[i]
  {
    var cols := Columns(residuals);
    var rows := Table(timeSteps, residuals);
    var lines := RowLines(fmt, timeSteps, rows);
    var parts := DataLines(fmt, timeSteps, residuals);
    HeaderHasNoBreak(cols);
    RowsHaveNoBreak(fmt, timeSteps, rows);
    forall i | 0 <= i < |parts|
      ensures '\n' !in parts[i]
    {
      if 0 < i <= |lines| {
        assert parts[i] == lines[i - 1];
      } else if i > |lines| {
        assert parts[i] == "";
      }
    }
  }

  lemma RowsHaveNoBreak(fmt: string -> string, timeSteps: seq<string>, rows: seq<seq<Cell>>)
    requires |rows| == |timeSteps|
    requires forall t :: '\n' !in fmt(t)
    ensures var lines := RowLines(fmt, timeSteps, rows);
            forall i :: 0 <= i < |lines| ==> '\n' !in lines[i]
  {
    forall i | 0 <= i < |rows|
      ensures '\n' !in RowLine(fmt, timeSteps[i], rows[i])
    {
      RowHasNoBreak(fmt, timeSteps[i], rows[i]);
    }
  }

  lemma {:induction false} JoinHasNo(parts: seq<string>, sep: string, c: char)
    requires c !in sep && forall i :: 0 <= i < |parts| ==> c !in parts[i]
    ensures c !in Join(parts, sep)
    decreases |parts|
  {
    if |parts| > 1 {
      JoinHasNo(parts[1..], sep, c);
    }
  }

  lemma HeaderHasNoBreak(cols: seq<string>)
    requires forall j :: 0 <= j < |cols| ==> '\n' !in cols[j]
    ensures '\n' !in HeaderLine(cols)
  {
    JoinHasNo(cols, " ", '\n');
  }

  lemma {:induction false} CellsHaveNoBreak(fmt: string -> string, cells: seq<Cell>)
    requires forall t :: '\n' !in fmt(t)
    ensures '\n' !in CellsText(fmt, cells)
    decreases |cells|
  {
    if cells != [] {
      CellsHaveNoBreak(fmt, cells[1..]);
    }
  }

  lemma RowHasNoBreak(fmt: string -> string, time: string, cells: seq<Cell>)
    requires forall t :: '\n' !in fmt(t)
    ensures '\n' !in RowLine(fmt, time, cells)
  {
    CellsHaveNoBreak(fmt, cells);
  }

  // ---------------------------------------------------------------------------
  // The script

  function QtTerminal(): string {
    "set terminal qt size 1200,800 enhanced font 'Arial,12' title 'OpenFOAM Residuals'\n"
  }

  function PngTerminal(): string {
    "set terminal pngcairo size 1200,800 enhanced font 'Arial,12'\n"
  }

  /** The colours of the eight line styles. */
  const Palette: seq<string> := ["#e41a1c", "#377eb8", "#4daf4a", "#984ea3", "#ff7f00", "#ffff33", "#a65628", "#f781bf"]

  /** The definition of line style `k`. */
  function StyleDefinition(k: nat): string
    requires 1 <= k <= 8
  {
    "set style line " + NatText(k) + " lt 1 lw 2 lc rgb '" + Palette[k - 1] + "'\n"
  }

  /** The definitions of line styles `k` to 8. */
  function StyleDefinitions(k: nat): string
    requires 1 <= k <= 9
    decreases 9 - k
  {
    if k == 9 then "" else StyleDefinition(k) + StyleDefinitions(k + 1)
  }

  /** Title, axes, grid, legend and the eight line styles, up to the `plot` keyword. */
  function Settings(): string {
    "set title 'OpenFOAM Initial Residuals vs Time' font 'Arial,14'\n"
    + "set xlabel 'Time [s]'\n"
    + "set ylabel 'Initial Residual'\n"
    + "set logscale y\n"
    + "set grid\n"
    + "set key outside right top\n"
    + "\n"
    + StyleDefinitions(1)
    + "\n"
    + "plot "
  }

  /** The screen terminal in live mode; otherwise a PNG file. */
  function Terminal(liveMode: bool, outputFile: string): string {
    if liveMode then QtTerminal() else PngTerminal() + "set output '" + outputFile + "'\n"
  }

  /** Everything before the plot clauses. */
  function Preamble(liveMode: bool, outputFile: string): string {
    Terminal(liveMode, outputFile) + Settings()
  }

  /** The line style of the `k`-th variable (from 1): the eight styles in turn. */
  function Style(k: nat): (s: nat)
    requires k >= 1
    ensures 1 <= s <= 8
  {
    ((k - 1) % 8) + 1
  }

  /** The plot clause of the `k`-th variable (from 1), drawn from data column `k + 1`. */
  function Clause(dataPath: string, k: nat, name: string): string
    requires k >= 1
  {
    "'" + dataPath + "' using 1:" + NatText(k + 1) + " with lines ls " + NatText(Style(k))
    + " title '" + name + "'"
  }

  function Clauses(dataPath: string, cols: seq<string>): (cs: seq<string>)
    ensures |cs| == |cols|
  {
    seq(|cols|, j requires 0 <= j < |cols| => Clause(dataPath, j + 1, cols[j]))
  }

  const ClauseSeparator: string := ", \\\n    "

  /** The contents of `plot_residuals.gp`. */
  function Script(liveMode: bool, outputFile: string, dataPath: string, residuals: map<string, seq<string>>): string {
    Preamble(liveMode, outputFile) + Join(Clauses(dataPath, Columns(residuals)), ClauseSeparator) + "\n"
  }

  // ---------------------------------------------------------------------------
  // Properties of the script

  /** The styles repeat every eight variables, and the first eight get styles 1 to 8. */
  lemma StyleCycles(k: nat)
    requires k >= 1
    ensures Style(k + 8) == Style(k)
    ensures k <= 8 ==> Style(k) == k
  {
  }

  /** The batch terminal names the output file, so different files give different terminals. */
  lemma TerminalNamesOutput(o1: string, o2: string)
    requires Terminal(false, o1) == Terminal(false, o2)
    ensures o1 == o2
  {
    var lead := PngTerminal() + "set output '";
    BatchTerminal(o1);
    BatchTerminal(o2);
    Cancel(lead, o1 + "'\n", o2 + "'\n");
    CancelSuffix(o1, o2, "'\n");
  }

  lemma BatchTerminal(o: string)
    ensures Terminal(false, o) == PngTerminal() + "set output '" + (o + "'\n")
  {
    ConcatAssoc(PngTerminal() + "set output '", o, "'\n");
  }

  /** The definitions of line styles `j` to `s - 1`. */
  function StyleRange(j: nat, s: nat): string
    requires 1 <= j <= s <= 9
    decreases s - j
  {
    if j == s then "" else StyleDefinition(j) + StyleRange(j + 1, s)
  }

  /**
    The definitions from `j` on are those before `s`, the one of `s`, and those after it; with
    `j = 1`, the preamble defines every style `Style(k)` a clause can use.
   */
  lemma {:induction false} StyleSplit(j: nat, s: nat)
    requires 1 <= j <= s <= 8
    ensures StyleDefinitions(j) == StyleRange(j, s) + StyleDefinition(s) + StyleDefinitions(s + 1)
    decreases s - j
  {
    if j == s {
      EmptyConcat(StyleDefinition(s) + StyleDefinitions(s + 1));
    } else {
      StyleSplit(j + 1, s);
      ConcatAssoc(StyleDefinition(j), StyleRange(j + 1, s) + StyleDefinition(s), StyleDefinitions(s + 1));
      ConcatAssoc(StyleDefinition(j), StyleRange(j + 1, s), StyleDefinition(s));
    }
  }

  lemma EmptyConcat(a: string)
    ensures "" + a == a
  {
  }

  lemma ConcatAssoc(a: string, b: string, c: string)
    ensures a + (b + c) == a + b + c
  {
  }

  /** In live mode the output file plays no part in the preamble. */
  lemma LivePreambleIgnoresOutput(o1: string, o2: string)
    ensures Preamble(true, o1) == Preamble(true, o2)
  {
  }

  /** In batch mode the preamble names the output file: different files, different preambles. */
  lemma BatchPreambleNamesOutput(o1: string, o2: string)
    requires Preamble(false, o1) == Preamble(false, o2)
    ensures o1 == o2
  {
    CancelSuffix(Terminal(false, o1), Terminal(false, o2), Settings());
    TerminalNamesOutput(o1, o2);
  }

  /** The script depends on the plotted variables only through their names, never on time steps or values. */
  /** The two residual maps have the same plotted variables. */
  ghost predicate SamePlotted(r1: map<string, seq<string>>, r2: map<string, seq<string>>) {
    forall v :: Plotted(v) ==> (v in r1 <==> v in r2)
  }

  lemma ScriptDependsOnNames(liveMode: bool, outputFile: string, dataPath: string,
                             r1: map<string, seq<string>>, r2: map<string, seq<string>>)
    requires SamePlotted(r1, r2)
    ensures Script(liveMode, outputFile, dataPath, r1) == Script(liveMode, outputFile, dataPath, r2)
  {
    SameColumns(r1, r2);
    ScriptOfColumns(liveMode, outputFile, dataPath, r1, r2);
  }

  lemma ScriptOfColumns(liveMode: bool, outputFile: string, dataPath: string,
                        r1: map<string, seq<string>>, r2: map<string, seq<string>>)
    requires Columns(r1) == Columns(r2)
    ensures Script(liveMode, outputFile, dataPath, r1) == Script(liveMode, outputFile, dataPath, r2)
  {
  }

  lemma SameColumns(r1: map<string, seq<string>>, r2: map<string, seq<string>>)
    requires SamePlotted(r1, r2)
    ensures Columns(r1) == Columns(r2)
  {
    SamePlottedKeys(r1, r2);
  }

  lemma SamePlottedKeys(r1: map<string, seq<string>>, r2: map<string, seq<string>>)
    requires SamePlotted(r1, r2)
    ensures Filtered(r1).Keys == Filtered(r2).Keys
  {
  }

  /** The length of the run of digits that starts `s`. */
  function DigitRun(s: string): (n: nat)
    ensures n <= |s|
  {
    if s == [] || !IsDigit(s[0]) then 0 else 1 + DigitRun(s[1..])
  }

  lemma {:induction false} DigitRunOf(a: string, x: string)
    requires AllDigits(a) && x != [] && !IsDigit(x[0])
    ensures DigitRun(a + x) == |a|
    decreases |a|
  {
    if a == [] {
      assert a + x == x;
    } else {
      assert (a + x)[0] == a[0] && (a + x)[1..] == a[1..] + x;
      DigitRunOf(a[1..], x);
    }
  }

  /** Two digit strings followed by a non-digit in the same text are the same digits. */
  lemma DigitsPrefix(a: string, x: string, b: string, y: string)
    requires AllDigits(a) && AllDigits(b) && x != [] && y != [] && !IsDigit(x[0]) && !IsDigit(y[0])
    requires a + x == b + y
    ensures a == b && x == y
  {
    DigitRunOf(a, x);
    DigitRunOf(b, y);
    assert a == (a + x)[..|a|] && b == (b + y)[..|b|];
    assert x == (a + x)[|a|..] && y == (b + y)[|b|..];
  }

  lemma Cancel(p: string, x: string, y: string)
    requires p + x == p + y
    ensures x == y
  {
    assert x == (p + x)[|p|..] && y == (p + y)[|p|..];
  }

  lemma CancelSuffix(x: string, y: string, q: string)
    requires x + q == y + q
    ensures x == y
  {
    assert x == (x + q)[..|x|] && y == (y + q)[..|y|];
  }

  /** A clause split at the two numbers it holds. */
  lemma ClauseParts(dataPath: string, k: nat, name: string)
    requires k >= 1
    ensures Clause(dataPath, k, name)
            == ("'" + dataPath + "' using 1:")
               + (NatText(k + 1) + (" with lines ls " + (NatText(Style(k)) + (" title '" + (name + "'")))))
  {
  }

  /** Equal clauses for the same data file come from the same position and the same variable. */
  lemma ClauseInjective(dataPath: string, k1: nat, n1: string, k2: nat, n2: string)
    requires k1 >= 1 && k2 >= 1
    requires Clause(dataPath, k1, n1) == Clause(dataPath, k2, n2)
    ensures k1 == k2 && n1 == n2
  {
    ClauseParts(dataPath, k1, n1);
    ClauseParts(dataPath, k2, n2);
    var t1, t2 := " title '" + (n1 + "'"), " title '" + (n2 + "'");
    var r1, r2 := " with lines ls " + (NatText(Style(k1)) + t1), " with lines ls " + (NatText(Style(k2)) + t2);
    Cancel("'" + dataPath + "' using 1:", NatText(k1 + 1) + r1, NatText(k2 + 1) + r2);
    DigitsPrefix(NatText(k1 + 1), r1, NatText(k2 + 1), r2);
    NatTextRoundTrip(k1 + 1);
    NatTextRoundTrip(k2 + 1);
    Cancel(" with lines ls ", NatText(Style(k1)) + t1, NatText(Style(k2)) + t2);
    DigitsPrefix(NatText(Style(k1)), t1, NatText(Style(k2)), t2);
    Cancel(" title '", n1 + "'", n2 + "'");
    assert n1 == (n1 + "'")[..|n1|] && n2 == (n2 + "'")[..|n2|];
  }

  /**
    Each clause agrees with the data file: the `k`-th clause (from 1) is titled with the
    `k`-th column's name, which is field `k + 1` of the header (after `#` and `Time`), and it
    plots data column `k + 1`, which is field `k` of every row, the cells of that variable.
   */
  lemma ClauseMatchesColumn(fmt: string -> string, dataPath: string, timeSteps: seq<string>,
                            residuals: map<string, seq<string>>, k: nat, i: nat)
    requires 1 <= k <= |Columns(residuals)| && i < |timeSteps|
    requires forall j :: 0 <= j < |Columns(residuals)| ==> ' ' !in Columns(residuals)[j]
    requires forall t :: ' ' !in fmt(t)
    ensures var cols := Columns(residuals);
            var fields := Split(RowLine(fmt, timeSteps[i], Table(timeSteps, residuals)[i]), ' ');
            && Clauses(dataPath, cols)[k - 1] == Clause(dataPath, k, cols[k - 1])
            && |Split(HeaderLine(cols), ' ')| == |cols| + 2
            && Split(HeaderLine(cols), ' ')[k + 1] == cols[k - 1]
            && |fields| == |cols| + 1
            && fields[k] == CellText(fmt, Table(timeSteps, residuals)[i][k - 1])
  {
    var cols := Columns(residuals);
    var row := Table(timeSteps, residuals)[i];
    ClauseNamesColumn(dataPath, cols, k);
    RowFieldAt(fmt, timeSteps[i], row, k);
  }

  lemma ClauseNamesColumn(dataPath: string, cols: seq<string>, k: nat)
    requires 1 <= k <= |cols|
    requires forall j :: 0 <= j < |cols| ==> ' ' !in cols[j]
    ensures Clauses(dataPath, cols)[k - 1] == Clause(dataPath, k, cols[k - 1])
    ensures |Split(HeaderLine(cols), ' ')| == |cols| + 2
    ensures Split(HeaderLine(cols), ' ')[k + 1] == cols[k - 1]
  {
    HeaderFields(cols);
  }

  /** A name of word characters holds no character outside them, such as a blank or a line break. */
  lemma WordHasNo(v: string, c: char)
    requires AllWord(v) && !IsWordChar(c)
    ensures c !in v
  {
  }

  /** The variables of a successful parse hold neither blanks nor line breaks, so neither do the columns. */
  lemma ParsedNamesClean(lines: seq<string>, p: LogParser.Parsed)
    requires LogParser.ParseLog(lines) == Wrappers.Ok(p)
    ensures forall v :: v in p.residuals ==> ' ' !in v && '\n' !in v
    ensures forall j :: 0 <= j < |Columns(p.residuals)| ==> ' ' !in Columns(p.residuals)[j]
  {
    LogParser.ParsedVariablesAreWords(lines, p);
    forall v | v in p.residuals
      ensures ' ' !in v && '\n' !in v
    {
      WordHasNo(v, ' ');
      WordHasNo(v, '\n');
    }
  }

  /** For what the parser returns, the header's fields are `#`, `Time` and the columns. */
  lemma ParsedHeaderFields(lines: seq<string>, p: LogParser.Parsed)
    requires LogParser.ParseLog(lines) == Wrappers.Ok(p) && Columns(p.residuals) != []
    ensures Split(HeaderLine(Columns(p.residuals)), ' ') == ["#", "Time"] + Columns(p.residuals)
  {
    ParsedNamesClean(lines, p);
    HeaderFields(Columns(p.residuals));
  }

  /** For what the parser returns, the data file is the header and one line per time step. */
  lemma ParsedDataFileLines(fmt: string -> string, lines: seq<string>, p: LogParser.Parsed)
    requires LogParser.ParseLog(lines) == Wrappers.Ok(p)
    requires forall t :: '\n' !in fmt(t)
    ensures Split(DataFile(fmt, p.timeSteps, p.residuals), '\n') == DataLines(fmt, p.timeSteps, p.residuals)
  {
    ParsedNamesClean(lines, p);
    DataFileLines(fmt, p.timeSteps, p.residuals);
  }

  /**
    For what the parser returns, the `k`-th clause is titled with header field `k + 1` and plots
    data column `k + 1`, that variable's cells.
   */
  lemma ParsedClauseMatchesColumn(fmt: string -> string, dataPath: string, lines: seq<string>,
                                  p: LogParser.Parsed, k: nat, i: nat)
    requires LogParser.ParseLog(lines) == Wrappers.Ok(p)
    requires 1 <= k <= |Columns(p.residuals)| && i < |p.timeSteps|
    requires forall t :: ' ' !in fmt(t)
    ensures var cols := Columns(p.residuals);
            var fields := Split(RowLine(fmt, p.timeSteps[i], Table(p.timeSteps, p.residuals)[i]), ' ');
            && Clauses(dataPath, cols)[k - 1] == Clause(dataPath, k, cols[k - 1])
            && |Split(HeaderLine(cols), ' ')| == |cols| + 2
            && Split(HeaderLine(cols), ' ')[k + 1] == cols[k - 1]
            && |fields| == |cols| + 1
            && fields[k] == CellText(fmt, Table(p.timeSteps, p.residuals)[i][k - 1])
  {
    ParsedNamesClean(lines, p);
    ClauseMatchesColumn(fmt, dataPath, p.timeSteps, p.residuals, k, i);
  }

  lemma RowFieldAt(fmt: string -> string, time: string, cells: seq<Cell>, k: nat)
    requires 1 <= k <= |cells|
    requires forall t :: ' ' !in fmt(t)
    ensures var fields := Split(RowLine(fmt, time, cells), ' ');
            |fields| == |cells| + 1 && fields[k] == CellText(fmt, cells[k - 1])
  {
    RowFields(fmt, time, cells);
  }

  // ---------------------------------------------------------------------------
  // Rows against the time steps they stand for

  /** A variable reported in every time step has one value per step, in step order. */
  lemma {:induction false} SeriesFull(recs: seq<LogParser.Record>, v: string)
    requires forall i :: 0 <= i < |recs| ==> v in recs[i].values
    ensures |LogParser.Series(recs, v)| == |recs|
    ensures forall i :: 0 <= i < |recs| ==> LogParser.Series(recs, v)[i] == recs[i].values[v]
    decreases |recs|
  {
    if recs != [] {
      SeriesFull(recs[1..], v);
      assert forall i :: 1 <= i < |recs| ==> recs[i] == recs[1..][i - 1];
    }
  }

  /**
    When every plotted variable is reported in every time step, row `i` of the table holds
    exactly the values reported in step `i`, next to that step's time.
   */
  lemma TableMatchesSteps(ks: seq<LineClassifier.LineKind>, p: LogParser.Parsed)
    requires LogParser.ParseKinds(ks) == Wrappers.Ok(p)
    requires forall i, v :: 0 <= i < |LogParser.Records(ks)| && v in p.residuals && Plotted(v) ==>
               v in LogParser.Records(ks)[i].values
    ensures var recs, rows, cols := LogParser.Records(ks), Table(p.timeSteps, p.residuals), Columns(p.residuals);
            && |rows| == |recs|
            && forall i, j :: 0 <= i < |rows| && 0 <= j < |cols| ==>
                 p.timeSteps[i] == recs[i].time && rows[i][j] == Value(recs[i].values[cols[j]])
  {
    var recs := LogParser.Records(ks);
    LogParser.ParsedShape(ks, p);
    forall v | v in p.residuals && Plotted(v)
      ensures |p.residuals[v]| == |recs|
      ensures forall i :: 0 <= i < |recs| ==> p.residuals[v][i] == recs[i].values[v]
    {
      SeriesFull(recs, v);
    }
    FullTable(p.timeSteps, p.residuals);
  }

  /** When every plotted list holds one value per time step, no cell is `NaN`. */
  lemma FullTable(timeSteps: seq<string>, residuals: map<string, seq<string>>)
    requires forall v :: v in residuals && Plotted(v) ==> |residuals[v]| == |timeSteps|
    ensures var rows, cols := Table(timeSteps, residuals), Columns(residuals);
            forall i, j :: 0 <= i < |rows| && 0 <= j < |cols| ==> rows[i][j] == Value(residuals[cols[j]][i])
  {
  }

  /**
    Without that, values shift: with `u` first reported in the second of two steps, row 0
    holds `u`'s value from step 2 and row 1 holds `NaN`.
   */
  lemma ShiftedValue(t0: string, t1: string, w: string, u: string, a: string, b: string, c: string)
    requires w != u && Plotted(u)
    ensures var recs := [LogParser.Record(t0, map[w := a]), LogParser.Record(t1, map[w := b, u := c])];
            var q := LogParser.Flatten(recs);
            && u !in recs[0].values
            && q.timeSteps == [t0, t1]
            && exists j :: 0 <= j < |Columns(q.residuals)| && Columns(q.residuals)[j] == u
                           && Table(q.timeSteps, q.residuals)[0][j] == Value(c)
                           && Table(q.timeSteps, q.residuals)[1][j] == NaN
  {
    var recs := [LogParser.Record(t0, map[w := a]), LogParser.Record(t1, map[w := b, u := c])];
    var q := LogParser.Flatten(recs);
    LogParser.AppendAllTimes(LogParser.Empty, recs);
    LogParser.AppendAllKeys(LogParser.Empty, recs);
    assert recs[1..][1..] == [];
    assert LogParser.Times(recs) == [t0, t1];
    assert u in recs[1].values;
    assert u in LogParser.KeysOf(recs);
    LogParser.AppendAllSeries(LogParser.Empty, recs, u);
    assert LogParser.Series(recs, u) == [c];
    assert u in Columns(q.residuals);
    var j :| 0 <= j < |Columns(q.residuals)| && Columns(q.residuals)[j] == u;
  }
}
