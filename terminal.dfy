/**
 * The terminal user interface of src/ui.rs, apart from the terminal itself: which document
 * line lands on which visible row, which lines of an edit are shown, the queue of argument
 * inputs, and the bookkeeping of alerts. What is printed is kept as a log of printed rows.
 */
module Ui {
  import opened Wrappers
  import opened Text

  const U16_MAX: nat := 0xFFFF
  const U64_MAX: nat := 0xFFFF_FFFF_FFFF_FFFF

  type U16 = x: nat | x <= U16_MAX
  type U64 = x: nat | x <= U64_MAX

  /** `a.saturating_sub(b)` on unsigned integers. */
  function SaturatingSub(a: nat, b: nat): (r: nat)
    ensures a <= b ==> r == 0
    ensures b <= a ==> r + b == a
  {
    if a <= b then 0 else a - b
  }

  /** `r.saturating_add(1)` on a `u16`. */
  function SaturatingInc(r: U16): (s: U16)
    ensures r < U16_MAX ==> s == r + 1
    ensures r == U16_MAX ==> s == r
  {
    if r < U16_MAX then r + 1 else r
  }

  /** `MessageType` of the language server protocol. */
  datatype MessageType = Error | Warning | Info | Log

  datatype Position = Position(line: U64, character: U64)

  datatype Range = Range(start: Position, end: Position)

  /** A replacement of the text in `range` by `newText`. */
  datatype TextEdit = TextEdit(range: Range, newText: string)

  /** A potential modification of the output. */
  datatype Change =
    | Text(edits: seq<TextEdit>)
    | Message(typ: MessageType, message: string)
    | Question(typ: MessageType, question: string)
    | Reset

  /** `Config`: the file path of the document. */
  datatype Config = File(path: string)

  /** `Input`: an event from the user, or a configuration from the command arguments. */
  datatype Input<E> = User(event: E) | ConfigInput(config: Config)

  /** One line printed from column 0 of a row, with the colour of its message type if any. */
  datatype Printed = Printed(row: U16, line: string, context: Option<MessageType>)

  /** What `print_at_row(row, s, context)` prints: line `i` of `s` on row `row + i`, kept below `u16::MAX`. */
  function PrintsAt(row: U16, s: string, context: Option<MessageType>): (ps: seq<Printed>)
    ensures |ps| == |Lines(s)|
  {
    var ls := Lines(s);
    seq(|ls|, i requires 0 <= i < |ls| => Printed(if row + i <= U16_MAX then row + i else U16_MAX, ls[i], context))
  }

  /**
   * Each line of `s` is printed once, in order, in the given colour; the rows only grow, so no
   * line overwrites an earlier one except at `u16::MAX`.
   */
  lemma PrintsAtRows(row: U16, s: string, context: Option<MessageType>)
    ensures var ps := PrintsAt(row, s, context);
      (forall i :: 0 <= i < |ps| ==> ps[i].line == Lines(s)[i] && ps[i].context == context) &&
      (forall i, j :: 0 <= i < j < |ps| ==> ps[i].row < ps[j].row || ps[i].row == ps[j].row == U16_MAX)
  {
  }

  class Terminal {
    /** If the terminal has been initialized. */
    var isInit: bool
    /** Inputs from the command arguments, the last to be read first. */
    var argInputs: seq<Config>
    /** Number of columns of the terminal. */
    var columns: U16
    /** Number of rows of the terminal. */
    var rows: U16
    /** The index of the first line of the document that may be displayed. */
    var firstLine: U64
    /** The text of every row of the terminal. */
    var grid: seq<string>
    /** The number of lines currently covered by an alert. */
    var alertLineCount: nat
    /** Everything printed so far, in order. */
    var output: seq<Printed>

    /** `Terminal::default` for a terminal of the given size ((0, 0) when it is unknown). */
    constructor (columns: U16, rows: U16)
      ensures this.columns == columns && this.rows == rows
      ensures |grid| == rows && forall i :: 0 <= i < |grid| ==> grid[i] == []
      ensures !isInit && argInputs == [] && firstLine == 0 && alertLineCount == 0 && output == []
    {
      var cells: seq<string> := [];
      var r := 0;
      while r < rows
        invariant r <= rows && |cells| == r
        invariant forall i :: 0 <= i < |cells| ==> cells[i] == []
      {
        cells := cells + [[]];
        r := r + 1;
      }
      this.columns := columns;
      this.rows := rows;
      isInit := false;
      argInputs := [];
      firstLine := 0;
      grid := cells;
      alertLineCount := 0;
      output := [];
    }

    /** `Terminal::init`: the file of the settings, if any, becomes an argument input. */
    method Init(file: Option<string>)
      modifies this
      ensures file.Some? ==> argInputs == old(argInputs) + [File(file.value)]
      ensures file.None? ==> argInputs == old(argInputs)
      ensures isInit
      ensures grid == old(grid) && alertLineCount == old(alertLineCount) && output == old(output)
      ensures rows == old(rows) && columns == old(columns) && firstLine == old(firstLine)
    {
      if file.Some? {
        argInputs := argInputs + [File(file.value)];
      }
      isInit := true;
    }

    /**
     * `Terminal::input`: the argument input pushed last, while there is one; only then the
     * event the keyboard has ready, if any (`pending`).
     */
    method Input<E>(pending: Option<E>) returns (r: Option<Input<E>>)
      modifies this
      ensures old(argInputs) != [] ==> r == Some(ConfigInput(old(argInputs)[|old(argInputs)| - 1]))
      ensures old(argInputs) != [] ==> argInputs == old(argInputs)[..|old(argInputs)| - 1]
      ensures old(argInputs) == [] ==> argInputs == []
      ensures old(argInputs) == [] ==> r == (if pending.Some? then Some(User(pending.value)) else None)
      ensures isInit == old(isInit) && grid == old(grid) && alertLineCount == old(alertLineCount)
      ensures output == old(output) && rows == old(rows) && columns == old(columns)
      ensures firstLine == old(firstLine)
    {
      if argInputs != [] {
        var input := argInputs[|argInputs| - 1];
        argInputs := argInputs[..|argInputs| - 1];
        r := Some(ConfigInput(input));
      } else if pending.Some? {
        r := Some(User(pending.value));
      } else {
        r := None;
      }
    }

    /** `print_at_row`: logs each line of `s` on its row. */
    method PrintAtRow(row: U16, s: string, context: Option<MessageType>)
      modifies this
      ensures output == old(output) + PrintsAt(row, s, context)
      ensures grid == old(grid) && alertLineCount == old(alertLineCount) && argInputs == old(argInputs)
      ensures rows == old(rows) && firstLine == old(firstLine) && isInit == old(isInit)
      ensures columns == old(columns)
    {
      var ls := Lines(s);
      var r: U16 := row;
      var i := 0;
      ghost var all := PrintsAt(row, s, context);
      while i < |ls|
        invariant i <= |ls| && r == (if row + i <= U16_MAX then row + i else U16_MAX)
        invariant output == old(output) + all[..i]
        invariant grid == old(grid) && alertLineCount == old(alertLineCount)
        invariant argInputs == old(argInputs) && rows == old(rows) && firstLine == old(firstLine)
        invariant isInit == old(isInit) && columns == old(columns)
      {
        output := output + [Printed(r, ls[i], context)];
        assert all[..i + 1] == all[..i] + [all[i]];
        r := SaturatingInc(r);
        i := i + 1;
      }
      assert all[..i] == all;
    }

    /** What `apply` needs so that no swap of grid rows panics. */
    predicate CanApply(change: Change)
      reads this
    {
      change.Text? ==>
        forall k :: 0 <= k < |change.edits| ==> SwapFits(firstLine, rows, change.edits[k], |grid|)
    }

    /** One edit of `apply`: its modifications are printed, then swapped into the grid. */
    method ApplyEdit(edit: TextEdit)
      requires SwapFits(firstLine, rows, edit, |grid|)
      modifies this
      ensures rows == old(rows) && firstLine == old(firstLine) && argInputs == old(argInputs)
      ensures isInit == old(isInit) && columns == old(columns) && alertLineCount == old(alertLineCount)
      ensures grid == GridAfter(firstLine, rows, old(grid), edit)
      ensures output == old(output) + EditPrint(firstLine, rows, edit)
    {
      var startRow := GetRow(firstLine, rows, edit.range.start.line);
      var endRow := GetRow(firstLine, rows, edit.range.end.line);
      var modifications := GetModifications(firstLine, rows, edit);
      PrintAtRow(startRow, Join(modifications, "\n"), None);
      if startRow <= endRow + 1 && endRow + 1 <= |grid| {
        grid := grid[..startRow] + modifications + grid[endRow + 1..];
      }
    }

    /** The `Text` case of `apply`: the edits one after the other. */
    method ApplyEdits(edits: seq<TextEdit>)
      requires forall k :: 0 <= k < |edits| ==> SwapFits(firstLine, rows, edits[k], |grid|)
      modifies this
      ensures rows == old(rows) && firstLine == old(firstLine) && argInputs == old(argInputs)
      ensures isInit == old(isInit) && columns == old(columns) && alertLineCount == old(alertLineCount)
      ensures grid == GridAfterAll(firstLine, rows, old(grid), edits)
      ensures output == old(output) + EditPrints(firstLine, rows, edits)
    {
      var top, count := firstLine, rows;
      ghost var before := grid;
      var i := 0;
      while i < |edits|
        invariant i <= |edits| && |grid| == |before|
        invariant rows == count && firstLine == top && argInputs == old(argInputs)
        invariant isInit == old(isInit) && columns == old(columns)
        invariant alertLineCount == old(alertLineCount)
        invariant grid == GridAfterAll(top, count, before, edits[..i])
        invariant output == old(output) + EditPrints(top, count, edits[..i])
      {
        EditsStep(top, count, before, edits, i);
        ApplyEdit(edits[i]);
        AppendAssoc(old(output), EditPrints(top, count, edits[..i]), EditPrint(top, count, edits[i]));
        i := i + 1;
      }
      assert edits[..i] == edits;
    }

    /**
     * `Terminal::apply`: edits are printed and kept in the grid; a message or question is
     * printed in its colour from row 0 and covers as many lines as it has; a reset reprints the
     * covered grid rows, and only when an alert covers some.
     */
    method Apply(change: Change)
      requires CanApply(change)
      modifies this
      ensures rows == old(rows) && firstLine == old(firstLine) && argInputs == old(argInputs)
      ensures isInit == old(isInit) && columns == old(columns)
      ensures change.Text? ==> (grid == GridAfterAll(firstLine, rows, old(grid), change.edits) &&
        output == old(output) + EditPrints(firstLine, rows, change.edits) && alertLineCount == old(alertLineCount))
      ensures change.Message? ==> (alertLineCount == |Lines(change.message)| && grid == old(grid) &&
        output == old(output) + PrintsAt(0, change.message, Some(change.typ)))
      ensures change.Question? ==> (alertLineCount == |Lines(change.question)| && grid == old(grid) &&
        output == old(output) + PrintsAt(0, change.question, Some(change.typ)))
      ensures change.Reset? ==> alertLineCount == 0 && grid == old(grid)
      ensures change.Reset? && old(alertLineCount) == 0 ==> output == old(output)
      ensures change.Reset? && old(alertLineCount) != 0 ==>
        output == old(output) + PrintsAt(0, Join(CoveredRows(old(grid), old(alertLineCount)), "\n"), None)
    {
      match change {
        case Text(edits) =>
          ApplyEdits(edits);
        case Message(typ, message) =>
          alertLineCount := |Lines(message)|;
          PrintAtRow(0, message, Some(typ));
        case Question(typ, question) =>
          alertLineCount := |Lines(question)|;
          PrintAtRow(0, question, Some(typ));
        case Reset =>
          if alertLineCount != 0 {
            PrintAtRow(0, Join(CoveredRows(grid, alertLineCount), "\n"), None);
            alertLineCount := 0;
          }
      }
    }
  }

  /**
   * `Terminal::get_row`, over the first line and the row count it reads: the visible row of
   * document line `line`. Lines above the grid go to row 0, lines below it to the last row, and
   * 0 is the answer when there are no rows.
   */
  function GetRow(firstLine: U64, rows: U16, line: U64): (r: U16)
    ensures r <= SaturatingSub(rows, 1)
    ensures line <= firstLine ==> r == 0
    ensures firstLine <= line < firstLine + rows ==> r == line - firstLine
    ensures firstLine + rows <= line && rows > 0 ==> r == rows - 1
  {
    var offset := SaturatingSub(line, firstLine);
    var narrowed: U16 := if offset <= U16_MAX then offset else U16_MAX;
    var last := SaturatingSub(rows, 1);
    if narrowed <= last then narrowed else last
  }

  /**
   * `Terminal::get_modifications`, over the first line and the row count it reads: the lines of
   * the edit's new text that fall on the grid.
   */
  function GetModifications(firstLine: U64, rows: U16, edit: TextEdit): (r: seq<string>)
    ensures |r| <= rows
  {
    var ls := Lines(edit.newText);
    var skip := SaturatingSub(firstLine, edit.range.start.line);
    var rest := if skip <= |ls| then ls[skip..] else [];
    if rows <= |rest| then rest[..rows] else rest
  }

  /**
   * The modifications are the edit's lines from the first one on the grid, skipping those above
   * it when the edit starts above the grid and none otherwise, as many as the grid has rows.
   */
  lemma ModificationsWindow(firstLine: U64, rows: U16, edit: TextEdit)
    ensures var r := GetModifications(firstLine, rows, edit);
      var ls := Lines(edit.newText);
      var skip := if edit.range.start.line < firstLine then firstLine - edit.range.start.line else 0;
      |r| == (if skip + rows <= |ls| then rows else SaturatingSub(|ls|, skip)) &&
      forall i :: 0 <= i < |r| ==> skip + i < |ls| && r[i] == ls[skip + i]
  {
  }

  /** Whether the rows an edit covers, in a grid of `height` rows, can be swapped with its modifications. */
  predicate SwapFits(firstLine: U64, rows: U16, edit: TextEdit, height: nat)
  {
    var start := GetRow(firstLine, rows, edit.range.start.line);
    var end := GetRow(firstLine, rows, edit.range.end.line);
    start <= end + 1 && end + 1 <= height ==> end + 1 - start == |GetModifications(firstLine, rows, edit)|
  }

  /** The grid after one edit: the covered rows, when they exist, hold the modifications. */
  function GridAfter(firstLine: U64, rows: U16, grid: seq<string>, edit: TextEdit): (g: seq<string>)
    requires SwapFits(firstLine, rows, edit, |grid|)
    ensures |g| == |grid|
  {
    var start := GetRow(firstLine, rows, edit.range.start.line);
    var end := GetRow(firstLine, rows, edit.range.end.line);
    if start <= end + 1 && end + 1 <= |grid| then
      grid[..start] + GetModifications(firstLine, rows, edit) + grid[end + 1..]
    else grid
  }

  /** The grid after a list of edits, applied in order. */
  function GridAfterAll(firstLine: U64, rows: U16, grid: seq<string>, edits: seq<TextEdit>): (g: seq<string>)
    requires forall k :: 0 <= k < |edits| ==> SwapFits(firstLine, rows, edits[k], |grid|)
    ensures |g| == |grid|
  {
    if edits == [] then grid
    else GridAfter(firstLine, rows, GridAfterAll(firstLine, rows, grid, edits[..|edits| - 1]), edits[|edits| - 1])
  }

  /** What one edit prints: its modifications, from the edit's first row. */
  function EditPrint(firstLine: U64, rows: U16, edit: TextEdit): seq<Printed> {
    var modifications := GetModifications(firstLine, rows, edit);
    PrintsAt(GetRow(firstLine, rows, edit.range.start.line), Join(modifications, "\n"), None)
  }

  /** What a list of edits prints, edit after edit. */
  function EditPrints(firstLine: U64, rows: U16, edits: seq<TextEdit>): seq<Printed> {
    if edits == [] then []
    else EditPrints(firstLine, rows, edits[..|edits| - 1]) + EditPrint(firstLine, rows, edits[|edits| - 1])
  }

  /** One more edit: the grid takes it after the earlier ones, and its prints follow theirs. */
  lemma EditsStep(firstLine: U64, rows: U16, grid: seq<string>, edits: seq<TextEdit>, i: nat)
    requires i < |edits| && forall k :: 0 <= k < |edits| ==> SwapFits(firstLine, rows, edits[k], |grid|)
    ensures SwapFits(firstLine, rows, edits[i], |grid|)
    ensures GridAfterAll(firstLine, rows, grid, edits[..i + 1]) ==
      GridAfter(firstLine, rows, GridAfterAll(firstLine, rows, grid, edits[..i]), edits[i])
    ensures EditPrints(firstLine, rows, edits[..i + 1]) ==
      EditPrints(firstLine, rows, edits[..i]) + EditPrint(firstLine, rows, edits[i])
  {
    var prefix := edits[..i + 1];
    assert prefix[..i] == edits[..i] && prefix[i] == edits[i];
  }

  /** Appending `b` and then `c` is appending `b + c`. */
  lemma AppendAssoc<T>(a: seq<T>, b: seq<T>, c: seq<T>)
    ensures a + b + c == a + (b + c)
  {
  }

  /** `grid.get(0..count).unwrap_or_default()`: the first `count` rows, or none when there are fewer. */
  function CoveredRows(grid: seq<string>, count: nat): (r: seq<string>)
    ensures count <= |grid| ==> r == grid[..count]
    ensures count > |grid| ==> r == []
  {
    if count <= |grid| then grid[..count] else []
  }

  /** A visible row is never past a later line's row: `get_row` keeps the order of lines. */
  lemma GetRowMonotone(firstLine: U64, rows: U16, a: U64, b: U64)
    requires a <= b
    ensures GetRow(firstLine, rows, a) <= GetRow(firstLine, rows, b)
  {
  }
}
