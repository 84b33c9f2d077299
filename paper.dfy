/**
 * The application (`Paper` in src/lib.rs) and the state changes of `Paper::operate`. The
 * terminal is left out; the file system is a map from paths to contents.
 */
module PaperApp {
  import opened Wrappers
  import opened Keys
  import opened Text
  import opened Coordinates
  import opened Views
  import opened Marks
  import opened PaperMode

  // The command token, `(?P<command>.+?)(?:\s|$)`: the search starts at the first character
  // other than '\n' and stops, lazily, at the first white space after it or at the end.

  /** The first position at or after `i` that holds a character other than '\n', or `|s|`. */
  function NonNewlineFrom(s: string, i: nat): (p: nat)
    requires i <= |s|
    ensures i <= p <= |s|
    ensures p < |s| ==> s[p] != '\n'
    ensures forall j :: i <= j < p ==> s[j] == '\n'
    decreases |s| - i
  {
    if i == |s| || s[i] != '\n' then i else NonNewlineFrom(s, i + 1)
  }

  /** The first position at or after `i` that holds white space, or `|s|`. */
  function WhitespaceFrom(s: string, i: nat): (j: nat)
    requires i <= |s|
    ensures i <= j <= |s|
    ensures j < |s| ==> IsWhitespace(s[j])
    ensures forall k :: i <= k < j ==> !IsWhitespace(s[k])
    decreases |s| - i
  {
    if i == |s| || IsWhitespace(s[i]) then i else WhitespaceFrom(s, i + 1)
  }

  /** The first position at or after `i` that does not hold white space, or `|s|` (`\s*`). */
  function SkipWhitespace(s: string, i: nat): (j: nat)
    requires i <= |s|
    ensures i <= j <= |s|
    ensures j < |s| ==> !IsWhitespace(s[j])
    ensures forall k :: i <= k < j ==> IsWhitespace(s[k])
    decreases |s| - i
  {
    if i == |s| || !IsWhitespace(s[i]) then i else SkipWhitespace(s, i + 1)
  }

  /** The `command` group of the sketch, or `None` when the sketch holds only '\n's. */
  function CommandToken(s: string): (t: Option<string>)
    ensures t.None? <==> forall j :: 0 <= j < |s| ==> s[j] == '\n'
    ensures t.Some? ==> |t.value| > 0 && t.value[0] != '\n'
    ensures t.Some? ==> forall k :: 1 <= k < |t.value| ==> !IsWhitespace(t.value[k])
    ensures t.Some? ==>
      var p := NonNewlineFrom(s, 0);
      p + |t.value| <= |s| && s[p..p + |t.value|] == t.value &&
      (p + |t.value| == |s| || IsWhitespace(s[p + |t.value|]))
  {
    var p := NonNewlineFrom(s, 0);
    if p == |s| then None
    else
      var t := s[p..WhitespaceFrom(s, p + 1)];
      assert forall k :: 0 <= k < |t| ==> t[k] == s[p + k];
      Some(t)
  }

  /** A word without white space, followed by white space or by nothing, is the command. */
  lemma CommandOfWord(word: string, rest: string)
    requires |word| > 0 && word[0] != '\n'
    requires forall k :: 0 <= k < |word| ==> !IsWhitespace(word[k])
    requires rest == [] || IsWhitespace(rest[0])
    ensures CommandToken(word + rest) == Some(word)
  {
    var s := word + rest;
    assert s[0] == word[0];
    assert NonNewlineFrom(s, 0) == 0;
    forall k | 1 <= k < |word| ensures !IsWhitespace(s[k]) {
      assert s[k] == word[k];
    }
    assert WhitespaceFrom(s, 1) == |word| by {
      if |word| < |s| {
        assert s[|word|] == rest[0];
      }
    }
    assert s[..|word|] == word;
  }

  /** `see\s*(?P<path>.*)`: after the first `see`, white space is skipped, then the rest of that line. */
  function SeePath(s: string): (path: Option<string>)
    ensures path.Some? ==> '\n' !in path.value
    ensures path.Some? && path.value != [] ==> !IsWhitespace(path.value[0])
  {
    var ms := MatchIndices(s, "see");
    if ms == [] then None
    else
      MatchesFromSound(s, "see", 0);
      var q := SkipWhitespace(s, ms[0] + 3);
      Some(s[q..NextNewline(s, q)])
  }

  /** When the command is `see`, the path search succeeds: its `unwrap` never panics. */
  lemma SeeCommandHasPath(s: string)
    requires CommandToken(s) == Some("see")
    ensures SeePath(s).Some?
  {
    var p := NonNewlineFrom(s, 0);
    var t := s[p..WhitespaceFrom(s, p + 1)];
    assert t == "see";
    assert s[p..p + 3] == t;
    MatchesFromSpec(s, "see", 0);
    assert Covered(MatchIndices(s, "see"), "see", p);
  }

  /** `see <path>` names the path, for a path on one line that does not start with white space. */
  lemma SeeOfPath(path: string)
    requires '\n' !in path && (path == [] || !IsWhitespace(path[0]))
    ensures SeePath("see " + path) == Some(path)
  {
    var s := "see " + path;
    assert s[0..3] == "see";
    assert MatchIndices(s, "see") == [0] + MatchesFrom(s, "see", 3);
    assert s[3] == ' ';
    assert SkipWhitespace(s, 3) == 4 by {
      if |path| > 0 {
        assert s[4] == path[0];
      }
      assert SkipWhitespace(s, 4) == 4;
    }
    forall j | 4 <= j < |s| ensures s[j] != '\n' {
      assert s[j] == path[j - 4];
    }
    assert NextNewline(s, 4) == |s|;
    var ms := MatchIndices(s, "see");
    assert ms[0] == 0;
    assert s[4..|s|] == path;
  }

  /** The distance `j` and `k` scroll: a quarter of the window height. */
  function ScrollHeight(windowHeight: nat): (h: nat)
    ensures 4 * h <= windowHeight < 4 * h + 4
  {
    windowHeight / 4
  }

  /** `ScrollDown`: a quarter window further, but never past the last line. */
  function ScrollDownLine(first: nat, windowHeight: nat, lineCount: nat): (r: nat)
    requires lineCount > 0
    ensures r <= lineCount - 1 && r <= first + ScrollHeight(windowHeight)
    ensures r == first + ScrollHeight(windowHeight) || r == lineCount - 1
  {
    if first + ScrollHeight(windowHeight) < lineCount - 1 then first + ScrollHeight(windowHeight)
    else lineCount - 1
  }

  /** `ScrollUp`: a quarter window back, stopping at the first line. */
  function ScrollUpLine(first: nat, windowHeight: nat): (r: nat)
    ensures r <= first
    ensures first >= ScrollHeight(windowHeight) ==> r + ScrollHeight(windowHeight) == first
    ensures first < ScrollHeight(windowHeight) ==> r == 0
  {
    var movement := ScrollHeight(windowHeight);
    if first < movement then 0 else first - movement
  }

  /**
   * Scrolling up undoes scrolling down unless the bottom clamp cut the step short, and
   * scrolling down undoes scrolling up unless the top clamp did.
   */
  lemma ScrollRoundTrip(first: nat, windowHeight: nat, lineCount: nat)
    requires lineCount > 0
    ensures first + ScrollHeight(windowHeight) <= lineCount - 1 ==>
      ScrollUpLine(ScrollDownLine(first, windowHeight, lineCount), windowHeight) == first
    ensures ScrollHeight(windowHeight) <= first <= lineCount - 1 ==>
      ScrollDownLine(ScrollUpLine(first, windowHeight), windowHeight, lineCount) == first
  {
  }

  /** How the sketch follows an edit: BACKSPACE pops, a wash clears it, a key is appended. */
  function SketchAfter(sketch: string, e: Edit, c: char): (r: string)
    ensures e == Edit.Add ==> r == sketch + [c]
    ensures e == Wash ==> r == []
    ensures e == Edit.Backspace ==> r == (if sketch == [] then [] else sketch[..|sketch| - 1])
  {
    match e
    case Backspace => if sketch == [] then [] else sketch[..|sketch| - 1]
    case Wash => []
    case Add => sketch + [c]
  }

  /** BACKSPACE removes from the sketch the key added last. */
  lemma BackspaceUndoesAdd(sketch: string, c: char, d: char)
    ensures SketchAfter(SketchAfter(sketch, Edit.Add, c), Edit.Backspace, d) == sketch
  {
    assert (sketch + [c])[..|sketch|] == sketch;
  }

  class Paper {
    /** Current mode of the application. */
    var mode: Mode
    /** The text being edited. */
    var view: View
    /** Characters typed in the current mode, analyzed by the application. */
    var sketch: string
    /** Index of the first displayed line. */
    var firstLine: nat
    /** The regions of the view that match the current filter. */
    var filterRegions: seq<Region>
    /** Path of the file being edited. */
    var path: string
    /** Whether the view must be redrawn. */
    var isDirty: bool
    /** The mark of the cursor. */
    var mark: Mark
    /** The files the application can read and write, by path. */
    var files: map<string, string>
    /** The height of the window of the user interface. */
    const windowHeight: nat

    /** `Paper::new`: every field at its default, over the given window and file system. */
    constructor (windowHeight: nat, files: map<string, string>)
      ensures mode == DefaultMode && view.data == [] && sketch == [] && firstLine == 0
      ensures filterRegions == [] && path == [] && !isDirty
      ensures mark.index == StartIndex && mark.address == Address(0, 0)
      ensures this.files == files && this.windowHeight == windowHeight
      ensures fresh(view) && fresh(mark)
    {
      mode := DefaultMode;
      view := new View([]);
      sketch := [];
      firstLine := 0;
      filterRegions := [];
      path := [];
      isDirty := false;
      mark := new Mark();
      this.files := files;
      this.windowHeight := windowHeight;
    }

    /** What `see` needs: the file it names exists. */
    predicate SeeReadable()
      reads this
    {
      CommandToken(sketch) == Some("see") ==> SeePath(sketch).Some? && SeePath(sketch).value in files
    }

    /**
     * `ExecuteCommand`: `see <path>` opens the file at the top, `put` writes the view to the
     * current path, `end` asks to quit; any other command, or none, does nothing.
     */
    method ExecuteCommand() returns (notice: Option<Notice>)
      requires SeeReadable()
      modifies this
      ensures notice == Some(Quit) <==> CommandToken(sketch) == Some("end")
      ensures sketch == old(sketch) && mode == old(mode) && mark == old(mark)
      ensures CommandToken(sketch) == Some("see") ==>
        files == old(files) && path == SeePath(sketch).value && fresh(view) &&
        view.data == FromFile(files[path]) && firstLine == 0
      ensures CommandToken(sketch) == Some("put") ==>
        files == old(files)[path := view.data] && view == old(view) && path == old(path) &&
        firstLine == old(firstLine)
      ensures CommandToken(sketch) !in {Some("see"), Some("put")} ==>
        files == old(files) && view == old(view) && path == old(path) && firstLine == old(firstLine)
      ensures filterRegions == old(filterRegions) && isDirty == old(isDirty)
    {
      var token := CommandToken(sketch);
      notice := None;
      if token == Some("see") {
        assert token != Some("put") && token != Some("end") by {
          assert "see"[0] != "put"[0] && "see"[0] != "end"[0];
        }
        See();
      } else if token == Some("put") {
        assert token != Some("end") by {
          assert "put"[0] != "end"[0];
        }
        files := files[path := view.data];
      } else if token == Some("end") {
        notice := Some(Quit);
      }
    }

    /** The `see` command: the file at the path the sketch names replaces the view, shown from the top. */
    method See()
      requires CommandToken(sketch) == Some("see") && SeeReadable()
      modifies this
      ensures sketch == old(sketch) && mode == old(mode) && mark == old(mark)
      ensures filterRegions == old(filterRegions) && isDirty == old(isDirty) && files == old(files)
      ensures path == SeePath(sketch).value && fresh(view) && view.data == FromFile(files[path])
      ensures firstLine == 0
    {
      var seen := SeePath(sketch).value;
      var contents := FromFile(files[seen]);
      path := seen;
      view := new View(contents);
      firstLine := 0;
    }

    /** What typing `c` into the sketch needs: the mark can move and the filter can be read. */
    predicate SketchKeyAllowed(c: char)
      reads this, mark, view
    {
      (c == BACKSPACE && mark.address.column == 0 ==> 0 < mark.address.row <= |Lines(view.data)|) &&
      (mode == Filter ==> !SelectsLineZero(SketchAfter(sketch, EditFor(c, mark.address.column), c)))
    }

    /**
     * `AddToSketch(c)`: the mark moves for `c`, the sketch follows the edit it reports (a wash
     * also marks the view for redrawing), and in Filter mode the filter regions become those
     * the new sketch selects.
     */
    method AddToSketch(c: char)
      requires SketchKeyAllowed(c)
      modifies this, mark
      ensures mode == old(mode) && view == old(view) && firstLine == old(firstLine)
      ensures path == old(path) && files == old(files)
      ensures sketch == SketchAfter(old(sketch), EditFor(c, old(mark.address.column)), c)
      ensures isDirty == (old(isDirty) || EditFor(c, old(mark.address.column)) == Wash)
      ensures mark == old(mark) && mark.index == old(mark.index)
      ensures mark.address == AddressAfter(c, old(mark.address), view.data)
      ensures mode == Filter ==> filterRegions == SelectedRegions(sketch, view.data)
      ensures mode != Filter ==> filterRegions == old(filterRegions)
    {
      var e := mark.Add(c, view);
      match e {
        case Backspace =>
          if sketch != [] {
            sketch := sketch[..|sketch| - 1];
          }
        case Wash =>
          isDirty := true;
          sketch := [];
        case Add =>
          sketch := sketch + [c];
      }
      var enhancement := Enhance(mode, sketch, view.data);
      match enhancement {
        case None =>
        case Some(FilterRegions(regions)) =>
          filterRegions := regions;
      }
    }

    /** What `View::add` needs of the mark's index. */
    predicate ViewKeyAllowed(c: char)
      reads this, mark, view
    {
      var index := mark.index;
      (index.offset.Some? && c == BACKSPACE ==> index.offset.value < |view.data|) &&
      (index.offset.Some? && c != BACKSPACE ==> 1 <= index.offset.value <= |view.data| + 1)
    }

    /** `AddToView(c)`: the view is edited at the mark's index and no longer needs redrawing. */
    method AddToView(c: char)
      requires ViewKeyAllowed(c)
      modifies this, view
      ensures view == old(view) && mark == old(mark) && mode == old(mode) && sketch == old(sketch)
      ensures mark.index.offset.None? ==> view.data == old(view.data)
      ensures mark.index.offset.Some? && c == BACKSPACE ==>
        view.data == Removed(old(view.data), mark.index.offset.value)
      ensures mark.index.offset.Some? && c != BACKSPACE ==>
        view.data == Inserted(old(view.data), mark.index.offset.value - 1, c)
      ensures !isDirty
      ensures firstLine == old(firstLine) && filterRegions == old(filterRegions)
      ensures path == old(path) && files == old(files)
    {
      view.Add(c, mark.index);
      if isDirty {
        isDirty := false;
      }
    }

    /**
     * `ChangeMode(m)`: Command and Filter start from a reset mark and an empty sketch, Edit
     * from an empty sketch; Display and Action only change the mode.
     */
    method ChangeMode(m: Mode)
      modifies this, mark
      ensures mode == m
      ensures m in {Command, Filter} ==> mark.index == StartIndex && mark.address == Address(0, 0)
      ensures m !in {Command, Filter} ==> mark.index == old(mark.index) && mark.address == old(mark.address)
      ensures m in {Command, Filter, Edit} ==> sketch == []
      ensures m !in {Command, Filter, Edit} ==> sketch == old(sketch)
      ensures mark == old(mark) && view == old(view) && firstLine == old(firstLine)
      ensures filterRegions == old(filterRegions) && isDirty == old(isDirty)
      ensures path == old(path) && files == old(files)
    {
      mode := m;
      match m {
        case Display =>
        case Command =>
          mark.Reset();
          sketch := [];
        case Filter =>
          mark.Reset();
          sketch := [];
        case Action =>
        case Edit =>
          sketch := [];
      }
    }

    /** `ScrollDown`. The source's `count() - 1` underflows on an empty view. */
    method ScrollDown()
      requires |Lines(view.data)| > 0
      modifies this
      ensures mode == old(mode) && view == old(view) && sketch == old(sketch) && mark == old(mark)
      ensures firstLine == ScrollDownLine(old(firstLine), windowHeight, |Lines(view.data)|)
      ensures firstLine < |Lines(view.data)|
      ensures filterRegions == old(filterRegions) && isDirty == old(isDirty)
      ensures path == old(path) && files == old(files)
    {
      var last := |Lines(view.data)| - 1;
      var next := firstLine + ScrollHeight(windowHeight);
      firstLine := if next < last then next else last;
    }

    /** `ScrollUp`. */
    method ScrollUp()
      modifies this
      ensures firstLine == ScrollUpLine(old(firstLine), windowHeight)
      ensures mode == old(mode) && view == old(view) && sketch == old(sketch) && mark == old(mark)
      ensures filterRegions == old(filterRegions) && isDirty == old(isDirty)
      ensures path == old(path) && files == old(files)
    {
      var movement := ScrollHeight(windowHeight);
      if firstLine < movement {
        firstLine := 0;
      } else {
        firstLine := firstLine - movement;
      }
    }

    /**
     * What `SetMark(edge)` needs: a first filter region, and, when the mark goes to the end of
     * a region that runs to the end of its line, that line.
     */
    predicate MarkRegionAllowed(edge: Edge)
      reads this, view
    {
      |filterRegions| > 0 &&
      (edge == End && filterRegions[0].length == Eol ==> filterRegions[0].start.row < |Lines(view.data)|)
    }

    /** `SetMark(edge)`: a new mark at that edge of the first filter region. */
    method SetMark(edge: Edge)
      requires MarkRegionAllowed(edge)
      modifies this
      ensures mode == old(mode) && view == old(view) && sketch == old(sketch)
      ensures firstLine == old(firstLine) && filterRegions == old(filterRegions)
      ensures fresh(mark)
      ensures mark.address == EdgeAddress(filterRegions[0], edge, view.data)
      ensures mark.index == IndexWithAddress(mark.address, view.data)
      ensures isDirty == old(isDirty) && path == old(path) && files == old(files)
    {
      mark := GenerateMark(filterRegions[0], edge, view);
    }

    /** What `Paper::operate` needs so that `op` does not panic. */
    predicate CanOperate(op: Operation)
      reads this, mark, view
    {
      match op
      case ExecuteCommand => SeeReadable()
      case AddToSketch(c) => SketchKeyAllowed(c)
      case AddToView(c) => ViewKeyAllowed(c)
      case ScrollDown => |Lines(view.data)| > 0
      case SetMark(edge) => MarkRegionAllowed(edge)
      case _ => true
    }

    /**
     * `Paper::operate`: performs `op`, with the effect of the operation's method above; only
     * the command `end` gives a notice, `Quit`. Every field an operation does not name keeps
     * its value.
     */
    method Operate(op: Operation) returns (notice: Option<Notice>)
      requires CanOperate(op)
      modifies this, view, mark
      ensures notice == Some(Quit) <==> op == Operation.ExecuteCommand && CommandToken(old(sketch)) == Some("end")
      // What each operation leaves alone.
      ensures !op.ChangeMode? ==> mode == old(mode)
      ensures !op.AddToSketch? && !op.ChangeMode? ==> sketch == old(sketch)
      ensures !op.ExecuteCommand? ==> view == old(view) && path == old(path) && files == old(files)
      ensures !op.ExecuteCommand? && !op.AddToView? ==> view.data == old(view.data)
      ensures !op.ExecuteCommand? && !op.ScrollDown? && !op.ScrollUp? ==> firstLine == old(firstLine)
      ensures !op.AddToSketch? ==> filterRegions == old(filterRegions)
      ensures !op.AddToSketch? && !op.AddToView? ==> isDirty == old(isDirty)
      ensures !op.SetMark? ==> mark == old(mark)
      ensures !op.AddToSketch? && !op.ChangeMode? && !op.SetMark? ==>
        mark.index == old(mark.index) && mark.address == old(mark.address)
      // ExecuteCommand: `see`, `put`, and any other command.
      ensures op.ExecuteCommand? && CommandToken(sketch) == Some("see") ==>
        files == old(files) && path == SeePath(sketch).value && fresh(view) &&
        view.data == FromFile(files[path]) && firstLine == 0
      ensures op.ExecuteCommand? && CommandToken(sketch) == Some("put") ==>
        files == old(files)[path := view.data] && view == old(view) && view.data == old(view.data) &&
        path == old(path) && firstLine == old(firstLine)
      ensures op.ExecuteCommand? && CommandToken(sketch) !in {Some("see"), Some("put")} ==>
        files == old(files) && view == old(view) && view.data == old(view.data) &&
        path == old(path) && firstLine == old(firstLine)
      // AddToSketch(c): the mark moves, the sketch follows the reported edit, the filter follows the sketch.
      ensures op.AddToSketch? ==>
        sketch == SketchAfter(old(sketch), EditFor(op.c, old(mark.address.column)), op.c) &&
        isDirty == (old(isDirty) || EditFor(op.c, old(mark.address.column)) == Wash) &&
        mark.index == old(mark.index) && mark.address == AddressAfter(op.c, old(mark.address), view.data)
      ensures op.AddToSketch? && mode == Filter ==> filterRegions == SelectedRegions(sketch, view.data)
      ensures op.AddToSketch? && mode != Filter ==> filterRegions == old(filterRegions)
      // AddToView(c): the view is edited at the mark's index.
      ensures op.AddToView? && mark.index.offset.None? ==> view.data == old(view.data)
      ensures op.AddToView? && mark.index.offset.Some? && op.c == BACKSPACE ==>
        view.data == Removed(old(view.data), mark.index.offset.value)
      ensures op.AddToView? && mark.index.offset.Some? && op.c != BACKSPACE ==>
        view.data == Inserted(old(view.data), mark.index.offset.value - 1, op.c)
      ensures op.AddToView? ==> !isDirty
      // ChangeMode(m): the mode, the reset of the mark and the sketch.
      ensures op.ChangeMode? ==> mode == op.mode
      ensures op.ChangeMode? && op.mode in {Command, Filter} ==>
        mark.index == StartIndex && mark.address == Address(0, 0)
      ensures op.ChangeMode? && op.mode !in {Command, Filter} ==>
        mark.index == old(mark.index) && mark.address == old(mark.address)
      ensures op.ChangeMode? && op.mode in {Command, Filter, Edit} ==> sketch == []
      ensures op.ChangeMode? && op.mode !in {Command, Filter, Edit} ==> sketch == old(sketch)
      // Scrolling.
      ensures op.ScrollDown? ==> firstLine == ScrollDownLine(old(firstLine), windowHeight, |Lines(view.data)|)
      ensures op.ScrollUp? ==> firstLine == ScrollUpLine(old(firstLine), windowHeight)
      // SetMark(edge): a new mark at that edge of the first filter region.
      ensures op.SetMark? ==>
        fresh(mark) && mark.address == EdgeAddress(filterRegions[0], op.edge, view.data) &&
        mark.index == IndexWithAddress(mark.address, view.data)
    {
      notice := None;
      match op {
        case ExecuteCommand => notice := ExecuteCommand();
        case AddToSketch(c) => AddToSketch(c);
        case AddToView(c) => AddToView(c);
        case ChangeMode(m) => ChangeMode(m);
        case ScrollDown => ScrollDown();
        case ScrollUp => ScrollUp();
        case SetMark(edge) => SetMark(edge);
      }
    }
  }

  /**
   * `.` in Display mode and then the keys of a command, each key turned into its operation by
   * `Mode::handle_input` and performed by `Paper::operate`. The reset put the mark at offset
   * 0 and typing leaves the index there, so in a debug build the dropped `x - 1` of the next
   * BACKSPACE panics (`MinusAssignDebug` cannot be called); with the `-=` of this model that
   * BACKSPACE is allowed as soon as one key has been typed.
   */
  method TypeCommand(p: Paper, keys: string)
    requires p.mode == Display
    requires forall k | 0 <= k < |keys| :: keys[k] != BACKSPACE && keys[k] != ENTER && keys[k] != ESC
    modifies p, p.view, p.mark
    ensures p.mode == Command && p.sketch == keys
    ensures p.mark.index == StartIndex && !DebugMinusDefined(p.mark.index, 1)
    ensures p.SketchKeyAllowed(BACKSPACE) <==> keys != []
  {
    var ops := HandleInput(p.mode, Some('.'));
    var notice := p.Operate(ops[0]);
    var i := 0;
    while i < |keys|
      invariant i <= |keys|
      invariant p.mode == Command && p.sketch == keys[..i]
      invariant p.mark == old(p.mark) && p.view == old(p.view)
      invariant p.mark.index == StartIndex && p.mark.address == Address(0, i)
    {
      ops := HandleInput(p.mode, Some(keys[i]));
      assert ops == [AddToSketch(keys[i])];
      notice := p.Operate(ops[0]);
      assert keys[..i + 1] == keys[..i] + [keys[i]];
      i := i + 1;
    }
    assert keys[..i] == keys;
  }
}
