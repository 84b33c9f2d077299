/**
 * The modes of the editor as src/lib.rs defines them: `Mode::handle_input`, which turns a key
 * into operations, and `Mode::enhance`, which evaluates the filter grammar of the sketch.
 */
module PaperMode {
  import opened Wrappers
  import opened Keys
  import opened Text
  import opened Coordinates
  import opened Marks

  datatype Mode = Display | Command | Filter | Action | Edit

  /** `Mode::default`. */
  const DefaultMode: Mode := Display

  /** The procedures a key asks the application to run. */
  datatype Operation =
    | ChangeMode(mode: Mode)
    | ExecuteCommand
    | ScrollDown
    | ScrollUp
    | AddToSketch(c: char)
    | AddToView(c: char)
    | SetMark(edge: Edge)

  datatype Enhancement = FilterRegions(regions: seq<Region>)

  datatype Notice = Quit

  /** The mode changes the key handling can ask for. */
  predicate Legal(from: Mode, to: Mode) {
    match from
    case Display => to == Command || to == Filter
    case Command => to == Display
    case Filter => to == Action || to == Display
    case Action => to == Edit || to == Display
    case Edit => to == Display
  }

  /** `Mode::handle_input`: the operations for one key, or for no key at all, in order. */
  function HandleInput(mode: Mode, input: Option<char>): (ops: seq<Operation>)
    ensures input.None? ==> ops == []
    ensures forall j :: 0 <= j < |ops| && ops[j].ChangeMode? ==> Legal(mode, ops[j].mode)
    ensures input.Some? && input.value == ESC && mode != Display ==> ops == [ChangeMode(Display)]
    ensures input.Some? && mode == Command && input.value == ENTER ==>
      ops == [ExecuteCommand, ChangeMode(Display)]
    ensures input.Some? && mode == Edit && input.value != ESC ==>
      ops == [AddToSketch(input.value), AddToView(input.value)]
    ensures input.Some? && mode in {Command, Filter} && input.value != ENTER && input.value != ESC ==>
      ops == [AddToSketch(input.value)]
    ensures input == Some('.') && mode == Display ==> ops == [ChangeMode(Command)]
  {
    match input
    case None => []
    case Some(c) =>
      match mode
      case Display =>
        if c == '.' then [ChangeMode(Command)]
        else if c == '#' || c == '/' then [ChangeMode(Filter), AddToSketch(c)]
        else if c == 'j' then [ScrollDown]
        else if c == 'k' then [ScrollUp]
        else []
      case Command =>
        if c == ENTER then [ExecuteCommand, ChangeMode(Display)]
        else if c == ESC then [ChangeMode(Display)]
        else [AddToSketch(c)]
      case Filter =>
        if c == ENTER then [ChangeMode(Action)]
        else if c == ESC then [ChangeMode(Display)]
        else [AddToSketch(c)]
      case Action =>
        if c == ESC then [ChangeMode(Display)]
        else if c == 'i' then [SetMark(Start), ChangeMode(Edit)]
        else if c == 'I' then [SetMark(End), ChangeMode(Edit)]
        else []
      case Edit =>
        if c == ESC then [ChangeMode(Display)]
        else [AddToSketch(c), AddToView(c)]
  }

  /** The mode the last `ChangeMode` of `ops` selects, or `mode` when there is none. */
  function ModeAfter(mode: Mode, ops: seq<Operation>): Mode
    decreases |ops|
  {
    if ops == [] then mode
    else if ops[|ops| - 1].ChangeMode? then ops[|ops| - 1].mode
    else ModeAfter(mode, ops[..|ops| - 1])
  }

  /**
   * Every mode can be reached from Display: '.' leads to Command, '/' or '#' to Filter,
   * ENTER from Filter to Action, 'i' or 'I' from Action to Edit; ESC leads back from each.
   */
  lemma {:induction false} ModesReachable()
    ensures ModeAfter(Display, HandleInput(Display, Some('.'))) == Command
    ensures ModeAfter(Display, HandleInput(Display, Some('/'))) == Filter
    ensures ModeAfter(Filter, HandleInput(Filter, Some(ENTER))) == Action
    ensures ModeAfter(Action, HandleInput(Action, Some('i'))) == Edit
    ensures ModeAfter(Action, HandleInput(Action, Some('I'))) == Edit
    ensures forall m :: m != Display ==> ModeAfter(m, HandleInput(m, Some(ESC))) == Display
  {
    assert HandleInput(Display, Some('/')) == [ChangeMode(Filter), AddToSketch('/')];
    assert ModeAfter(Display, [ChangeMode(Filter)]) == Filter;
    assert HandleInput(Action, Some('i')) == [SetMark(Start), ChangeMode(Edit)];
    assert HandleInput(Action, Some('I')) == [SetMark(End), ChangeMode(Edit)];
  }

  /** A key leaves the mode as it was, or moves it along a legal transition. */
  lemma {:induction false} ModeAfterLegal(mode: Mode, ops: seq<Operation>)
    requires forall j :: 0 <= j < |ops| && ops[j].ChangeMode? ==> Legal(mode, ops[j].mode)
    ensures ModeAfter(mode, ops) == mode || Legal(mode, ModeAfter(mode, ops))
    decreases |ops|
  {
    if ops != [] && !ops[|ops| - 1].ChangeMode? {
      ModeAfterLegal(mode, ops[..|ops| - 1]);
    }
  }

  // The filter grammar `#(?P<line>\d+)|/(?P<key>.+)`, searched for anywhere in the sketch.

  /** `#` followed by a digit starts at `p`: the first alternative matches there. */
  predicate HashAt(s: string, p: nat) {
    p + 1 < |s| && s[p] == '#' && IsDigit(s[p + 1])
  }

  /** `/` followed by a character other than '\n' starts at `p`: the second alternative matches. */
  predicate SlashAt(s: string, p: nat) {
    p + 1 < |s| && s[p] == '/' && s[p + 1] != '\n'
  }

  /** `p` is the leftmost position at or after `i` where the grammar matches. */
  predicate Leftmost(s: string, i: nat, p: nat) {
    i <= p < |s| && (HashAt(s, p) || SlashAt(s, p)) &&
    forall q :: i <= q < p ==> !HashAt(s, q) && !SlashAt(s, q)
  }

  /** The end of the run of digits starting at `i` (`\d+` is greedy). */
  function DigitsEnd(s: string, i: nat): (j: nat)
    requires i <= |s|
    ensures i <= j <= |s|
    ensures forall k :: i <= k < j ==> IsDigit(s[k])
    ensures j < |s| ==> !IsDigit(s[j])
    decreases |s| - i
  {
    if i < |s| && IsDigit(s[i]) then DigitsEnd(s, i + 1) else i
  }

  /** The named group that took part in the match, with its text. */
  datatype Capture = NoCapture | LineCapture(digits: string) | KeyCapture(key: string)

  /** The captures of the first match at or after `i`. */
  function CaptureFrom(s: string, i: nat): (c: Capture)
    requires i <= |s|
    ensures c.LineCapture? ==> forall k :: 0 <= k < |c.digits| ==> IsDigit(c.digits[k])
    ensures c.KeyCapture? ==> forall k :: 0 <= k < |c.key| ==> c.key[k] != '\n'
    decreases |s| - i
  {
    if i == |s| then NoCapture
    else if HashAt(s, i) then LineCapture(s[i + 1..DigitsEnd(s, i + 1)])
    else if SlashAt(s, i) then KeyCapture(s[i + 1..NextNewline(s, i + 1)])
    else CaptureFrom(s, i + 1)
  }

  /**
   * The search finds nothing exactly when neither alternative matches anywhere; otherwise
   * it reports the leftmost match, preferring `#` digits to `/` there: the line group holds
   * the whole run of digits, the key group the rest of the line (`.` stops at '\n').
   */
  lemma CaptureSpec(s: string, i: nat)
    requires i <= |s|
    ensures CaptureFrom(s, i).NoCapture? <==> forall p :: i <= p < |s| ==> !HashAt(s, p) && !SlashAt(s, p)
    ensures forall p: nat :: Leftmost(s, i, p) && HashAt(s, p) ==>
      CaptureFrom(s, i) == LineCapture(s[p + 1..DigitsEnd(s, p + 1)])
    ensures forall p: nat :: Leftmost(s, i, p) && !HashAt(s, p) ==>
      CaptureFrom(s, i) == KeyCapture(s[p + 1..NextNewline(s, p + 1)])
  {
    CaptureNone(s, i);
    forall p: nat | Leftmost(s, i, p) ensures
      (HashAt(s, p) ==> CaptureFrom(s, i) == LineCapture(s[p + 1..DigitsEnd(s, p + 1)])) &&
      (!HashAt(s, p) ==> CaptureFrom(s, i) == KeyCapture(s[p + 1..NextNewline(s, p + 1)]))
    {
      CaptureLeftmost(s, i, p);
    }
  }

  /** The search finds nothing exactly when neither alternative matches at or after `i`. */
  lemma {:induction false} CaptureNone(s: string, i: nat)
    requires i <= |s|
    ensures CaptureFrom(s, i).NoCapture? <==> forall p :: i <= p < |s| ==> !HashAt(s, p) && !SlashAt(s, p)
    decreases |s| - i
  {
    if i < |s| && !HashAt(s, i) && !SlashAt(s, i) {
      CaptureNone(s, i + 1);
    }
  }

  /** The search reports the match at the leftmost position `p` where the grammar matches. */
  lemma {:induction false} CaptureLeftmost(s: string, i: nat, p: nat)
    requires Leftmost(s, i, p)
    ensures HashAt(s, p) ==> CaptureFrom(s, i) == LineCapture(s[p + 1..DigitsEnd(s, p + 1)])
    ensures !HashAt(s, p) ==> CaptureFrom(s, i) == KeyCapture(s[p + 1..NextNewline(s, p + 1)])
    decreases p - i
  {
    if i < p {
      assert !HashAt(s, i) && !SlashAt(s, i);
      CaptureLeftmost(s, i + 1, p);
    }
  }

  /** The line group is a non-empty run of ASCII digits, the key group a non-empty line piece. */
  lemma {:induction false} CaptureShape(s: string, i: nat)
    requires i <= |s|
    ensures CaptureFrom(s, i).LineCapture? ==>
      var d := CaptureFrom(s, i).digits; |d| > 0 && forall k :: 0 <= k < |d| ==> IsDigit(d[k])
    ensures CaptureFrom(s, i).KeyCapture? ==>
      var key := CaptureFrom(s, i).key; |key| > 0 && '\n' !in key
    decreases |s| - i
  {
    if i < |s| {
      if HashAt(s, i) {
        var d := s[i + 1..DigitsEnd(s, i + 1)];
        assert forall k :: 0 <= k < |d| ==> d[k] == s[i + 1 + k];
      } else if SlashAt(s, i) {
        var key := s[i + 1..NextNewline(s, i + 1)];
        assert forall k :: 0 <= k < |key| ==> key[k] == s[i + 1 + k];
      } else {
        CaptureShape(s, i + 1);
      }
    }
  }

  /** The largest value of `usize` on a 64-bit target. */
  const USIZE_MAX: nat := 0xFFFF_FFFF_FFFF_FFFF

  /** The decimal value of a string of ASCII digits. */
  function DigitsValue(d: string): nat
    decreases |d|
  {
    if d == [] then 0
    else
      var last := d[|d| - 1];
      DigitsValue(d[..|d| - 1]) * 10 + (if IsDigit(last) then last as nat - '0' as nat else 0)
  }

  /** `str::parse::<usize>` on a run of ASCII digits: the value, or an error when it overflows. */
  function ParseUsize(d: string): (r: Option<nat>)
    ensures r.Some? ==> r.value <= USIZE_MAX
    ensures r.Some? <==> DigitsValue(d) <= USIZE_MAX
    ensures r.Some? ==> r.value == DigitsValue(d)
  {
    var v := DigitsValue(d);
    if v <= USIZE_MAX then Some(v) else None
  }

  /** Leading zeros do not change the value, so `#007` selects what `#7` selects. */
  lemma {:induction false} LeadingZero(d: string)
    ensures DigitsValue("0" + d) == DigitsValue(d)
    ensures ParseUsize("0" + d) == ParseUsize(d)
    decreases |d|
  {
    if d != [] {
      var z := "0" + d;
      assert z[..|z| - 1] == "0" + d[..|d| - 1] && z[|z| - 1] == d[|d| - 1];
      LeadingZero(d[..|d| - 1]);
    }
  }

  /** The decimal numeral of `n` (`n.to_string()`), used to state what `#n` selects. */
  function Decimal(n: nat): (d: string)
    ensures |d| > 0 && forall k :: 0 <= k < |d| ==> IsDigit(d[k])
    decreases n
  {
    var last := ['0' + (n % 10) as char];
    if n < 10 then last else Decimal(n / 10) + last
  }

  /** Parsing the numeral of a value in range gives the value back. */
  lemma {:induction false} ParseDecimal(n: nat)
    ensures DigitsValue(Decimal(n)) == n
    ensures n <= USIZE_MAX ==> ParseUsize(Decimal(n)) == Some(n)
    decreases n
  {
    var d := Decimal(n);
    if n >= 10 {
      ParseDecimal(n / 10);
      assert d[..|d| - 1] == Decimal(n / 10);
    }
  }

  /** `#0` would ask for row `0 - 1`: the subtraction overflows and the source panics. */
  predicate SelectsLineZero(sketch: string) {
    var c := CaptureFrom(sketch, 0);
    c.LineCapture? && ParseUsize(c.digits) == Some(0)
  }

  /** The regions of one line: one per occurrence `match_indices` finds, with the key's length. */
  function RowRegions(row: nat, line: string, key: string): seq<Region>
    requires |key| > 0
  {
    var ms := MatchIndices(line, key);
    seq(|ms|, j requires 0 <= j < |ms| => Region(Address(row, ms[j]), Chars(|key|)))
  }

  /** The regions of the first `n` lines, row after row. */
  function KeyRegions(lines: seq<string>, key: string, n: nat): seq<Region>
    requires |key| > 0 && n <= |lines|
  {
    if n == 0 then [] else KeyRegions(lines, key, n - 1) + RowRegions(n - 1, lines[n - 1], key)
  }

  /** The regions the filter in `sketch` selects in the text `data`. */
  function SelectedRegions(sketch: string, data: string): (regions: seq<Region>)
    requires !SelectsLineZero(sketch)
    ensures !CaptureFrom(sketch, 0).KeyCapture? ==> |regions| <= 1
    ensures CaptureFrom(sketch, 0).LineCapture? && regions != [] ==>
      regions[0].start.column == 0 && regions[0].length == Eol
  {
    CaptureShape(sketch, 0);
    match CaptureFrom(sketch, 0)
    case NoCapture => []
    case LineCapture(d) =>
      (match ParseUsize(d)
       case None => []
       case Some(v) => [LineRegion(v - 1)])
    case KeyCapture(key) =>
      var lines := Lines(data);
      KeyRegions(lines, key, |lines|)
  }

  /**
   * `Mode::enhance`: nothing outside Filter mode; in Filter mode, the regions the sketch
   * selects, built as the source builds them, line by line and match by match.
   */
  method Enhance(mode: Mode, sketch: string, data: string) returns (r: Option<Enhancement>)
    requires mode == Filter ==> !SelectsLineZero(sketch)
    ensures mode != Filter ==> r == None
    ensures mode == Filter ==> r == Some(FilterRegions(SelectedRegions(sketch, data)))
  {
    if mode != Filter {
      return None;
    }
    var regions: seq<Region> := [];
    CaptureShape(sketch, 0);
    match CaptureFrom(sketch, 0) {
      case NoCapture =>
      case LineCapture(d) =>
        match ParseUsize(d) {
          case None =>
          case Some(v) => regions := regions + [LineRegion(v - 1)];
        }
        assert regions == SelectedRegions(sketch, data);
      case KeyCapture(key) =>
        var lines := Lines(data);
        var row := 0;
        while row < |lines|
          invariant row <= |lines|
          invariant regions == KeyRegions(lines, key, row)
        {
          var ms := MatchIndices(lines[row], key);
          var j := 0;
          while j < |ms|
            invariant j <= |ms|
            invariant regions == KeyRegions(lines, key, row) + RowRegions(row, lines[row], key)[..j]
          {
            regions := regions + [Region(Address(row, ms[j]), Chars(|key|))];
            j := j + 1;
          }
          assert RowRegions(row, lines[row], key)[..j] == RowRegions(row, lines[row], key);
          row := row + 1;
        }
        assert regions == SelectedRegions(sketch, data);
    }
    r := Some(FilterRegions(regions));
  }

  /** Every region on a row is an occurrence of the key on that row, of the key's length. */
  lemma RowRegionsSound(row: nat, line: string, key: string)
    requires |key| > 0
    ensures forall r :: r in RowRegions(row, line, key) ==>
      r.start.row == row && r.length == Chars(|key|) && OccursAt(line, key, r.start.column)
  {
    MatchesFromSound(line, key, 0);
  }

  /** Every region lies on one of the first `n` lines and covers an occurrence of the key there. */
  lemma {:induction false} KeyRegionsSound(lines: seq<string>, key: string, n: nat)
    requires |key| > 0 && n <= |lines|
    ensures forall r :: r in KeyRegions(lines, key, n) ==>
      r.start.row < n && r.length == Chars(|key|) && OccursAt(lines[r.start.row], key, r.start.column)
  {
    if n > 0 {
      KeyRegionsSound(lines, key, n - 1);
      RowRegionsSound(n - 1, lines[n - 1], key);
    }
  }

  /** Region `a` lies before region `b`: on an earlier row, or further left without overlap. */
  predicate Before(a: Region, b: Region, width: nat) {
    a.start.row < b.start.row ||
    (a.start.row == b.start.row && a.start.column + width <= b.start.column)
  }

  /** Each region of `rs` lies before every later one. */
  predicate Ordered(rs: seq<Region>, width: nat) {
    forall a, b :: 0 <= a < b < |rs| ==> Before(rs[a], rs[b], width)
  }

  /** Within a row, the regions run left to right without overlap. */
  lemma RowRegionsOrdered(row: nat, line: string, key: string)
    requires |key| > 0
    ensures Ordered(RowRegions(row, line, key), |key|)
  {
    MatchesFromSpec(line, key, 0);
    var ms := MatchIndices(line, key);
    var rs := RowRegions(row, line, key);
    assert Spaced(ms, |key|);
    forall a, b | 0 <= a < b < |rs| ensures Before(rs[a], rs[b], |key|) {
      assert rs[a].start == Address(row, ms[a]) && rs[b].start == Address(row, ms[b]);
    }
  }

  /** Ordered regions followed by ordered regions on later rows stay ordered. */
  lemma OrderedAppend(front: seq<Region>, last: seq<Region>, width: nat)
    requires Ordered(front, width) && Ordered(last, width)
    requires forall x, y :: x in front && y in last ==> x.start.row < y.start.row
    ensures Ordered(front + last, width)
  {
    var rs := front + last;
    forall a, b | 0 <= a < b < |rs| ensures Before(rs[a], rs[b], width) {
      if b < |front| {
        assert rs[a] == front[a] && rs[b] == front[b];
      } else if a < |front| {
        assert rs[a] == front[a] && front[a] in front;
        assert rs[b] == last[b - |front|] && last[b - |front|] in last;
      } else {
        assert rs[a] == last[a - |front|] && rs[b] == last[b - |front|];
      }
    }
  }

  /** The regions come row by row, and left to right without overlap within a row. */
  lemma {:induction false} KeyRegionsOrdered(lines: seq<string>, key: string, n: nat)
    requires |key| > 0 && n <= |lines|
    ensures Ordered(KeyRegions(lines, key, n), |key|)
  {
    if n > 0 {
      KeyRegionsOrdered(lines, key, n - 1);
      KeyRegionsSound(lines, key, n - 1);
      RowRegionsSound(n - 1, lines[n - 1], key);
      RowRegionsOrdered(n - 1, lines[n - 1], key);
      OrderedAppend(KeyRegions(lines, key, n - 1), RowRegions(n - 1, lines[n - 1], key), |key|);
    }
  }

  /**
   * No occurrence of the key is missed: each one lies inside a selected region on its row
   * (an occurrence is skipped only when it overlaps one found further left).
   */
  lemma {:induction false} KeyRegionsComplete(lines: seq<string>, key: string, n: nat, row: nat, p: nat)
    requires |key| > 0 && n <= |lines| && row < n && OccursAt(lines[row], key, p)
    ensures exists r :: (r in KeyRegions(lines, key, n) && r.start.row == row &&
                         r.start.column <= p < r.start.column + |key|)
  {
    var r := KeyRegionCovering(lines, key, n, row, p);
  }

  /** The region of the first `n` lines that covers the occurrence at `p` on `row`. */
  lemma {:induction false} KeyRegionCovering(lines: seq<string>, key: string, n: nat, row: nat, p: nat)
      returns (r: Region)
    requires |key| > 0 && n <= |lines| && row < n && OccursAt(lines[row], key, p)
    ensures r in KeyRegions(lines, key, n) && r.start.row == row
    ensures r.start.column <= p < r.start.column + |key|
  {
    if row < n - 1 {
      r := KeyRegionCovering(lines, key, n - 1, row, p);
    } else {
      r := RowRegionCovering(row, lines[row], key, p);
    }
    assert KeyRegions(lines, key, n) == KeyRegions(lines, key, n - 1) + RowRegions(n - 1, lines[n - 1], key);
  }

  /** The region of one line that covers the occurrence at `p`. */
  lemma RowRegionCovering(row: nat, line: string, key: string, p: nat) returns (r: Region)
    requires |key| > 0 && OccursAt(line, key, p)
    ensures r in RowRegions(row, line, key) && r.start.row == row
    ensures r.start.column <= p < r.start.column + |key|
  {
    MatchesFromSpec(line, key, 0);
    var ms := MatchIndices(line, key);
    assert Covered(ms, key, p);
    var j :| 0 <= j < |ms| && ms[j] <= p < ms[j] + |key|;
    r := RowRegions(row, line, key)[j];
  }

  /** A sketch in which neither `#` digits nor `/` text occur selects nothing. */
  lemma NoFilterSelectsNothing(sketch: string, data: string)
    requires forall p :: 0 <= p < |sketch| ==> !HashAt(sketch, p) && !SlashAt(sketch, p)
    ensures !SelectsLineZero(sketch) && SelectedRegions(sketch, data) == []
  {
    CaptureSpec(sketch, 0);
  }

  /** `#n` with `n` from 1 up to `usize::MAX` selects row `n - 1` and nothing else. */
  lemma LineFilter(n: nat, data: string)
    requires 1 <= n <= USIZE_MAX
    ensures !SelectsLineZero("#" + Decimal(n))
    ensures SelectedRegions("#" + Decimal(n), data) == [LineRegion(n - 1)]
  {
    var s := "#" + Decimal(n);
    assert HashAt(s, 0);
    assert Leftmost(s, 0, 0);
    CaptureSpec(s, 0);
    assert DigitsEnd(s, 1) == |s|;
    assert s[1..|s|] == Decimal(n);
    ParseDecimal(n);
  }

  /** The search in `/key`, for a key without '\n', captures the whole key. */
  lemma SlashKeyCapture(key: string)
    requires |key| > 0 && '\n' !in key
    ensures CaptureFrom("/" + key, 0) == KeyCapture(key)
  {
    var s := "/" + key;
    assert s[1..] == key;
    assert s[1] == key[0] && key[0] in key;
    assert SlashAt(s, 0) && !HashAt(s, 0);
    LineToEnd(s, 1);
  }

  /**
   * `/key`, for a key without '\n', selects the occurrences of the key in every line of the
   * text, in the order of the loops of `Mode::enhance`.
   */
  lemma KeyFilter(key: string, data: string)
    requires |key| > 0 && '\n' !in key
    ensures !SelectsLineZero("/" + key)
    ensures SelectedRegions("/" + key, data) == KeyRegions(Lines(data), key, |Lines(data)|)
  {
    SlashKeyCapture(key);
  }
}
