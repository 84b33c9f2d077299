/**
 * Buffer coordinates (src/lib.rs): an `Address` is a row and a column on the view, counted
 * from 0; an `Index` is an offset into the view's text, or no offset at all; a `Region` is a
 * start address with a length that may run to the end of the line.
 */
module Coordinates {
  import opened Wrappers
  import opened Keys
  import opened Text

  datatype Address = Address(row: nat, column: nat)

  /** A number of characters, or the rest of the line (`EOL`). */
  datatype Length = Chars(count: nat) | Eol

  datatype Region = Region(start: Address, length: Length)

  /** `Region::line`: the whole of row `row`. */
  function LineRegion(row: nat): Region {
    Region(Address(row, 0), Eol)
  }

  /** An offset into the text of a view, or `None` where no such place exists. */
  datatype Index = Index(offset: Option<nat>)

  /** `Index::default`: the start of the text. */
  const StartIndex: Index := Index(Some(0))

  /** `Index::with_row`: the offset just past the `row`-th '\n'; row 0 starts at offset 0. */
  function IndexWithRow(row: nat, data: string): (r: Index)
    ensures row == 0 ==> r == StartIndex
    ensures r.offset.Some? ==> r.offset.value <= |data|
  {
    if row == 0 then StartIndex
    else
      var newlines := MatchIndices(data, [ENTER]);
      Index(if row - 1 < |newlines| then Some(newlines[row - 1] + 1) else None)
  }

  /** `Index + n`: moves a real offset by `n` and carries `None` through. */
  function Plus(index: Index, n: nat): (r: Index)
    ensures index.offset.None? ==> r.offset.None?
    ensures index.offset.Some? ==> r.offset == Some(index.offset.value + n)
  {
    match index.offset
    case Some(x) => Index(Some(x + n))
    case None => index
  }

  /** Moving by `a` and then by `b` is moving by `a + b`; moving by 0 changes nothing. */
  lemma PlusComposes(index: Index, a: nat, b: nat)
    ensures Plus(Plus(index, a), b) == Plus(index, a + b)
    ensures Plus(index, 0) == index
  {
  }

  /**
   * `index += n` as lib.rs writes it: the offset is mapped and the mapped value dropped, so
   * the index keeps its value.
   */
  function PlusAssign(index: Index, n: nat): (r: Index)
    ensures r == index
  {
    index
  }

  /** Whether a debug build can evaluate the dropped `x - n` of `index -= n` without a panic. */
  predicate DebugMinusDefined(index: Index, n: nat) {
    index.offset.Some? ==> n <= index.offset.value
  }

  /**
   * `index -= n` as lib.rs writes it, in a debug build: the closure still computes `x - n`,
   * which panics below 0, and then its value is dropped.
   */
  function MinusAssignDebug(index: Index, n: nat): (r: Index)
    requires DebugMinusDefined(index, n)
    ensures r == index
  {
    index
  }

  /**
   * `index -= n` with the dropped subtraction unable to panic (as in a release build, where
   * it wraps): like `+=`, it keeps the index as it was, for every index.
   */
  function MinusAssign(index: Index, n: nat): (r: Index)
    ensures r == index
  {
    index
  }

  /** The compound assignments disagree with `+` on every real offset and positive step. */
  lemma PlusAssignIsNotPlus(index: Index, n: nat)
    requires index.offset.Some? && n > 0
    ensures PlusAssign(index, n) != Plus(index, n)
    ensures MinusAssign(index, n) != Plus(index, n)
  {
  }

  /** `Index::with_address`: the row's start offset moved by the column. */
  function IndexWithAddress(address: Address, data: string): (r: Index)
    ensures address.row == 0 ==> r == Index(Some(address.column))
    ensures r.offset.Some? <==> IndexWithRow(address.row, data).offset.Some?
    ensures r.offset.Some? ==> address.column <= r.offset.value
  {
    Plus(IndexWithRow(address.row, data), address.column)
  }

  /**
   * Row 0 starts at offset 0. A later row `r` has an offset exactly when the text holds at
   * least `r` newlines, and that offset sits just past the `r`-th of them.
   */
  lemma IndexWithRowCounts(row: nat, data: string)
    ensures row == 0 ==> IndexWithRow(row, data) == StartIndex
    ensures row > 0 ==> (IndexWithRow(row, data).offset.Some? <==> row <= multiset(data)['\n'])
    ensures row > 0 && IndexWithRow(row, data).offset.Some? ==>
      var k := IndexWithRow(row, data).offset.value;
      0 < k <= |data| && data[k - 1] == '\n' && multiset(data[..k - 1])['\n'] == row - 1
  {
    if row > 0 {
      assert [ENTER] == "\n";
      assert data[0..] == data;
      NewlineMatches(data, 0);
      NewlineTotal(data, 0);
      if row - 1 < |NewlinesFrom(data, 0)| {
        NewlineRank(data, 0, row - 1);
      }
    }
  }

  /** When no '\n' lies before the one at `p`, the first '\n' listed from `i` is `p`. */
  lemma {:induction false} SkipToNewline(data: string, i: nat, p: nat)
    requires i <= p < |data| && data[p] == '\n'
    requires forall j :: i <= j < p ==> data[j] != '\n'
    ensures NewlinesFrom(data, i) == [p] + NewlinesFrom(data, p + 1)
    decreases p - i
  {
    if i < p {
      SkipToNewline(data, i + 1, p);
    }
  }

  /** The position of the `r`-th '\n' (counted from 0) at or after `i`, or `|data|` when there is none. */
  function NthNewline(data: string, i: nat, r: nat): (k: nat)
    requires i <= |data|
    ensures i <= k <= |data|
    decreases r
  {
    var p := NextNewline(data, i);
    if p == |data| || r == 0 then p else NthNewline(data, p + 1, r - 1)
  }

  /** Before the last of the lines from `i`, the `r`-th '\n' ends line `r`. */
  lemma {:induction false} NthNewlineEndsLine(data: string, i: nat, r: nat)
    requires i <= |data| && r + 1 < |LinesFrom(data, i)|
    ensures var k := NthNewline(data, i, r);
      k < |data| && LinesFrom(data, k + 1) == LinesFrom(data, i)[r + 1..]
    decreases r
  {
    var p := NextNewline(data, i);
    var ls := LinesFrom(data, i);
    LaterLines(data, i);
    if r > 0 {
      NthNewlineEndsLine(data, p + 1, r - 1);
      assert ls[1..][r..] == ls[r + 1..];
    }
  }

  /** Where the `r`-th '\n' exists, it is the `r`-th position listed. */
  lemma {:induction false} NthNewlineFound(data: string, i: nat, r: nat)
    requires i <= |data| && NthNewline(data, i, r) < |data|
    ensures r < |NewlinesFrom(data, i)|
    ensures NewlinesFrom(data, i)[r] == NthNewline(data, i, r)
    decreases r
  {
    var p := NextNewline(data, i);
    SkipToNewline(data, i, p);
    if r > 0 {
      NthNewlineFound(data, p + 1, r - 1);
    }
  }

  /** The offset of row `row` is where that row, and all the lines after it, begin. */
  lemma RowStartsLine(row: nat, data: string)
    requires row < |Lines(data)|
    ensures IndexWithRow(row, data).offset.Some?
    ensures var k := IndexWithRow(row, data).offset.value;
      k <= |data| && LinesFrom(data, k) == Lines(data)[row..]
  {
    if row > 0 {
      assert [ENTER] == "\n";
      NthNewlineEndsLine(data, 0, row - 1);
      NthNewlineFound(data, 0, row - 1);
      NewlineMatches(data, 0);
    }
  }

  /**
   * What an address means: for a column within an existing line, the index of the address
   * is the offset where the rest of that line, from the column on, appears in the text,
   * followed by '\n' or by the end of the text.
   */
  lemma AddressOffset(address: Address, data: string)
    requires address.row < |Lines(data)|
    requires address.column <= |Lines(data)[address.row]|
    ensures IndexWithAddress(address, data).offset.Some?
    ensures var k := IndexWithAddress(address, data).offset.value;
      var line := Lines(data)[address.row];
      var end := k + |line| - address.column;
      '\n' !in line && end <= |data| && data[k..end] == line[address.column..] &&
      (end == |data| || data[end] == '\n')
  {
    RowStartsLine(address.row, data);
    var k0 := IndexWithRow(address.row, data).offset.value;
    assert Lines(data)[address.row] == LinesFrom(data, k0)[0];
    LineTail(data, k0, address.column);
  }

  /** The first line from `k0`, read from column `column` on, and what ends it. */
  lemma LineTail(data: string, k0: nat, column: nat)
    requires k0 < |data| && column <= |LinesFrom(data, k0)[0]|
    ensures var line := LinesFrom(data, k0)[0];
      var end := k0 + |line|;
      '\n' !in line && end <= |data| && data[k0 + column..end] == line[column..] &&
      (end == |data| || data[end] == '\n')
  {
    FirstLine(data, k0);
    var p := NextNewline(data, k0);
    var line := data[k0..p];
    assert data[k0 + column..p] == line[column..];
  }

  /**
   * Typing moves a mark's address one column right; the index belonging to the new address
   * is one past the old one, so an index left unchanged no longer belongs to its address.
   */
  lemma StaleAfterColumnStep(address: Address, data: string)
    requires address.row < |Lines(data)|
    ensures IndexWithAddress(Address(address.row, address.column + 1), data)
      == Plus(IndexWithAddress(address, data), 1)
    ensures IndexWithAddress(Address(address.row, address.column + 1), data)
      != IndexWithAddress(address, data)
  {
    RowStartsLine(address.row, data);
  }
}
