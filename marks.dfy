/** The cursor of the editor: `Mark`, `Marker`, `Edge` and `Edit` in src/lib.rs. */
module Marks {
  import opened Wrappers
  import opened Keys
  import opened Text
  import opened Coordinates
  import opened Views

  /** The first or the last address of a region. */
  datatype Edge = Start | End

  /** What a key typed at the mark asks of the sketch and the view. */
  datatype Edit =
    | Backspace  // remove the previous character of the sketch
    | Wash       // clear the sketch and redraw the view
    | Add        // add the character

  /** The edit `Mark::add` reports for key `c` typed at column `column`. */
  function EditFor(c: char, column: nat): (e: Edit)
    ensures e == Wash <==> c == ENTER || (c == BACKSPACE && column == 0)
    ensures e == Backspace <==> c == BACKSPACE && column > 0
    ensures e == Add <==> c != BACKSPACE && c != ENTER
  {
    if c == BACKSPACE then (if column == 0 then Wash else Backspace)
    else if c == ENTER then Wash
    else Add
  }

  /**
   * The address `Mark::add` moves to: an ordinary key steps one column right, ENTER goes to
   * the start of the next row, BACKSPACE steps one column left or, at column 0, to the end
   * of the previous row.
   */
  function AddressAfter(c: char, address: Address, data: string): (r: Address)
    requires c == BACKSPACE && address.column == 0 ==> 0 < address.row <= |Lines(data)|
    ensures c != BACKSPACE && c != ENTER ==> r == Address(address.row, address.column + 1)
    ensures c == ENTER ==> r == Address(address.row + 1, 0)
    ensures c == BACKSPACE && address.column > 0 ==> r == Address(address.row, address.column - 1)
    ensures c == BACKSPACE && address.column == 0 ==>
      r.row + 1 == address.row && r.column == |Lines(data)[r.row]|
  {
    if c == BACKSPACE then
      if address.column == 0 then
        var row := address.row - 1;
        Address(row, |Lines(data)[row]|)
      else Address(address.row, address.column - 1)
    else if c == ENTER then Address(address.row + 1, 0)
    else Address(address.row, address.column + 1)
  }

  /** BACKSPACE after an ordinary key returns the mark to where it was. */
  lemma BackspaceUndoesKey(c: char, address: Address, data: string)
    requires c != BACKSPACE && c != ENTER
    ensures AddressAfter(BACKSPACE, AddressAfter(c, address, data), data) == address
    ensures EditFor(BACKSPACE, AddressAfter(c, address, data).column) == Backspace
  {
  }

  /**
   * BACKSPACE right after ENTER lands on the end of the row ENTER left, which is where the
   * mark was when it stood at the end of that row.
   */
  lemma BackspaceAfterEnter(address: Address, data: string)
    requires address.row < |Lines(data)|
    ensures AddressAfter(BACKSPACE, AddressAfter(ENTER, address, data), data)
      == Address(address.row, |Lines(data)[address.row]|)
    ensures address.column == |Lines(data)[address.row]| ==>
      AddressAfter(BACKSPACE, AddressAfter(ENTER, address, data), data) == address
  {
  }

  class Mark {
    /** Index in the view that belongs to the mark. */
    var index: Index
    /** Address of the mark. */
    var address: Address

    /** `Mark::default`: offset 0 at row 0, column 0. */
    constructor ()
      ensures index == StartIndex && address == Address(0, 0)
    {
      index := StartIndex;
      address := Address(0, 0);
    }

    /** `Mark::with_address`: the mark at `address` together with the index of that address. */
    constructor WithAddress(address: Address, view: View)
      ensures this.address == address && index == IndexWithAddress(address, view.data)
    {
      this.address := address;
      index := IndexWithAddress(address, view.data);
    }

    /** `Mark::reset`: back to the default mark. */
    method Reset()
      modifies this
      ensures index == StartIndex && address == Address(0, 0)
    {
      index := StartIndex;
      address := Address(0, 0);
    }

    /**
     * `Mark::add`: moves the address for key `c` and reports the edit. The index goes
     * through `-=`/`+=`, which keep it as it was; `-=` is the one that cannot panic (a debug
     * build's panic at offset 0 is `MinusAssignDebug`). BACKSPACE at row 0 and column 0
     * underflows the row, which panics in the source.
     */
    method Add(c: char, view: View) returns (e: Edit)
      requires c == BACKSPACE && address.column == 0 ==> 0 < address.row <= |Lines(view.data)|
      modifies this
      ensures index == old(index)
      ensures address == AddressAfter(c, old(address), view.data)
      ensures e == EditFor(c, old(address).column)
    {
      if c == BACKSPACE {
        index := MinusAssign(index, 1);
        if address.column == 0 {
          var row := address.row - 1;
          address := Address(row, view.LineLength(Address(row, address.column)));
          return Edit.Wash;
        }
        address := Address(address.row, address.column - 1);
        e := Edit.Backspace;
      } else if c == ENTER {
        index := PlusAssign(index, 1);
        address := Address(address.row + 1, 0);
        e := Edit.Wash;
      } else {
        address := Address(address.row, address.column + 1);
        index := PlusAssign(index, 1);
        e := Edit.Add;
      }
    }
  }

  /** `Marker::length`: the region's length, with `EOL` resolved to the length of its row. */
  function MarkerLength(region: Region, data: string): (n: nat)
    requires region.length == Eol ==> region.start.row < |Lines(data)|
    ensures region.length.Chars? ==> n == region.length.count
    ensures region.length == Eol ==> n == |Lines(data)[region.start.row]|
  {
    match region.length
    case Chars(count) => count
    case Eol => |Lines(data)[region.start.row]|
  }

  /** The address `Marker::generate_mark` picks: the region's start, or that many columns on. */
  function EdgeAddress(region: Region, edge: Edge, data: string): (a: Address)
    requires edge == End && region.length == Eol ==> region.start.row < |Lines(data)|
    ensures a.row == region.start.row
    ensures edge == Start ==> a == region.start
    ensures edge == End ==> a.column == region.start.column + MarkerLength(region, data)
  {
    var start := region.start;
    if edge == End then Address(start.row, start.column + MarkerLength(region, data)) else start
  }

  /**
   * `Marker::generate_mark`: a new mark at the chosen edge of `region`, carrying the index of
   * its address.
   */
  method GenerateMark(region: Region, edge: Edge, view: View) returns (m: Mark)
    requires edge == End && region.length == Eol ==> region.start.row < |Lines(view.data)|
    ensures fresh(m)
    ensures m.address == EdgeAddress(region, edge, view.data)
    ensures m.index == IndexWithAddress(m.address, view.data)
  {
    var address := region.start;
    if edge == End {
      address := Address(address.row, address.column + MarkerLength(region, view.data));
    }
    m := new Mark.WithAddress(address, view);
  }

  /**
   * The end mark of a whole-line region sits on the '\n' that ends the line, or at the end
   * of the text when the line is the last one and has no '\n'; its start mark sits on the
   * first character of the line.
   */
  lemma LineEdges(row: nat, data: string)
    requires row < |Lines(data)|
    ensures IndexWithAddress(EdgeAddress(LineRegion(row), Start, data), data) == IndexWithRow(row, data)
    ensures var k := IndexWithAddress(EdgeAddress(LineRegion(row), End, data), data).offset;
      k.Some? && k.value <= |data| && (k.value == |data| || data[k.value] == '\n')
    ensures var k := IndexWithAddress(EdgeAddress(LineRegion(row), End, data), data).offset;
      k.Some? && '\n' !in data[IndexWithRow(row, data).offset.value..k.value]
  {
    AddressOffset(Address(row, 0), data);
  }
}
