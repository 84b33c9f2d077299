/** The text being edited (`View` in src/lib.rs). */
module Views {
  import opened Wrappers
  import opened Keys
  import opened Text
  import opened Coordinates

  /** `View::with_file` applied to the contents of the file: every '\r' is dropped. */
  function FromFile(contents: string): (data: string)
    ensures '\r' !in data
    ensures multiset(data) == multiset(contents)['\r' := 0]
    ensures '\r' !in contents ==> data == contents
  {
    Without(contents, '\r')
  }

  class View {
    var data: string

    /** A view holding `data`; `View::default` is the view of the empty text. */
    constructor (data: string)
      ensures this.data == data
    {
      this.data := data;
    }

    /**
     * `View::line_length`: the number of characters of row `address.row`. They run from the
     * row's index up to the next '\n' or the end of the text. A missing row panics in the
     * source (`unwrap` on `None`), hence the precondition.
     */
    function LineLength(address: Address): (n: nat)
      reads this
      requires address.row < |Lines(data)|
      ensures IndexWithRow(address.row, data).offset.Some?
      ensures var k := IndexWithRow(address.row, data).offset.value;
        k + n <= |data| && '\n' !in data[k..k + n] && (k + n == |data| || data[k + n] == '\n')
    {
      AddressOffset(Address(address.row, 0), data);
      |Lines(data)[address.row]|
    }

    /**
     * `View::add`: nothing happens at a missing index. At offset `i`, BACKSPACE removes the
     * character at `i` and any other character is inserted before offset `i - 1`. The
     * source panics when the offset is out of the text (`String::remove`, `String::insert`)
     * or when `i - 1` underflows.
     */
    method Add(c: char, index: Index)
      requires index.offset.Some? && c == BACKSPACE ==> index.offset.value < |data|
      requires index.offset.Some? && c != BACKSPACE ==> 1 <= index.offset.value <= |data| + 1
      modifies this
      ensures index.offset.None? ==> data == old(data)
      ensures index.offset.Some? && c == BACKSPACE ==> data == Removed(old(data), index.offset.value)
      ensures index.offset.Some? && c != BACKSPACE ==>
        data == Inserted(old(data), index.offset.value - 1, c)
    {
      match index.offset {
        case None =>
        case Some(i) =>
          if c == BACKSPACE {
            data := Removed(data, i);
          } else {
            data := Inserted(data, i - 1, c);
          }
      }
    }
  }
}
