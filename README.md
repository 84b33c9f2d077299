# paper: a verified model of the editing core

This project models the core of *paper*, a modal terminal text editor, in Dafny.

- **`src/lib.rs` (an earlier revision).** Keys arrive in one of five modes: Display, Command, Filter, Action and Edit. `Mode::handle_input` turns each key into operations, and `Paper::operate` performs them on the application state:
  - the view, i.e. the text being edited;
  - the sketch, i.e. the characters typed in the current mode;
  - the mark, i.e. the cursor: an `Address` (row and column) together with an `Index` (an offset into the view, or none);
  - the first displayed line, and the regions selected by the filter.
  
  `Mode::enhance` evaluates the filter grammar. `#n` selects line `n`. `/key` selects every non-overlapping occurrence of `key` on every line.
- **`src/mode.rs` (a later revision).** A `Controller` sends each key to the handler of its current mode. Each handler returns a fixed list of operations. The Filter handler applies at most one filter to the noises.
- **`src/ui.rs`.** A terminal shows part of the document. The model covers:
  - which document line lands on which row;
  - which lines of an edit are visible;
  - the argument inputs, which take priority over the keyboard;
  - the number of lines covered by an alert.
  
  Printing is kept as a log of printed rows.

The two revisions each define their own `Mode`. They are kept apart: `PaperMode` and `PaperApp` model lib.rs, `ModeController` models mode.rs.

Module layout:

| file | module | models |
|---|---|---|
| text.dfy | `Wrappers`, `Keys`, `Text` | `Option`; the key codes; `str::lines`, `match_indices`, `String::insert`/`remove`, the removal of `'\r'` |
| coordinates.dfy | `Coordinates` | `Address`, `Length`, `Region`, `Index` and its arithmetic |
| views.dfy | `Views` | `View` (a class over its `data`) |
| marks.dfy | `Marks` | `Edge`, `Edit`, `Mark` (a class), `Marker` |
| paper_mode.dfy | `PaperMode` | lib.rs `Mode`: `handle_input`, `enhance` and the filter grammar |
| paper.dfy | `PaperApp` | `Paper` (a class) and `Paper::operate` |
| mode_controller.dfy | `ModeController` | mode.rs: the handlers, `Controller`, `FilterMode::enhance` |
| terminal.dfy | `Ui` | `Terminal` (a class) |

Key codes follow the terminal conventions: BACKSPACE is U+0008, ENTER is `'\n'` and ESC is U+001B. The `ui` module that defines them in this revision is not part of this model; the `Keys` module declares them with these conventional values. Wherever the Rust code would panic, the model has a precondition, following debug-build semantics. The exceptions are the dropped `x - 1` inside `-=` (described below), the write error of `put`, and `usize` overflow: `usize` overflow is not modelled, because offsets, rows and columns are unbounded naturals here. Every `usize` addition that could overflow is listed under "## Left out". The cases with a precondition are:

- `unwrap` on a missing line or file;
- `lines().count() - 1` on an empty view;
- `filter_regions[0]` on an empty list;
- `#0`;
- `String::insert` and `String::remove` out of range;
- the subtraction `row - 1`;
- `swap_with_slice` with unequal lengths.

**Where a mark's index and address part.** A `Mark` is documented as an address together with its respective index in the view (src/lib.rs:333-336), and `Mark::with_address` (src/lib.rs:344) sets the index that way. The code does not keep it. `Index`'s `+=` and `-=` (src/lib.rs:421-431) compute the moved offset and then discard it, so `Mark::add` moves the address but leaves the index where it was. The model follows the code:

- `PlusAssign` and `MinusAssign` return the index unchanged.
- `Marks.Mark.Add` promises `index == old(index)`.
- `Coordinates.PlusAssignIsNotPlus` and `Coordinates.StaleAfterColumnStep` prove that after one typed character the index no longer belongs to the address.

In a debug build the discarded closure of `-=` still runs, and its `x - 1` panics at offset 0. The model keeps that behaviour apart, as `Coordinates.MinusAssignDebug`, and uses a `-=` that cannot panic; "## Findings" shows the input that reaches the panic.

## Model

| member | source | states |
|---|---|---|
| Text.NextNewline | src/lib.rs:615 | the first `'\n'` at or after `i` (or the end), with none before it |
| Text.LinesFrom | src/lib.rs:615 | `str::lines` on the text from `i`: empty exactly when nothing is left; what each line holds is stated by `Text.FirstLineFrom`, and that the lines rebuild the text by `Text.JoinLinesFrom` |
| Text.Lines | src/lib.rs:615 | `str::lines` on a whole text: no lines exactly for the empty text (`Text.JoinLines` rebuilds the text from them) |
| Text.Join | src/ui.rs:68 | `join(sep)`: the first element starts the result (`Text.JoinCons` gives the separator between the first element and the rest) |
| Text.FirstLineFrom | src/lib.rs:257 | the first line runs up to the next `'\n'`, holds no `'\n'`, and the other lines start after it |
| Text.JoinLinesFrom | src/lib.rs:615 | joining the lines from `i` with `'\n'`, plus the final newline if any, rebuilds the text from `i` |
| Text.JoinLines | src/lib.rs:615 | `lines` loses nothing: joining the lines with `'\n'` and restoring a final newline gives the text back |
| Text.MatchIndices | src/lib.rs:616 | `match_indices`: every reported position starts an occurrence of the key (order and completeness in `Text.MatchesFromSpec`) |
| Text.MatchesFromSound | src/lib.rs:616 | every position `match_indices` reports is an occurrence of the key |
| Text.MatchesFromSpec | src/lib.rs:616 | the reported occurrences do not overlap, and every occurrence overlaps a reported one |
| Text.MatchesOneChar | src/lib.rs:404 | a one-character key is reported at every position holding that character |
| Text.NewlineMatches | src/lib.rs:404 | matching the key `"\n"` reports exactly the positions that hold `'\n'`, in order |
| Text.NewlineTotal | src/lib.rs:404 | there are as many `'\n'` positions as `'\n'` characters |
| Text.NewlineRank | src/lib.rs:404 | the `j`-th `'\n'` position holds a `'\n'` with exactly `j` others before it |
| Text.Removed | src/lib.rs:265 | `String::remove(i)`: one shorter, the characters before `i` kept, the later ones shifted left, the multiset less `s[i]` |
| Text.Inserted | src/lib.rs:268 | `String::insert(i, c)`: `c` at `i`, the other characters kept in order, the multiset plus `c` |
| Text.RemoveUndoesInsert | src/lib.rs:260-272 | removing at `i` what was inserted at `i` restores the text |
| Text.Without | src/lib.rs:252 | `replace('\r', "")`: no `'\r'` remains, every other character keeps its count, and a text without `'\r'` is returned as it is |
| Text.WithoutAppend | src/lib.rs:252 | dropping `'\r'` from two texts joined is dropping it from each and joining, so the remaining characters keep their order |
| Coordinates.Plus | src/lib.rs:413-419 | `Index + n` moves `Some(x)` to `Some(x + n)` and keeps `None` |
| Coordinates.PlusComposes | src/lib.rs:413-419 | moving by `a` and then `b` is moving by `a + b`; moving by 0 is the identity |
| Coordinates.PlusAssign | src/lib.rs:427-431 | `+=` leaves the index as it was |
| Coordinates.MinusAssignDebug | src/lib.rs:421-425 | `-=` in a debug build: defined only when the offset is at least the step, and then leaves the index as it was |
| Coordinates.MinusAssign | src/lib.rs:421-425 | `-=` leaves every index as it was, with no panic |
| Coordinates.PlusAssignIsNotPlus | src/lib.rs:413-431 | on a real offset and a positive step, `+=` and `-=` differ from `+` |
| Coordinates.IndexWithRowCounts | src/lib.rs:401-406 | row 0 starts at 0; row `r > 0` has an offset exactly when the text has at least `r` newlines, and the offset follows the `r`-th one |
| Coordinates.NthNewline | src/lib.rs:404 | the position of the `r`-th `'\n'` from `i`, within the text |
| Coordinates.NthNewlineEndsLine | src/lib.rs:404 | before the last line, the `r`-th `'\n'` ends line `r`, and the lines after it are the rest |
| Coordinates.NthNewlineFound | src/lib.rs:404 | the `r`-th `'\n'` found line by line is the `r`-th `'\n'` position |
| Coordinates.RowStartsLine | src/lib.rs:401-406 | the offset of an existing row is where that row and all later lines begin |
| Coordinates.IndexWithRow | src/lib.rs:401-406 | row 0 starts at offset 0, and any offset found lies within the text (its meaning in `Coordinates.IndexWithRowCounts`) |
| Coordinates.IndexWithAddress | src/lib.rs:397-399 | on row 0 the offset is the column; an offset exists exactly when the row has one, and is at least the column (its meaning in `Coordinates.AddressOffset`) |
| Coordinates.AddressOffset | src/lib.rs:397-399 | for a column within an existing line, `with_address` points at the rest of that line, which ends at `'\n'` or at the end of the text |
| Coordinates.StaleAfterColumnStep | src/lib.rs:379-380 | the index of the address one column right is one more, so an unchanged index no longer matches its address |
| Views.FromFile | src/lib.rs:250-254 | the view of a file's contents holds no `'\r'` and keeps every other character; contents without `'\r'` are kept as they are |
| Views.View.constructor | src/lib.rs:244-247 | a view holds the given text |
| Views.View.LineLength | src/lib.rs:256-258 | the length of an existing row: from the row's offset to the next `'\n'` or the end, with no `'\n'` inside |
| Views.View.Add | src/lib.rs:260-272 | no change at a missing index; BACKSPACE removes the character at `i`; any other key is inserted at `i - 1` |
| Marks.EditFor | src/lib.rs:358-384 | Wash exactly for ENTER or BACKSPACE at column 0; Backspace exactly for BACKSPACE elsewhere; Add exactly for any other key |
| Marks.AddressAfter | src/lib.rs:358-384 | a key moves one column right; ENTER moves to column 0 of the next row; BACKSPACE moves one column left, or from column 0 to the end of the previous line |
| Marks.BackspaceUndoesKey | src/lib.rs:358-384 | BACKSPACE after an ordinary key returns to the same address and reports Backspace |
| Marks.BackspaceAfterEnter | src/lib.rs:358-384 | BACKSPACE after ENTER returns to the previous row, at the end of that line |
| Marks.Mark.constructor | src/lib.rs:333-340 | the default mark is at offset 0 and address (0, 0) |
| Marks.Mark.WithAddress | src/lib.rs:343-349 | the mark's index is `Index::with_address` of its address |
| Marks.Mark.Reset | src/lib.rs:351-355 | the mark returns to offset 0 and address (0, 0) |
| Marks.Mark.Add | src/lib.rs:357-384 | the address moves as `AddressAfter` says, the index stays, and the edit is `EditFor` the key and old column |
| Marks.MarkerLength | src/lib.rs:322-330 | a counted length as given; `EOL` as the length of the start row |
| Marks.EdgeAddress | src/lib.rs:312-320 | Start is the region start, for any region; End is on the same row, the marker length further right, and needs the row only when the region runs to the end of its line |
| Marks.GenerateMark | src/lib.rs:312-320 | a new mark at the chosen edge, whose index is `with_address` of its address; only End reads the length of the row |
| Marks.LineEdges | src/lib.rs:312-330 | for a whole line, Start is the row's offset, and End is at the line's `'\n'` or the end of the text, with no `'\n'` between |
| PaperMode.HandleInput | src/lib.rs:538-592 | no input gives nothing; every mode change follows the mode graph; ESC outside Display gives exactly `[ChangeMode(Display)]`; ENTER in Command executes and then returns to Display; `.` in Display enters Command; Command and Filter sketch every other key; Edit sends every other key to both sketch and view |
| PaperMode.ModesReachable | src/lib.rs:544-585 | `.`, `/`, ENTER, `i` and `I` reach Command, Filter, Action and Edit; ESC returns every other mode to Display |
| PaperMode.ModeAfterLegal | src/lib.rs:538-592 | a batch whose mode changes follow the graph ends in the same mode or one step along it |
| PaperMode.DigitsEnd | src/lib.rs:598 | `\d+` takes the whole run of digits |
| PaperMode.CaptureSpec | src/lib.rs:598-601 | the search fails exactly when neither `#digit` nor `/char` occurs; otherwise the leftmost match is reported, its line group holding the whole run of digits and its key group the rest of the line |
| PaperMode.CaptureFrom | src/lib.rs:598-601 | the line group holds only digits and the key group no `'\n'` (the match it reports in `PaperMode.CaptureSpec`) |
| PaperMode.CaptureShape | src/lib.rs:598-601 | the line group is non-empty ASCII digits; the key group is non-empty with no `'\n'` |
| PaperMode.ParseUsize | src/lib.rs:605-608 | `parse::<usize>` succeeds exactly when the decimal value of the digits fits in 64 bits, and then gives that value |
| PaperMode.LeadingZero | src/lib.rs:605-608 | a leading `0` changes neither the value nor the parse, so `#007` selects what `#7` selects |
| PaperMode.Decimal | src/lib.rs:605-606 | the numeral of a number is a non-empty run of digits |
| PaperMode.ParseDecimal | src/lib.rs:605-608 | parsing the numeral of `n` gives `n` back, within `usize` |
| PaperMode.Enhance | src/lib.rs:595-629 | `None` outside Filter; in Filter, the loops build exactly the regions the sketch selects |
| PaperMode.RowRegionsSound | src/lib.rs:615-619 | each region of a line is an occurrence of the key there, with the key's length |
| PaperMode.KeyRegionsSound | src/lib.rs:615-619 | each region lies on a line of the text and covers an occurrence of the key |
| PaperMode.RowRegionsOrdered | src/lib.rs:616-618 | within a line, regions run left to right without overlap |
| PaperMode.KeyRegionsOrdered | src/lib.rs:615-619 | regions come in row order, then column order, without overlap |
| PaperMode.KeyRegionsComplete | src/lib.rs:615-619 | every occurrence of the key lies inside a region on its row |
| PaperMode.NoFilterSelectsNothing | src/lib.rs:601-622 | a sketch matching neither `#n` nor `/key` selects no region |
| PaperMode.LineFilter | src/lib.rs:603-612 | `#n`, for `1 <= n <= usize::MAX`, selects exactly the whole line `n - 1` |
| PaperMode.SlashKeyCapture | src/lib.rs:598-601 | in `/key`, the key group is the whole key |
| PaperMode.KeyFilter | src/lib.rs:614-620 | `/key` selects the occurrences of the key on every line of the text |
| PaperMode.SelectedRegions | src/lib.rs:601-622 | only a key filter selects more than one region; a line filter selects at most one whole line (the selections in `PaperMode.LineFilter`, `PaperMode.KeyFilter` and `PaperMode.NoFilterSelectsNothing`) |
| PaperApp.NonNewlineFrom | src/lib.rs:114 | the first character at or after `i` that `.` can match |
| PaperApp.WhitespaceFrom | src/lib.rs:114 | the first white space at or after `i`, with none before it |
| PaperApp.SkipWhitespace | src/lib.rs:120 | `\s*` skips exactly the white space from `i` |
| PaperApp.CommandToken | src/lib.rs:114-118 | no command exactly when the sketch holds only newlines; otherwise the token starts at the first character other than `'\n'`, has no white space after its first character, and is followed by white space or the end |
| PaperApp.CommandOfWord | src/lib.rs:114-118 | a word followed by white space or by nothing is the command |
| PaperApp.SeeCommandHasPath | src/lib.rs:119-121 | when the command is `see`, the path search succeeds, so its `unwrap` does not panic |
| PaperApp.SeePath | src/lib.rs:119-121 | a path found holds no `'\n'` and does not start with white space (`PaperApp.SeeOfPath` finds it back) |
| PaperApp.SeeOfPath | src/lib.rs:120-121 | `see <path>` yields the path, for a one-line path not starting with white space |
| PaperApp.ScrollHeight | src/lib.rs:234-236 | a quarter of the window height, rounded down |
| PaperApp.ScrollDownLine | src/lib.rs:198-202 | the first line moves a quarter window down, clamped to the last line |
| PaperApp.ScrollUpLine | src/lib.rs:205-212 | the first line moves a quarter window up, stopping at 0 |
| PaperApp.ScrollRoundTrip | src/lib.rs:198-214 | scrolling up undoes scrolling down, and down undoes up, unless a clamp applied |
| PaperApp.SketchAfter | src/lib.rs:135-148 | Backspace pops the last character; Wash clears; Add appends the key |
| PaperApp.BackspaceUndoesAdd | src/lib.rs:135-148 | popping after pushing a key restores the sketch |
| PaperApp.Paper.constructor | src/lib.rs:44-81 | a new paper starts in Display, with an empty view, sketch and path, first line 0, no regions and the default mark |
| PaperApp.Paper.ExecuteCommand | src/lib.rs:113-133 | `end` gives `Quit` and nothing else does; `see` opens the named file at line 0; `put` stores the view at the current path; any other command changes nothing |
| PaperApp.Paper.See | src/lib.rs:119-124 | the path becomes the one after `see`, the view is a fresh view of that file without `'\r'`, shown from line 0; the sketch, mode, mark and files stay |
| PaperApp.Paper.AddToSketch | src/lib.rs:134-167 | the mark moves for the key; the sketch follows the edit the mark reports; Wash marks the view dirty; in Filter mode the regions become those the new sketch selects |
| PaperApp.Paper.AddToView | src/lib.rs:168-177 | the view is edited at the mark's index, and the view is no longer dirty |
| PaperApp.Paper.ChangeMode | src/lib.rs:178-197 | the mode is set; Command and Filter reset the mark and clear the sketch; Edit clears the sketch; Display and Action change nothing else |
| PaperApp.Paper.ScrollDown | src/lib.rs:198-204 | the first line becomes `ScrollDownLine` of the old one and stays within the view |
| PaperApp.Paper.ScrollUp | src/lib.rs:205-214 | the first line becomes `ScrollUpLine` of the old one |
| PaperApp.Paper.SetMark | src/lib.rs:215-217 | a new mark at the chosen edge of the first filter region; the line is needed only for End on a region that runs to the end of its line |
| PaperApp.Paper.Operate | src/lib.rs:111-221 | the only notice is `Quit`, for the command `end`; each operation has the effect its method states (the new sketch, view, first line, mark or mode), and every field it does not name keeps its value |
| PaperApp.TypeCommand | src/lib.rs:540-559 | from Display, after `.` and keys other than BACKSPACE, ENTER and ESC, each passed through `HandleInput` and `Operate`, the mode is Command, the sketch is the keys and the mark's index is still 0, where a debug build's `-= 1` panics; BACKSPACE is allowed exactly when a key was typed |
| ModeController.DisplayInput | src/mode.rs:207-220 | `.` enters Command; `#` and `/` enter Filter and start the sketch; `j`/`k` scroll; any other key gives nothing |
| ModeController.CommandInput | src/mode.rs:187-197 | ENTER executes and then returns to Display; ESC returns to Display; any other key is sketched and drawn |
| ModeController.FilterInput | src/mode.rs:134-146 | ENTER enters Action; tab identifies noise and sketches `&&`; ESC returns to Display; any other key is sketched and drawn |
| ModeController.ActionInput | src/mode.rs:110-124 | `i`/`I` set the marks at Start/End before entering Edit; ESC returns to Display; any other key gives nothing |
| ModeController.EditInput | src/mode.rs:91-100 | ESC returns to Display; any other key goes to both the sketch and the view |
| ModeController.HandlerFor | src/mode.rs:45-53 | the handler chosen for a mode leaves that mode only along the mode graph, for every key |
| ModeController.HandlersFollowGraph | src/mode.rs:83-225 | every handler leaves its mode only along the mode graph |
| ModeController.EscapeReturnsToDisplay | src/mode.rs:94-219 | ESC gives exactly one change to Display in every mode but Display, and nothing in Display |
| ModeController.SketchFollowsKey | src/mode.rs:91-219 | sketched text is the key itself, except `&&` for tab in Filter; it is followed by drawing the sketch, or in Edit by updating the view |
| ModeController.FirstFilterFrom | src/mode.rs:159-164 | the first filter whose id matches, or none when no filter matches |
| ModeController.Controller.constructor | src/mode.rs:19-30 | a new controller is in Display, with each mode's handler in its field |
| ModeController.Controller.SelectedHandler | src/mode.rs:45-53 | the handler of the current mode |
| ModeController.Controller.ProcessInput | src/mode.rs:33-35 | the current mode's handler decides the operations, which follow the mode graph; ESC returns to Display from any other mode |
| ModeController.Controller.SetMode | src/mode.rs:41-43 | only the mode changes |
| ModeController.Controller.Enhance | src/mode.rs:148-169 | `None` outside Filter; in Filter, the noises after the first filter whose id is the last feature's first character |
| ModeController.FilteredSections | src/mode.rs:148-168 | the sections differ from the noises only when the last feature is non-empty and some filter's id is its first character |
| ModeController.UnmatchedFeatureKeepsNoises | src/mode.rs:148-168 | with no feature, or no filter for it, the noises are returned unchanged |
| ModeController.FirstFilterWins | src/mode.rs:159-164 | filters after the first matching one make no difference |
| Ui.SaturatingSub | src/ui.rs:111 | `saturating_sub`: 0 when the subtrahend is larger, the difference otherwise |
| Ui.SaturatingInc | src/ui.rs:163 | `saturating_add(1)` on a `u16`: one more, but stops at `u16::MAX` |
| Ui.PrintsAt | src/ui.rs:134-167 | one printed row per line of the text |
| Ui.PrintsAtRows | src/ui.rs:140-164 | each line is printed once, in order, in its colour, on rows that only increase until `u16::MAX` |
| Ui.Terminal.constructor | src/ui.rs:185-206 | a terminal of the given size has a grid of exactly `rows` empty rows, no argument inputs, no alert and first line 0 |
| Ui.Terminal.Init | src/ui.rs:48-57 | the settings' file, if any, is queued as an argument input, and the terminal is initialized |
| Ui.Terminal.Input | src/ui.rs:172-182 | the last queued argument input comes first; the keyboard event is returned only when the queue is empty |
| Ui.Terminal.PrintAtRow | src/ui.rs:134-167 | the log grows by exactly the lines of the text, on their rows |
| Ui.Terminal.ApplyEdit | src/ui.rs:63-74 | one edit is printed from its first visible row, and the covered grid rows take its modifications |
| Ui.Terminal.ApplyEdits | src/ui.rs:62-76 | the edits are applied to the grid and printed one after another |
| Ui.Terminal.Apply | src/ui.rs:60-103 | a message or question covers as many lines as it has and is printed from row 0; a reset clears the count and reprints the covered rows only when an alert covers some |
| Ui.GetRow | src/ui.rs:105-116 | never past `rows - 1`, and 0 when there are no rows; 0 for lines at or above the first line; `line - first_line` for a visible line; the last row for lines below |
| Ui.GetRowMonotone | src/ui.rs:109-116 | a later line never lands on an earlier row |
| Ui.GetModifications | src/ui.rs:118-131 | at most `rows` lines |
| Ui.ModificationsWindow | src/ui.rs:118-131 | the lines from the first visible one, skipping `first_line - start` lines when the edit starts above the grid and none otherwise, as many as fit |
| Ui.GridAfter | src/ui.rs:70-74 | the grid keeps its height after an edit |
| Ui.GridAfterAll | src/ui.rs:62-76 | the grid keeps its height after a list of edits |
| Ui.CoveredRows | src/ui.rs:90-94 | the first `count` rows, or none when the grid is shorter |

## Left out

- Terminal output: crossterm `queue!`/`execute!`, colours, the alternate screen, `flush` and `Drop`. Printing is an abstract log of `(row, line, message type)` entries, and terminal errors are not modelled.
- UI calls inside `Paper::operate`: `delete_back`, `insert_char`, `set_background`, `write_view`, `move_mark` and `calc_line_number_width`. They only draw.
- `PaperApp.Paper.ScrollDown`, `PaperApp.Paper.ScrollUp`: the window height is the constant `windowHeight`, fixed when the `Paper` is built. The source asks the interface for `window_height()` on every use (src/lib.rs:153, 228, 235), so after a terminal resize it scrolls by a quarter of the new height; the model does not capture a resize.
- `Paper::run`: its blocking input loop and the early stop of a batch at the first `Quit`. `PaperApp.Paper.Operate` performs one operation.
- File access. The file system is the `files` map of `Paper`. Reading a missing file panics in the source, so `see` requires the path to exist. Write errors of `put` are not modelled.
- The regex engine. The three patterns used are hand-modelled as scanners: the command token, the `see` path and `#\d+|/.+`. `\s` and `\d` are ASCII only, and text is ASCII, so byte offsets are character offsets.
- `Text.LinesFrom`: does not strip a `'\r'` before `'\n'` as `str::lines` does. A view loaded from a file holds no `'\r'`, but a `'\r'` typed in Edit mode goes into the view as any other key, and a sketch, an edit text or a message may hold one too; on such text the lines here keep the `'\r'` that `str::lines` would drop, so `Views.View.LineLength` of a line ending in `"\r\n"` counts one more character than the source's (the number of lines is the same).
- `Marks.Mark.Add`: does not model the overflow of `+= 1` on an offset of `usize::MAX`. Offsets are unbounded naturals here.
- `Marks.AddressAfter`, `Marks.Mark.Add`: do not model the overflow of `row += 1` (src/lib.rs:374) or `column += 1` (src/lib.rs:379) past `usize::MAX`. Rows and columns are unbounded naturals here.
- `Marks.EdgeAddress`, `Marks.GenerateMark`: do not model the overflow of `address.column += self.length(view)` (src/lib.rs:316) past `usize::MAX`.
- `Coordinates.Plus`, `Coordinates.IndexWithAddress`, `Coordinates.PlusAssign`: do not model the overflow of `x + other` (src/lib.rs:417) past `usize::MAX`, which `with_address` reaches by adding the column to the row's offset (src/lib.rs:398); nor the same overflow in the discarded `x + other` of `+=` (src/lib.rs:429), which `Coordinates.PlusAssign` therefore never rejects.
- `PaperApp.Paper.ScrollDown`: does not model the overflow of `first_line + window_height / 4` past `usize::MAX`.
- `Ui.Terminal.Input`: `event::poll` and `event::read` are replaced by the event the keyboard has ready, passed as a parameter.
- `Ui.Terminal.constructor`: `terminal::size` is replaced by the size, passed as parameters (0 by 0 when it is unknown).
- `Settings::from(ArgMatches)` in src/ui.rs: it only reads a command-line argument.
- The mode.rs tokenizer (`first_feature.tokenize_iter`), the `Paper` fields it reads (`noises`, `filters`, `view`) and the filters' `extract` are not part of this model. `ModeController.Controller.Enhance` takes the last feature, the noises and the filters as parameters, and each filter is an id with an extraction function. What the operations of that revision do is not modelled either.
- `Rc` sharing of handlers and operations in mode.rs: values stand in for shared pointers.
- src/io/config.rs, src/logging.rs, src/main.rs, src/mode/display.rs and tests/mock/mod.rs are not part of this model.
- The key constants and the `ui` types of the lib.rs revision (`Region`, `Address`, `Length`, `EOL`, `UserInterface`) are not part of this model. They are declared here from their uses.

## Findings

| source | as written | input that shows it | evidently intended | confidence | as-written member | corrected member |
|---|---|---|---|---|---|---|
| src/lib.rs:421-425 | `sub_assign` computes `x - other` inside `map` and drops the result; in a debug build that subtraction panics when the offset is 0 | `.` `e` BACKSPACE: `.` resets the mark to offset 0, `e` leaves the index there, and BACKSPACE runs `self.index -= 1` | BACKSPACE in the sketch removes the `e`; `-=`, whose result is dropped anyway, does not panic | not executed | PaperApp.TypeCommand | Coordinates.MinusAssign |
