# rand-sht-rust core, modelled in Dafny

This project models four small components of the `rand-sht-rust` playground
and proves properties about them:

- **Tic-tac-toe** (`src/tictactoe.rs`). It covers the command parser
  `GameCommand::buid` with its nested `parse_mark_command`, and the marks
  (`from`, `to_char`, `toggle`). It also covers the board (`new_table`) and the
  winner detector `is_somebody_won` with `equal3`. The `run_tictactoe` loop is
  modelled as a pure step function over the state, the board and the current
  player.
- **Quick logger** (`src/quick_logger.rs`). It covers the comma-separated tag
  string (`tags_vec`, `tags_string`) and the tag parsing of the `Create` arm. It
  also covers the text and tags of the mapping between a log and its stored
  row (`QuLogDBO::from_log`, `QuLogDBO::to_log`).
- **Linked list** (`src/linked_list.rs`). `new`, `append`, `push` and the
  restarting iterator `next` are modelled twice. `ListModel` is a value:
  contents plus cursor. `LinkedLists` is a heap of shared mutable cells,
  shaped like the source's `Rc<RefCell<LLNode>>`, and each of its methods is
  proved to act on contents and cursor exactly as the value model does.
- **Stack** (`src/stack.rs`). It covers `from`, `push`, `pop`, `peak` and
  `is_empty`.

Files:

- `wrappers.dfy`: `Option` and `Result`.
- `text.dfy`: the `str` operations the parser uses. These are Unicode
  whitespace trimming, ASCII lowercasing, decimal digits, and the UTF-8 byte
  length that `str::len` returns.
- `tictactoe.dfy`, `quick_logger.dfy`, `linked_list.dfy` and `stack.dfy`: one
  per source file.

Some behaviours of the source are kept exactly as written:

- The two length tests (`parse_mark_command`, and the shorthand that appends
  the player's letter to a two-character input) count UTF-8 bytes, not
  characters.
- A mark command writes the command's own letter, not the current player's.
- Marking a taken cell leaves both the board and the turn unchanged.
- The diagonal from the bottom-left corner is checked before the main
  diagonal.
- `to_log` splits without dropping empty segments, so a log saved without
  tags reads back with the single tag `""`.
- An input that is not a command makes the loop's `unwrap` panic. The model
  reports this as `Err("Invalid command")`.
- A new game keeps the player whose turn it was.

## Model

| member | source | states |
|---|---|---|
| Text.Trim | src/tictactoe.rs:46 | the trimmed string is a contiguous slice of the input; everything removed around it is Unicode whitespace, and its own first and last characters are not |
| Text.ByteLen | src/tictactoe.rs:31 | `str::len` counts UTF-8 bytes: at least one and at most four per character |
| Text.ByteLenAsciiPrefix | src/tictactoe.rs:31-40 | once the length test has passed and two ASCII digits have been read, the third character exists and is ASCII, so the `unwrap` on it cannot panic |
| Text.DigitValue | src/tictactoe.rs:35-36 | a character has a decimal value exactly when it is an ASCII digit, and the value is its distance from `0` |
| Text.AsciiLower | src/tictactoe.rs:72 | an upper-case ASCII letter becomes the lower-case letter at the same alphabet position; every other character is kept; no upper-case ASCII letter remains |
| Text.Lower | src/tictactoe.rs:46 | lowercasing keeps the length, lowercases each character in place, and leaves no upper-case ASCII letter |
| Text.LowerIdempotent | src/tictactoe.rs:46 | lowercasing twice gives the same as lowercasing once |
| TicTacToe.MarkFrom | src/tictactoe.rs:71-77 | a character reads as `X` exactly when it is `x` or `X`, and as `O` exactly when it is `o` or `O` |
| TicTacToe.ToChar | src/tictactoe.rs:79-84 | the letter of a mark is upper case and reads back as the same mark |
| TicTacToe.Toggle | src/tictactoe.rs:86-91 | toggling gives the other mark, never the same one |
| TicTacToe.ToggleInvolution | src/tictactoe.rs:86-91 | toggling always changes the mark, and toggling twice gives it back |
| TicTacToe.ParseMarkCommand | src/tictactoe.rs:30-44 | a mark command is recognised exactly when the input is two digits 1..3 followed by `x`/`o` in either case; the coordinates are the digits' values and the mark is the letter's |
| TicTacToe.MarkTextByteLen | src/tictactoe.rs:31 | every mark text is three bytes long, so the byte-length test accepts it |
| TicTacToe.ParseCommand | src/tictactoe.rs:29-54 | `Quit` exactly when the trimmed, lowercased input is `quit`; `Restart` exactly when it is `restart`; a mark command exactly when the untrimmed input is a mark text, with in-range coordinates; otherwise the error "Invalid command" |
| TicTacToe.ParseMarkText | src/tictactoe.rs:49-50 | every mark text parses to the mark command it spells |
| TicTacToe.ParseQuit | src/tictactoe.rs:252 | `quit` parses to `Quit` |
| TicTacToe.ParseUpperQuit | src/tictactoe.rs:46-47 | the keywords are case-insensitive: `QUIT` parses to `Quit` |
| TicTacToe.ParsePaddedQuit | src/tictactoe.rs:46-47 | surrounding whitespace is ignored: ` quit ` parses to `Quit` |
| TicTacToe.ParseRestart | src/tictactoe.rs:253 | `restart` parses to `Restart` |
| TicTacToe.ParseMarkUpper | src/tictactoe.rs:254-257 | `12X` parses to a mark of `X` at (1, 2) |
| TicTacToe.ParseMarkLower | src/tictactoe.rs:258-261 | `13o` parses to a mark of `O` at (1, 3) |
| TicTacToe.ParseMarkOutOfRange | src/tictactoe.rs:262 | `04o` is rejected with "Invalid command" |
| TicTacToe.NewTable | src/tictactoe.rs:24-26 | the new board is 3x3, every cell is `-` and unmarked, and nobody has won on it |
| TicTacToe.Put | src/tictactoe.rs:134-135 | writing a cell changes that cell and no other |
| TicTacToe.Equal3 | src/tictactoe.rs:208-218 | three cells give `X` exactly when each is `x` or `X`, and `O` exactly when each is `o` or `O` |
| TicTacToe.Winner | src/tictactoe.rs:207-244 | no winner exactly when no row, column or diagonal is complete for either mark; otherwise the winner's line is complete and no line before it in the scan order (rows, columns, anti-diagonal, main diagonal) is complete |
| TicTacToe.WinnerIsFirstComplete | src/tictactoe.rs:219-244 | conversely, the first complete line in the scan order decides the winner |
| TicTacToe.IsSomebodyWon | src/tictactoe.rs:207-244 | the source's row loop, column loop and diagonal match compute the same result as `Winner` |
| TicTacToe.WinnerNewTableExample | src/tictactoe.rs:267-268 | nobody has won on a new board |
| TicTacToe.WinnerTopRowExample | src/tictactoe.rs:270-275 | a top row of `x` is a win for `X` |
| TicTacToe.WinnerDiagonalExample | src/tictactoe.rs:277-282 | a main diagonal of `o` is a win for `O` |
| TicTacToe.WinnerColumnExample | src/tictactoe.rs:284-289 | a first column of `o` is a win for `O` |
| TicTacToe.WinnerRowPriority | src/tictactoe.rs:219-224 | rows are scanned top to bottom: a complete top row of `X` wins over a complete bottom row of `O` |
| TicTacToe.Start | src/tictactoe.rs:105-107 | the loop starts in state `New`, with `X` to play, on a 3x3 board whose every cell is `-`, where nobody has won |
| TicTacToe.CompleteInput | src/tictactoe.rs:115-119 | the input is kept as a prefix; it gains one character exactly when it is two bytes long, and that character is the current player's letter |
| TicTacToe.CompleteShorthand | src/tictactoe.rs:115-119 | a two-digit position gets the current player's letter appended and becomes a mark text |
| TicTacToe.ShorthandMarksForPlayer | src/tictactoe.rs:115-120 | a bare two-digit position is a mark command for the player whose turn it is |
| TicTacToe.Apply | src/tictactoe.rs:122-146 | `quit` terminates and `restart` starts a new game, leaving board and player alone; a mark on an empty cell writes the command's letter into exactly that cell and passes the turn; a mark on a taken cell changes neither board nor player |
| TicTacToe.PlayTurn | src/tictactoe.rs:112-152 | a turn fails exactly when the completed input does not parse, and then with "Invalid command"; otherwise board and player are those the command leaves, and the game is finished with the winner exactly when the board then has one |
| TicTacToe.Step | src/tictactoe.rs:109-181 | one pass of the loop keeps the board 3x3 with non-empty cells; it fails only in the playing state, and only with "Invalid command" |
| TicTacToe.StepPreservesInvariant | src/tictactoe.rs:109-181 | one pass keeps the invariant: while playing nobody has won, and a finished game names the board's winner |
| TicTacToe.RunPreservesInvariant | src/tictactoe.rs:109-183 | every state reached by any number of passes keeps the invariant |
| TicTacToe.NobodyWinsUnreachable | src/tictactoe.rs:166-178 | starting from the initial state, the loop never reaches `Finished(None)` |
| TicTacToe.SilentTransitions | src/tictactoe.rs:154-180 | `New` clears the board and starts playing; a won game goes back to `New`; `Terminated` stays put; the player carries over |
| TicTacToe.PlayingKeywords | src/tictactoe.rs:140-146 | while playing, `quit` terminates and `restart` starts a new game, with board and player unchanged |
| TicTacToe.PlayingInvalid | src/tictactoe.rs:120 | while playing, an input that does not parse is the `unwrap` panic |
| TicTacToe.PlayingMarkEmptyCell | src/tictactoe.rs:123-152 | marking an empty cell writes the command's letter into exactly that cell and passes the turn; the game finishes exactly when the board then has a winner |
| TicTacToe.PlayingMarkTakenCell | src/tictactoe.rs:124-132 | marking a taken cell changes neither the board nor the player |
| QuickLogger.Split | src/quick_logger.rs:30 | `split(",")` gives at least one segment; no segment contains a comma; joining the segments with commas gives back the input |
| QuickLogger.Join | src/quick_logger.rs:40 | joining comma-free elements loses none of their characters and adds exactly one comma between neighbours |
| QuickLogger.JoinAppend | src/quick_logger.rs:40 | joining two non-empty lists one after the other puts one comma between their joins |
| QuickLogger.SplitAtComma | src/quick_logger.rs:30 | a comma splits a string into the segments before it followed by the segments after it |
| QuickLogger.SplitJoin | src/quick_logger.rs:30-40 | splitting undoes joining, for any non-empty list of comma-free segments |
| QuickLogger.NonEmpty | src/quick_logger.rs:217 | the filter keeps only non-empty segments, each taken from its input, and never lengthens the list |
| QuickLogger.NonEmptyAppend | src/quick_logger.rs:217 | the filter distributes over concatenation, so every non-empty segment is kept, in order and with its multiplicity |
| QuickLogger.NonEmptyKeeps | src/quick_logger.rs:217 | a list with no empty element passes the filter unchanged |
| QuickLogger.TagsVec | src/quick_logger.rs:216-218 | every tag is non-empty and comma-free |
| QuickLogger.TagsVecAtComma | src/quick_logger.rs:216-218 | the tags of `a,b` are the tags of `a` followed by the tags of `b` |
| QuickLogger.TagsVecSegment | src/quick_logger.rs:216-218 | a comma-free string is a single tag, or no tag when it is empty; with `TagsVecAtComma` this fixes the tags of every string |
| QuickLogger.TagsString | src/quick_logger.rs:212-214 | the string of a non-empty list of valid tags splits back into exactly those tags; no tags give the empty string |
| QuickLogger.TagsRoundTrip | src/quick_logger.rs:212-218 | `tags_vec(tags_string(t)) == t` for every list of non-empty, comma-free tags, including the empty list |
| QuickLogger.TagsNormalizeIdempotent | src/quick_logger.rs:212-218 | normalising a tag string through `tags_vec` and `tags_string` twice gives the same as once |
| QuickLogger.TagsKeepContentAndOrder | src/quick_logger.rs:216-218 | the tags, concatenated, are exactly the input's non-comma characters in their original order |
| QuickLogger.FromLog | src/quick_logger.rs:37-43 | the row keeps the log's text |
| QuickLogger.ToLog | src/quick_logger.rs:26-35 | the log keeps the row's text and has at least one tag |
| QuickLogger.RowRoundTrip | src/quick_logger.rs:26-43 | reading a row and writing it back gives the same row |
| QuickLogger.LogRoundTrip | src/quick_logger.rs:26-43 | writing a log and reading it back keeps its text, and keeps its comma-free tags exactly when there is at least one tag |
| QuickLogger.EmptyTagsReadBack | src/quick_logger.rs:30-40 | a log with no tags reads back with the single tag `""` |
| QuickLogger.ModelMappingExample | src/quick_logger.rs:192-209 | the source's mapping test: "Hello world" with tags `hello`, `world` survives the round trip |
| QuickLogger.CreateTags | src/quick_logger.rs:86-93 | the `Create` arm's tags: none without `--tags`, otherwise exactly what `tags_vec` gives for the value, so non-empty and comma-free |
| QuickLogger.CreateLog | src/quick_logger.rs:95-99 | the created log has the given text and valid tags |
| QuickLogger.CreatedLogReadBack | src/quick_logger.rs:85-99 | a created log survives being stored and read back, except that one created without tags reads back with the tag `""` |
| Stacks.From | src/stack.rs:6-8 | the vector's elements become the stack, and its last element is the top |
| Stacks.Peak | src/stack.rs:18-20 | `None` exactly on an empty stack; otherwise the top, that is, the last element |
| Stacks.IsEmpty | src/stack.rs:22-24 | empty exactly when there are no elements, that is, exactly when `peak` finds nothing |
| Stacks.Pop | src/stack.rs:14-16 | removes the top and keeps the rest in order; an empty stack is left as it is |
| Stacks.Push | src/stack.rs:10-12 | the pushed value is the new top, there is one more element, and popping gives back the old stack |
| Stacks.PushPopExample | src/stack.rs:31-40 | the source's test: from `[1, 2, 3, 4]`, push 5, push 6 and pop; the top is 5 |
| ListModel.New | src/linked_list.rs:24-30 | a new list is empty, with the cursor at the head, and its first `next` returns `None` and leaves it so |
| ListModel.Append | src/linked_list.rs:32-50 | the value is added after the last element and the earlier elements stay in place |
| ListModel.Push | src/linked_list.rs:52-65 | the value becomes the head and the old elements follow it in order |
| ListModel.Next | src/linked_list.rs:71-93 | `next` never changes the contents; when it returns `None` the cursor is back at the head |
| ListModel.IterateFrom | src/linked_list.rs:71-93 | from the k-th cell, the iterator yields the remaining elements in order, then `None`, and is back at the head |
| ListModel.FullPass | src/linked_list.rs:71-93 | from the head, `length + 1` calls yield every element in order and then `None`, leaving the list as it was, so the next pass starts over |
| ListModel.IterationExample | src/linked_list.rs:114-133 | the source's test: append 10, 12, 13, push 0, 1; the iterator yields 1, 0, 10, 12, 13 and then `None` |
| LinkedLists.LinkedList.constructor | src/linked_list.rs:24-30 | on the heap, a new list is a single end-marker head cell with no current cell, which is what `ListModel.New` gives |
| LinkedLists.LinkedList.Append | src/linked_list.rs:32-50 | on the heap, walking to the end-marker cell and overwriting it does what `ListModel.Append` does |
| LinkedLists.LinkedList.Push | src/linked_list.rs:52-65 | on the heap, the new head cell pointing at the old head does what `ListModel.Push` does |
| LinkedLists.LinkedList.Next | src/linked_list.rs:71-93 | on the heap, following `current` returns the value and the cursor that `ListModel.Next` gives |

## Left out

- Terminal I/O. `read_input`, `display_tictactoe`, `LinkedList::display` and every `println!` are not modelled. `Step` takes the line that `read_input` returns as a parameter.
- TicTacToe.Step: `read_input` always returns its line trimmed (src/tictactoe.rs:204), but `Step` accepts any string, so it also describes lines with surrounding whitespace that the loop never receives. The model does not restrict `input` to trimmed strings.
- `run_tictactoe` returns when it reaches `Terminated`. The model has no loop exit, so `Step` keeps a terminated game as it is.
- `Finished(None)` prints forever in the source. `Step` keeps that state unchanged, and `NobodyWinsUnreachable` shows it never arises.
- Text.Lower: lowercases ASCII letters only, while the source uses Unicode `to_lowercase`. The result of every comparison the source makes (`quit`, `restart`, `x`, `o`) is still the same. The only non-ASCII characters whose lowercase form contains an ASCII letter are U+212A, which lowers to `k`, and U+0130, which lowers to `i` followed by U+0307. Neither can produce these words.
- The `u8` coordinates of a mark command are modelled as `nat`. They are always 1..3, so no wrap-around arises.
- The logger's creation date (`chrono`, RFC 3339 formatting and parsing) is not modelled. A log here is only its text and its tags.
- The logger's SQLite storage is not modelled: `connect_to_db`, `create_log_table_if_not_exists`, `create_log` and `fetch_logs` (`LIKE` matching). The `Show` arm always passes an empty tag list, and it only prints.
- The logger's `clap` command-line parsing is not modelled. The `Create` arm's tag parsing is modelled on an optional string.
- LinkedLists.LinkedList.Append: this contract and those of `Push`, `Next` and the constructor relate the heap to its previous state (`old`, `modifies`). The properties they depend on are also stated about the value model `ListModel`.
- Reference counting, `RefCell` borrow checks and the `Copy` bound of the linked list are not modelled. The model tracks cells as shared references and their contents.
- `Stack::peak` returns a reference to the top. The model returns the value.
- `src/metadata_editor.rs` and `src/http_client.rs` are not part of this model.
