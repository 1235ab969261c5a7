/** The rules of the console tic-tac-toe game: the command parser, the two
    marks, the 3x3 board with its winner detector, and the body of the game
    loop as a pure step function over (state, board, current player).
    Reading stdin and printing the board are not modelled: the line the
    player typed is a parameter of `Step`. */
module TicTacToe {
  import opened Wrappers
  import opened Text

  // ---------------------------------------------------------------- marks

  /** `GameCommandMark`. */
  datatype Mark = X | O

  /** `GameCommandMark::from`: case-insensitive `x`/`o`, nothing else. */
  function MarkFrom(c: char): (r: Option<Mark>)
    ensures r == Some(X) <==> c == 'x' || c == 'X'
    ensures r == Some(O) <==> c == 'o' || c == 'O'
  {
    var l := AsciiLower(c);
    if l == 'x' then Some(X) else if l == 'o' then Some(O) else None
  }

  /** `GameCommandMark::to_char`: the upper-case letter, which `MarkFrom`
      reads back as the same mark. */
  function ToChar(m: Mark): (c: char)
    ensures MarkFrom(c) == Some(m)
    ensures 'A' <= c <= 'Z'
  {
    match m
    case O => 'O'
    case X => 'X'
  }

  /** `GameCommandMark::toggle`: the other player. */
  function Toggle(m: Mark): (r: Mark)
    ensures r != m
  {
    match m
    case O => X
    case X => O
  }

  /** Toggling is an involution without a fixed point. */
  lemma ToggleInvolution(m: Mark)
    ensures Toggle(m) != m
    ensures Toggle(Toggle(m)) == m
  {
  }

  // ------------------------------------------------------------- commands

  /** `GameCommand`; the two coordinates are the 1-based row and column. */
  datatype Command = MarkAt(mark: Mark, x: nat, y: nat) | Quit | Restart

  /** The error text of `GameCommand::buid`. */
  const InvalidCommand: string := "Invalid command"

  /** What a mark command looks like: two digits in 1..3 and an `x` or `o`
      in either case, and nothing else. */
  predicate IsMarkText(s: string)
  {
    && |s| == 3
    && '1' <= s[0] <= '3'
    && '1' <= s[1] <= '3'
    && s[2] in "xXoO"
  }

  /** The nested `parse_mark_command`. The length test is on UTF-8 bytes,
      as `str::len` is. */
  function ParseMarkCommand(s: string): (r: Option<Command>)
    ensures r.Some? <==> IsMarkText(s)
    ensures r.Some? ==>
      && r.value.MarkAt?
      && r.value.x == s[0] as int - '0' as int
      && r.value.y == s[1] as int - '0' as int
      && MarkFrom(s[2]) == Some(r.value.mark)
  {
    MarkTextByteLen(s);
    if ByteLen(s) != 3 then None
    else if |s| == 0 || DigitValue(s[0]).None? then None
    else if |s| == 1 || DigitValue(s[1]).None? then None
    else
      var x := DigitValue(s[0]).value;
      var y := DigitValue(s[1]).value;
      if !(1 <= x <= 3) || !(1 <= y <= 3) then None
      else
        ByteLenAsciiPrefix(s, 3);
        match MarkFrom(s[2])
        case Some(m) => Some(MarkAt(m, x, y))
        case None => None
  }

  /** Mark commands are pure ASCII, so three bytes long. */
  lemma MarkTextByteLen(s: string)
    ensures IsMarkText(s) ==> ByteLen(s) == 3
  {
    if IsMarkText(s) {
      assert s[1..][1..] == s[2..];
      assert ByteLen(s[2..]) == 1 + ByteLen(s[3..]);
    }
  }

  /** `GameCommand::buid`: `quit` and `restart` after trimming and
      lowercasing, otherwise a mark command read from the untrimmed input,
      otherwise "Invalid command". */
  function ParseCommand(s: string): (r: Result<Command, string>)
    ensures r == Ok(Quit) <==> Lower(Trim(s)) == "quit"
    ensures r == Ok(Restart) <==> Lower(Trim(s)) == "restart"
    ensures (r.Ok? && r.value.MarkAt?) <==> IsMarkText(s)
    ensures r.Ok? && r.value.MarkAt? ==>
      && 1 <= r.value.x <= 3 && 1 <= r.value.y <= 3
      && r.value.x == s[0] as int - '0' as int
      && r.value.y == s[1] as int - '0' as int
      && MarkFrom(s[2]) == Some(r.value.mark)
    ensures r.Err? ==> r.error == InvalidCommand
  {
    MarkTextByteLen(s);
    var word := Lower(Trim(s));
    if word == "quit" then Ok(Quit)
    else if word == "restart" then Ok(Restart)
    else match ParseMarkCommand(s)
      case Some(c) => Ok(c)
      case None => Err(InvalidCommand)
  }

  /** `quit` is a keyword, in either case. */
  lemma ParseQuit()
    ensures ParseCommand("quit") == Ok(Quit)
  {
    assert !IsWhitespace("quit"[0]) && !IsWhitespace("quit"[3]);
    TrimUnpadded("quit");
    assert Lower("quit") == "quit";
  }

  lemma ParseUpperQuit()
    ensures ParseCommand("QUIT") == Ok(Quit)
  {
    assert !IsWhitespace("QUIT"[0]) && !IsWhitespace("QUIT"[3]);
    TrimUnpadded("QUIT");
    assert Lower("QUIT") == "quit";
  }

  lemma ParseRestart()
    ensures ParseCommand("restart") == Ok(Restart)
  {
    assert !IsWhitespace("restart"[0]) && !IsWhitespace("restart"[6]);
    TrimUnpadded("restart");
    assert Lower("restart") == "restart";
  }

  /** Surrounding whitespace is ignored for the keywords. */
  lemma ParsePaddedQuit()
    ensures ParseCommand(" quit ") == Ok(Quit)
  {
    var s := " quit ";
    assert IsWhitespace(s[0]) && s[1..] == "quit ";
    assert !IsWhitespace("quit "[0]);
    assert TrimStart("quit ") == "quit ";
    assert TrimStart(s) == "quit ";
    assert IsWhitespace("quit "[4]) && "quit "[..4] == "quit";
    assert !IsWhitespace("quit"[3]);
    assert TrimEnd("quit") == "quit";
    assert TrimEnd("quit ") == "quit";
    assert Lower("quit") == "quit";
  }

  /** Every mark text parses to the mark command it spells. */
  lemma ParseMarkText(s: string)
    requires IsMarkText(s)
    ensures ParseCommand(s) == Ok(MarkAt(MarkFrom(s[2]).value, s[0] as int - '0' as int, s[1] as int - '0' as int))
  {
    var r := ParseCommand(s);
    assert r.Ok? && r.value.MarkAt?;
    var c := MarkAt(MarkFrom(s[2]).value, s[0] as int - '0' as int, s[1] as int - '0' as int);
    assert r.value.mark == c.mark && r.value.x == c.x && r.value.y == c.y;
    assert r.value == c;
  }

  /** The mark-command examples of the source's unit test. */
  lemma ParseMarkUpper()
    ensures ParseCommand("12X") == Ok(MarkAt(X, 1, 2))
  {
    var s := "12X";
    assert IsMarkText(s);
    assert MarkFrom(s[2]) == Some(X);
    assert s[0] as int - '0' as int == 1 && s[1] as int - '0' as int == 2;
  }

  lemma ParseMarkLower()
    ensures ParseCommand("13o") == Ok(MarkAt(O, 1, 3))
  {
    var s := "13o";
    assert IsMarkText(s);
    assert MarkFrom(s[2]) == Some(O);
    assert s[0] as int - '0' as int == 1 && s[1] as int - '0' as int == 3;
  }

  /** A zero coordinate is out of range. */
  lemma ParseMarkOutOfRange()
    ensures ParseCommand("04o") == Err(InvalidCommand)
  {
    assert !IsMarkText("04o");
  }

  // ---------------------------------------------------------------- board

  /** `Table`: rows of cells, each cell a short string. */
  type Table = seq<seq<string>>

  /** The shape every board the game builds has: 3 rows of 3 non-empty
      cells (the game reads the first character of a cell). */
  predicate ValidTable(t: Table)
  {
    && |t| == 3
    && forall i :: 0 <= i < 3 ==> |t[i]| == 3 && forall j :: 0 <= j < 3 ==> |t[i][j]| > 0
  }

  /** A cell holds a mark when its first character reads as one. */
  predicate IsMarked(cell: string)
    requires |cell| > 0
  {
    MarkFrom(cell[0]).Some?
  }

  /** A 0-based row or column index. */
  type Coord = i: nat | i < 3

  /** Board position. */
  datatype Pos = Pos(row: Coord, col: Coord)

  function At(t: Table, p: Pos): string
    requires ValidTable(t)
  {
    t[p.row][p.col]
  }

  /** `new_table`: nine empty cells, so nobody has won yet. */
  function NewTable(): (t: Table)
    ensures ValidTable(t)
    ensures forall p :: At(t, p) == "-" && !IsMarked(At(t, p))
    ensures Winner(t) == None
  {
    var t := seq(3, _ => seq(3, _ => "-"));
    assert forall p :: At(t, p) == "-";
    t
  }

  /** The board with cell `p` replaced by `v`. */
  function Put(t: Table, p: Pos, v: string): (r: Table)
    requires ValidTable(t) && |v| > 0
    ensures ValidTable(r)
    ensures At(r, p) == v
    ensures forall q :: q != p ==> At(r, q) == At(t, q)
  {
    t[p.row := t[p.row][p.col := v]]
  }

  // ------------------------------------------------------- winner detector

  /** `equal3` reads a cell as `m` when its lowercase form is that letter,
      that is, when it is the letter in either case. */
  predicate CellHolds(cell: string, m: Mark)
  {
    cell == [ToChar(m)] || cell == [AsciiLower(ToChar(m))]
  }

  /** A string lowercases to a single letter exactly when it is that letter
      in either case. */
  lemma LowerIsLetter(s: string, m: Mark)
    ensures Lower(s) == [AsciiLower(ToChar(m))] <==> CellHolds(s, m)
  {
    if Lower(s) == [AsciiLower(ToChar(m))] {
      assert |s| == 1 && s == [s[0]];
    }
  }

  /** `equal3`: the mark all three cells read as, if there is one. */
  function Equal3(a: string, b: string, c: string): (r: Option<Mark>)
    ensures r == Some(X) <==> CellHolds(a, X) && CellHolds(b, X) && CellHolds(c, X)
    ensures r == Some(O) <==> CellHolds(a, O) && CellHolds(b, O) && CellHolds(c, O)
  {
    LowerIsLetter(a, X); LowerIsLetter(b, X); LowerIsLetter(c, X);
    LowerIsLetter(a, O); LowerIsLetter(b, O); LowerIsLetter(c, O);
    if Lower(a) == "x" && Lower(b) == "x" && Lower(c) == "x" then Some(X)
    else if Lower(a) == "o" && Lower(b) == "o" && Lower(c) == "o" then Some(O)
    else None
  }

  /** Three cells in a row, column or diagonal. */
  datatype Line = Line(a: Pos, b: Pos, c: Pos)

  /** Line `l` of board `t` is complete for mark `m`. */
  predicate Holds(t: Table, l: Line, m: Mark)
    requires ValidTable(t)
  {
    CellHolds(At(t, l.a), m) && CellHolds(At(t, l.b), m) && CellHolds(At(t, l.c), m)
  }

  /** The mark line `l` is complete for, if any. */
  function LineWinner(t: Table, l: Line): (r: Option<Mark>)
    requires ValidTable(t)
    ensures r == Some(X) <==> Holds(t, l, X)
    ensures r == Some(O) <==> Holds(t, l, O)
  {
    Equal3(At(t, l.a), At(t, l.b), At(t, l.c))
  }

  function RowLine(i: Coord): Line
  {
    Line(Pos(i, 0), Pos(i, 1), Pos(i, 2))
  }

  function ColumnLine(j: Coord): Line
  {
    Line(Pos(0, j), Pos(1, j), Pos(2, j))
  }

  const MainDiagonal: Line := Line(Pos(0, 0), Pos(1, 1), Pos(2, 2))

  /** The diagonal from the bottom-left corner, as the source lists it. */
  const AntiDiagonal: Line := Line(Pos(2, 0), Pos(1, 1), Pos(0, 2))

  /** The eight lines in the order the detector tries them: rows top to
      bottom, columns left to right, then the anti-diagonal before the main
      diagonal. */
  const ScanOrder: seq<Line> := [
    RowLine(0), RowLine(1), RowLine(2),
    ColumnLine(0), ColumnLine(1), ColumnLine(2),
    AntiDiagonal, MainDiagonal
  ]

  /** Line `l` of board `t` is complete for one of the marks. */
  predicate Complete(t: Table, l: Line)
    requires ValidTable(t)
  {
    Holds(t, l, X) || Holds(t, l, O)
  }

  /** No line before position `k` of `ScanOrder` is complete. */
  predicate NoneCompleteBefore(t: Table, k: nat)
    requires ValidTable(t) && k <= |ScanOrder|
  {
    forall j :: 0 <= j < k ==> !Complete(t, ScanOrder[j])
  }

  /** The first `Some` of `ws`: every earlier entry is `None`. */
  function FirstSome<T>(ws: seq<Option<T>>): (r: Option<T>)
    ensures r.None? <==> forall k :: 0 <= k < |ws| ==> ws[k].None?
    ensures r.Some? ==>
      exists k :: 0 <= k < |ws| && ws[k] == r && forall j :: 0 <= j < k ==> ws[j].None?
  {
    if |ws| == 0 then None
    else if ws[0].Some? then ws[0]
    else
      var r := FirstSome(ws[1..]);
      assert forall k :: 1 <= k < |ws| ==> ws[1..][k - 1] == ws[k];
      r
  }

  /** What `equal3` says of each line, in `ScanOrder`. */
  function LineResults(t: Table): (r: seq<Option<Mark>>)
    requires ValidTable(t)
    ensures |r| == |ScanOrder|
    ensures forall k :: 0 <= k < |ScanOrder| ==> r[k] == LineWinner(t, ScanOrder[k])
  {
    seq(|ScanOrder|, k requires 0 <= k < |ScanOrder| => LineWinner(t, ScanOrder[k]))
  }

  /** The winner `is_somebody_won` reports: the mark of the first complete
      line in `ScanOrder`, with no line before it complete; `None` exactly
      when no line is complete for either mark. */
  function Winner(t: Table): (r: Option<Mark>)
    requires ValidTable(t)
    ensures r.None? <==>
      NoneCompleteBefore(t, |ScanOrder|)
    ensures r.Some? ==>
      exists k :: 0 <= k < |ScanOrder| && Holds(t, ScanOrder[k], r.value)
        && NoneCompleteBefore(t, k)
  {
    var r := FirstSome(LineResults(t));
    FirstSomeHolds(t, r);
    r
  }

  /** Line `k`'s result is `Some(m)` exactly when the line is complete
      for `m`. */
  lemma LineResultMeaning(t: Table, k: nat)
    requires ValidTable(t) && k < |ScanOrder|
    ensures LineResults(t)[k].Some? ==> Holds(t, ScanOrder[k], LineResults(t)[k].value)
    ensures LineResults(t)[k].None? ==> !Holds(t, ScanOrder[k], X) && !Holds(t, ScanOrder[k], O)
  {
    var w := LineResults(t)[k];
    assert w == LineWinner(t, ScanOrder[k]);
    if w.Some? {
      assert w == Some(w.value);
    }
  }

  /** The first `Some` among the line results names a complete line. */
  lemma FirstSomeHolds(t: Table, r: Option<Mark>)
    requires ValidTable(t) && r == FirstSome(LineResults(t))
    ensures r.Some? ==>
      exists k :: 0 <= k < |ScanOrder| && Holds(t, ScanOrder[k], r.value)
        && NoneCompleteBefore(t, k)
  {
    var ws := LineResults(t);
    if r.Some? {
      var k :| 0 <= k < |ws| && ws[k] == r && forall j :: 0 <= j < k ==> ws[j].None?;
      LineResultMeaning(t, k);
      forall j | 0 <= j < k
        ensures !Complete(t, ScanOrder[j])
      {
        LineResultMeaning(t, j);
      }
    }
  }

  /** No cell reads as both marks. */
  lemma CellHoldsOneMark(cell: string)
    ensures !(CellHolds(cell, X) && CellHolds(cell, O))
  {
    assert ToChar(X) != ToChar(O) && AsciiLower(ToChar(X)) != AsciiLower(ToChar(O));
  }

  /** The converse of `Winner`'s contract: when line `k` of the scan is
      complete for `m` and no earlier line is complete, the detector reports
      `m`. */
  lemma WinnerIsFirstComplete(t: Table, k: nat, m: Mark)
    requires ValidTable(t) && k < |ScanOrder| && Holds(t, ScanOrder[k], m)
    requires NoneCompleteBefore(t, k)
    ensures Winner(t) == Some(m)
  {
    var r := Winner(t);
    assert r.Some?;
    var k' :| 0 <= k' < |ScanOrder| && Holds(t, ScanOrder[k'], r.value)
      && NoneCompleteBefore(t, k');
    assert k' == k;
    CellHoldsOneMark(At(t, ScanOrder[k].a));
  }

  /** The line results of the rows, the columns and the two diagonals, in
      the cells' own terms. */
  lemma RowResult(t: Table, i: Coord)
    requires ValidTable(t)
    ensures LineResults(t)[i] == Equal3(t[i][0], t[i][1], t[i][2])
  {
    assert ScanOrder[..3] == [RowLine(0), RowLine(1), RowLine(2)];
    assert ScanOrder[i] == RowLine(i);
  }

  lemma ColumnResult(t: Table, i: Coord)
    requires ValidTable(t)
    ensures LineResults(t)[3 + i] == Equal3(t[0][i], t[1][i], t[2][i])
  {
    assert ScanOrder[3..6] == [ColumnLine(0), ColumnLine(1), ColumnLine(2)];
    assert ScanOrder[3 + i] == ColumnLine(i);
  }

  lemma DiagonalResults(t: Table)
    requires ValidTable(t)
    ensures LineResults(t)[6] == Equal3(t[2][0], t[1][1], t[0][2])
    ensures LineResults(t)[7] == Equal3(t[0][0], t[1][1], t[2][2])
  {
  }

  /** `is_somebody_won`, with the source's loops over rows and columns and
      its diagonal match; it agrees with `Winner`. */
  method IsSomebodyWon(t: Table) returns (r: Option<Mark>)
    requires ValidTable(t)
    ensures r == Winner(t)
  {
    ghost var ws := LineResults(t);
    var i := 0;
    while i < 3
      invariant 0 <= i <= 3
      invariant FirstSome(ws[i..]) == Winner(t)
    {
      var w := Equal3(t[i][0], t[i][1], t[i][2]);
      RowResult(t, i);
      assert ws[i..][0] == w;
      if w.Some? {
        return w;
      }
      assert ws[i..][1..] == ws[i + 1..];
      i := i + 1;
    }
    i := 0;
    while i < 3
      invariant 0 <= i <= 3
      invariant FirstSome(ws[3 + i..]) == Winner(t)
    {
      var w := Equal3(t[0][i], t[1][i], t[2][i]);
      ColumnResult(t, i);
      assert ws[3 + i..][0] == w;
      if w.Some? {
        return w;
      }
      assert ws[3 + i..][1..] == ws[3 + i + 1..];
      i := i + 1;
    }
    var main := Equal3(t[0][0], t[1][1], t[2][2]);
    var anti := Equal3(t[2][0], t[1][1], t[0][2]);
    DiagonalResults(t);
    assert ws[6..][0] == anti && ws[6..][1..] == ws[7..];
    assert ws[7..][0] == main && ws[7..][1..] == [];
    match (main, anti)
    case (_, Some(m)) => return Some(m);
    case (Some(m), _) => return Some(m);
    case _ => return None;
  }

  /** The boards of the source's unit test for the detector: the new board,
      a top row of `x`, the main diagonal and the first column of `o`. */
  lemma WinnerNewTableExample()
    ensures Winner(NewTable()) == None
  {
  }

  lemma WinnerTopRowExample()
    ensures Winner([["x", "x", "x"], ["-", "-", "-"], ["-", "-", "-"]]) == Some(X)
  {
    var t := [["x", "x", "x"], ["-", "-", "-"], ["-", "-", "-"]];
    assert Holds(t, ScanOrder[0], X);
    WinnerIsFirstComplete(t, 0, X);
  }

  lemma WinnerDiagonalExample()
    ensures Winner([["o", "-", "-"], ["-", "o", "-"], ["-", "-", "o"]]) == Some(O)
  {
    var t := [["o", "-", "-"], ["-", "o", "-"], ["-", "-", "o"]];
    assert !CellHolds("-", X) && !CellHolds("-", O);
    assert ScanOrder[7] == MainDiagonal && Holds(t, MainDiagonal, O);
    forall j | 0 <= j < 7
      ensures !Complete(t, ScanOrder[j])
    {
      assert j < 3 ==> ScanOrder[j] == RowLine(j);
      assert 3 <= j < 6 ==> ScanOrder[j] == ColumnLine(j - 3);
    }
    WinnerIsFirstComplete(t, 7, O);
  }

  lemma WinnerColumnExample()
    ensures Winner([["o", "-", "-"], ["o", "-", "-"], ["o", "-", "-"]]) == Some(O)
  {
    var t := [["o", "-", "-"], ["o", "-", "-"], ["o", "-", "-"]];
    assert !CellHolds("-", X) && !CellHolds("-", O);
    assert ScanOrder[3] == ColumnLine(0) && Holds(t, ColumnLine(0), O);
    forall j | 0 <= j < 3
      ensures !Complete(t, ScanOrder[j])
    {
      assert ScanOrder[j] == RowLine(j);
    }
    WinnerIsFirstComplete(t, 3, O);
  }

  /** Rows are scanned top to bottom: with a complete top row of `X` and a
      complete bottom row of `O`, the top row decides. */
  lemma WinnerRowPriority()
    ensures Winner([["X", "X", "X"], ["-", "-", "-"], ["O", "O", "O"]]) == Some(X)
  {
    var t := [["X", "X", "X"], ["-", "-", "-"], ["O", "O", "O"]];
    assert Holds(t, ScanOrder[0], X);
    WinnerIsFirstComplete(t, 0, X);
  }

  // ----------------------------------------------------------------- game

  /** `GameState`. */
  datatype GameState = Finished(winner: Option<Mark>) | Playing | New | Terminated

  /** The variables of `run_tictactoe`'s loop: its state, the board and the
      player whose turn it is. */
  datatype Game = Game(state: GameState, table: Table, player: Mark)

  /** The values the loop starts from. */
  function Start(): (g: Game)
    ensures g.state == New && g.player == X
    ensures ValidTable(g.table) && Winner(g.table) == None
    ensures forall p :: At(g.table, p) == "-"
  {
    Game(New, NewTable(), X)
  }

  /** The shorthand of the playing state: a two-byte input (a bare
      position such as `21`) gets the current player's letter appended. */
  function CompleteInput(input: string, player: Mark): (r: string)
    ensures |input| <= |r| && r[..|input|] == input
    ensures |r| == |input| + 1 <==> ByteLen(input) == 2
    ensures |r| <= |input| + 1
    ensures |r| > |input| ==> r[|input|] == ToChar(player)
  {
    if ByteLen(input) == 2 then input + [ToChar(player)] else input
  }

  /** A bare two-digit position is completed with the player's letter
      into a mark text. */
  lemma CompleteShorthand(input: string, player: Mark)
    requires |input| == 2 && '1' <= input[0] <= '3' && '1' <= input[1] <= '3'
    ensures CompleteInput(input, player) == input + [ToChar(player)]
    ensures IsMarkText(input + [ToChar(player)])
  {
    assert ByteLen(input) == 2 by {
      assert ByteLen(input[1..]) == 1 + ByteLen(input[2..]);
    }
    var s := input + [ToChar(player)];
    assert s[0] == input[0] && s[1] == input[1] && s[2] == ToChar(player);
  }

  /** A bare two-digit position is a mark command for the player whose
      turn it is. */
  lemma ShorthandMarksForPlayer(input: string, player: Mark)
    requires |input| == 2 && '1' <= input[0] <= '3' && '1' <= input[1] <= '3'
    ensures ParseCommand(CompleteInput(input, player))
      == Ok(MarkAt(player, input[0] as int - '0' as int, input[1] as int - '0' as int))
  {
    CompleteShorthand(input, player);
    var s := input + [ToChar(player)];
    ParseMarkText(s);
    assert s[0] == input[0] && s[1] == input[1] && MarkFrom(s[2]) == Some(player);
  }

  /** The cell a mark command names: its coordinates are 1-based. */
  function Target(x: nat, y: nat): Pos
    requires 1 <= x <= 3 && 1 <= y <= 3
  {
    Pos(x - 1, y - 1)
  }

  /** The command arm of the playing state: a mark on an empty cell writes
      the command's letter there and passes the turn; a mark on a taken cell
      changes nothing; restart and quit only change the state. */
  function Apply(g: Game, cmd: Command): (r: Game)
    requires ValidTable(g.table)
    requires cmd.MarkAt? ==> 1 <= cmd.x <= 3 && 1 <= cmd.y <= 3
    ensures ValidTable(r.table)
    ensures r.state == (if cmd.Quit? then Terminated else if cmd.Restart? then New else g.state)
    ensures cmd.MarkAt? && !IsMarked(At(g.table, Target(cmd.x, cmd.y))) ==>
      && At(r.table, Target(cmd.x, cmd.y)) == [ToChar(cmd.mark)]
      && (forall q :: q != Target(cmd.x, cmd.y) ==> At(r.table, q) == At(g.table, q))
      && r.player == Toggle(g.player)
    ensures !(cmd.MarkAt? && !IsMarked(At(g.table, Target(cmd.x, cmd.y)))) ==>
      r.table == g.table && r.player == g.player
  {
    match cmd
    case MarkAt(m, x, y) =>
      var p := Target(x, y);
      if IsMarked(At(g.table, p)) then g
      else g.(table := Put(g.table, p, [ToChar(m)]), player := Toggle(g.player))
    case Restart => g.(state := New)
    case Quit => g.(state := Terminated)
  }

  /** One pass of the loop in the playing state: complete and parse the
      input, apply the command, then look for a winner. An unparsable
      input is the `unwrap` panic, reported here as `Err`. */
  function PlayTurn(g: Game, input: string): (r: Result<Game, string>)
    requires ValidTable(g.table)
    ensures r.Err? <==> ParseCommand(CompleteInput(input, g.player)).Err?
    ensures r.Err? ==> r.error == InvalidCommand
    ensures r.Ok? ==>
      var next := Apply(g, ParseCommand(CompleteInput(input, g.player)).value);
      && r.value.table == next.table
      && r.value.player == next.player
      && r.value.state ==
           (if Winner(next.table).Some? then Finished(Winner(next.table)) else next.state)
  {
    match ParseCommand(CompleteInput(input, g.player))
    case Err(e) => Err(e)
    case Ok(cmd) =>
      var next := Apply(g, cmd);
      match Winner(next.table)
      case Some(m) => Ok(next.(state := Finished(Some(m))))
      case None => Ok(next)
  }

  /** One pass of `run_tictactoe`'s loop. `input` is the line `read_input`
      returns; only the playing state reads one. The loop stops at
      `Terminated`, which is therefore a fixed point here. */
  function Step(g: Game, input: string): (r: Result<Game, string>)
    requires ValidTable(g.table)
    ensures r.Ok? ==> ValidTable(r.value.table)
    ensures r.Err? ==> g.state == Playing && r.error == InvalidCommand
  {
    match g.state
    case Playing => PlayTurn(g, input)
    case New => Ok(g.(table := NewTable(), state := Playing))
    case Finished(w) => if w.Some? then Ok(g.(state := New)) else Ok(g)
    case Terminated => Ok(g)
  }

  /** What holds of every state the loop reaches: the board is well formed,
      nobody has won while playing, and a finished game names the winner the
      board shows. In particular `Finished(None)` is never reached. */
  predicate Invariant(g: Game)
  {
    && ValidTable(g.table)
    && (g.state == Playing ==> Winner(g.table).None?)
    && (g.state.Finished? ==> g.state.winner.Some? && Winner(g.table) == g.state.winner)
  }

  lemma StepPreservesInvariant(g: Game, input: string)
    requires Invariant(g) && Step(g, input).Ok?
    ensures Invariant(Step(g, input).value)
  {
    if g.state == Playing {
      var cmd := ParseCommand(CompleteInput(input, g.player)).value;
      var next := Apply(g, cmd);
      assert next.state == Playing || next.state == New || next.state == Terminated;
      assert Step(g, input) == PlayTurn(g, input);
    }
  }

  /** Runs the loop for `|inputs|` passes, one input line per pass (ignored
      by passes that read nothing), stopping at the first panic. */
  function Run(g: Game, inputs: seq<string>): Result<Game, string>
    requires ValidTable(g.table)
    decreases |inputs|
  {
    if |inputs| == 0 then Ok(g)
    else match Step(g, inputs[0])
      case Err(e) => Err(e)
      case Ok(next) => Run(next, inputs[1..])
  }

  /** Every state reachable from `Start` satisfies `Invariant`. */
  lemma {:induction false} RunPreservesInvariant(g: Game, inputs: seq<string>)
    requires Invariant(g) && Run(g, inputs).Ok?
    ensures Invariant(Run(g, inputs).value)
    decreases |inputs|
  {
    if |inputs| > 0 {
      StepPreservesInvariant(g, inputs[0]);
      RunPreservesInvariant(Step(g, inputs[0]).value, inputs[1..]);
    }
  }

  /** From the start, the loop never reaches `Finished(None)`. */
  lemma NobodyWinsUnreachable(inputs: seq<string>)
    requires Run(Start(), inputs).Ok?
    ensures Run(Start(), inputs).value.state != Finished(None)
  {
    RunPreservesInvariant(Start(), inputs);
  }

  /** The transitions that read no input: a new game clears the board and
      starts playing, a won game goes back to a new one; the player whose
      turn it is carries over. */
  lemma SilentTransitions(g: Game, input: string)
    requires ValidTable(g.table)
    ensures g.state == New ==> Step(g, input) == Ok(Game(Playing, NewTable(), g.player))
    ensures g.state.Finished? && g.state.winner.Some? ==> Step(g, input) == Ok(g.(state := New))
    ensures g.state == Terminated ==> Step(g, input) == Ok(g)
  {
  }

  /** While playing, `quit` ends the loop and `restart` starts a new game,
      leaving board and player as they are. */
  lemma PlayingKeywords(g: Game, input: string)
    requires Invariant(g) && g.state == Playing
    ensures Lower(Trim(input)) == "quit" ==> Step(g, input) == Ok(g.(state := Terminated))
    ensures Lower(Trim(input)) == "restart" ==> Step(g, input) == Ok(g.(state := New))
  {
    assert ByteLen(input) == 2 ==> |Lower(Trim(input))| <= 2;
  }

  /** While playing, an input that is not a command panics. */
  lemma PlayingInvalid(g: Game, input: string)
    requires ValidTable(g.table) && g.state == Playing
    requires ParseCommand(CompleteInput(input, g.player)).Err?
    ensures Step(g, input) == Err(InvalidCommand)
  {
  }

  /** Marking an empty cell writes the command's letter into exactly that
      cell, passes the turn, and finishes the game when the board now has a
      winner. */
  lemma PlayingMarkEmptyCell(g: Game, input: string, m: Mark, x: nat, y: nat)
    requires ValidTable(g.table) && g.state == Playing
    requires ParseCommand(CompleteInput(input, g.player)) == Ok(MarkAt(m, x, y))
    requires 1 <= x <= 3 && 1 <= y <= 3 && !IsMarked(At(g.table, Target(x, y)))
    ensures Step(g, input).Ok?
    ensures At(Step(g, input).value.table, Target(x, y)) == [ToChar(m)]
    ensures forall q :: q != Target(x, y) ==> At(Step(g, input).value.table, q) == At(g.table, q)
    ensures Step(g, input).value.player == Toggle(g.player)
    ensures Step(g, input).value.state ==
      match Winner(Step(g, input).value.table)
      case Some(w) => Finished(Some(w))
      case None => Playing
  {
  }

  /** Marking a taken cell changes neither the board nor the player, and the
      game goes on. */
  lemma PlayingMarkTakenCell(g: Game, input: string, m: Mark, x: nat, y: nat)
    requires Invariant(g) && g.state == Playing
    requires ParseCommand(CompleteInput(input, g.player)) == Ok(MarkAt(m, x, y))
    requires 1 <= x <= 3 && 1 <= y <= 3 && IsMarked(At(g.table, Target(x, y)))
    ensures Step(g, input) == Ok(g)
  {
  }
}
