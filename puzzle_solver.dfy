/**
 * The puzzle-solver front end: reading the command line into a `Command`,
 * choosing the solver for the named puzzle kind, and turning the solver's
 * outcome into the text of the solution file or an error message.
 * File reading and writing stay outside: the file's contents (or the read
 * error) are a parameter, and the text that would be written is the result.
 */
module PuzzleSolver {
  import opened Wrappers
  import opened Sudoku

  /** What `Command::build` extracts from the argument list. */
  datatype Command = Command(puzzle: string, filename: string)

  /** The supported puzzle kinds (`enum PuzzleType`). */
  datatype PuzzleType = SudokuType

  const MissingPuzzle: string := "At least 1 argument is required to specify puzzle type."
  const Unsupported: string := "The specified puzzle is not supported."
  const Unsolved: string := "The given puzzle could not be solved."

  // ---------------------------------------------------------------------------
  // The command line
  // ---------------------------------------------------------------------------

  predicate IsUpper(ch: char) {
    'A' <= ch <= 'Z'
  }

  /** `str::to_lowercase`, on ASCII letters; every other character is kept. */
  function ToLowercase(s: string): (t: string)
    ensures |t| == |s|
    ensures forall i :: 0 <= i < |s| ==> !IsUpper(t[i])
    ensures forall i :: 0 <= i < |s| ==> (if IsUpper(s[i]) then t[i] as int == s[i] as int + 32 else t[i] == s[i])
  {
    if s == [] then []
    else [if IsUpper(s[0]) then (s[0] as int + 32) as char else s[0]] + ToLowercase(s[1..])
  }

  /** `Command::build`: the first argument (the program name) is skipped, the
      second names the puzzle and is lowercased, the third, if any, is the file
      name, which otherwise defaults to the lowercased puzzle name plus ".txt";
      later arguments are ignored. */
  function BuildCommand(args: seq<string>): (r: Result<Command, string>)
    ensures r.Err? <==> |args| < 2
    ensures r.Err? ==> r.error == MissingPuzzle
    ensures r.Ok? ==> |r.value.puzzle| == |args[1]| && forall i :: 0 <= i < |r.value.puzzle| ==> !IsUpper(r.value.puzzle[i])
  {
    if |args| < 2 then Err(MissingPuzzle)
    else
      var puzzle := ToLowercase(args[1]);
      var filename := if |args| >= 3 then args[2] else puzzle + ".txt";
      Ok(Command(puzzle, filename))
  }

  /** Lowercasing twice changes nothing more. */
  lemma {:induction false} ToLowercaseIdempotent(s: string)
    ensures ToLowercase(ToLowercase(s)) == ToLowercase(s)
  {
    var t := ToLowercase(s);
    var u := ToLowercase(t);
    assert forall i :: 0 <= i < |t| ==> u[i] == t[i];
  }

  /** The program name never matters. */
  lemma BuildCommandIgnoresProgramName(a: string, b: string, rest: seq<string>)
    ensures BuildCommand([a] + rest) == BuildCommand([b] + rest)
  {
    if |rest| >= 1 {
      assert ([a] + rest)[1] == rest[0] == ([b] + rest)[1];
    }
    if |rest| >= 2 {
      assert ([a] + rest)[2] == rest[1] == ([b] + rest)[2];
    }
  }

  /** Arguments after the third are ignored. */
  lemma BuildCommandIgnoresExtra(args: seq<string>, extra: seq<string>)
    requires |args| >= 3
    ensures BuildCommand(args + extra) == BuildCommand(args)
  {
    assert (args + extra)[1] == args[1] && (args + extra)[2] == args[2];
  }

  /** The file name is the third argument when given, and otherwise the
      lowercased puzzle name with ".txt" appended. */
  lemma BuildCommandFilename(args: seq<string>)
    requires |args| >= 2
    ensures BuildCommand(args).Ok?
    ensures |args| >= 3 ==> BuildCommand(args).value.filename == args[2]
    ensures |args| == 2 ==> BuildCommand(args).value.filename == BuildCommand(args).value.puzzle + ".txt"
    ensures BuildCommand(args).value.puzzle == ToLowercase(args[1])
  {
  }

  // ---------------------------------------------------------------------------
  // Choosing and running the solver
  // ---------------------------------------------------------------------------

  /** The puzzle-kind match of `run`: only "sudoku" is supported. Because the
      name was lowercased, "Sudoku" and "SUDOKU" on the command line select it too. */
  function SelectPuzzle(puzzle: string): (r: Result<PuzzleType, string>)
    ensures r.Ok? <==> puzzle == "sudoku"
    ensures r.Err? ==> r.error == Unsupported
  {
    if puzzle == "sudoku" then Ok(SudokuType) else Err(Unsupported)
  }

  /** `b` is a board the solver may leave behind for the puzzle `g`: filled,
      digits only, keeping the givens, with every written cell clash-free. */
  ghost predicate SolvedFrom(b: Grid, g: Grid) {
    IsBoard(b) && IsBoard(g) && FilledFrom(b, 0) && DigitCells(b) && Extends(b, g) && WrittenCellsClashFree(b, g)
  }

  /** The outcomes `sudoku_puzzle` may produce on `contents`. A read error is passed on;
      a puzzle the pre-check rejects is unsolved; a puzzle with a solution is
      solved; and a solved puzzle's text is the printed form of a board solved
      from it, which reads back as that board. */
  ghost predicate SudokuOutcome(contents: string, r: Result<string, string>) {
    match Build(contents)
    case Err(e) => r == Err(e)
    case Ok(g) =>
      (r.Err? ==> r.error == Unsolved) &&
      (!PassesPrecheck(g) ==> r == Err(Unsolved)) &&
      ((exists s :: IsSolutionOf(s, g)) ==> r.Ok?) &&
      (r.Ok? ==> exists b :: SolvedFrom(b, g) && r.value == Format(b)) &&
      (r.Ok? ==> Build(r.value).Ok? && SolvedFrom(Build(r.value).value, g))
  }

  /** `sudoku_puzzle`: build the board, solve it, and print it. */
  method SudokuPuzzle(contents: string) returns (r: Result<string, string>)
    ensures SudokuOutcome(contents, r)
  {
    var built := Build(contents);
    if built.Err? {
      return Err(built.error);
    }
    var sudoku := new Sudoku(built.value);
    var solved := sudoku.Solve();
    if solved {
      FormatReadsBack(sudoku.board);
      return Ok(Format(sudoku.board));
    }
    return Err(Unsolved);
  }

  /** What `run` writes to the solution file: a header naming the puzzle file,
      then the solution. */
  function Report(filename: string, solution: string): (text: string)
    ensures |text| == |"Solution to puzzle: "| + |filename| + 1 + |solution|
    ensures text[..|"Solution to puzzle: "|] == "Solution to puzzle: "
    ensures text[|"Solution to puzzle: "|..|"Solution to puzzle: "| + |filename|] == filename
    ensures text[|text| - |solution| - 1] == '\n' && text[|text| - |solution|..] == solution
  {
    "Solution to puzzle: " + filename + "\n" + solution
  }

  /** `run`, with the file contents given: `contents` is what reading
      `command.filename` produced. An unsupported kind fails before the file
      matters; a read error is passed on; otherwise the text of the solution
      file is returned. */
  method Run(command: Command, contents: Result<string, string>) returns (r: Result<string, string>)
    ensures command.puzzle != "sudoku" ==> r == Err(Unsupported)
    ensures command.puzzle == "sudoku" && contents.Err? ==> r == Err(contents.error)
    ensures command.puzzle == "sudoku" && contents.Ok? ==>
      exists out :: SudokuOutcome(contents.value, out) &&
        r == (if out.Ok? then Ok(Report(command.filename, out.value)) else out)
  {
    var kind := SelectPuzzle(command.puzzle);
    if kind.Err? {
      return Err(kind.error);
    }
    if contents.Err? {
      return Err(contents.error);
    }
    var solution := SudokuPuzzle(contents.value);
    if solution.Err? {
      return solution;
    }
    return Ok(Report(command.filename, solution.value));
  }
}
