# Puzzle solver and pong scene logic, modelled in Dafny

This project models the logical core of two small Rust programs and proves
properties about it.

- **Puzzle solver** (`puzzle-solver/src/sudoku.rs`, `puzzle-solver/src/main.rs`).
  It is a 9×9 digit-placement (sudoku) solver:
  - `build` reads the board from text;
  - `safe_row`, `safe_col` and `safe_matrix` are the three checkers, and
    `safe_space` combines them;
  - `is_valid` is the pre-check of the givens;
  - `fill_board` is the in-place backtracking search, and `solve` wraps the
    pre-check and the search;
  - `format` prints the board;
  - `Command::build` parses the command line;
  - `run` picks the puzzle kind and produces the outcome, and `sudoku_puzzle`
    builds, solves and formats.
- **Super pong** (`super-pong/src/main.rs`, `super-pong/src/scene.rs`,
  `super-pong/src/title_scene.rs`).
  - The scene stack of `GameState` and the four `Transition`s it handles after
    `update` and after `draw`.
  - The title screen's colour pickers: the inclusive rectangle hit test, the
    layout built by `TitleScene::new`, `update_color_selection`, and the
    selection part of `start_game`.

Files:

| file | module | models |
|---|---|---|
| `wrappers.dfy` | `Wrappers` | `Option` / `Result` |
| `sequences.dfy` | `Sequences` | `Iterator::position` on a sequence |
| `sudoku.dfy` | `Sudoku` | `sudoku.rs`: board rules, checkers, pre-check, `build`, `format`, class `Sudoku` (its `board` is updated in place by `FillBoard`) |
| `puzzle_solver.dfy` | `PuzzleSolver` | `main.rs`: `Command::build`, the puzzle-kind match, `sudoku_puzzle`, `run` |
| `scenes.dfy` | `Scenes` | `scene.rs` `Transition`, `main.rs` class `GameState` |
| `title_scene.dfy` | `TitleScene` | `title_scene.rs`: `clicked`, `ColorButton`, class `TitleScene` (its button columns) |
| `puzzle_tests.dfy` | `PuzzleTests` | the unit tests of `main.rs`, as proved facts |

Modelling choices:
- The board is `seq<seq<nat>>`. The `u32` cells never overflow: they hold
  parsed digits or the candidates 1..9.
- The three checkers are modelled with their quirks, not idealised:
  - `safe_row` looks only at the first occurrence of the candidate;
  - `safe_col` is true for a cell's own value;
  - `safe_matrix` skips every box cell on the cell's row or column.
- `SafeOnEmptyCell` proves that on an empty cell the three checkers together
  are exactly the rule of the puzzle. This is what makes the search sound and
  complete.
- Screen coordinates are exact reals. `f32` rounding is not modelled.
- Scenes are opaque values. What a scene's own `update` or `draw` returns is a
  function parameter of `GameState.Update` / `GameState.Draw`.
- `run` takes the file contents, or the read error, as a parameter. It returns
  the text it would write to `solution.txt`.

`build` does not reject other characters. `filter_map` over `to_digit(10)`
(sudoku.rs:88) drops them, and only the count of 81 is checked; see
`BuildDropsNonDigits`.

## Model

| member | source | states |
|---|---|---|
| `Sequences.Position` | puzzle-solver/src/sudoku.rs:14 | `position` gives None iff the value is absent; otherwise the index of its first occurrence |
| `Sudoku.Set` | puzzle-solver/src/sudoku.rs:74 | writing a cell changes that cell only; the board keeps its shape |
| `Sudoku.ResetRestores` | puzzle-solver/src/sudoku.rs:74-79 | writing a candidate into an empty cell and then resetting it to 0 gives back the board as it was |
| `Sudoku.SafeRow` | puzzle-solver/src/sudoku.rs:13-16 | `safe_row` through `position`; its meaning is stated by `SafeRowFirstOccurrence` |
| `Sudoku.SafeRowFirstOccurrence` | puzzle-solver/src/sudoku.rs:13-16 | `safe_row` is true iff the value is absent from the row, or its first occurrence is at the given column |
| `Sudoku.CountInColumn` | puzzle-solver/src/sudoku.rs:19-23 | the row count is at most the number of rows, and 0 iff no row holds the value in that column |
| `Sudoku.SafeCol` | puzzle-solver/src/sudoku.rs:18-25 | `safe_col` through `CountInColumn`; its meaning is stated by `SafeColOwnValue` |
| `Sudoku.SafeColOwnValue` | puzzle-solver/src/sudoku.rs:18-25 | `safe_col` is true iff the column lacks the value or the cell itself holds it, so it is always true for the cell's own value |
| `Sudoku.BoxClear` | puzzle-solver/src/sudoku.rs:27-37 | the box rule `safe_matrix` decides: no cell of the 3×3 box on neither the row nor the column holds the value; `Sudoku.Sudoku.SafeMatrix` is proved equal to it |
| `Sudoku.SafeAt` | puzzle-solver/src/sudoku.rs:39-44 | what `safe_space` decides, the three checkers together; `SafeOnEmptyCell` gives its meaning on an empty cell |
| `Sudoku.PassesPrecheck` | puzzle-solver/src/sudoku.rs:46-56 | what `is_valid` decides; `PrecheckMeans` gives its meaning, and `Sudoku.Sudoku.IsValid` is proved equal to it |
| `Sudoku.Sudoku.SafeMatrix` | puzzle-solver/src/sudoku.rs:27-37 | the box scan rejects the candidate iff some cell of the 3×3 box, on neither the row nor the column, holds it |
| `Sudoku.Sudoku.SafeSpace` | puzzle-solver/src/sudoku.rs:39-44 | the three checkers all accept; on an empty cell with a non-zero candidate, this holds iff no peer holds the candidate |
| `Sudoku.SafeOnEmptyCell` | puzzle-solver/src/sudoku.rs:13-44 | on an empty cell, the three checkers together accept a non-zero candidate iff no cell of its row, column or box holds it |
| `Sudoku.Sudoku.IsValid` | puzzle-solver/src/sudoku.rs:46-56 | true iff every non-zero cell passes `safe_space` with its own value; equivalently, iff no two watched cells clash; the board is not changed |
| `Sudoku.RowRepeatFailsSafeRow` | puzzle-solver/src/sudoku.rs:13-16 | a value repeated later in a row fails `safe_row` at the later cell |
| `Sudoku.BoxRepeatFailsBoxClear` | puzzle-solver/src/sudoku.rs:27-37 | a value repeated in the same box, on another row and another column, fails `safe_matrix` |
| `Sudoku.PrecheckSound` | puzzle-solver/src/sudoku.rs:46-56 | a board passing `is_valid` has no clash between cells of one row, or between box-mates on different rows and columns |
| `Sudoku.PrecheckComplete` | puzzle-solver/src/sudoku.rs:46-56 | a board without such clashes passes `is_valid` |
| `Sudoku.PrecheckMeans` | puzzle-solver/src/sudoku.rs:46-56 | both directions: `is_valid` passes iff no watched pair clashes; pairs in one column are never compared |
| `Sudoku.ConsistentPassesPrecheck` | puzzle-solver/src/sudoku.rs:46-56 | givens with no clash among any peers always pass `is_valid` |
| `Sudoku.PrecheckMissesColumnRepeats` | puzzle-solver/src/sudoku.rs:46-56 | the full board of nine rows 1..9 passes `is_valid`, yet it is inconsistent and has no solution |
| `Sudoku.AllThreesFailsPrecheck` | puzzle-solver/src/sudoku.rs:46-56 | the board of 81 threes fails `is_valid` |
| `Sudoku.ConsistentMeansPeersFree` | puzzle-solver/src/sudoku.rs:46-56 | a board is consistent iff every non-zero cell differs from all its peers |
| `Sudoku.PeersFreeIgnoresOwnCell` | puzzle-solver/src/sudoku.rs:46-56 | clearing a cell does not change what its peers hold |
| `Sudoku.SolutionValueIsSafe` | puzzle-solver/src/sudoku.rs:71-73 | the value a solution has at an empty cell is accepted by `safe_space` there |
| `Sudoku.SolutionOfWrite` | puzzle-solver/src/sudoku.rs:74-75 | a solution that agrees with a written candidate is still a solution of the written board |
| `Sudoku.CandidateRuledOut` | puzzle-solver/src/sudoku.rs:71-80 | a candidate that is rejected, or whose write leaves no solution, is the value of no solution at that cell |
| `Sudoku.WriteKeepsClashFree` | puzzle-solver/src/sudoku.rs:73-77 | writing a candidate no peer holds and then filling the rest clash-free leaves every originally empty cell clash-free |
| `Sudoku.WriteSucceeds` | puzzle-solver/src/sudoku.rs:73-77 | after a successful recursive call, as seen from the board before the write: earlier cells and givens are kept, only digits are written, everything from the cell on is filled, and every written cell is clash-free |
| `Sudoku.ClashFreeFillKeepsConsistency` | puzzle-solver/src/sudoku.rs:103-104 | filling empty cells without clashes keeps consistent givens consistent |
| `Sudoku.SolvableMeansConsistent` | puzzle-solver/src/sudoku.rs:103-104 | a board with a solution has consistent givens |
| `Sudoku.Sudoku.FillBoard` | puzzle-solver/src/sudoku.rs:59-82 | terminates; on false the board is as it was entered; cells before (row, col) and non-zero cells never change; only 1..9 is written; on true everything from (row, col) on is filled and every written cell differs from its peers; it returns true whenever a solution exists or the rest is already filled |
| `Sudoku.Sudoku.Solve` | puzzle-solver/src/sudoku.rs:103-109 | false leaves the board untouched and follows whenever `is_valid` fails; true gives a filled board that keeps the givens and is clash-free in every written cell; it succeeds whenever a solution exists or the board passes `is_valid` already filled |
| `Sudoku.Sudoku.constructor` | puzzle-solver/src/sudoku.rs:90-95 | the solver holds exactly the board it is built with |
| `Sudoku.Sudoku.IsValidChecked` | puzzle-solver/src/sudoku.rs:46-56 | corrected pre-check: true iff the givens are consistent |
| `Sudoku.Sudoku.SolveChecked` | puzzle-solver/src/sudoku.rs:103-109 | corrected solve: for digit boards, true iff a solution exists, and then the board is a solution of the givens; false leaves the board untouched |
| `Sudoku.StripWhitespace` | puzzle-solver/src/sudoku.rs:87 | the result is no longer than the input and holds no whitespace |
| `Sudoku.Digits` | puzzle-solver/src/sudoku.rs:88 | at most one value per character, each 0..9 |
| `Sudoku.DigitsAppend` | puzzle-solver/src/sudoku.rs:88 | the digits of a concatenation are the digits of the parts, in order |
| `Sudoku.DigitsIgnoreWhitespace` | puzzle-solver/src/sudoku.rs:87-88 | removing whitespace first never changes the digits read |
| `Sudoku.Chunks` | puzzle-solver/src/sudoku.rs:91-94 | `chunks(9)`: ⌈n/9⌉ rows, row i holding values 9i up to 9i+9 (the last row possibly shorter) |
| `Sudoku.Build` | puzzle-solver/src/sudoku.rs:86-101 | succeeds iff the text holds exactly 81 decimal digits, and otherwise fails with the read-error message; the board is 9×9, cells 0..9, cell (i, j) being digit 9i+j in reading order |
| `Sudoku.BuildSeesDigits` | puzzle-solver/src/sudoku.rs:86-101 | two texts with the same digits build the same result |
| `Sudoku.BuildDropsNonDigits` | puzzle-solver/src/sudoku.rs:88 | inserting a non-digit character anywhere does not change the result |
| `Sudoku.ShowNat` | puzzle-solver/src/sudoku.rs:114 | the `{:?}` form of one `u32`; `ShowNatReadsBack` states that it reads back as the number |
| `Sudoku.ShowCells` | puzzle-solver/src/sudoku.rs:114 | the cells separated by ", "; `ShowCellsFacts` states its digits and lines |
| `Sudoku.ShowRow` | puzzle-solver/src/sudoku.rs:114 | `[` + cells + `]`; `ShowRowFacts` states its digits and lines |
| `Sudoku.Format` | puzzle-solver/src/sudoku.rs:111-117 | the rows' Debug forms joined by "\n"; `FormatDigits`, `FormatLines` and `FormatReadsBack` state what it prints |
| `Sudoku.ShowNatReadsBack` | puzzle-solver/src/sudoku.rs:114 | a printed number's digits read back as the number; a digit prints as itself |
| `Sudoku.ShowCellsFacts` | puzzle-solver/src/sudoku.rs:114 | the cells joined by ", " contain exactly the cells' digits and no newline |
| `Sudoku.ShowRowFacts` | puzzle-solver/src/sudoku.rs:114 | a row's Debug form contains exactly the row's digits and no newline |
| `Sudoku.FormatDigits` | puzzle-solver/src/sudoku.rs:111-117 | the digits of the printed board are its cells in row-major order |
| `Sudoku.FormatLines` | puzzle-solver/src/sudoku.rs:111-117 | a board of n rows prints with n-1 newlines and ends with `]`, with no trailing newline |
| `Sudoku.FormatReadsBack` | puzzle-solver/src/sudoku.rs:86-117 | for every 9×9 board of digits, building the printed board gives the board back |
| `PuzzleSolver.ToLowercase` | puzzle-solver/src/main.rs:24 | same length, no upper-case letter left; each letter A–Z becomes its lower-case form and every other character is kept |
| `PuzzleSolver.ToLowercaseIdempotent` | puzzle-solver/src/main.rs:24 | lowercasing twice is lowercasing once |
| `PuzzleSolver.BuildCommand` | puzzle-solver/src/main.rs:20-34 | fails iff there is no second argument, with the missing-puzzle message; the puzzle name has no upper-case ASCII letter, and it keeps its length because the model lowercases ASCII only |
| `PuzzleSolver.BuildCommandIgnoresProgramName` | puzzle-solver/src/main.rs:21 | the first argument never matters |
| `PuzzleSolver.BuildCommandIgnoresExtra` | puzzle-solver/src/main.rs:28-33 | arguments after the third are ignored |
| `PuzzleSolver.BuildCommandFilename` | puzzle-solver/src/main.rs:23-33 | the puzzle is the lowercased second argument; the file name is the third argument when given, and otherwise the puzzle name plus ".txt" |
| `PuzzleSolver.SelectPuzzle` | puzzle-solver/src/main.rs:58-61 | only "sudoku" selects a solver; any other name gives the unsupported-puzzle message |
| `PuzzleSolver.SudokuPuzzle` | puzzle-solver/src/main.rs:49-55 | a build error is passed on; a failure is the could-not-be-solved message; givens failing `is_valid` give that failure; a solvable puzzle succeeds; a success is exactly `Format` of a filled board, made of digits, keeping the givens and clash-free in every written cell, and that text reads back as the same board |
| `PuzzleSolver.Report` | puzzle-solver/src/main.rs:75-76 | "Solution to puzzle: ", then the file name, a newline, then the solution |
| `PuzzleSolver.Run` | puzzle-solver/src/main.rs:57-79 | an unsupported kind fails before the file matters; a read error is passed on; otherwise the outcome of `sudoku_puzzle`; on success the text is the report header followed by the formatted solved board |
| `Scenes.AfterUpdate` | super-pong/src/main.rs:36-43 | the stack after `update` applies a transition; `UpdateTransitions` states each case |
| `Scenes.AfterDraw` | super-pong/src/main.rs:53-60 | the stack after `draw` applies a transition; `DrawNewGameReplacesTop` and `UpdateDrawAgree` state it |
| `Scenes.UpdateTransitions` | super-pong/src/main.rs:36-43 | in `update`: None keeps the stack; Push adds one scene on top and keeps the rest; Pop removes the top scene and keeps the rest; NewGame leaves exactly the new scene |
| `Scenes.DrawNewGameReplacesTop` | super-pong/src/main.rs:57-60 | NewGame in `draw` replaces the top scene only: same length, the scenes below are unchanged |
| `Scenes.UpdateDrawAgree` | super-pong/src/main.rs:37-43 | `update` and `draw` handle None, Push and Pop alike, and agree on NewGame iff the stack holds one scene |
| `Scenes.PushThenPop` | super-pong/src/main.rs:38-39 | a push followed by a pop gives back the stack |
| `Scenes.GameState.constructor` | super-pong/src/main.rs:24-30 | the game starts with exactly the title scene "SUPER PONG" |
| `Scenes.GameState.Update` | super-pong/src/main.rs:34-49 | only the top scene runs; an empty stack quits and stays empty; a scene error is passed on with the stack unchanged; otherwise the transition is applied as `update` does |
| `Scenes.GameState.Draw` | super-pong/src/main.rs:51-67 | the same, with NewGame replacing only the top scene |
| `TitleScene.Clicked` | super-pong/src/title_scene.rs:12-15 | `Button::clicked` over exact reals; `ClickedBounds` states that it is inclusive on both axes |
| `TitleScene.Hit` | super-pong/src/title_scene.rs:51-53 | `clicked` for a colour button (the test at line 107), using the button's own position, width and height |
| `TitleScene.ClickedBounds` | super-pong/src/title_scene.rs:12-15 | the hit test is inclusive: both corners hit, and any point outside either closed range misses |
| `TitleScene.NewColorButton` | super-pong/src/title_scene.rs:45-47 | a new button is unselected and otherwise the given one |
| `TitleScene.LastHit` | super-pong/src/title_scene.rs:105-110 | -1 iff no button is hit; otherwise a hit button with no hit button after it |
| `TitleScene.FindLastHit` | super-pong/src/title_scene.rs:105-110 | the index loop ends on the last hit button, or -1 |
| `TitleScene.Deselect` | super-pong/src/title_scene.rs:112 | every button is deselected and otherwise unchanged |
| `TitleScene.SelectOne` | super-pong/src/title_scene.rs:112-113 | deselecting all and selecting one keeps the buttons and leaves that one the only selected |
| `TitleScene.LayoutKept` | super-pong/src/title_scene.rs:112-113 | changing only selection flags keeps a column's layout |
| `TitleScene.ButtonsApart` | super-pong/src/title_scene.rs:86-95 | a lower button starts more than a button's height below a higher one |
| `TitleScene.OneHitPerColumn` | super-pong/src/title_scene.rs:90-95 | in a column laid out as built, at most one button is hit, and it is the last hit one |
| `TitleScene.ColumnsApart` | super-pong/src/title_scene.rs:91-94 | no click hits buttons of both players |
| `TitleScene.Retain` | super-pong/src/title_scene.rs:136-137 | `retain` keeps exactly the selected buttons: every survivor is a selected button of the column, every selected button survives, and none survives iff none is selected |
| `TitleScene.RetainAppend` | super-pong/src/title_scene.rs:136-137 | `retain` keeps the order: the survivors of two runs laid end to end are the survivors of the first, then those of the second |
| `TitleScene.RetainOnlySelected` | super-pong/src/title_scene.rs:136-137 | with one selected button, `retain` leaves exactly that button |
| `TitleScene.ColorListPositions` | super-pong/src/title_scene.rs:138-139 | the colour list has no repeats, so the position of entry i is i |
| `TitleScene.ValidCanStart` | super-pong/src/title_scene.rs:136-139 | a laid-out column with one selected button never makes `start_game`'s `[0]` or `unwrap` fail |
| `TitleScene.TitleScene.constructor` | super-pong/src/title_scene.rs:84-98 | one button per colour per player, in list order, 72 apart from y = 48; player 1 starts on colour 0 and player 2 on colour 1 |
| `TitleScene.TitleScene.UpdateColorSelection` | super-pong/src/title_scene.rs:103-115 | player 1 changes only the first column and any other number only the second; with no hit nothing changes; otherwise the last hit button becomes the only selected one and the buttons are otherwise unchanged; the layout invariant is kept |
| `TitleScene.TitleScene.StartGame` | super-pong/src/title_scene.rs:135-141 | each column keeps its selected buttons only; the colour indices are the positions of the survivors' colours, i.e. the selected index of each column |
| `PuzzleTests.EmptyCommand` | puzzle-solver/src/main.rs:99-107 | no arguments: the missing-puzzle error |
| `PuzzleTests.UnsupportedPuzzle` | puzzle-solver/src/main.rs:108-116 | "foobar" is not supported, whatever the file holds |
| `PuzzleTests.FileNotFound` | puzzle-solver/src/main.rs:117-126 | a read error makes `run` fail with that error |
| `PuzzleTests.BadFileRejected` | puzzle-solver/src/main.rs:127-135 | the 50-character text cannot hold 81 digits and is rejected with the read-error message |
| `PuzzleTests.DigitsOfThrees` | puzzle-solver/src/main.rs:138 | n characters '3' read as n threes |
| `PuzzleTests.ThreesRead` | puzzle-solver/src/main.rs:138 | 81 threes build the all-threes board |
| `PuzzleTests.UnsolvablePuzzle` | puzzle-solver/src/main.rs:136-141 | the all-threes puzzle gives the could-not-be-solved message |
| `PuzzleTests.GoldenSolutionSolves` | puzzle-solver/src/main.rs:149-159 | the expected grid is a solution of the example puzzle |
| `PuzzleTests.GoldenSolutionUnique` | puzzle-solver/src/main.rs:142-163 | every solution of the example puzzle is the expected grid |
| `PuzzleTests.SolvableExample` | puzzle-solver/src/main.rs:142-163 | solving the example board succeeds and leaves exactly the expected grid |
| `PuzzleTests.RepeatedRowsSolved` | puzzle-solver/src/sudoku.rs:103-109 | `solve` reports success on the nine-rows-1..9 board and leaves it as is, though it is no solution |

## Left out

- File I/O and console output. `fs::read_to_string` becomes the `contents` parameter of `Run`. `File::create`/`write_all` become its returned text. The `println!` calls and `main`'s `process::exit` are not modelled.
- The "Solving Puzzle: ..." banner in `run` is not modelled. It only prints, and it capitalises the first character of the puzzle name.
- The nonogram solver is not part of this model.
- `super-pong/src/game_scene.rs`, `particle.rs` and `pause_scene.rs` are not part of this model. They are `f32` physics, randomness, sound and rendering.
- All `draw` bodies, `draw_color_selection`, the textures, fonts, meshes and `center_text` are rendering calls and are not modelled.
- The title screen's text and mode buttons (`SelectButton`) are not modelled, and neither is its `Scene::update` input handling: both depend on the engine's input and assets.
- The errors `TitleScene::new` can return when assets fail to load are not modelled. Nor is the construction of the `GameScene` in `start_game`: `StartGame` returns the two colour indices that are passed to it.
- The `Puzzle` trait is not modelled as a trait. It has one implementation, so `Build`, `Solve` and `Format` are called directly. `FormatReadsBack` states how build and format fit together.
- `retain` on `contents` in `build` changes the caller's string in place. The model computes the stripped text as a value, and the mutation is not visible to any caller of the core.
- `ToLowercase`: only ASCII letters are lowercased, because Unicode case mapping is not available.
- `f32` rounding in the hit test and the button layout is not modelled. Coordinates are exact reals.
- The golden test's input text is not parsed symbolically. The test solves the board that text encodes, given as a constant. `Build`'s general contract says which board any text builds.

## Findings

| source | as written | input that shows it | evidently intended | confidence | as-written member | corrected member |
|---|---|---|---|---|---|---|
| puzzle-solver/src/sudoku.rs:46-56 | `is_valid` calls `safe_space` with each cell's own value on the board that still holds it. `safe_col` is then always true, and `safe_matrix` skips box-mates on the same row or column. Equal givens in one column are never detected. | nine rows each `1 2 3 4 5 6 7 8 9`: `is_valid` is true, `fill_board` has nothing to fill, and `solve` returns true for a board whose every column repeats one value | `is_valid` rejects any two peers holding the same non-zero value, so that `solve` is true only for a real solution | not executed | `Sudoku.PrecheckMissesColumnRepeats` | `Sudoku.Sudoku.SolveChecked` |
