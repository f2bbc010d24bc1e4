# DFA-er in Dafny

DFA-er is an esoteric language whose programs describe a deterministic
finite automaton and then run it. A source text is split at its first `!`.
The part before the `!` is the *definition text*:

- `.name.` declares a non-accepting state and `..name.` an accepting one.
  The first state created becomes the start state.
- `-sym-dest-` adds a transition on `sym` from the current state to `dest`.
  A missing destination is created on the spot. A transition seen before
  any state exists creates a non-accepting state 0 and makes it the start.

The part after the `!` is the *execution text*:

- `.sym.` takes the transition on `sym`. A missing transition aborts the
  run, and nothing is printed.
- `-` splices all of standard input in front of the rest of the text. Each
  input character becomes one `.bin(ord(ch)).` token.

Every state the run enters is printed. A name that is a code point is
printed as that character, and any other name as its decimal digits. The
start state is printed too. The output appears only if the run ends in an
accepting state.

Names and symbols are binary numerals. The scanner `read_binary` collects
the `0`/`1` characters up to a stop character and ignores everything else.

The project models the core of `DFA-er.py` in five modules:

- `Scanner` (`scanner.dfy`) is `read_binary`. `Scan` is its specification and
  `ReadBinary` is its loop. The module also has Python's `bin(n)`, which the
  splice writes.
- `Builder` (`builder.dfy`) holds the state record with `add_path`, the state
  table, and the upserts `make_DFA` performs on that table. `Parse` follows
  `make_DFA`'s cursor loop; `BuildStep` is one iteration of it.
- `Walker` (`walker.dfy`) holds the output rule, the splice of external input,
  and `Walk`, which follows `run_DFA`'s loop; `WalkStep` is one iteration.
  `Execute` adds the start-state and acceptance rules.
- `Interpreter` (`interpreter.dfy`) holds the class `Automaton`, which carries
  the source's globals `DFA` and `starting_state`. Its methods `Build` and
  `Run` are the loops of `make_DFA` and `run_DFA`, working in place and
  proved equal to `Parse` and `Execute`. The module also has the split at `!`
  and worked examples.
- `Wrappers` (`wrappers.dfy`) is the `Option` type.

Standard input is a parameter (`input`) of the walker. The printed line is
the result of `Execute`: `Some(code points)` when something is printed and
`None` when nothing is.

A few consequences of the code are worth spelling out:

- A transition's two tokens each end in `-`. In `..0.-0.0.` the transition
  `-0.0.` is never closed. As written, the failed scan of its symbol returns
  -1 and unpacking that -1 crashes `make_DFA` with a TypeError, so nothing
  runs (`UnclosedTransitionCrashesAsWritten`; see "## Findings"). With a
  failed scan read as the end of the build, as the code's `== -1` tests
  intend, only accepting state 0 is built, and `..0.-0.0.!.0.` aborts on
  the missing transition and prints nothing
  (`DotTerminatedTransitionExample`). The same holds for `.0.-1.1.!.1.`
  (`NonAcceptingExample`).
- `..0.-0-0-!.0.` prints two U+0000 characters: the start state's and the
  destination's (`SelfLoopExample`).
- A source with no `!` still runs the automaton on an empty execution text,
  so an accepting start state prints its own encoding
  (`NoExecutionTextExample`).

## Model

| member | source | states |
|---|---|---|
| `Scanner.BinValue` | DFA-er.py:207 | `int(b, 2)` of a bit string, 0 for the empty one; `BinDigits` and `BinRoundTrip` tie it to `bin` |
| `Scanner.Bits` | DFA-er.py:199-200 | the characters kept are only `0`/`1`, never more than the input holds |
| `Scanner.FirstIndex` | DFA-er.py:39 | the position found holds the character and no earlier position does |
| `Scanner.FirstIndexAt` | DFA-er.py:39 | a position holding `ch` with no earlier `ch` is the first index |
| `Scanner.ScanFrom` | DFA-er.py:195-205 | a scan from position `c` that succeeds consumes past `c` and stays within the text |
| `Scanner.Scan` | DFA-er.py:192-209 | a successful scan consumes at least the stop character and no more than the text |
| `Scanner.ScanFromSpec` | DFA-er.py:195-207 | the loop from `c` fails exactly when there is no stop character; otherwise it ends just after the first stop and its value is that of the bits before it |
| `Scanner.ScanSpec` | DFA-er.py:189-209 | `read_binary` fails iff the stop character is absent; otherwise it consumes up to and including the first stop, and the value is the binary value of the `0`/`1` characters seen on the way (0 if none) |
| `Scanner.ReadBinary` | DFA-er.py:192-209 | the scanner's loop computes exactly `Scan` |
| `Scanner.ScanPrefix` | DFA-er.py:195-209 | a token body without the stop character is consumed up to and including the stop that closes it |
| `Scanner.ScanBitString` | DFA-er.py:199-207 | a pure bit string closed by a non-bit stop character reads back as its own value |
| `Scanner.BinDigits` | DFA-er.py:177 | `bin`'s digits are bits, have value `n`, and have no leading zero (`0` is written `0`) |
| `Scanner.Bin` | DFA-er.py:177 | `bin(n)` contains neither `.` nor `-`, so a spliced token cannot be cut short |
| `Scanner.BinRoundTrip` | DFA-er.py:176-178 | the scanner reads `bin(n)` followed by `.` back as `n`: the `b` is noise and the prefix's `0` a leading zero |
| `Scanner.ReadBinaryAsWritten` | DFA-er.py:192-209 | as written, the scanner returns the integer -1 exactly when the stop character is missing; otherwise a pair of the value of the `0`/`1` characters before the first stop and the offset just after that stop |
| `Scanner.SentinelTestIsDead` | DFA-er.py:75-77 | as written, a missing stop character crashes at the unpacking (`UnpackAsWritten`, the two-name assignment), and an unpacked name is never -1, so the `== -1` tests are dead |
| `Scanner.SentinelCounterexample` | DFA-er.py:75-77 | on the unclosed name `0`, the crash happens as written, while `Scan` reports failure |
| `Builder.StateRec.AddPath` | DFA-er.py:20-21 | `add_path` sets the transition on `symbol` to `dest`, keeps every other transition and the accepting flag |
| `Builder.Declare` | DFA-er.py:80-90 | a declaration adds exactly the declared name to the table |
| `Builder.DeclareSpec` | DFA-er.py:80-90 | re-declaring overwrites only the accepting flag; a new state has no transitions and is the start exactly when the table was empty; other states are unchanged |
| `Builder.ImplicitZero` | DFA-er.py:98-101 | the implicit state adds exactly name 0 |
| `Builder.ImplicitZeroSpec` | DFA-er.py:98-101 | state 0 is a fresh non-accepting state without transitions and becomes the start; other states are unchanged |
| `Builder.Connect` | DFA-er.py:116-123 | a transition adds exactly the destination's name to the table |
| `Builder.ConnectSpec` | DFA-er.py:116-123 | the source's transition on `sym` now leads to `dst` and its other transitions stay; an unseen destination is created blank; the start and all other states are unchanged |
| `Builder.BuildStep` | DFA-er.py:52-124 | one loop iteration either stops or advances the cursor, and the current state is always in the table |
| `Builder.DeclarationAt` | DFA-er.py:62-91 | a declaration that does not stop advances the cursor and leaves a current state that is in the table; `DeclarationStep` states that it is the declared name, with its flag |
| `Builder.TransitionAt` | DFA-er.py:93-124 | a transition that does not stop advances the cursor and keeps its source (the current state, or 0 when there is none) as the current state, in the table; the implicit state 0 exists whenever there was no current state, even when the build stops |
| `Builder.TransitionStep` | DFA-er.py:103-124 | when both tokens scan, the step adds the transition from the current state (or from a new state 0) and resumes after the second token |
| `Builder.TransitionOfBits` | DFA-er.py:94-124 | a transition `-a-b-` written in pure bit strings adds the transition on `a`'s value to state `b`'s value and resumes after its last `-` |
| `Builder.TransitionStop` | DFA-er.py:104-112 | when either token fails to scan, the build stops, but an implicit state 0 already created stays |
| `Builder.DeclarationStep` | DFA-er.py:68-91 | when the name scans, the step declares it (accepting iff written `..`), makes it current and resumes after the name |
| `Builder.Parse` | DFA-er.py:48-124 | the table `make_DFA`'s loop leaves from cursor `c`; `ParseWf`, `ParseKeepsStart`, `ParseStartIsFirstCreated` and `ParseKeepsNames` state its properties |
| `Builder.FirstCreated` | DFA-er.py:86-101 | the name of the first state a build creates, reference for `ParseStartIsFirstCreated` |
| `Builder.ConnectClosed` | DFA-er.py:116-123 | adding a transition keeps every transition pointing to a state of the table |
| `Builder.DeclareWf` | DFA-er.py:80-90 | a declaration keeps the table well formed (start set iff table non-empty, start in the table, transitions closed) |
| `Builder.ImplicitZeroWf` | DFA-er.py:98-101 | creating the implicit state 0 keeps the table well formed |
| `Builder.ConnectWf` | DFA-er.py:116-123 | adding a transition keeps the table well formed |
| `Builder.StepInv` | DFA-er.py:52-124 | every loop iteration keeps the builder's invariant, and a stop leaves a well-formed table |
| `Builder.DeclarationStepInv` | DFA-er.py:62-91 | the declaration branch keeps the builder's invariant |
| `Builder.TransitionStepInv` | DFA-er.py:93-124 | the transition branch keeps the builder's invariant |
| `Builder.ParseWf` | DFA-er.py:48-124 | however the build ends, the table is well formed |
| `Builder.StepKeepsStart` | DFA-er.py:86-101 | once a start is set, no step reassigns it |
| `Builder.ParseKeepsStart` | DFA-er.py:86-101 | once a start is set, the rest of the build keeps it |
| `Builder.FirstStepFromEmpty` | DFA-er.py:86-101 | the first step that is not skipped sets the start to the first state it creates |
| `Builder.ParseStartIsFirstCreated` | DFA-er.py:48-124 | built from scratch, the start is the first state created (the first declared name, or 0 for a leading transition), and the table is empty iff no state was created |
| `Builder.StepKeepsNames` | DFA-er.py:80-123 | a step never removes a state |
| `Builder.ParseKeepsNames` | DFA-er.py:48-124 | the build never removes a state |
| `Builder.ImplicitZeroSurvivesFailedScan` | DFA-er.py:98-106 | a transition with no current state whose symbol never closes leaves exactly the implicit state 0 |
| `Builder.UnclosedDeclarationStops` | DFA-er.py:64-77 | a declaration `.name` or `..name` that is never closed by `.`, and a `.` as the last character, stop the build and keep the table |
| `Walker.DecimalDigits` | DFA-er.py:136 | `str(n)` is all decimal digits, has value `n`, and has no leading zero unless it is the single digit `0` |
| `Walker.Encode` | DFA-er.py:133-136 | a name that is a code point is emitted as that one code point, any larger name as the decimal digits of its value |
| `Walker.Spellings` | DFA-er.py:176-177 | one spelling per input character |
| `Walker.Codes` | DFA-er.py:177 | one code point per input character |
| `Walker.Join` | DFA-er.py:178 | Python's `sep.join(xs)`; `JoinIsBlock` states what the splice's join produces |
| `Walker.SpliceText` | DFA-er.py:178 | the text spliced in for the input; `SpliceTextIsBlock` and `Interpreter.SpliceInput` state it |
| `Walker.JoinIsBlock` | DFA-er.py:178 | `'.' + '..'.join(xs) + '.'` is the tokens written one after another, each as `.tok.` |
| `Walker.SpliceTextIsBlock` | DFA-er.py:175-178 | the spliced text is one `.`-token per input character, and nothing for empty input |
| `Walker.WalkStep` | DFA-er.py:137-181 | a step keeps the cursor in range and never adds input; without a splice it makes progress; output only grows, by the new state's encoding; a state change follows a transition of the table |
| `Walker.Walk` | DFA-er.py:137-181 | `run_DFA`'s loop from cursor `c`; `WalkToken`, `WalkBlock`, `WalkSplice`, `WalkExtends` and `WalkStaysInTable` state its properties |
| `Walker.Trace` | DFA-er.py:159-164 | the transitions on a sequence of symbols taken in order, the reference `WalkBlock` and `WalkSplice` relate the walk to |
| `Walker.WalkShift` | DFA-er.py:179-180 | the walk ignores the text already behind the cursor |
| `Walker.WalkToken` | DFA-er.py:148-167 | a `.tok.` step takes the transition on the token's value and emits the destination's encoding, or aborts when there is none; the lookup is `Step`, present exactly when the state has a transition on the symbol |
| `Walker.WalkBlock` | DFA-er.py:148-167 | walking a block of tokens is taking the transitions on their values in order, dying at the first missing one |
| `Walker.WalkSplice` | DFA-er.py:170-181 | a `-` acts as the transitions on the input's code points, in order, followed by the rest of the text, with no input left for later `-`s |
| `Walker.WalkExtends` | DFA-er.py:132-164 | output is only appended to |
| `Walker.WalkStaysInTable` | DFA-er.py:159-160 | in a closed table, a walk that starts in a state halts in a state of the table |
| `Walker.Execute` | DFA-er.py:127-184 | without a start nothing is printed; otherwise printed output begins with the start's encoding |
| `Walker.ExecutePrintsIffAccepting` | DFA-er.py:183-184 | on a well-formed table, output is printed iff the run is not aborted and ends in an accepting state, and it is the walk's whole output |
| `Interpreter.Automaton.constructor` | DFA-er.py:7-8 | the globals start as an empty table with no start |
| `Interpreter.Automaton.DeclareState` | DFA-er.py:80-90 | the in-place declaration leaves the table `Declare` describes |
| `Interpreter.Automaton.CreateImplicitZero` | DFA-er.py:98-101 | the in-place creation of state 0 leaves the table `ImplicitZero` describes |
| `Interpreter.Automaton.AddTransition` | DFA-er.py:116-123 | the in-place transition leaves the table `Connect` describes |
| `Interpreter.Automaton.DeclarationBranch` | DFA-er.py:62-91 | the `.` branch performs exactly one `BuildStep`, in place |
| `Interpreter.Automaton.TransitionBranch` | DFA-er.py:93-124 | the `-` branch performs exactly one `BuildStep`, in place |
| `Interpreter.Automaton.Build` | DFA-er.py:48-124 | `make_DFA` leaves the table `Parse` describes; built from the empty globals, the table is well formed |
| `Interpreter.Automaton.Run` | DFA-er.py:127-184 | `run_DFA` prints exactly what `Execute` describes |
| `Interpreter.SpliceInput` | DFA-er.py:172-178 | the text spliced in for the input is `SpliceText` of it |
| `Interpreter.SplitSource` | DFA-er.py:39-41 | the definition text has no `!`; with a `!` the two parts around it rebuild the source; without one the execution text is empty |
| `Interpreter.Interpret` | DFA-er.py:38-44 | the program's flow on a source text; `RunSource` computes it and `InterpretAtBang` splits it at the `!` |
| `Interpreter.RunSource` | DFA-er.py:38-44 | splitting, building fresh and running computes `Interpret` |
| `Interpreter.InterpretAtBang` | DFA-er.py:38-44 | a source with a `!` runs what its definition text builds on the text after the `!` |
| `Interpreter.SplitAtFirstBang` | DFA-er.py:39 | the split happens at the first `!` |
| `Interpreter.BuildSelfLoop` | DFA-er.py:48-124 | `..0.-0-0-` builds accepting start state 0 with a self-loop on symbol 0 |
| `Interpreter.DeclareSelfLoopState` | DFA-er.py:62-91 | the step at `..0.` declares accepting state 0 and resumes at the `-` |
| `Interpreter.ConnectSelfLoop` | DFA-er.py:93-124 | the step at `-0-0-` adds the self-loop and resumes at the end |
| `Interpreter.WalkSelfLoop` | DFA-er.py:127-184 | `.0.` on the self-loop prints U+0000 twice |
| `Interpreter.SelfLoopExample` | DFA-er.py:38-44 | `..0.-0-0-!.0.` prints U+0000 twice |
| `Interpreter.BuildUnclosedTransition` | DFA-er.py:104-106 | `..0.-0.0.` builds only accepting state 0: the transition never closes, under the corrected scanner (as written the builder crashes, see `UnclosedTransitionCrashesAsWritten`) |
| `Interpreter.BuildUnclosedTransition2` | DFA-er.py:104-106 | `.0.-1.1.` builds only non-accepting state 0, under the corrected scanner (as written the builder crashes, see `UnclosedTransitionCrashesAsWritten`) |
| `Interpreter.BuildLoneZero` | DFA-er.py:62-91 | `.0.` builds only non-accepting state 0 |
| `Interpreter.AbortsOnLoneZero` | DFA-er.py:159-166 | a definition text that builds a lone state 0, followed by one execution token, prints nothing |
| `Interpreter.WalkWithoutTransitions` | DFA-er.py:165-166 | a `.sym.` step from a state without transitions aborts the run |
| `Interpreter.BitsOfOneDigit` | DFA-er.py:199-207 | a one-digit token reads as its digit |
| `Interpreter.DotTerminatedTransitionExample` | DFA-er.py:104-106 | `..0.-0.0.!.0.` prints nothing: the transition is never added and the walk aborts, under the corrected scanner (as written the builder crashes, see `UnclosedTransitionCrashesAsWritten`) |
| `Interpreter.NonAcceptingExample` | DFA-er.py:165-166 | `.0.-1.1.!.1.` prints nothing, under the corrected scanner (as written the builder crashes, see `UnclosedTransitionCrashesAsWritten`) |
| `Interpreter.MissingTransitionExample` | DFA-er.py:165-166 | `.0.!.1.` prints nothing: there is no transition on symbol 1 |
| `Interpreter.EmptyDefinitionExample` | DFA-er.py:128-129 | an empty definition prints nothing, whatever the execution text and input |
| `Interpreter.NoExecutionTextExample` | DFA-er.py:40-41 | `..1.`, without a `!`, prints U+0001: the start's encoding |
| `Interpreter.SpliceExample` | DFA-er.py:170-181 | on the self-loop, `-` with input U+0000 prints U+0000 twice |
| `Interpreter.UnclosedTransitionCrashesAsWritten` | DFA-er.py:104-106 | as written, the unclosed transitions of `..0.-0.0.` and `.0.-1.1.` make the builder's unpacking raise a TypeError |
| `Interpreter.UnclosedExecutionTokenHalts` | DFA-er.py:153-155 | under the corrected scanner, an execution token never closed by `.` halts the walk and the acceptance test decides: `.0` on the self-loop prints U+0000 |
| `Interpreter.SpliceAbortExample` | DFA-er.py:170-181 | on the self-loop, `-` with input `a` (code point 97) aborts the run |

## Left out

- `main`'s reading of the source from a file or from standard input, and its error message for an unreadable file (lines 24-36), are I/O. The source text is a parameter.
- Standard input in `run_DFA` is the parameter `input`. The first `-` consumes all of it, and later `-`s see none, as the exhausted stream does. Line structure is kept, because the lines are joined back together. When `main` is given no file argument it reads the source itself from standard input until the end of the stream (lines 26-30), so in that mode `input` can only be empty.
- `print` and its trailing newline are not modelled. The printed text is the sequence of code points `Execute` returns.
- Code points in the surrogate range U+D800–U+DFFF are not modelled: `chr` gives them in Python, but printing them fails. The output is a code-point sequence, so no encoding error is modelled. Input characters are Dafny `char`s, which excludes surrogates.
- `print_DFA` (lines 212-221) is a debugging aid and is not part of this model.
- States are Python objects reached both through `DFA` and through other states' `paths`. The model keys everything by name. The two agree because the source never replaces a state object that is already in the table. The one place it could, `DFA[0] = State(0)` at line 100, runs only while no state exists yet.
- `Builder.Parse` with no current state over a non-empty table overwrites state 0 (`ImplicitZero`). The source reaches that case only on the empty table, because it calls `make_DFA` once on fresh globals.
- Python's unbounded `int` matches Dafny's `nat`, so no width limit is modelled.
- Walker.Encode: does not model the ValueError that Python 3.11 and later raise from `str()` on an integer of more than 4300 decimal digits (lines 136 and 164), because that limit is a setting of the interpreter, not of the program; such names are spelled out in full here.

## Findings

| source | as written | input that shows it | evidently intended | confidence | as-written member | corrected member |
|---|---|---|---|---|---|---|
| DFA-er.py:75-77 | `read_binary` returns the bare integer -1 on failure (line 197), but each caller unpacks its result into two names (lines 75, 104, 110, 153). Unpacking an `int` raises a TypeError, so the callers' `== -1` tests are dead and an unclosed token crashes the interpreter | definition text `.0` (name `0` is never closed by `.`) | a failed scan ends the loop and keeps what was built (or, in `run_DFA`, halts the walk), as the `== -1` tests and the scanner's comment say | high, not executed | `Scanner.SentinelTestIsDead`, `Scanner.SentinelCounterexample`, `Interpreter.UnclosedTransitionCrashesAsWritten` | `Scanner.ScanSpec`, `Builder.UnclosedDeclarationStops`, `Interpreter.UnclosedExecutionTokenHalts` |
