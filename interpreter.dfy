/**
 * The interpreter's driver: the automaton the source keeps in the globals
 * `DFA` and `starting_state`, built in place by `make_DFA` and walked by
 * `run_DFA`, and the split of a source text into its definition and
 * execution parts.
 */
module Interpreter {
  import opened Wrappers
  import opened Scanner
  import opened Builder
  import opened Walker

  /** The automaton: the state table, name -> state, and the start state. */
  class Automaton {
    var states: map<nat, StateRec>
    var start: Option<nat>

    function Model(): Dfa
      reads this
    {
      Dfa(states, start)
    }

    /** The globals before anything is built: an empty table and no start. */
    constructor ()
      ensures Model() == Empty
    {
      states := map[];
      start := None;
    }

    /** A state declaration: reuse the state and overwrite its flag, or create it (the start if it is the first). */
    method DeclareState(name: nat, accepting: bool)
      modifies this
      ensures Model() == Declare(old(Model()), name, accepting)
    {
      if name in states {
        states := states[name := states[name].(accepting := accepting)];
      } else {
        if |states| == 0 {
          start := Some(name);
        }
        states := states[name := StateRec(accepting, map[])];
      }
    }

    /** A transition with no current state: a fresh state 0 becomes the start. */
    method CreateImplicitZero()
      modifies this
      ensures Model() == ImplicitZero(old(Model()))
    {
      states := states[0 := Blank];
      start := Some(0);
    }

    /** A transition: find or create the destination, then `add_path` on the source. */
    method AddTransition(src: nat, symbol: nat, dest: nat)
      requires src in states
      modifies this
      ensures Model() == Connect(old(Model()), src, symbol, dest)
    {
      if dest !in states {
        states := states[dest := Blank];
      }
      states := states[src := states[src].AddPath(symbol, dest)];
    }

    /** The `.` branch of `make_DFA`'s loop: a state declaration, or the end of the build. */
    method DeclarationBranch(code: string, c: nat, cur: Option<nat>) returns (stop: bool, c': nat, cur': Option<nat>)
      requires c < |code| && code[c] == '.' && (cur.Some? ==> cur.value in states)
      modifies this
      ensures BuildStep(code, c, cur, old(Model())) == if stop then Stop(Model()) else Next(c', cur', Model())
    {
      c', cur' := c, cur;
      if c == |code| - 1 {
        return true, c', cur';
      }
      var p := c + 1;
      var accepting := false;
      if code[p] == '.' {
        accepting := true;
        p := p + 1;
      }
      var name := ReadBinary(code[p..], '.');
      if name.None? {
        return true, c', cur';
      }
      DeclarationStep(code, c, cur, Model(), p, name.value);
      DeclareState(name.value.value, accepting);
      return false, p + name.value.consumed, Some(name.value.value);
    }

    /** The `-` branch of `make_DFA`'s loop: a transition, or the end of the build. */
    method TransitionBranch(code: string, c: nat, cur: Option<nat>) returns (stop: bool, c': nat, cur': Option<nat>)
      requires c < |code| && code[c] == '-' && (cur.Some? ==> cur.value in states)
      modifies this
      ensures BuildStep(code, c, cur, old(Model())) == if stop then Stop(Model()) else Next(c', cur', Model())
    {
      ghost var t0 := Model();
      TransitionStop(code, c, cur, t0);
      c', cur' := c, cur;
      if cur'.None? {
        CreateImplicitZero();
        cur' := Some(0);
      }
      var symbol := ReadBinary(code[c + 1..], '-');
      if symbol.None? {
        return true, c', cur';
      }
      var q := c + 1 + symbol.value.consumed;
      var dest := ReadBinary(code[q..], '-');
      if dest.None? {
        return true, c', cur';
      }
      TransitionStep(code, c, cur, t0, symbol.value, dest.value);
      AddTransition(cur'.value, symbol.value.value, dest.value.value);
      return false, q + dest.value.consumed, cur';
    }

    /**
     * `make_DFA`: one pass of a cursor over the definition text, upserting
     * states into the table. Built from an empty table, the result is well
     * formed.
     */
    method Build(code: string)
      modifies this
      ensures Model() == Parse(code, 0, None, old(Model()))
      ensures old(Model()) == Empty ==> Wf(Model())
    {
      var c: nat := 0;
      var cur: Option<nat> := None;
      while c < |code|
        invariant cur.Some? ==> cur.value in states
        invariant Parse(code, c, cur, Model()) == Parse(code, 0, None, old(Model()))
        decreases |code| - c
      {
        if code[c] != '.' && code[c] != '-' {
          c := c + 1;
        } else {
          var stop, c', cur';
          if code[c] == '.' {
            stop, c', cur' := DeclarationBranch(code, c, cur);
          } else {
            stop, c', cur' := TransitionBranch(code, c, cur);
          }
          if stop {
            break;
          }
          c, cur := c', cur';
        }
      }
      if old(Model()) == Empty {
        ParseWf(code, 0, None, Empty);
      }
    }

    /**
     * `run_DFA`: walks the table from the start over the execution text.
     * `input` stands for standard input; the first `-` reads all of it.
     */
    method Run(code0: string, input0: string) returns (output: Option<seq<int>>)
      ensures output == Execute(Model(), code0, input0)
    {
      if start.None? {
        return None;
      }
      var code := code0;
      var input := input0;
      var c: nat := 0;
      var cur := start.value;
      var out := Encode(cur);
      while c < |code|
        invariant c <= |code|
        invariant Walk(states, cur, code, c, input, out) == Walk(states, start.value, code0, 0, input0, Encode(start.value))
        decreases |input|, |code| - c
      {
        ghost var c0, code1, input1, cur0, out0 := c, code, input, cur, out;
        if code[c] != '.' && code[c] != '-' {
          c := c + 1;
          assert WalkStep(states, cur0, code1, c0, input1, out0) == Go(cur, code, c, input, out);
        } else if code[c] == '.' {
          if c == |code| - 1 {
            break;
          }
          var symbol := ReadBinary(code[c + 1..], '.');
          if symbol.None? {
            break;
          }
          c := c + 1 + symbol.value.consumed;
          var sym := symbol.value.value;
          if cur in states && sym in states[cur].paths {
            cur := states[cur].paths[sym];
            out := out + Encode(cur);
            assert Step(states, cur0, sym) == Some(cur);
            assert WalkStep(states, cur0, code1, c0, input1, out0) == Go(cur, code, c, input, out);
          } else {
            assert WalkStep(states, cur0, code1, c0, input1, out0) == Abort;
            return None;
          }
        } else {
          var additional := SpliceInput(input);
          input := [];
          code := additional + code[c + 1..];
          c := 0;
          assert WalkStep(states, cur0, code1, c0, input1, out0) == Go(cur, code, c, input, out);
        }
        assert Walk(states, cur0, code1, c0, input1, out0) == Walk(states, cur, code, c, input, out);
      }
      output := if Accepting(states, cur) then Some(out) else None;
    }
  }

  /**
   * The `-` branch of `run_DFA`: everything read from the input, each
   * character spelled as `bin(ord(ch))`, joined into `.`-tokens.
   */
  method SpliceInput(read: string) returns (additional: string)
    ensures additional == SpliceText(read)
  {
    var chBuf: seq<string> := [];
    for i := 0 to |read|
      invariant chBuf == Spellings(read[..i])
    {
      assert read[..i + 1][..i] == read[..i];
      chBuf := chBuf + [Bin(read[i] as nat)];
    }
    assert read[..|read|] == read;
    additional := if |chBuf| > 0 then "." + Join(chBuf, "..") + "." else "";
  }

  /**
   * `code.split('!', 1)`: the definition text before the first `!` and the
   * execution text after it; without a `!` the execution text is empty.
   */
  function SplitSource(code: string): (r: (string, string))
    ensures '!' !in r.0
    ensures '!' in code ==> r.0 + "!" + r.1 == code
    ensures '!' !in code ==> r == (code, "")
  {
    if '!' in code then
      var i := FirstIndex(code, '!');
      assert code == code[..i] + "!" + code[i + 1..];
      (code[..i], code[i + 1..])
    else
      (code, "")
  }

  /** The whole interpreter on a source text, with `input` standing for standard input. */
  function Interpret(source: string, input: string): Option<seq<int>> {
    var parts := SplitSource(source);
    Execute(Parse(parts.0, 0, None, Empty), parts.1, input)
  }

  /** The program's flow: split the source, build a fresh automaton, run it. */
  method RunSource(source: string, input: string) returns (output: Option<seq<int>>)
    ensures output == Interpret(source, input)
  {
    var parts := SplitSource(source);
    var automaton := new Automaton();
    automaton.Build(parts.0);
    output := automaton.Run(parts.1, input);
  }

  /** The automaton of `..0.-0-0-`: accepting state 0, the start, with a self-loop on symbol 0. */
  function SelfLoop(): Dfa {
    Dfa(map[0 := StateRec(true, map[0 := 0])], Some(0))
  }

  lemma BuildSelfLoop()
    ensures Parse("..0.-0-0-", 0, None, Empty) == SelfLoop()
  {
    var t := Declare(Empty, 0, true);
    DeclareSelfLoopState();
    ConnectSelfLoop();
    assert Connect(t, 0, 0, 0) == SelfLoop();
    assert Parse("..0.-0-0-", 9, Some(0), SelfLoop()) == SelfLoop();
  }

  lemma DeclareSelfLoopState()
    ensures BuildStep("..0.-0-0-", 0, None, Empty) == Next(4, Some(0), Declare(Empty, 0, true))
  {
    assert "..0.-0-0-"[2..] == "0" + ['.'] + "-0-0-";
    assert BinValue("0") == 0;
    ScanBitString("0", '.', "-0-0-");
    DeclarationStep("..0.-0-0-", 0, None, Empty, 2, Token(0, 2));
  }

  lemma ConnectSelfLoop()
    ensures BuildStep("..0.-0-0-", 4, Some(0), Declare(Empty, 0, true)) == Next(9, Some(0), Connect(Declare(Empty, 0, true), 0, 0, 0))
  {
    assert "..0.-0-0-"[4..] == "-" + "0" + "-" + "0" + "-" + "";
    assert BinValue("0") == 0;
    TransitionOfBits("..0.-0-0-", 4, Some(0), Declare(Empty, 0, true), "0", "0", "");
  }

  lemma WalkSelfLoop()
    ensures Execute(SelfLoop(), ".0.", "") == Some([0, 0])
  {
    var states := SelfLoop().states;
    assert Step(states, 0, 0) == Some(0);
    assert BinValue(Bits("0" + ".")) == 0 by {
      BitsOfBitString("0");
      BitsAppend("0", ".");
      assert "."[1..] == "";
    }
    assert ".0." == "." + "0" + "." + "";
    WalkToken(states, 0, "0", 0, "", "", [0]);
    assert [0] + Encode(0) == [0, 0];
    assert Walk(states, 0, "", 0, "", [0, 0]) == Halted(0, [0, 0]);
  }

  /**
   * Accepting state 0 with a self-loop on symbol 0, walked once on symbol 0:
   * the start's U+0000 and the destination's U+0000 are printed.
   */
  lemma SelfLoopExample()
    ensures Interpret("..0.-0-0-!.0.", "") == Some([0, 0])
  {
    assert "..0.-0-0-!.0." == "..0.-0-0-" + "!" + ".0.";
    InterpretAtBang("..0.-0-0-", ".0.", "");
    BuildSelfLoop();
    WalkSelfLoop();
  }

  /** A lone state 0 with no transitions, accepting or not. */
  function LoneZero(accepting: bool): Dfa {
    Dfa(map[0 := StateRec(accepting, map[])], Some(0))
  }

  /**
   * `..0.-0.0.`: the transition's tokens are never closed by a `-`. With a
   * failed scan read as the end of the build (the corrected scanner of
   * `Scanner.ScanSpec`), the build stops after declaring state 0 and no
   * transition is added; as written, the scan's -1 makes the unpacking
   * crash instead (`UnclosedTransitionCrashesAsWritten`).
   */
  lemma BuildUnclosedTransition()
    ensures Parse("..0.-0.0.", 0, None, Empty) == LoneZero(true)
  {
    var def := "..0.-0.0.";
    assert def[2..] == "0" + ['.'] + "-0.0.";
    assert BinValue("0") == 0;
    ScanBitString("0", '.', "-0.0.");
    DeclarationStep(def, 0, None, Empty, 2, Token(0, 2));
    assert def[5..] == "0.0.";
    ScanSpec(def[5..], '-');
    assert Parse(def, 4, Some(0), LoneZero(true)) == LoneZero(true);
  }

  /**
   * As for `..0.-0.0.`, the transition of `.0.-1.1.` is never closed; the
   * build stops under the corrected scanner and crashes as written.
   */
  lemma BuildUnclosedTransition2()
    ensures Parse(".0.-1.1.", 0, None, Empty) == LoneZero(false)
  {
    var def := ".0.-1.1.";
    assert def[1..] == "0" + ['.'] + "-1.1.";
    assert BinValue("0") == 0;
    ScanBitString("0", '.', "-1.1.");
    DeclarationStep(def, 0, None, Empty, 1, Token(0, 2));
    assert def[4..] == "1.1.";
    ScanSpec(def[4..], '-');
    assert Parse(def, 3, Some(0), LoneZero(false)) == LoneZero(false);
  }

  lemma BuildLoneZero()
    ensures Parse(".0.", 0, None, Empty) == LoneZero(false)
  {
    assert ".0."[1..] == "0" + ['.'] + "";
    assert BinValue("0") == 0;
    ScanBitString("0", '.', "");
    DeclarationStep(".0.", 0, None, Empty, 1, Token(0, 2));
  }

  /**
   * A source whose definition text builds a lone state 0 and whose execution
   * text is one token `.tok.` prints nothing: state 0 has no transitions.
   */
  lemma AbortsOnLoneZero(def: string, tok: string, sym: nat, accepting: bool)
    requires '!' !in def && Parse(def, 0, None, Empty) == LoneZero(accepting)
    requires '.' !in tok && BinValue(Bits(tok + ".")) == sym
    ensures Interpret(def + "!" + ("." + tok + "."), "") == None
  {
    InterpretAtBang(def, "." + tok + ".", "");
    WalkWithoutTransitions(accepting, tok, sym);
  }

  /** Walking `.sym.` from a state with no transitions aborts the run. */
  lemma WalkWithoutTransitions(accepting: bool, tok: string, sym: nat)
    requires '.' !in tok && BinValue(Bits(tok + ".")) == sym
    ensures Execute(LoneZero(accepting), "." + tok + ".", "") == None
  {
    assert "." + tok + "." == "." + tok + "." + "";
    WalkToken(LoneZero(accepting).states, 0, tok, sym, "", "", Encode(0));
  }

  lemma BitsOfOneDigit(d: char)
    requires IsBit(d)
    ensures BinValue(Bits([d] + ".")) == if d == '1' then 1 else 0
  {
    BitsOfBitString([d]);
    BitsAppend([d], ".");
    assert "."[1..] == "";
    assert [d][..0] == [];
  }

  /**
   * With transitions written as `-sym.dest.`, as in `..0.-0.0.!.0.`, the
   * transition is never closed. Under the corrected scanner it is never
   * added and the walk on symbol 0 aborts, so nothing is printed; as
   * written, `make_DFA` crashes before anything runs.
   */
  lemma DotTerminatedTransitionExample()
    ensures Interpret("..0.-0.0.!.0.", "") == None
  {
    assert "..0.-0.0.!.0." == "..0.-0.0." + "!" + ("." + "0" + ".");
    BuildUnclosedTransition();
    BitsOfOneDigit('0');
    AbortsOnLoneZero("..0.-0.0.", "0", 0, true);
  }


  /**
   * `.0.-1.1.!.1.`: under the corrected scanner only a non-accepting state 0
   * is built and the walk on symbol 1 aborts; as written, `make_DFA` crashes.
   */
  lemma NonAcceptingExample()
    ensures Interpret(".0.-1.1.!.1.", "") == None
  {
    assert ".0.-1.1.!.1." == ".0.-1.1." + "!" + ("." + "1" + ".");
    BuildUnclosedTransition2();
    BitsOfOneDigit('1');
    AbortsOnLoneZero(".0.-1.1.", "1", 1, false);
  }


  /** `.0.!.1.`: state 0 has no transition on symbol 1, so the run aborts. */
  lemma MissingTransitionExample()
    ensures Interpret(".0.!.1.", "") == None
  {
    assert ".0.!.1." == ".0." + "!" + ("." + "1" + ".");
    BuildLoneZero();
    BitsOfOneDigit('1');
    AbortsOnLoneZero(".0.", "1", 1, false);
  }


  /** An empty definition builds no start state, so nothing is printed, whatever is executed. */
  lemma EmptyDefinitionExample(exec: string, input: string)
    ensures Interpret("!" + exec, input) == None
  {
    assert "!" + exec == "" + "!" + exec;
    InterpretAtBang("", exec, input);
  }

  /**
   * Without a `!` the execution text is empty, yet the walk still runs: an
   * accepting start prints its own encoding.
   */
  lemma NoExecutionTextExample()
    ensures Interpret("..1.", "") == Some([1])
  {
    assert "..1."[2..] == "1" + ['.'] + "";
    assert BinValue("1") == 1 by {
      assert "1"[..0] == [];
    }
    ScanBitString("1", '.', "");
    DeclarationStep("..1.", 0, None, Empty, 2, Token(1, 2));
    assert Parse("..1.", 0, None, Empty) == Dfa(map[1 := StateRec(true, map[])], Some(1));
  }

  /**
   * `-` with external input: spliced in as `.`-tokens, each input character
   * takes the transition on its code point. On the self-loop automaton, the
   * input "\0" moves once more to state 0; "a" (code point 97) has no
   * transition, so the run aborts.
   */
  lemma SpliceExample()
    ensures Execute(SelfLoop(), "-", [0 as char]) == Some([0, 0])
  {
    var states := SelfLoop().states;
    WalkSplice(states, 0, "-", 0, [0 as char], [0]);
    assert Codes([0 as char]) == [0];
    assert Step(states, 0, 0) == Some(0);
    assert Trace(states, 0, [0], [0]) == Halted(0, [0, 0]);
  }

  /** The input "a" (code point 97) finds no transition in the self-loop automaton: the run aborts. */
  lemma SpliceAbortExample()
    ensures Execute(SelfLoop(), "-", "a") == None
  {
    var states := SelfLoop().states;
    WalkSplice(states, 0, "-", 0, "a", [0]);
    assert Codes("a") == [97];
    assert Step(states, 0, 97) == None;
    assert Trace(states, 0, [97], [0]) == Dead;
  }

  /** A source with a `!` runs the automaton its definition text builds on the text after the `!`. */
  lemma InterpretAtBang(def: string, exec: string, input: string)
    requires '!' !in def
    ensures Interpret(def + "!" + exec, input) == Execute(Parse(def, 0, None, Empty), exec, input)
  {
    SplitAtFirstBang(def, exec);
  }

  /**
   * As written, the transitions of `..0.-0.0.` and `.0.-1.1.` crash the
   * builder: the symbol's scan finds no `-`, returns -1, and the unpacking
   * of that -1 raises a TypeError.
   */
  lemma UnclosedTransitionCrashesAsWritten()
    ensures UnpackAsWritten(ReadBinaryAsWritten("..0.-0.0."[5..], '-')) == TypeError
    ensures UnpackAsWritten(ReadBinaryAsWritten(".0.-1.1."[4..], '-')) == TypeError
  {
    assert "..0.-0.0."[5..] == "0.0.";
    assert ".0.-1.1."[4..] == "1.1.";
    assert '-' !in "0.0." && '-' !in "1.1.";
    SentinelTestIsDead("0.0.", '-');
    SentinelTestIsDead("1.1.", '-');
  }

  /**
   * An execution token that is never closed by `.` halts the walk under the
   * corrected scanner, and the acceptance test still decides: on the
   * self-loop automaton, `.0` prints the start's U+0000.
   */
  lemma UnclosedExecutionTokenHalts()
    ensures Execute(SelfLoop(), ".0", "") == Some([0])
  {
    ScanSpec(".0"[1..], '.');
    assert ".0"[1..] == "0";
  }

  /** A definition text without `!` is split off at the first `!` of the source. */
  lemma SplitAtFirstBang(def: string, exec: string)
    requires '!' !in def
    ensures SplitSource(def + "!" + exec) == (def, exec)
  {
    var src := def + "!" + exec;
    assert src[..|def|] == def;
    FirstIndexAt(src, '!', |def|);
    assert src[|def| + 1..] == exec;
  }
}
