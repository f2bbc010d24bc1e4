/**
 * The automaton walker `run_DFA` of DFA-er.py as a specification on values:
 * the output rule for a state's name, the splice of external input into the
 * execution text, and `Walk`, which follows the walker's single-cursor loop.
 * The loop itself is `Interpreter.Automaton.Run`.
 */
module Walker {
  import opened Wrappers
  import opened Scanner
  import opened Builder

  /** The largest code point `chr` accepts. */
  const MaxCodePoint := 0x10FFFF

  predicate IsDigitCode(d: int) {
    '0' as int <= d <= '9' as int
  }

  /** The value of a sequence of decimal digit code points, most significant first. */
  function DecValue(r: seq<int>): int {
    if r == [] then 0 else 10 * DecValue(r[..|r| - 1]) + (r[|r| - 1] - '0' as int)
  }

  /** Python's `str(n)` for a non-negative `n`, as code points. */
  function DecimalDigits(n: nat): (r: seq<int>)
    ensures |r| >= 1 && forall i :: 0 <= i < |r| ==> IsDigitCode(r[i])
    ensures DecValue(r) == n
    ensures |r| == 1 || r[0] != '0' as int
  {
    if n < 10 then
      ['0' as int + n]
    else
      var r := DecimalDigits(n / 10) + ['0' as int + n % 10];
      assert r[..|r| - 1] == DecimalDigits(n / 10);
      r
  }

  /**
   * What the walker appends when it lands on a state: the one code point
   * `chr(name)` when the name is a code point, otherwise the decimal digits
   * of the name.
   */
  function Encode(name: nat): (r: seq<int>)
    ensures name <= MaxCodePoint ==> r == [name]
    ensures name > MaxCodePoint ==> |r| >= 1 && r[0] != '0' as int
    ensures name > MaxCodePoint ==> (forall i :: 0 <= i < |r| ==> IsDigitCode(r[i])) && DecValue(r) == name
  {
    if name <= MaxCodePoint then [name] else DecimalDigits(name)
  }

  /** Python's `sep.join(xs)`. */
  function Join(xs: seq<string>, sep: string): string {
    if |xs| == 0 then "" else if |xs| == 1 then xs[0] else xs[0] + sep + Join(xs[1..], sep)
  }

  /** `bin(ord(ch))` for every character of the external input, in order. */
  function Spellings(w: string): (r: seq<string>)
    ensures |r| == |w|
  {
    seq(|w|, i requires 0 <= i < |w| => Bin(w[i] as nat))
  }

  /** The code points of the external input: the symbols the splice feeds the automaton. */
  function Codes(w: string): (r: seq<nat>)
    ensures |r| == |w|
  {
    seq(|w|, i requires 0 <= i < |w| => w[i] as nat)
  }

  /** The text the walker splices in for the input `w`; nothing when `w` is empty. */
  function SpliceText(w: string): string {
    if |w| > 0 then "." + Join(Spellings(w), "..") + "." else ""
  }

  /** Tokens written one after another, each as `.tok.`. */
  function Block(toks: seq<string>): string {
    if toks == [] then "" else "." + toks[0] + "." + Block(toks[1..])
  }

  lemma {:induction false} JoinIsBlock(xs: seq<string>)
    requires |xs| >= 1
    ensures "." + Join(xs, "..") + "." == Block(xs)
  {
    if |xs| == 1 {
      assert xs[1..] == [];
    } else {
      JoinIsBlock(xs[1..]);
      assert "." + Join(xs, "..") + "." == "." + xs[0] + "." + ("." + Join(xs[1..], "..") + ".");
    }
  }

  /** The spliced text is one `.`-terminated token per input character. */
  lemma SpliceTextIsBlock(w: string)
    ensures SpliceText(w) == Block(Spellings(w))
  {
    if |w| > 0 {
      JoinIsBlock(Spellings(w));
    }
  }

  /** A transition lookup: the destination of `cur` on `sym`, if there is one. */
  function Step(states: map<nat, StateRec>, cur: nat, sym: nat): (r: Option<nat>)
    ensures r.Some? <==> cur in states && sym in states[cur].paths
    ensures r.Some? ==> r.value == states[cur].paths[sym]
  {
    if cur in states && sym in states[cur].paths then Some(states[cur].paths[sym]) else None
  }

  /** How a run ends: aborted by a missing transition, or halted in a state with its output. */
  datatype Outcome = Dead | Halted(state: nat, out: seq<int>)

  /** What one iteration of the walker's loop does. */
  datatype Move = Halt | Abort | Go(cur: nat, code: string, c: nat, input: string, out: seq<int>)

  /**
   * One iteration of `run_DFA`'s loop: an inert character is skipped; `.sym.`
   * takes a transition and appends the destination's encoding; `-` splices
   * the whole external input in front of the rest of the text and resets the
   * cursor, leaving no input for later reads.
   */
  function WalkStep(states: map<nat, StateRec>, cur: nat, code: string, c: nat, input: string, out: seq<int>): (m: Move)
    requires c < |code|
    ensures m.Go? ==> m.c <= |m.code| && |m.input| <= |input|
    ensures m.Go? && |m.input| == |input| ==> |m.code| - m.c < |code| - c
    ensures m.Go? ==> m.out == out || m.out == out + Encode(m.cur)
    ensures m.Go? && m.cur != cur ==> cur in states && m.cur in states[cur].paths.Values
  {
    if code[c] != '.' && code[c] != '-' then Go(cur, code, c + 1, input, out)
    else if code[c] == '.' then
      if c == |code| - 1 then Halt
      else
        match Scan(code[c + 1..], '.')
        case None => Halt
        case Some(sym) =>
          match Step(states, cur, sym.value)
          case None => Abort
          case Some(d) => Go(d, code, c + 1 + sym.consumed, input, out + Encode(d))
    else
      Go(cur, SpliceText(input) + code[c + 1..], 0, [], out)
  }

  /** `run_DFA`'s loop from cursor `c` in state `cur` with output `out` so far. */
  function Walk(states: map<nat, StateRec>, cur: nat, code: string, c: nat, input: string, out: seq<int>): Outcome
    decreases |input|, |code| - c
  {
    if c >= |code| then Halted(cur, out)
    else
      match WalkStep(states, cur, code, c, input, out)
      case Halt => Halted(cur, out)
      case Abort => Dead
      case Go(cur', code', c', input', out') => Walk(states, cur', code', c', input', out')
  }

  /** Where a run goes on after a block of tokens: nowhere if it died, else on into the rest of the text. */
  function Resume(states: map<nat, StateRec>, o: Outcome, rest: string, input: string): Outcome {
    match o
    case Dead => Dead
    case Halted(d, out) => Walk(states, d, rest, 0, input, out)
  }

  /**
   * Taking the transitions on `syms` one after another from `cur`, appending
   * each destination's encoding; dead at the first missing transition.
   */
  function Trace(states: map<nat, StateRec>, cur: nat, syms: seq<nat>, out: seq<int>): Outcome
    decreases |syms|
  {
    if syms == [] then Halted(cur, out)
    else
      match Step(states, cur, syms[0])
      case None => Dead
      case Some(d) => Trace(states, d, syms[1..], out + Encode(d))
  }

  /** The walk does not depend on the text already behind the cursor. */
  lemma {:induction false} WalkShift(states: map<nat, StateRec>, cur: nat, code: string, c: nat, input: string, out: seq<int>)
    requires c <= |code|
    ensures Walk(states, cur, code, c, input, out) == Walk(states, cur, code[c..], 0, input, out)
    decreases |code| - c
  {
    if c < |code| {
      var tail := code[c..];
      assert tail[0] == code[c] && tail[1..] == code[c + 1..];
      match WalkStep(states, cur, code, c, input, out)
      case Go(cur', code', c', input', out') =>
        if code[c] != '-' {
          assert code' == code && c' > c;
          assert WalkStep(states, cur, tail, 0, input, out) == Go(cur', tail, c' - c, input', out');
          WalkShift(states, cur', code, c', input', out');
          WalkShift(states, cur', tail, c' - c, input', out');
          assert tail[c' - c..] == code[c'..];
        } else {
          assert WalkStep(states, cur, tail, 0, input, out) == Go(cur', code', c', input', out');
        }
      case Halt =>
        assert WalkStep(states, cur, tail, 0, input, out) == Halt;
      case Abort =>
        assert WalkStep(states, cur, tail, 0, input, out) == Abort;
    }
  }

  /**
   * Walking a block of `.`-terminated tokens whose values are `syms` is taking
   * the transitions on `syms` in order: the run dies at the first missing
   * transition, and otherwise goes on into the rest of the text.
   */
  lemma {:induction false} WalkBlock(states: map<nat, StateRec>, cur: nat, toks: seq<string>, syms: seq<nat>,
                                     rest: string, input: string, out: seq<int>)
    requires |toks| == |syms|
    requires forall i :: 0 <= i < |toks| ==> '.' !in toks[i] && BinValue(Bits(toks[i] + ".")) == syms[i]
    ensures Walk(states, cur, Block(toks) + rest, 0, input, out) == Resume(states, Trace(states, cur, syms, out), rest, input)
    decreases |toks|
  {
    if toks == [] {
      assert Block(toks) + rest == rest;
    } else {
      var more := Block(toks[1..]) + rest;
      assert Block(toks) + rest == "." + toks[0] + "." + more;
      WalkToken(states, cur, toks[0], syms[0], more, input, out);
      match Step(states, cur, syms[0])
      case None =>
      case Some(d) =>
        WalkBlock(states, d, toks[1..], syms[1..], rest, input, out + Encode(d));
    }
  }

  /** One `.tok.` step: the transition on the token's value, or death if there is none. */
  lemma WalkToken(states: map<nat, StateRec>, cur: nat, tok: string, sym: nat, more: string, input: string, out: seq<int>)
    requires '.' !in tok && BinValue(Bits(tok + ".")) == sym
    ensures Walk(states, cur, "." + tok + "." + more, 0, input, out) ==
      match Step(states, cur, sym)
      case None => Dead
      case Some(d) => Walk(states, d, more, 0, input, out + Encode(d))
  {
    var code := "." + tok + "." + more;
    assert code[1..] == tok + ['.'] + more;
    ScanPrefix(tok, '.', more);
    var k := |tok| + 1;
    assert Scan(code[1..], '.') == Some(Token(sym, k));
    match Step(states, cur, sym)
    case None =>
    case Some(d) =>
      assert WalkStep(states, cur, code, 0, input, out) == Go(d, code, 1 + k, input, out + Encode(d));
      WalkShift(states, d, code, 1 + k, input, out + Encode(d));
      assert code[1 + k..] == more;
  }

  /**
   * A `-` step: the run goes on as if the transitions on the code points of
   * the external input had been taken in order, then continues with the text
   * after the `-` and no input left. With empty input the rest of the text
   * simply continues.
   */
  lemma WalkSplice(states: map<nat, StateRec>, cur: nat, code: string, c: nat, input: string, out: seq<int>)
    requires c < |code| && code[c] == '-'
    ensures Walk(states, cur, code, c, input, out) == Resume(states, Trace(states, cur, Codes(input), out), code[c + 1..], [])
  {
    SpliceTextIsBlock(input);
    var toks := Spellings(input);
    forall i | 0 <= i < |toks|
      ensures '.' !in toks[i] && BinValue(Bits(toks[i] + ".")) == Codes(input)[i]
    {
      BinRoundTrip(input[i] as nat);
    }
    WalkBlock(states, cur, toks, Codes(input), code[c + 1..], [], out);
  }

  /** Output is only ever appended to: a halted run's output extends the output it started with. */
  lemma {:induction false} WalkExtends(states: map<nat, StateRec>, cur: nat, code: string, c: nat, input: string, out: seq<int>)
    ensures Walk(states, cur, code, c, input, out).Halted? ==> out <= Walk(states, cur, code, c, input, out).out
    decreases |input|, |code| - c
  {
    if c < |code| {
      match WalkStep(states, cur, code, c, input, out)
      case Go(cur', code', c', input', out') => WalkExtends(states, cur', code', c', input', out');
      case _ =>
    }
  }

  /** In a closed table, a run that starts in a state halts in a state. */
  lemma {:induction false} WalkStaysInTable(states: map<nat, StateRec>, cur: nat, code: string, c: nat, input: string, out: seq<int>)
    requires Closed(states) && cur in states
    ensures Walk(states, cur, code, c, input, out).Halted? ==> Walk(states, cur, code, c, input, out).state in states
    decreases |input|, |code| - c
  {
    if c < |code| {
      match WalkStep(states, cur, code, c, input, out)
      case Go(cur', code', c', input', out') => WalkStaysInTable(states, cur', code', c', input', out');
      case _ =>
    }
  }

  predicate Accepting(states: map<nat, StateRec>, name: nat) {
    name in states && states[name].accepting
  }

  /**
   * `run_DFA` on a built table: nothing without a start; otherwise the run
   * starts by emitting the start's encoding, and its output is printed only
   * if it was not aborted and ends in an accepting state.
   */
  function Execute(t: Dfa, code: string, input: string): (r: Option<seq<int>>)
    ensures t.start.None? ==> r.None?
    ensures r.Some? ==> t.start.Some? && Encode(t.start.value) <= r.value
  {
    match t.start
    case None => None
    case Some(s) =>
      WalkExtends(t.states, s, code, 0, input, Encode(s));
      match Walk(t.states, s, code, 0, input, Encode(s))
      case Dead => None
      case Halted(f, out) => if Accepting(t.states, f) then Some(out) else None
  }

  /**
   * On a well-formed table the output is printed exactly when the run is not
   * aborted and its final state, a state of the table, is accepting.
   */
  lemma ExecutePrintsIffAccepting(t: Dfa, code: string, input: string)
    requires Wf(t) && t.start.Some?
    ensures var w := Walk(t.states, t.start.value, code, 0, input, Encode(t.start.value));
      && (w.Halted? ==> w.state in t.states)
      && (Execute(t, code, input).Some? <==> w.Halted? && t.states[w.state].accepting)
      && (Execute(t, code, input).Some? ==> Execute(t, code, input).value == w.out)
  {
    WalkStaysInTable(t.states, t.start.value, code, 0, input, Encode(t.start.value));
  }
}
