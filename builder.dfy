/**
 * The automaton builder `make_DFA` of DFA-er.py as a specification on
 * values: the state table (name -> state) with its start state, the upserts
 * the builder performs on it, and `Parse`, which follows the builder's
 * single-cursor loop over the definition text. The loop itself, updating
 * the table in place, is `Interpreter.Automaton.Build`.
 */
module Builder {
  import opened Wrappers
  import opened Scanner

  /** A state: its accepting flag and its transitions, symbol -> destination name. */
  datatype StateRec = StateRec(accepting: bool, paths: map<nat, nat>) {

    /** `State.add_path`: the transition on `symbol` now leads to `dest`; every other one is kept. */
    function AddPath(symbol: nat, dest: nat): (r: StateRec)
      ensures r.accepting == accepting
      ensures r.paths.Keys == paths.Keys + {symbol}
      ensures r.paths[symbol] == dest
      ensures forall k :: k in paths && k != symbol ==> r.paths[k] == paths[k]
    {
      StateRec(accepting, paths[symbol := dest])
    }
  }

  /** A state created by reference only: non-accepting, no transitions. */
  const Blank := StateRec(false, map[])

  /** The table `DFA` (state name -> state) and `starting_state`. */
  datatype Dfa = Dfa(states: map<nat, StateRec>, start: Option<nat>)

  const Empty := Dfa(map[], None)

  /** Every transition leads to a state of the table. */
  ghost predicate Closed(states: map<nat, StateRec>) {
    forall n, sym :: n in states && sym in states[n].paths ==> states[n].paths[sym] in states
  }

  /** The table is empty exactly when no start is set, the start is a state, and transitions are closed. */
  ghost predicate Wf(t: Dfa) {
    && (t.states == map[] <==> t.start.None?)
    && (t.start.Some? ==> t.start.value in t.states)
    && Closed(t.states)
  }

  /** The builder's loop invariant: no current state only while nothing has been built yet. */
  ghost predicate Inv(cur: Option<nat>, t: Dfa) {
    && Wf(t)
    && (cur.None? ==> t.states == map[])
    && (cur.Some? ==> cur.value in t.states)
  }

  /** A state declaration; `DeclareSpec` says what it does. */
  function Declare(t: Dfa, name: nat, accepting: bool): (r: Dfa)
    ensures r.states.Keys == t.states.Keys + {name}
  {
    if name in t.states then
      Dfa(t.states[name := t.states[name].(accepting := accepting)], t.start)
    else
      Dfa(t.states[name := StateRec(accepting, map[])], if |t.states| == 0 then Some(name) else t.start)
  }

  /**
   * Re-declaring an existing state only overwrites its accepting flag: its
   * transitions, every other state and the start are unchanged. A new state
   * has no transitions and becomes the start exactly when the table was empty.
   */
  lemma DeclareSpec(t: Dfa, name: nat, accepting: bool)
    ensures var r := Declare(t, name, accepting);
      && r.states[name].accepting == accepting
      && (name in t.states ==> r.states[name].paths == t.states[name].paths && r.start == t.start)
      && (name !in t.states ==> r.states[name].paths == map[])
      && (name !in t.states ==> r.start == (if t.states == map[] then Some(name) else t.start))
      && (forall k :: k in t.states && k != name ==> r.states[k] == t.states[k])
  {
  }

  /** A transition seen with no current state: state 0 is created, non-accepting, and made the start. */
  function ImplicitZero(t: Dfa): (r: Dfa)
    ensures r.states.Keys == t.states.Keys + {0}
  {
    Dfa(t.states[0 := Blank], Some(0))
  }

  lemma ImplicitZeroSpec(t: Dfa)
    ensures var r := ImplicitZero(t);
      && r.states[0] == Blank && r.start == Some(0)
      && (forall k :: k in t.states && k != 0 ==> r.states[k] == t.states[k])
  {
  }

  /** A transition `src --sym--> dst`; `ConnectSpec` says what it does. */
  function Connect(t: Dfa, src: nat, sym: nat, dst: nat): (r: Dfa)
    requires src in t.states
    ensures r.states.Keys == t.states.Keys + {dst}
  {
    var states := if dst in t.states then t.states else t.states[dst := Blank];
    Dfa(states[src := states[src].AddPath(sym, dst)], t.start)
  }

  /**
   * A transition overwrites the one on `sym` from `src` and keeps the
   * others; an unseen destination is created non-accepting with no
   * transitions; nothing else changes, the start least of all.
   */
  lemma ConnectSpec(t: Dfa, src: nat, sym: nat, dst: nat)
    requires src in t.states
    ensures var r := Connect(t, src, sym, dst);
      && r.start == t.start
      && r.states[src].accepting == t.states[src].accepting
      && sym in r.states[src].paths && r.states[src].paths[sym] == dst
      && r.states[src].paths.Keys == t.states[src].paths.Keys + {sym}
      && (forall k :: k in t.states[src].paths && k != sym ==> r.states[src].paths[k] == t.states[src].paths[k])
      && (dst !in t.states ==> r.states[dst] == Blank)
      && (forall k :: k in t.states && k != src ==> r.states[k] == t.states[k])
  {
  }

  /** Where one iteration of the builder's loop leaves it: stopped with a table, or at a new cursor. */
  datatype Config = Stop(table: Dfa) | Next(c: nat, cur: Option<nat>, table: Dfa)

  /**
   * One iteration of `make_DFA`'s loop at cursor `c` with current state `cur`:
   * an inert character is skipped, a `.` declares a state, a `-` adds a
   * transition. A `.` as the last character or a failed scan stops the loop.
   */
  function BuildStep(code: string, c: nat, cur: Option<nat>, t: Dfa): (s: Config)
    requires c < |code|
    requires cur.Some? ==> cur.value in t.states
    ensures s.Next? ==> c < s.c && (s.cur.Some? ==> s.cur.value in s.table.states)
  {
    if code[c] != '.' && code[c] != '-' then Next(c + 1, cur, t)
    else if code[c] == '.' then
      if c == |code| - 1 then Stop(t) else DeclarationAt(code, c, t)
    else
      TransitionAt(code, c, cur, t)
  }

  /** The `.` branch: `..name.` declares an accepting state, `.name.` a non-accepting one. */
  function DeclarationAt(code: string, c: nat, t: Dfa): (s: Config)
    requires c < |code| - 1
    ensures s.Next? ==> c < s.c && s.cur.Some? && s.cur.value in s.table.states
  {
    var accepting := code[c + 1] == '.';
    var p := if accepting then c + 2 else c + 1;
    var name := Scan(code[p..], '.');
    if name.None? then Stop(t)
    else Next(p + name.value.consumed, Some(name.value.value), Declare(t, name.value.value, accepting))
  }

  /** The `-` branch: `-sym-dest-` adds a transition from the current state, or from a new state 0. */
  function TransitionAt(code: string, c: nat, cur: Option<nat>, t: Dfa): (s: Config)
    requires c < |code|
    requires cur.Some? ==> cur.value in t.states
    ensures s.Next? ==> c < s.c && s.cur.Some? && s.cur.value in s.table.states
    ensures s.Next? ==> s.cur == if cur.None? then Some(0) else cur
    ensures 0 in s.table.states || cur.Some?
  {
    var t1 := if cur.None? then ImplicitZero(t) else t;
    var src := if cur.None? then 0 else cur.value;
    var sym := Scan(code[c + 1..], '-');
    if sym.None? then Stop(t1)
    else
      var q := c + 1 + sym.value.consumed;
      var dst := Scan(code[q..], '-');
      if dst.None? then Stop(t1)
      else Next(q + dst.value.consumed, Some(src), Connect(t1, src, sym.value.value, dst.value.value))
  }

  /** The builder step at a `-` whose symbol and destination both scan. */
  lemma TransitionStep(code: string, c: nat, cur: Option<nat>, t: Dfa, sym: Token, dst: Token)
    requires c < |code| && code[c] == '-' && (cur.Some? ==> cur.value in t.states)
    requires Scan(code[c + 1..], '-') == Some(sym)
    requires Scan(code[c + 1 + sym.consumed..], '-') == Some(dst)
    ensures var src := if cur.None? then 0 else cur.value;
      BuildStep(code, c, cur, t) ==
        Next(c + 1 + sym.consumed + dst.consumed, Some(src),
             Connect(if cur.None? then ImplicitZero(t) else t, src, sym.value, dst.value))
  {
  }

  /** The builder step at a `-` whose symbol or destination does not scan: the build stops. */
  lemma TransitionStop(code: string, c: nat, cur: Option<nat>, t: Dfa)
    requires c < |code| && code[c] == '-' && (cur.Some? ==> cur.value in t.states)
    ensures var t1 := if cur.None? then ImplicitZero(t) else t;
      var sym := Scan(code[c + 1..], '-');
      && (sym.None? ==> BuildStep(code, c, cur, t) == Stop(t1))
      && (sym.Some? && Scan(code[c + 1 + sym.value.consumed..], '-').None? ==> BuildStep(code, c, cur, t) == Stop(t1))
  {
  }

  /** Where the two tokens of `-a-b-rest` start. */
  lemma TransitionText(a: string, b: string, rest: string)
    ensures var s := "-" + a + "-" + b + "-" + rest;
      && s[0] == '-'
      && s[1..] == a + ['-'] + (b + "-" + rest)
      && s[1 + |a| + 1..] == b + ['-'] + rest
  {
  }

  /** A transition `-a-b-` written in pure bit strings adds `a --> b` and resumes after its last `-`. */
  lemma TransitionOfBits(code: string, c: nat, cur: Option<nat>, t: Dfa, a: string, b: string, rest: string)
    requires c < |code| && (cur.Some? ==> cur.value in t.states)
    requires forall i :: 0 <= i < |a| ==> IsBit(a[i])
    requires forall i :: 0 <= i < |b| ==> IsBit(b[i])
    requires code[c..] == "-" + a + "-" + b + "-" + rest
    ensures var src := if cur.None? then 0 else cur.value;
      BuildStep(code, c, cur, t) ==
        Next(c + |a| + |b| + 3, Some(src), Connect(if cur.None? then ImplicitZero(t) else t, src, BinValue(a), BinValue(b)))
  {
    var tail := code[c..];
    TransitionText(a, b, rest);
    var sym, dst := Token(BinValue(a), |a| + 1), Token(BinValue(b), |b| + 1);
    assert Scan(code[c + 1..], '-') == Some(sym) by {
      assert code[c + 1..] == tail[1..];
      ScanBitString(a, '-', b + "-" + rest);
    }
    assert Scan(code[c + 1 + sym.consumed..], '-') == Some(dst) by {
      assert code[c + 1 + sym.consumed..] == tail[1 + |a| + 1..];
      ScanBitString(b, '-', rest);
    }
    assert code[c] == tail[0];
    TransitionStep(code, c, cur, t, sym, dst);
  }

  /** The builder step at a `.` whose name scans. */
  lemma DeclarationStep(code: string, c: nat, cur: Option<nat>, t: Dfa, p: nat, name: Token)
    requires c < |code| - 1 && code[c] == '.' && (cur.Some? ==> cur.value in t.states)
    requires p == if code[c + 1] == '.' then c + 2 else c + 1
    requires Scan(code[p..], '.') == Some(name)
    ensures BuildStep(code, c, cur, t) == Next(p + name.consumed, Some(name.value), Declare(t, name.value, code[c + 1] == '.'))
  {
  }

  /**
   * `make_DFA` from cursor `c` with current state `cur`: the table it leaves
   * behind. End of text, a `.` as the last character and a failed scan all
   * stop the loop and keep what has been built.
   */
  function Parse(code: string, c: nat, cur: Option<nat>, t: Dfa): Dfa
    requires cur.Some? ==> cur.value in t.states
    decreases |code| - c
  {
    if c >= |code| then t
    else
      match BuildStep(code, c, cur, t)
      case Stop(t') => t'
      case Next(c', cur', t') => Parse(code, c', cur', t')
  }

  lemma ConnectClosed(t: Dfa, src: nat, sym: nat, dst: nat)
    requires src in t.states && Closed(t.states)
    ensures Closed(Connect(t, src, sym, dst).states)
  {
    ConnectSpec(t, src, sym, dst);
    var r := Connect(t, src, sym, dst).states;
    forall n, s | n in r && s in r[n].paths
      ensures r[n].paths[s] in r
    {
      if n == src {
        if s != sym {
          assert r[n].paths[s] == t.states[src].paths[s];
        }
      } else if n in t.states {
        assert r[n] == t.states[n];
      }
    }
  }

  lemma DeclareWf(t: Dfa, name: nat, accepting: bool)
    requires Wf(t)
    ensures Wf(Declare(t, name, accepting))
  {
    DeclareSpec(t, name, accepting);
    var r := Declare(t, name, accepting).states;
    forall n, s | n in r && s in r[n].paths
      ensures r[n].paths[s] in r
    {
      if n != name {
        assert r[n] == t.states[n];
      }
    }
  }

  lemma ImplicitZeroWf(t: Dfa)
    requires Wf(t)
    ensures Wf(ImplicitZero(t))
  {
    ImplicitZeroSpec(t);
    var r := ImplicitZero(t).states;
    forall n, s | n in r && s in r[n].paths
      ensures r[n].paths[s] in r
    {
      if n != 0 {
        assert r[n] == t.states[n];
      }
    }
  }

  lemma ConnectWf(t: Dfa, src: nat, sym: nat, dst: nat)
    requires Wf(t) && src in t.states
    ensures Wf(Connect(t, src, sym, dst))
  {
    ConnectSpec(t, src, sym, dst);
    ConnectClosed(t, src, sym, dst);
  }

  /** One builder step keeps the invariant; when it stops, the table is well formed. */
  lemma StepInv(code: string, c: nat, cur: Option<nat>, t: Dfa)
    requires c < |code| && Inv(cur, t)
    ensures BuildStep(code, c, cur, t).Stop? ==> Wf(BuildStep(code, c, cur, t).table)
    ensures BuildStep(code, c, cur, t).Next? ==> Inv(BuildStep(code, c, cur, t).cur, BuildStep(code, c, cur, t).table)
  {
    if code[c] == '.' && c < |code| - 1 {
      DeclarationStepInv(code, c, cur, t);
    } else if code[c] == '-' {
      TransitionStepInv(code, c, cur, t);
    }
  }

  lemma DeclarationStepInv(code: string, c: nat, cur: Option<nat>, t: Dfa)
    requires c < |code| - 1 && code[c] == '.' && Inv(cur, t)
    ensures BuildStep(code, c, cur, t).Stop? ==> Wf(BuildStep(code, c, cur, t).table)
    ensures BuildStep(code, c, cur, t).Next? ==> Inv(BuildStep(code, c, cur, t).cur, BuildStep(code, c, cur, t).table)
  {
    var accepting := code[c + 1] == '.';
    var p := if accepting then c + 2 else c + 1;
    var r := Scan(code[p..], '.');
    if r.Some? {
      DeclareWf(t, r.value.value, accepting);
      assert BuildStep(code, c, cur, t) == Next(p + r.value.consumed, Some(r.value.value), Declare(t, r.value.value, accepting));
    } else {
      assert BuildStep(code, c, cur, t) == Stop(t);
    }
  }

  lemma TransitionStepInv(code: string, c: nat, cur: Option<nat>, t: Dfa)
    requires c < |code| && code[c] == '-' && Inv(cur, t)
    ensures BuildStep(code, c, cur, t).Stop? ==> Wf(BuildStep(code, c, cur, t).table)
    ensures BuildStep(code, c, cur, t).Next? ==> Inv(BuildStep(code, c, cur, t).cur, BuildStep(code, c, cur, t).table)
  {
    var t1 := if cur.None? then ImplicitZero(t) else t;
    var src := if cur.None? then 0 else cur.value;
    if cur.None? {
      ImplicitZeroWf(t);
    }
    assert Wf(t1) && src in t1.states;
    var step := BuildStep(code, c, cur, t);
    var sym := Scan(code[c + 1..], '-');
    if sym.Some? {
      var dst := Scan(code[c + 1 + sym.value.consumed..], '-');
      if dst.Some? {
        ConnectWf(t1, src, sym.value.value, dst.value.value);
        assert step.cur == Some(src) && step.table == Connect(t1, src, sym.value.value, dst.value.value);
      } else {
        assert step.table == t1;
      }
    } else {
      assert step.table == t1;
    }
  }

  /** However the build ends, it leaves a well-formed table. */
  lemma {:induction false} ParseWf(code: string, c: nat, cur: Option<nat>, t: Dfa)
    requires Inv(cur, t)
    ensures Wf(Parse(code, c, cur, t))
    decreases |code| - c
  {
    if c < |code| {
      StepInv(code, c, cur, t);
      match BuildStep(code, c, cur, t)
      case Stop(_) =>
      case Next(c', cur', t') => ParseWf(code, c', cur', t');
    }
  }

  /** A builder step under the invariant never moves a start that is already set. */
  lemma StepKeepsStart(code: string, c: nat, cur: Option<nat>, t: Dfa)
    requires c < |code| && Inv(cur, t) && t.start.Some?
    ensures BuildStep(code, c, cur, t).table.start == t.start
  {
  }

  /** Once set, the start state is never reassigned by the rest of the build. */
  lemma {:induction false} ParseKeepsStart(code: string, c: nat, cur: Option<nat>, t: Dfa)
    requires Inv(cur, t) && t.start.Some?
    ensures Parse(code, c, cur, t).start == t.start
    decreases |code| - c
  {
    if c < |code| {
      StepInv(code, c, cur, t);
      StepKeepsStart(code, c, cur, t);
      match BuildStep(code, c, cur, t)
      case Stop(_) =>
      case Next(c', cur', t') => ParseKeepsStart(code, c', cur', t');
    }
  }

  /**
   * The name of the first state a build from cursor `c` creates: the first
   * declaration's name, or 0 when a transition comes first; none if the text
   * creates no state.
   */
  function FirstCreated(code: string, c: nat): Option<nat>
    decreases |code| - c
  {
    if c >= |code| then None
    else if code[c] != '.' && code[c] != '-' then FirstCreated(code, c + 1)
    else if code[c] == '.' then
      if c == |code| - 1 then None
      else
        var p := if code[c + 1] == '.' then c + 2 else c + 1;
        match Scan(code[p..], '.')
        case None => None
        case Some(name) => Some(name.value)
    else Some(0)
  }

  /** The first step from an empty table that is not inert creates the first state, if it creates any. */
  lemma FirstStepFromEmpty(code: string, c: nat)
    requires c < |code| && (code[c] == '.' || code[c] == '-')
    ensures BuildStep(code, c, None, Empty).table.start == FirstCreated(code, c)
    ensures BuildStep(code, c, None, Empty).Next? ==> FirstCreated(code, c).Some?
  {
  }

  /**
   * Building from scratch: the start is the first state created, whether by
   * a declaration or by the implicit state 0, and there is a start exactly
   * when some state was created.
   */
  lemma {:induction false} ParseStartIsFirstCreated(code: string, c: nat)
    ensures Parse(code, c, None, Empty).start == FirstCreated(code, c)
    ensures Parse(code, c, None, Empty).states == map[] <==> FirstCreated(code, c).None?
    decreases |code| - c
  {
    ParseWf(code, c, None, Empty);
    if c < |code| {
      if code[c] != '.' && code[c] != '-' {
        ParseStartIsFirstCreated(code, c + 1);
      } else {
        FirstStepFromEmpty(code, c);
        StepInv(code, c, None, Empty);
        match BuildStep(code, c, None, Empty)
        case Stop(_) =>
        case Next(c', cur', t') => ParseKeepsStart(code, c', cur', t');
      }
    }
  }

  /** A builder step never deletes a state. */
  lemma StepKeepsNames(code: string, c: nat, cur: Option<nat>, t: Dfa)
    requires c < |code| && (cur.Some? ==> cur.value in t.states)
    ensures t.states.Keys <= BuildStep(code, c, cur, t).table.states.Keys
  {
  }

  /** States are never deleted: every name in the table stays in it. */
  lemma {:induction false} ParseKeepsNames(code: string, c: nat, cur: Option<nat>, t: Dfa)
    requires cur.Some? ==> cur.value in t.states
    ensures t.states.Keys <= Parse(code, c, cur, t).states.Keys
    decreases |code| - c
  {
    if c < |code| {
      StepKeepsNames(code, c, cur, t);
      match BuildStep(code, c, cur, t)
      case Stop(_) =>
      case Next(c', cur', t') => ParseKeepsNames(code, c', cur', t');
    }
  }

  /** The implicit state 0 is kept even when the transition after it cannot be scanned. */
  lemma ImplicitZeroSurvivesFailedScan(code: string, c: nat, t: Dfa)
    requires c < |code| && code[c] == '-' && '-' !in code[c + 1..]
    ensures Parse(code, c, None, t) == ImplicitZero(t)
  {
    ScanSpec(code[c + 1..], '-');
  }

  /**
   * A declaration, `.name` or `..name`, whose name is never closed by a `.`
   * stops the build and keeps the table; so does a `.` as the last character.
   */
  lemma UnclosedDeclarationStops(code: string, c: nat, cur: Option<nat>, t: Dfa)
    requires cur.Some? ==> cur.value in t.states
    requires c < |code| && code[c] == '.'
    requires c == |code| - 1 || '.' !in code[(if code[c + 1] == '.' then c + 2 else c + 1)..]
    ensures Parse(code, c, cur, t) == t
  {
    if c < |code| - 1 {
      var p := if code[c + 1] == '.' then c + 2 else c + 1;
      ScanSpec(code[p..], '.');
    }
  }
}
