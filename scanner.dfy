/**
 * The binary-token scanner `read_binary` of DFA-er.py, shared by the builder
 * and the walker, together with the binary numerals it reads and the
 * `bin(...)` spelling the walker produces when it splices input.
 */
module Scanner {
  import opened Wrappers

  /** A decoded token: its value and how many characters it consumed, the stop character included. */
  datatype Token = Token(value: nat, consumed: nat)

  predicate IsBit(ch: char) {
    ch == '0' || ch == '1'
  }

  /** The `0`/`1` characters of `s`, in order; every other character is noise. */
  function Bits(s: string): (r: string)
    ensures |r| <= |s|
    ensures forall i :: 0 <= i < |r| ==> IsBit(r[i])
  {
    if s == [] then [] else (if IsBit(s[0]) then [s[0]] else []) + Bits(s[1..])
  }

  /** The unsigned value of a bit string, most significant bit first; the empty string is 0. */
  function BinValue(b: string): nat {
    if b == [] then 0 else 2 * BinValue(b[..|b| - 1]) + (if b[|b| - 1] == '1' then 1 else 0)
  }

  /** The position of the first occurrence of `ch` in `s`. */
  function FirstIndex(s: string, ch: char): (i: nat)
    requires ch in s
    ensures i < |s| && s[i] == ch && ch !in s[..i]
  {
    if s[0] == ch then 0 else 1 + FirstIndex(s[1..], ch)
  }

  /** The first occurrence is the one with no earlier occurrence. */
  lemma {:induction false} FirstIndexAt(s: string, ch: char, k: nat)
    requires k < |s| && s[k] == ch && ch !in s[..k]
    ensures ch in s && FirstIndex(s, ch) == k
  {
    assert k > 0 ==> s[..k][0] == s[0];
    if s[0] != ch {
      assert s[1..][..k - 1] == s[..k][1..];
      FirstIndexAt(s[1..], ch, k - 1);
    }
  }

  /**
   * `read_binary`'s loop from position `c` with the bits collected so far:
   * a `0`/`1` is collected, the first `stop` ends the scan right after it,
   * and running off the end fails.
   */
  function ScanFrom(s: string, stop: char, c: nat, bits: string): (r: Option<Token>)
    requires c <= |s|
    ensures r.Some? ==> c < r.value.consumed <= |s|
    decreases |s| - c
  {
    if c == |s| then None
    else
      var bits' := if IsBit(s[c]) then bits + [s[c]] else bits;
      if s[c] == stop then Some(Token(BinValue(bits'), c + 1)) else ScanFrom(s, stop, c + 1, bits')
  }

  /** What `read_binary(s, stop)` computes; `ScanSpec` says what that is. */
  function Scan(s: string, stop: char): (r: Option<Token>)
    ensures r.Some? ==> 1 <= r.value.consumed <= |s|
  {
    ScanFrom(s, stop, 0, [])
  }

  lemma {:induction false} ScanFromSpec(s: string, stop: char, c: nat, bits: string)
    requires c <= |s| && stop !in s[..c] && bits == Bits(s[..c])
    ensures ScanFrom(s, stop, c, bits).None? <==> stop !in s
    ensures ScanFrom(s, stop, c, bits).Some? ==>
      var k := ScanFrom(s, stop, c, bits).value.consumed;
      && s[k - 1] == stop && stop !in s[..k - 1]
      && ScanFrom(s, stop, c, bits).value.value == BinValue(Bits(s[..k]))
    decreases |s| - c
  {
    if c == |s| {
      assert s[..c] == s;
    } else {
      BitsStep(s, c);
      var bits' := if IsBit(s[c]) then bits + [s[c]] else bits;
      assert bits' == Bits(s[..c + 1]);
      if s[c] != stop {
        assert s[..c + 1] == s[..c] + [s[c]];
        ScanFromSpec(s, stop, c + 1, bits');
      } else {
        assert ScanFrom(s, stop, c, bits) == Some(Token(BinValue(bits'), c + 1));
      }
    }
  }

  /**
   * The scan fails exactly when `stop` does not occur in `s`, whatever else
   * `s` holds; otherwise it consumes everything up to and including the
   * first `stop`, and the value is that of the bits seen on the way (0 if
   * there were none).
   */
  lemma ScanSpec(s: string, stop: char)
    ensures Scan(s, stop).None? <==> stop !in s
    ensures Scan(s, stop).Some? ==>
      var k := Scan(s, stop).value.consumed;
      && 1 <= k <= |s| && s[k - 1] == stop && stop !in s[..k - 1]
      && Scan(s, stop).value.value == BinValue(Bits(s[..k]))
  {
    assert s[..0] == [];
    ScanFromSpec(s, stop, 0, []);
  }

  /** Two positions of `ch`, each with no `ch` before it, are the same. */
  lemma FirstOccurrenceUnique(s: string, ch: char, i: nat, j: nat)
    requires i < |s| && j < |s|
    requires s[i] == ch && ch !in s[..i]
    requires s[j] == ch && ch !in s[..j]
    ensures i == j
  {
    FirstIndexAt(s, ch, i);
    FirstIndexAt(s, ch, j);
  }

  lemma {:induction false} BitsAppend(a: string, b: string)
    ensures Bits(a + b) == Bits(a) + Bits(b)
  {
    if a == [] {
      assert a + b == b;
    } else {
      assert (a + b)[1..] == a[1..] + b;
      BitsAppend(a[1..], b);
    }
  }

  lemma {:induction false} BitsOfBitString(b: string)
    requires forall i :: 0 <= i < |b| ==> IsBit(b[i])
    ensures Bits(b) == b
  {
    if b != [] {
      BitsOfBitString(b[1..]);
    }
  }

  /** A leading zero does not change the value of a bit string. */
  lemma {:induction false} BinValueLeadingZero(b: string)
    ensures BinValue(['0'] + b) == BinValue(b)
  {
    if b != [] {
      var z := ['0'] + b;
      assert z[..|z| - 1] == ['0'] + b[..|b| - 1];
      BinValueLeadingZero(b[..|b| - 1]);
    }
  }

  /**
   * The scanner's loop: collects `0`/`1` characters, skips everything else and
   * stops right after the first `stop`. The source returns a bare -1 on
   * failure; here failure is `None`.
   */
  method ReadBinary(s: string, stop: char) returns (r: Option<Token>)
    ensures r == Scan(s, stop)
  {
    var c := 0;
    var bits: string := [];
    while true
      invariant 0 <= c <= |s|
      invariant ScanFrom(s, stop, c, bits) == Scan(s, stop)
      decreases |s| - c
    {
      if c == |s| {
        return None;
      }
      if s[c] == '0' || s[c] == '1' {
        bits := bits + [s[c]];
      }
      if s[c] == stop {
        c := c + 1;
        break;
      }
      c := c + 1;
    }
    var value := if |bits| > 0 then BinValue(bits) else 0;
    r := Some(Token(value, c));
  }

  lemma BitsStep(s: string, c: nat)
    requires c < |s|
    ensures Bits(s[..c + 1]) == Bits(s[..c]) + (if IsBit(s[c]) then [s[c]] else [])
  {
    assert s[..c + 1] == s[..c] + [s[c]];
    BitsAppend(s[..c], [s[c]]);
    assert [s[c]][1..] == [];
  }

  /** A token whose body holds no stop character is read up to the stop that ends it. */
  lemma ScanPrefix(p: string, stop: char, rest: string)
    requires stop !in p
    ensures Scan(p + [stop] + rest, stop) == Some(Token(BinValue(Bits(p + [stop])), |p| + 1))
  {
    var s := p + [stop] + rest;
    assert s[..|p|] == p;
    assert s[|p|] == stop;
    ScanSpec(s, stop);
    var k := Scan(s, stop).value.consumed;
    FirstOccurrenceUnique(s, stop, k - 1, |p|);
    assert s[..|p| + 1] == p + [stop];
  }

  /**
   * A bit string followed by a stop character that is not itself a bit scans
   * to the string's value, consuming the bits and the stop.
   */
  lemma ScanBitString(b: string, stop: char, rest: string)
    requires forall i :: 0 <= i < |b| ==> IsBit(b[i])
    requires !IsBit(stop)
    ensures Scan(b + [stop] + rest, stop) == Some(Token(BinValue(b), |b| + 1))
  {
    forall k | 0 <= k < |b|
      ensures b[k] != stop
    {
      assert IsBit(b[k]);
    }
    ScanPrefix(b, stop, rest);
    BitsAppend(b, [stop]);
    assert [stop][1..] == [];
    assert Bits([stop]) == [];
    BitsOfBitString(b);
    assert Bits(b + [stop]) == b;
  }

  /** The binary digits of `n` as Python's `bin` writes them after its `0b` prefix. */
  function BinDigits(n: nat): (r: string)
    ensures |r| >= 1 && forall i :: 0 <= i < |r| ==> IsBit(r[i])
    ensures BinValue(r) == n
    ensures n > 0 ==> r[0] == '1'
    ensures n == 0 ==> r == "0"
  {
    if n < 2 then
      (if n == 1 then "1" else "0")
    else
      var r := BinDigits(n / 2) + [if n % 2 == 1 then '1' else '0'];
      assert r[..|r| - 1] == BinDigits(n / 2);
      r
  }

  /** Python's `bin(n)` for a non-negative `n`: `0b` followed by the binary digits. */
  function Bin(n: nat): (r: string)
    ensures '.' !in r && '-' !in r
  {
    "0b" + BinDigits(n)
  }

  /**
   * Reading `bin(n)` back with the scanner gives `n`: the `b` of the prefix is
   * noise and its `0` is a leading zero.
   */
  lemma BinRoundTrip(n: nat)
    ensures BinValue(Bits(Bin(n) + ".")) == n
  {
    var d := BinDigits(n);
    assert Bin(n) + "." == "0b" + (d + ".");
    assert Bits("0b") == "0" by {
      assert "0b"[1..] == "b";
      assert "b"[1..] == "";
    }
    assert Bits(".") == "" by {
      assert "."[1..] == "";
    }
    BitsAppend("0b", d + ".");
    BitsAppend(d, ".");
    BitsOfBitString(d);
    assert Bits(Bin(n) + ".") == ['0'] + d;
    BinValueLeadingZero(d);
  }

  // read_binary as written in the source returns the integer -1 on failure,
  // yet every caller unpacks its result into two names
  // (`name, offset = read_binary(...)`). Unpacking an int raises a TypeError,
  // so the `== -1` tests that follow those calls can never run. The members
  // below record that; the rest of the model follows the evident intent (the
  // explicit tests and the doc-comment of read_binary): a failed scan is
  // `None`, and the caller stops.

  /** The value `read_binary` returns as written: the integer -1, or a pair. */
  datatype PyReturn = MinusOne | Pair(first: nat, second: nat)

  /** Outcome of the assignment `x, y = v` in the source. */
  datatype Unpacked = TypeError | Unpacked(x: int, y: int)

  /**
   * As written, the scanner returns -1 exactly when `stop` is missing, and
   * otherwise the pair of the value of the bits before the first `stop` and
   * the offset just after it.
   */
  function ReadBinaryAsWritten(s: string, stop: char): (r: PyReturn)
    ensures r.MinusOne? <==> stop !in s
    ensures r.Pair? ==>
      && 1 <= r.second <= |s| && s[r.second - 1] == stop && stop !in s[..r.second - 1]
      && r.first == BinValue(Bits(s[..r.second]))
  {
    ScanSpec(s, stop);
    match Scan(s, stop)
    case None => MinusOne
    case Some(t) => Pair(t.value, t.consumed)
  }

  function UnpackAsWritten(v: PyReturn): (u: Unpacked)
    ensures u.TypeError? <==> v.MinusOne?
  {
    match v
    case MinusOne => TypeError
    case Pair(a, b) => Unpacked(a, b)
  }

  /**
   * As written, a failed scan raises a TypeError at the unpacking, and an
   * unpacked name is never -1, so the callers' failure tests are dead code.
   */
  lemma SentinelTestIsDead(s: string, stop: char)
    ensures UnpackAsWritten(ReadBinaryAsWritten(s, stop)).TypeError? <==> stop !in s
    ensures UnpackAsWritten(ReadBinaryAsWritten(s, stop)).Unpacked? ==>
              UnpackAsWritten(ReadBinaryAsWritten(s, stop)).x != -1
  {
    ScanSpec(s, stop);
  }

  /** The state declaration `.0` with no closing `.` crashes as written instead of stopping. */
  lemma SentinelCounterexample()
    ensures UnpackAsWritten(ReadBinaryAsWritten("0", '.')) == TypeError
    ensures Scan("0", '.') == None
  {
    assert '.' !in "0";
  }
}
