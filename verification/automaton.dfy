/**
 The state store of the DFA driver and its two data-path operations: writing
 symbols (a left fold of table lookups over the input) and reading the
 acceptance answer.
 */
module Automaton {
  import opened Bytes

  /** 256 zero bytes: a row whose every transition leads to state 0. */
  function ZeroRow(): (r: seq<Byte>)
    ensures |r| == MaxStates && forall a :: 0 <= a < |r| ==> r[a] == 0
  {
    seq(MaxStates, _ => 0)
  }

  /** 256 zero rows. */
  function ZeroRows(): (t: seq<seq<Byte>>)
    ensures |t| == MaxStates && forall p :: 0 <= p < |t| ==> t[p] == ZeroRow()
  {
    seq(MaxStates, _ => ZeroRow())
  }

  /** 256 cleared flags. */
  function NoFlags(): (f: seq<bool>)
    ensures |f| == MaxStates && forall p :: 0 <= p < |f| ==> !f[p]
  {
    seq(MaxStates, _ => false)
  }

  /** One row of the transition table: the next state for every symbol. */
  type Row = r: seq<Byte> | |r| == MaxStates witness ZeroRow()

  /** The 256 x 256 transition table, indexed `table[state][symbol]`. */
  type Table = t: seq<Row> | |t| == MaxStates witness ZeroRows()

  /** The per-state accepting flags. */
  type Flags = f: seq<bool> | |f| == MaxStates witness NoFlags()

  /** The whole driver state: transition table, accepting flags and the
      current-state register. */
  datatype Dfa = Dfa(table: Table, accepting: Flags, current: Byte)

  /** The byte `read` answers with when the current state is accepting. */
  const Accept: char := 'Y'
  /** The byte `read` answers with otherwise. */
  const Reject: char := 'N'

  /** The state after the driver's initialisation: every transition leads to
      state 0, no state accepts, and the current state is 0. */
  function Zeroed(): (d: Dfa)
    ensures forall p, a :: 0 <= p < MaxStates && 0 <= a < MaxStates ==> d.table[p][a] == 0
    ensures forall p :: 0 <= p < MaxStates ==> !d.accepting[p]
    ensures d.current == 0
  {
    Dfa(ZeroRows(), NoFlags(), 0)
  }

  /** The state reached from `c` by consuming `xs` in order, one table
      lookup per symbol. Nothing consumed leaves the state as it was; after a
      non-empty input the state is an entry of the table's column for the last
      symbol, whatever came before it. */
  function Run(t: Table, c: Byte, xs: seq<Byte>): (s: Byte)
    ensures xs == [] ==> s == c
    ensures xs != [] ==> exists p: Byte :: s == t[p][xs[|xs| - 1]]
    decreases |xs|
  {
    if xs == [] then c else Run(t, t[c][xs[0]], xs[1..])
  }

  /** A path of states that follows the table along `xs`, starting at `c`:
      an independent description of what a run visits. */
  ghost predicate IsPath(t: Table, c: Byte, xs: seq<Byte>, path: seq<Byte>)
  {
    && |path| == |xs| + 1
    && path[0] == c
    && forall i :: 0 <= i < |xs| ==> path[i + 1] == t[path[i]][xs[i]]
  }

  /** The states visited by a run, first to last. */
  function Trace(t: Table, c: Byte, xs: seq<Byte>): (path: seq<Byte>)
    ensures IsPath(t, c, xs, path)
    decreases |xs|
  {
    if xs == [] then [c] else [c] + Trace(t, t[c][xs[0]], xs[1..])
  }

  /** Running over `xs` ends in the last state of every path that follows the
      table along `xs`, and such a path always exists: the run is exactly the
      table lookups applied in input order. */
  lemma {:induction false} RunIsPathEnd(t: Table, c: Byte, xs: seq<Byte>, path: seq<Byte>)
    requires IsPath(t, c, xs, path)
    ensures Run(t, c, xs) == path[|xs|]
    decreases |xs|
  {
    if xs != [] {
      var tail := path[1..];
      assert IsPath(t, t[c][xs[0]], xs[1..], tail) by {
        forall i | 0 <= i < |xs[1..]|
          ensures tail[i + 1] == t[tail[i]][xs[1..][i]]
        {
          assert path[i + 2] == t[path[i + 1]][xs[i + 1]];
        }
      }
      RunIsPathEnd(t, t[c][xs[0]], xs[1..], tail);
    }
  }

  lemma RunIsTraceEnd(t: Table, c: Byte, xs: seq<Byte>)
    ensures Run(t, c, xs) == Trace(t, c, xs)[|xs|]
  {
    RunIsPathEnd(t, c, xs, Trace(t, c, xs));
  }

  /** Consuming `xs` and then `ys` is consuming `xs + ys`. */
  lemma {:induction false} RunAppend(t: Table, c: Byte, xs: seq<Byte>, ys: seq<Byte>)
    ensures Run(t, Run(t, c, xs), ys) == Run(t, c, xs + ys)
    decreases |xs|
  {
    if xs != [] {
      assert (xs + ys)[0] == xs[0];
      assert (xs + ys)[1..] == xs[1..] + ys;
      RunAppend(t, t[c][xs[0]], xs[1..], ys);
    } else {
      assert xs + ys == ys;
    }
  }

  /** Consuming one more symbol is one more lookup. */
  lemma RunSnoc(t: Table, c: Byte, xs: seq<Byte>, x: Byte)
    ensures Run(t, c, xs + [x]) == t[Run(t, c, xs)][x]
  {
    RunAppend(t, c, xs, [x]);
  }

  /** The driver's `write`: consumes every byte of the buffer in order, each
      normalised to an unsigned symbol, and reports the whole buffer consumed.
      The table and the flags are untouched. */
  function Write(d: Dfa, input: seq<SignedChar>): (r: (Dfa, nat))
    ensures r.1 == |input|
    ensures r.0.table == d.table && r.0.accepting == d.accepting
  {
    (d.(current := Run(d.table, d.current, NormalizeAll(input))), |input|)
  }

  /** Writing `xs` and then `ys` has the same effect as writing `xs + ys`. */
  lemma WriteAppend(d: Dfa, xs: seq<SignedChar>, ys: seq<SignedChar>)
    ensures Write(Write(d, xs).0, ys).0 == Write(d, xs + ys).0
  {
    NormalizeAllAppend(xs, ys);
    RunAppend(d.table, d.current, NormalizeAll(xs), NormalizeAll(ys));
  }

  /** Writing a single byte performs exactly one table lookup, with the byte
      read as an unsigned index; writing nothing changes nothing. */
  lemma WriteOne(d: Dfa, c: SignedChar)
    ensures Write(d, [c]).0.current == d.table[d.current][Normalize(c)]
    ensures Write(d, []).0 == d
  {
    var syms: seq<Byte> := [Normalize(c)];
    assert NormalizeAll([c]) == syms;
    assert Run(d.table, d.current, syms) == Run(d.table, d.table[d.current][syms[0]], []);
    assert NormalizeAll([]) == [];
  }

  /** The driver's write loop: the current-state register is updated once per
      byte of the buffer, in order, and the byte count is returned. */
  method WriteLoop(d: Dfa, buffer: seq<SignedChar>) returns (d': Dfa, count: nat)
    ensures d'.table == d.table && d'.accepting == d.accepting
    ensures d'.current == Run(d.table, d.current, NormalizeAll(buffer))
    ensures count == |buffer|
  {
    var syms := NormalizeAll(buffer);
    var current := d.current;
    var i := 0;
    while i < |buffer|
      invariant 0 <= i <= |buffer|
      invariant current == Run(d.table, d.current, syms[..i])
    {
      var input := buffer[i];
      var inputInRange := if input < 0 then MaxStates + input else input;
      assert syms[..i + 1] == syms[..i] + [syms[i]];
      RunSnoc(d.table, d.current, syms[..i], syms[i]);
      current := d.table[current][inputInRange];
      i := i + 1;
    }
    assert syms[..|buffer|] == syms;
    d' := d.(current := current);
    count := |buffer|;
  }

  /** The driver's `read`: `size` copies of the accept byte when the current
      state is accepting, of the reject byte otherwise. Reading returns data
      only; it has no state to change. */
  function Read(d: Dfa, size: nat): (out: seq<char>)
    ensures |out| == size
    ensures forall i :: 0 <= i < size ==> (out[i] == Accept <==> d.accepting[d.current])
    ensures forall i :: 0 <= i < size ==> out[i] == Accept || out[i] == Reject
  {
    var x := if d.accepting[d.current] then Accept else Reject;
    seq(size, _ => x)
  }

  /** Reads of different lengths agree byte for byte: the answer depends only
      on whether the current state accepts. */
  lemma ReadPrefix(d: Dfa, m: nat, n: nat)
    requires m <= n
    ensures Read(d, n)[..m] == Read(d, m)
    ensures Read(d, 0) == []
  {
  }
}
