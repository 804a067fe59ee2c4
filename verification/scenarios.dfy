/**
 The scenarios the driver's test harness drives through the device, stated
 over the model: clearing the whole automaton with control commands, building
 the two-state automaton that accepts inputs of odd length, and checking its
 answers across many writes, very long writes and a live update.
 */
module Scenarios {
  import opened Bytes
  import opened Automaton
  import opened Control
  import opened Snapshot

  /** Row `row` with its first `n` cells replaced by `q`. */
  function FilledRow(row: Row, q: Byte, n: nat): (r: Row)
    requires n <= MaxStates
    ensures forall a :: 0 <= a < MaxStates ==> r[a] == if a < n then q else row[a]
  {
    seq(MaxStates, a requires 0 <= a < MaxStates => if a < n then q else row[a])
  }

  /** Table `t` with its first `k` rows sent to state 0. */
  function ClearedTable(t: Table, k: nat): (r: Table)
    requires k <= MaxStates
    ensures forall p :: 0 <= p < MaxStates ==> r[p] == if p < k then ZeroRow() else t[p]
  {
    var zero: Row := ZeroRow();
    seq(MaxStates, p requires 0 <= p < MaxStates => if p < k then zero else t[p])
  }

  /** Flags `f` with its first `k` flags cleared. */
  function ClearedFlags(f: Flags, k: nat): (r: Flags)
    requires k <= MaxStates
    ensures forall p :: 0 <= p < MaxStates ==> r[p] == (p >= k && f[p])
  {
    seq(MaxStates, p requires 0 <= p < MaxStates => p >= k && f[p])
  }

  /** Defines `p --a--> q` for every symbol `a < n`, in increasing order. */
  function FillRow(d: Dfa, p: Byte, q: Byte, n: nat): Dfa
    requires n <= MaxStates
    decreases n
  {
    if n == 0 then d else AddTransition(FillRow(d, p, q, n - 1), p, n - 1, q)
  }

  /** Filling row `p` sets its first `n` cells to `q` and changes nothing
      else in the table or the flags; any definition resets the automaton. */
  lemma {:induction false} FillRowEffect(d: Dfa, p: Byte, q: Byte, n: nat)
    requires n <= MaxStates
    ensures FillRow(d, p, q, n).table == d.table[p := FilledRow(d.table[p], q, n)]
    ensures FillRow(d, p, q, n).accepting == d.accepting
    ensures FillRow(d, p, q, n).current == if n == 0 then d.current else 0
    decreases n
  {
    if n == 0 {
      assert FilledRow(d.table[p], q, 0) == d.table[p];
    } else {
      FillRowEffect(d, p, q, n - 1);
      assert FilledRow(d.table[p], q, n - 1)[n - 1 := q] == FilledRow(d.table[p], q, n);
    }
  }

  /** For every state `p < k` in increasing order: mark it non-accepting,
      then send each of its symbols to state 0. */
  function ClearRows(d: Dfa, k: nat): Dfa
    requires k <= MaxStates
    decreases k
  {
    if k == 0 then d else FillRow(MarkRejecting(ClearRows(d, k - 1), k - 1), k - 1, 0, MaxStates)
  }

  /** Clearing the first `k` states zeroes their rows and clears their flags,
      leaving the other states as they were. */
  lemma {:induction false} ClearRowsEffect(d: Dfa, k: nat)
    requires k <= MaxStates
    ensures ClearRows(d, k).table == ClearedTable(d.table, k)
    ensures ClearRows(d, k).accepting == ClearedFlags(d.accepting, k)
    ensures ClearRows(d, k).current == if k == 0 then d.current else 0
    decreases k
  {
    if k == 0 {
      assert ClearedTable(d.table, 0) == d.table;
      assert ClearedFlags(d.accepting, 0) == d.accepting;
    } else {
      ClearRowsEffect(d, k - 1);
      var e := MarkRejecting(ClearRows(d, k - 1), k - 1);
      FillRowEffect(e, k - 1, 0, MaxStates);
      ClearOneMoreRow(d, k, e.table[k - 1]);
      ClearOneMoreFlag(d.accepting, k);
    }
  }

  lemma ClearOneMoreRow(d: Dfa, k: nat, row: Row)
    requires 0 < k <= MaxStates
    ensures ClearedTable(d.table, k - 1)[k - 1 := FilledRow(row, 0, MaxStates)] == ClearedTable(d.table, k)
  {
    assert FilledRow(row, 0, MaxStates) == ZeroRow();
  }

  lemma ClearOneMoreFlag(f: Flags, k: nat)
    requires 0 < k <= MaxStates
    ensures ClearedFlags(f, k - 1)[k - 1 := false] == ClearedFlags(f, k)
  {
  }

  /** Clearing every state with control commands, from any state whatever,
      gives exactly the state of a freshly initialised driver. */
  lemma ClearAllIsZeroed(d: Dfa)
    ensures ClearRows(d, MaxStates) == Zeroed()
  {
    ClearRowsEffect(d, MaxStates);
    assert ClearedTable(d.table, MaxStates) == ZeroRows();
    assert ClearedFlags(d.accepting, MaxStates) == NoFlags();
  }

  /** The harness's device reset: every state marked non-accepting and its
      row sent to state 0 by control commands, which from any state whatever
      leaves the driver as freshly initialised. */
  function ResetDevice(d: Dfa): (r: Dfa)
    ensures r == Zeroed()
  {
    ClearAllIsZeroed(d);
    ClearRows(d, MaxStates)
  }

  /** The two-state automaton the harness builds: state 0 goes to state 1 on
      every symbol, every other state goes to 0, and only state 1 accepts. */
  ghost predicate IsOddLengthDfa(d: Dfa)
  {
    && (forall a :: 0 <= a < MaxStates ==> d.table[0][a] == 1)
    && (forall p, a :: 1 <= p < MaxStates && 0 <= a < MaxStates ==> d.table[p][a] == 0)
    && (forall p :: 0 <= p < MaxStates ==> (d.accepting[p] <==> p == 1))
  }

  /** Clearing, resetting and filling row 0 with 1 leaves the table with
      row 0 all 1 and every other row all 0, and no state accepting. */
  lemma FillAfterClear(d: Dfa)
    ensures var f := FillRow(Reset(ResetDevice(d)), 0, 1, MaxStates);
            && f.table == ZeroRows()[0 := FilledRow(ZeroRow(), 1, MaxStates)]
            && f.accepting == NoFlags()
            && f.current == 0
  {
    var z := Reset(ResetDevice(d));
    FillRowEffect(z, 0, 1, MaxStates);
  }

  /** Clear the device, reset, define `0 --a--> 1` for every symbol and mark
      state 1 accepting. */
  function OddLengthSetup(d: Dfa): (r: Dfa)
    ensures IsOddLengthDfa(r)
    ensures r.current == 0
  {
    FillAfterClear(d);
    MarkAccepting(FillRow(Reset(ResetDevice(d)), 0, 1, MaxStates), 1)
  }

  /** In the odd-length automaton, from state 0 or 1, the state after `xs`
      is the parity of the start state plus the length of `xs`. */
  lemma {:induction false} RunParity(d: Dfa, c: Byte, xs: seq<Byte>)
    requires IsOddLengthDfa(d)
    requires c <= 1
    ensures Run(d.table, c, xs) == (c + |xs|) % 2
    decreases |xs|
  {
    if xs != [] {
      var c' := d.table[c][xs[0]];
      assert c' == 1 - c;
      RunParity(d, c', xs[1..]);
    }
  }

  /** In the odd-length automaton started from state 0, whatever has been
      written, a read answers 'Y' on every byte exactly when the number of
      bytes written is odd, and 'N' on every byte otherwise. */
  lemma OddLengthAnswer(s: Dfa, input: seq<SignedChar>, size: nat)
    requires IsOddLengthDfa(s) && s.current == 0
    ensures (Write(s, input).0.current == 1) == (|input| % 2 == 1)
    ensures Read(Write(s, input).0, size) == seq(size, _ => if |input| % 2 == 1 then Accept else Reject)
  {
    RunParity(s, 0, NormalizeAll(input));
  }

  /** A sequence of writes, one buffer after another. */
  function WriteAll(d: Dfa, chunks: seq<seq<SignedChar>>): Dfa
    decreases |chunks|
  {
    if chunks == [] then d else WriteAll(Write(d, chunks[0]).0, chunks[1..])
  }

  /** All the buffers, concatenated in order. */
  function Concat(chunks: seq<seq<SignedChar>>): (all: seq<SignedChar>)
    decreases |chunks|
  {
    if chunks == [] then [] else chunks[0] + Concat(chunks[1..])
  }

  /** Many writes have the effect of one write of their concatenation. */
  lemma {:induction false} WriteAllIsOneWrite(d: Dfa, chunks: seq<seq<SignedChar>>)
    ensures WriteAll(d, chunks) == Write(d, Concat(chunks)).0
    decreases |chunks|
  {
    if chunks == [] {
      WriteOne(d, 0);
    } else {
      WriteAllIsOneWrite(Write(d, chunks[0]).0, chunks[1..]);
      WriteAppend(d, chunks[0], Concat(chunks[1..]));
    }
  }

  /** The harness's randomised run: after the setup and any number of
      writes of any lengths, a read answers by the parity of the total length
      written. */
  lemma AcceptOddLength(d: Dfa, chunks: seq<seq<SignedChar>>, size: nat)
    ensures Read(WriteAll(OddLengthSetup(d), chunks), size)
         == seq(size, _ => if |Concat(chunks)| % 2 == 1 then Accept else Reject)
  {
    var s := OddLengthSetup(d);
    WriteAllIsOneWrite(s, chunks);
    OddLengthAnswer(s, Concat(chunks), size);
  }

  /** The harness's long writes: an odd-length write makes every byte of a
      read 'Y', and a second odd-length write makes every byte 'N'. */
  lemma LongWrites(d: Dfa, xs: seq<SignedChar>, ys: seq<SignedChar>, size: nat)
    requires |xs| % 2 == 1 && |ys| % 2 == 1
    ensures var s1 := Write(OddLengthSetup(d), xs).0;
            && Read(s1, size) == seq(size, _ => Accept)
            && Read(Write(s1, ys).0, size) == seq(size, _ => Reject)
  {
    OddWritesAlternate(OddLengthSetup(d), xs, ys, size);
  }

  /** From state 0 of any odd-length automaton, an odd-length write answers
      'Y' and a further odd-length write answers 'N'. */
  lemma OddWritesAlternate(s: Dfa, xs: seq<SignedChar>, ys: seq<SignedChar>, size: nat)
    requires IsOddLengthDfa(s) && s.current == 0
    requires |xs| % 2 == 1 && |ys| % 2 == 1
    ensures Read(Write(s, xs).0, size) == seq(size, _ => Accept)
    ensures Read(Write(Write(s, xs).0, ys).0, size) == seq(size, _ => Reject)
  {
    OddLengthAnswer(s, xs, size);
    WriteAppend(s, xs, ys);
    OddLengthAnswer(s, xs + ys, size);
  }

  /** One byte written to the freshly set-up odd-length automaton flips its
      answer from 'N' to 'Y', and a second byte flips it back. */
  lemma OneByteFlips(s0: Dfa, x: SignedChar)
    requires IsOddLengthDfa(s0) && s0.current == 0
    ensures Read(s0, 1) == [Reject]
    ensures Read(Write(s0, [x]).0, 1) == [Accept]
    ensures Read(Write(Write(s0, [x]).0, [x]).0, 1) == [Reject]
  {
    OddLengthAnswer(s0, [], 1);
    OddLengthAnswer(s0, [x], 1);
    WriteAppend(s0, [x], [x]);
    OddLengthAnswer(s0, [x] + [x], 1);
  }

  /** The harness's live-update run: the setup answers 'N', one written byte
      makes it answer 'Y', the new instance after a live update still answers
      'Y', and one more byte makes it answer 'N'. */
  lemma PreserveAfterUpdate(d: Dfa, ds: DataStore, x: SignedChar)
    ensures var s0 := OddLengthSetup(d);
            var s1 := Write(s0, [x]).0;
            var s2 := Init(LiveUpdate, Save(s1, ds)).0;
            && Read(s0, 1) == [Reject]
            && Read(s1, 1) == [Accept]
            && Read(s2, 1) == [Accept]
            && Read(Write(s2, [x]).0, 1) == [Reject]
  {
    var s0 := OddLengthSetup(d);
    OneByteFlips(s0, x);
    SaveRestoreRoundTrip(Write(s0, [x]).0, ds);
  }

  /** Defining 0 --'a'--> 1 and 1 --'b'--> 2 on a fresh driver and marking 2
      accepting: "ab" reaches state 2 and reads answer 'Y'; one more 'a' falls
      back to the default target 0 and reads answer 'N'. */
  lemma TwoTransitionExample()
    ensures var s := MarkAccepting(AddTransition(AddTransition(Zeroed(), 0, 97, 1), 1, 98, 2), 2);
            var s1 := Write(s, [97, 98]).0;
            && s1.current == 2
            && Read(s1, 3) == [Accept, Accept, Accept]
            && Read(Write(s1, [97]).0, 1) == [Reject]
  {
    var s := MarkAccepting(AddTransition(AddTransition(Zeroed(), 0, 97, 1), 1, 98, 2), 2);
    WriteAppend(s, [97], [98]);
    WriteOne(s, 97);
    var s0 := Write(s, [97]).0;
    WriteOne(s0, 98);
    assert [97] + [98] == [97, 98];
    WriteOne(Write(s, [97, 98]).0, 97);
  }
}
