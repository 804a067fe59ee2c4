/**
 The driver's control channel: reset, define a transition, mark a state
 accepting or non-accepting, and the ioctl dispatch that selects one of them
 by request code.
 */
module Control {
  import opened Bytes
  import opened Automaton

  /** Request codes of the four control commands, as the device's users
      encode them (`_IO`/`_IOW` numbers with group 'a'). */
  const DfaIocReset: nat := 0x20006101
  const DfaIocAdd: nat := 0x80036102
  const DfaIocAccept: nat := 0x80016103
  const DfaIocReject: nat := 0x80016104

  /** What a control request returns. `CopyError` stands for the failure the
      kernel's copy of the request argument reports; `NotTty` is ENOTTY. */
  datatype Status = Ok | CopyError | NotTty

  /** Restarts evaluation: the current state becomes 0. */
  function Reset(d: Dfa): (r: Dfa)
    ensures r.current == 0
    ensures r.table == d.table && r.accepting == d.accepting
  {
    d.(current := 0)
  }

  /** Defines the transition `p --a--> q`, then resets. Exactly one table cell
      changes; the flags are untouched; the current state is 0 afterwards,
      whatever it was before. */
  function AddTransition(d: Dfa, p: Byte, a: Byte, q: Byte): (r: Dfa)
    ensures r.table[p][a] == q
    ensures forall p', a' :: 0 <= p' < MaxStates && 0 <= a' < MaxStates && (p' != p || a' != a) ==>
              r.table[p'][a'] == d.table[p'][a']
    ensures r.accepting == d.accepting
    ensures r.current == 0
  {
    Reset(d.(table := d.table[p := d.table[p][a := q]]))
  }

  /** Marks state `p` accepting; nothing else changes. */
  function MarkAccepting(d: Dfa, p: Byte): (r: Dfa)
    ensures r.accepting[p]
    ensures forall p' :: 0 <= p' < MaxStates && p' != p ==> r.accepting[p'] == d.accepting[p']
    ensures r.table == d.table && r.current == d.current
  {
    d.(accepting := d.accepting[p := true])
  }

  /** Marks state `p` non-accepting; nothing else changes. */
  function MarkRejecting(d: Dfa, p: Byte): (r: Dfa)
    ensures !r.accepting[p]
    ensures forall p' :: 0 <= p' < MaxStates && p' != p ==> r.accepting[p'] == d.accepting[p']
    ensures r.table == d.table && r.current == d.current
  {
    d.(accepting := d.accepting[p := false])
  }

  /** Reset is idempotent and forgets where the automaton was. */
  lemma ResetIdempotent(d: Dfa, e: Dfa)
    requires d.table == e.table && d.accepting == e.accepting
    ensures Reset(Reset(d)) == Reset(d)
    ensures Reset(d) == Reset(e)
  {
  }

  /** Defining the same cell twice keeps the later target; defining two
      different cells can be done in either order. */
  lemma AddTransitionOverwrite(d: Dfa, p: Byte, a: Byte, q1: Byte, q2: Byte)
    ensures AddTransition(AddTransition(d, p, a, q1), p, a, q2) == AddTransition(d, p, a, q2)
  {
    assert d.table[p][a := q1][a := q2] == d.table[p][a := q2];
  }

  lemma AddTransitionCommute(d: Dfa, p1: Byte, a1: Byte, q1: Byte, p2: Byte, a2: Byte, q2: Byte)
    requires p1 != p2 || a1 != a2
    ensures AddTransition(AddTransition(d, p1, a1, q1), p2, a2, q2)
         == AddTransition(AddTransition(d, p2, a2, q2), p1, a1, q1)
  {
    var l := AddTransition(AddTransition(d, p1, a1, q1), p2, a2, q2).table;
    var r := AddTransition(AddTransition(d, p2, a2, q2), p1, a1, q1).table;
    forall p | 0 <= p < MaxStates
      ensures l[p] == r[p]
    {
      assert |l[p]| == |r[p]|;
      forall a | 0 <= a < MaxStates
        ensures l[p][a] == r[p][a]
      {
      }
    }
  }

  /** The flags are last-writer-wins: accept then reject leaves `p`
      non-accepting, reject then accept leaves it accepting. */
  lemma MarkLastWins(d: Dfa, p: Byte)
    ensures MarkRejecting(MarkAccepting(d, p), p) == MarkRejecting(d, p)
    ensures MarkAccepting(MarkRejecting(d, p), p) == MarkAccepting(d, p)
    ensures !MarkRejecting(MarkAccepting(d, p), p).accepting[p]
    ensures MarkAccepting(MarkRejecting(d, p), p).accepting[p]
  {
  }

  /** The driver's ioctl handler. `arg` is the request argument as copied from
      the caller; a command that needs more bytes than were delivered fails
      as the copy would, without touching the state. */
  function Ioctl(d: Dfa, request: nat, arg: seq<SignedChar>): (r: (Dfa, Status))
    ensures r.1 == NotTty <==> request !in {DfaIocReset, DfaIocAdd, DfaIocAccept, DfaIocReject}
    ensures r.1 != Ok ==> r.0 == d
    ensures r.1 == CopyError <==>
              || (request == DfaIocAdd && |arg| < 3)
              || (request in {DfaIocAccept, DfaIocReject} && |arg| < 1)
  {
    if request == DfaIocReset then
      (Reset(d), Ok)
    else if request == DfaIocAdd then
      if |arg| < 3 then (d, CopyError)
      else (AddTransition(d, Normalize(arg[0]), Normalize(arg[1]), Normalize(arg[2])), Ok)
    else if request == DfaIocAccept then
      if |arg| < 1 then (d, CopyError)
      else (MarkAccepting(d, Normalize(arg[0])), Ok)
    else if request == DfaIocReject then
      if |arg| < 1 then (d, CopyError)
      else (MarkRejecting(d, Normalize(arg[0])), Ok)
    else
      (d, NotTty)
  }

  /** Each recognised request code runs exactly its own command on the
      normalised argument bytes. */
  lemma IoctlDispatch(d: Dfa, arg: seq<SignedChar>)
    ensures Ioctl(d, DfaIocReset, arg) == (Reset(d), Ok)
    ensures |arg| >= 3 ==>
              var (p, a, q) := (Normalize(arg[0]), Normalize(arg[1]), Normalize(arg[2]));
              Ioctl(d, DfaIocAdd, arg) == (AddTransition(d, p, a, q), Ok)
    ensures |arg| >= 1 ==> Ioctl(d, DfaIocAccept, arg) == (MarkAccepting(d, Normalize(arg[0])), Ok)
    ensures |arg| >= 1 ==> Ioctl(d, DfaIocReject, arg) == (MarkRejecting(d, Normalize(arg[0])), Ok)
  {
  }

  /** A signed argument byte and its unsigned reading name the same cell:
      adding (-1, -1, -1) defines the transition 255 --255--> 255. */
  lemma IoctlAddNegativeBytes(d: Dfa)
    ensures Ioctl(d, DfaIocAdd, [-1, -1, -1]).0 == AddTransition(d, 255, 255, 255)
  {
  }

  /** After defining `0 --a--> q` the automaton is in state 0, so writing
      the byte `a` next lands exactly in state `q`, for every target byte,
      including those from 128 up. */
  lemma DefinedTransitionTaken(d: Dfa, a: Byte, q: Byte)
    ensures Write(AddTransition(d, 0, a, q), [ToSigned(a)]).0.current == q
  {
    var e := AddTransition(d, 0, a, q);
    WriteOne(e, ToSigned(a));
    NormalizeToSigned(a);
  }
}
