/**
 The transition table exactly as the driver declares it: `char` cells, which
 are signed on the driver's target, read into an `int` current-state register
 without normalisation. Used only to exhibit what goes wrong with target
 states from 128 up; the rest of the model stores unsigned bytes.
 */
module AsWritten {
  import opened Bytes

  function CZeroRow(): (r: seq<SignedChar>)
    ensures |r| == MaxStates
  {
    seq(MaxStates, _ => 0)
  }

  function CZeroRows(): (t: seq<seq<SignedChar>>)
    ensures |t| == MaxStates && forall p :: 0 <= p < |t| ==> |t[p]| == MaxStates
  {
    seq(MaxStates, _ => CZeroRow())
  }

  type CRow = r: seq<SignedChar> | |r| == MaxStates witness CZeroRow()

  /** `char states[256][256]`. */
  type CTable = t: seq<CRow> | |t| == MaxStates witness CZeroRows()

  /** The outcome of one step of the write loop as written: the new value of
      the int register, or an access outside the table. */
  datatype Lookup = Defined(state: int) | OutOfBounds

  /** Defining a transition as written: the indices are normalised, and the
      normalised target, an int in [0, 255], is stored back into a signed
      char cell. */
  function CAdd(t: CTable, p: SignedChar, a: SignedChar, q: SignedChar): (r: CTable)
    ensures r[Normalize(p)][Normalize(a)] == q
  {
    ToSignedNormalize(q);
    t[Normalize(p) := t[Normalize(p)][Normalize(a) := ToSigned(Normalize(q))]]
  }

  /** One iteration of the write loop as written: the symbol is normalised,
      but the cell's char value becomes the register unchanged. A register
      outside [0, 255] indexes outside the table. */
  function CStep(t: CTable, current: int, x: SignedChar): (r: Lookup)
    ensures r.Defined? <==> 0 <= current < MaxStates
    ensures r.Defined? ==> -128 <= r.state < 128
  {
    if 0 <= current < MaxStates then Defined(t[current][Normalize(x)]) else OutOfBounds
  }

  /** With the table as written, a transition to any state from 128 up sets
      the register to that state minus 256, a negative number, and the next
      byte written reads outside the table. */
  lemma HighTargetGoesNegative(t: CTable, a: SignedChar, q: Byte, x: SignedChar)
    requires q >= 128
    ensures CStep(CAdd(t, 0, a, ToSigned(q)), 0, a) == Defined(q - 256)
    ensures q - 256 < 0
    ensures CStep(CAdd(t, 0, a, ToSigned(q)), q - 256, x) == OutOfBounds
  {
  }

  /** The smallest such case: adding 0 --0--> 200 and writing two zero bytes
      from state 0 leaves the register at -56, then indexes row -56. */
  lemma Target200Example()
    ensures var t := CAdd(CZeroRows(), 0, 0, ToSigned(200));
            && CStep(t, 0, 0) == Defined(-56)
            && CStep(t, -56, 0) == OutOfBounds
  {
    HighTargetGoesNegative(CZeroRows(), 0, 200, 0);
  }
}
