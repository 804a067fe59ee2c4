/**
 Live update of the driver: before the old instance goes away its whole state
 is published to the system's data store; the new instance zeroes its state
 and then installs what it finds there. The data store is modelled as a map
 from entry names to entries; a memory entry holds the raw bytes of a C
 object in its in-memory layout (row-major table, little-endian ints).
 */
module Snapshot {
  import opened Bytes
  import opened Automaton

  /** A data store entry: a block of memory or a 32-bit unsigned value. */
  datatype Entry = Mem(bytes: seq<Byte>) | U32(value: Word)

  type DataStore = map<string, Entry>

  const StatesKey: string := "states"
  const AcceptingKey: string := "accepting_states"
  const CurrentKey: string := "current_state"

  /** sizeof(states): one byte per (state, symbol) cell. */
  const StatesSize: nat := MaxStates * MaxStates
  /** sizeof(int) on the driver's target. */
  const IntSize: nat := 4
  /** sizeof(accepting_states): one int per state. */
  const AcceptingSize: nat := MaxStates * IntSize

  /** How the driver was started. */
  datatype InitKind = Fresh | LiveUpdate | Restart

  /** The memory image of the table: cell [p][a] is byte p * 256 + a. */
  function TableImage(t: Table): (m: seq<Byte>)
    ensures |m| == StatesSize
    ensures forall p, a :: 0 <= p < MaxStates && 0 <= a < MaxStates ==> m[p * 256 + a] == t[p][a]
  {
    seq(StatesSize, i requires 0 <= i < StatesSize => t[i / 256][i % 256])
  }

  /** Row `p` of a table memory image. */
  function RowOfImage(m: seq<Byte>, p: Byte): (r: Row)
    requires |m| == StatesSize
    ensures forall a :: 0 <= a < MaxStates ==> r[a] == m[p * 256 + a]
  {
    m[p * 256 .. p * 256 + 256]
  }

  /** Reads a table back from its memory image. */
  function TableOfImage(m: seq<Byte>): (t: Table)
    requires |m| == StatesSize
    ensures forall p, a :: 0 <= p < MaxStates && 0 <= a < MaxStates ==> t[p][a] == m[p * 256 + a]
  {
    seq(MaxStates, p requires 0 <= p < MaxStates => RowOfImage(m, p))
  }

  /** The memory image of the C int that holds a flag (1 or 0), little-endian. */
  function FlagImage(b: bool): (m: seq<Byte>)
    ensures |m| == IntSize
  {
    if b then [1, 0, 0, 0] else [0, 0, 0, 0]
  }

  /** The memory image of the flags array: flag p is the int at byte 4 * p. */
  function FlagsImage(f: Flags): (m: seq<Byte>)
    ensures |m| == AcceptingSize
    ensures forall p :: 0 <= p < MaxStates ==> m[4 * p .. 4 * p + 4] == FlagImage(f[p])
  {
    var m := seq(AcceptingSize, i requires 0 <= i < AcceptingSize => if i % 4 == 0 && f[i / 4] then 1 else 0);
    assert forall p :: 0 <= p < MaxStates ==> m[4 * p .. 4 * p + 4] == FlagImage(f[p]) by {
      forall p | 0 <= p < MaxStates
        ensures m[4 * p .. 4 * p + 4] == FlagImage(f[p])
      {
        assert m[4 * p .. 4 * p + 4][0] == m[4 * p];
      }
    }
    m
  }

  /** The value of the little-endian int at byte offset 4 * p. */
  function IntAt(m: seq<Byte>, p: Byte): int
    requires |m| == AcceptingSize
  {
    var i: int := 4 * p;
    m[i] as int + 0x100 * m[i + 1] as int + 0x1_0000 * m[i + 2] as int + 0x100_0000 * m[i + 3] as int
  }

  /** Reads the flags back: a state accepts when its int equals 1, the test
      `read` applies to it. */
  function FlagsOfImage(m: seq<Byte>): (f: Flags)
    requires |m| == AcceptingSize
    ensures forall p :: 0 <= p < MaxStates ==> (f[p] <==> IntAt(m, p) == 1)
  {
    seq(MaxStates, p requires 0 <= p < MaxStates => IntAt(m, p) == 1)
  }

  /** Publishes the state under the three names, overwriting older entries. */
  function Save(d: Dfa, ds: DataStore): (ds': DataStore)
    ensures ds'.Keys == ds.Keys + {StatesKey, AcceptingKey, CurrentKey}
    ensures forall k :: k in ds && k !in {StatesKey, AcceptingKey, CurrentKey} ==> ds'[k] == ds[k]
  {
    ds[StatesKey := Mem(TableImage(d.table))]
      [AcceptingKey := Mem(FlagsImage(d.accepting))]
      [CurrentKey := U32(d.current)]
  }

  /** Removes a memory entry (a value entry of the same name stays). No
      memory entry of that name is left, and every other entry is kept. */
  function DeleteMem(ds: DataStore, k: string): (r: DataStore)
    ensures k in r ==> k in ds && r[k] == ds[k] && r[k].U32?
    ensures k in ds && ds[k].U32? ==> k in r
    ensures r.Keys - {k} == ds.Keys - {k}
    ensures forall j :: j in r ==> j in ds && r[j] == ds[j]
  {
    if k in ds && ds[k].Mem? then ds - {k} else ds
  }

  /** Removes a u32 entry (a memory entry of the same name stays). No value
      entry of that name is left, and every other entry is kept. */
  function DeleteU32(ds: DataStore, k: string): (r: DataStore)
    ensures k in r ==> k in ds && r[k] == ds[k] && r[k].Mem?
    ensures k in ds && ds[k].Mem? ==> k in r
    ensures r.Keys - {k} == ds.Keys - {k}
    ensures forall j :: j in r ==> j in ds && r[j] == ds[j]
  {
    if k in ds && ds[k].U32? then ds - {k} else ds
  }

  /** The table found in the store, or `fallback` when there is no memory
      entry of exactly the table's size. A found image is read row-major. */
  function RetrieveTable(ds: DataStore, fallback: Table): (t: Table)
    ensures StatesKey in ds && ds[StatesKey].Mem? && |ds[StatesKey].bytes| == StatesSize ==>
              forall p, a :: 0 <= p < MaxStates && 0 <= a < MaxStates ==>
                t[p][a] == ds[StatesKey].bytes[p * 256 + a]
    ensures !(StatesKey in ds && ds[StatesKey].Mem? && |ds[StatesKey].bytes| == StatesSize) ==>
              t == fallback
  {
    if StatesKey in ds && ds[StatesKey].Mem? && |ds[StatesKey].bytes| == StatesSize
    then TableOfImage(ds[StatesKey].bytes)
    else fallback
  }

  /** The flags found in the store, or `fallback` when there is no memory
      entry of exactly the flags' size. A found state accepts iff its int is 1. */
  function RetrieveFlags(ds: DataStore, fallback: Flags): (f: Flags)
    ensures AcceptingKey in ds && ds[AcceptingKey].Mem? && |ds[AcceptingKey].bytes| == AcceptingSize ==>
              forall p :: 0 <= p < MaxStates ==> (f[p] <==> IntAt(ds[AcceptingKey].bytes, p) == 1)
    ensures !(AcceptingKey in ds && ds[AcceptingKey].Mem? && |ds[AcceptingKey].bytes| == AcceptingSize) ==>
              f == fallback
  {
    if AcceptingKey in ds && ds[AcceptingKey].Mem? && |ds[AcceptingKey].bytes| == AcceptingSize
    then FlagsOfImage(ds[AcceptingKey].bytes)
    else fallback
  }

  /** The current state found in the store. The model's choice, not the
      source's: a missing entry, a memory entry or a value of MaxStates or more
      gives `fallback`, so the register always names a state. */
  function RetrieveCurrent(ds: DataStore, fallback: Byte): (c: Byte)
    ensures CurrentKey in ds && ds[CurrentKey].U32? && ds[CurrentKey].value < MaxStates ==>
              c == ds[CurrentKey].value
    ensures c != fallback ==> CurrentKey in ds && ds[CurrentKey] == U32(c)
  {
    if CurrentKey in ds && ds[CurrentKey].U32? && ds[CurrentKey].value < MaxStates
    then ds[CurrentKey].value
    else fallback
  }

  /** Installs the saved state into the zeroed store of a new instance, taking
      each entry out of the data store once it has been read. A missing entry
      leaves the zeroed value in place. */
  function Restore(ds: DataStore): (r: (Dfa, DataStore))
    ensures r.1.Keys <= ds.Keys
    ensures forall k :: k in ds && k !in {StatesKey, AcceptingKey, CurrentKey} ==> k in r.1 && r.1[k] == ds[k]
  {
    var z := Zeroed();
    var table := RetrieveTable(ds, z.table);
    var ds1 := DeleteMem(ds, StatesKey);
    var accepting := RetrieveFlags(ds1, z.accepting);
    var ds2 := DeleteMem(ds1, AcceptingKey);
    var current := RetrieveCurrent(ds2, z.current);
    var ds3 := DeleteU32(ds2, CurrentKey);
    (Dfa(table, accepting, current), ds3)
  }

  /** Driver initialisation: the state is zeroed, and on a live update the
      saved state is then restored. */
  function Init(kind: InitKind, ds: DataStore): (r: (Dfa, DataStore))
    ensures kind != LiveUpdate ==> r == (Zeroed(), ds)
  {
    match kind
    case Fresh => (Zeroed(), ds)
    case LiveUpdate => Restore(ds)
    case Restart => (Zeroed(), ds)
  }

  /** The table image is lossless. */
  lemma TableImageRoundTrip(t: Table)
    ensures TableOfImage(TableImage(t)) == t
  {
    var m := TableImage(t);
    var t' := TableOfImage(m);
    forall p | 0 <= p < MaxStates
      ensures t'[p] == t[p]
    {
      forall a | 0 <= a < MaxStates
        ensures t'[p][a] == t[p][a]
      {
        assert t'[p][a] == m[p * 256 + a];
      }
    }
  }

  /** The flags image is lossless. */
  lemma FlagsImageRoundTrip(f: Flags)
    ensures FlagsOfImage(FlagsImage(f)) == f
  {
    var m := FlagsImage(f);
    forall p | 0 <= p < MaxStates
      ensures FlagsOfImage(m)[p] == f[p]
    {
      var w := m[4 * p .. 4 * p + 4];
      assert w == FlagImage(f[p]);
      assert m[4 * p] == w[0] && m[4 * p + 1] == w[1] && m[4 * p + 2] == w[2] && m[4 * p + 3] == w[3];
    }
  }

  /** Live update preserves the whole state: a new instance that restores
      what the old one saved has the same table, flags and current state, and
      the data store is left as it was apart from the three entries. */
  lemma SaveRestoreRoundTrip(d: Dfa, ds: DataStore)
    ensures Restore(Save(d, ds)).0 == d
    ensures Restore(Save(d, ds)).1 == ds - {StatesKey, AcceptingKey, CurrentKey}
  {
    TableImageRoundTrip(d.table);
    FlagsImageRoundTrip(d.accepting);
    var saved := Save(d, ds);
    var ds' := Restore(saved).1;
    assert ds'.Keys == (ds - {StatesKey, AcceptingKey, CurrentKey}).Keys;
  }

  /** With nothing saved, a live update yields the freshly zeroed state. For
      the current state this is the model's fallback: the source copies an
      uninitialised local into the register when no value was retrieved. */
  lemma RestoreNothing(ds: DataStore)
    requires StatesKey !in ds && AcceptingKey !in ds && CurrentKey !in ds
    ensures Restore(ds) == (Zeroed(), ds)
  {
  }

  /** After a live update the driver answers every later sequence of writes
      and reads exactly as the old instance would have. */
  lemma LiveUpdateInvisible(d: Dfa, ds: DataStore, input: seq<SignedChar>, size: nat)
    ensures var d' := Init(LiveUpdate, Save(d, ds)).0;
            Read(Write(d', input).0, size) == Read(Write(d, input).0, size)
  {
    SaveRestoreRoundTrip(d, ds);
  }
}
