# DFA character driver — Dafny model

The MINIX `dfa` character driver keeps one deterministic finite automaton
over the byte alphabet. It has a 256 x 256 transition table, a per-state
accepting flag and a current-state register.

- Writing bytes to the device advances the register through the table, one
  byte at a time.
- Reading from the device returns `'Y'` bytes when the current state
  accepts and `'N'` bytes when it does not.
- Four ioctl requests reset the register, define a transition, and mark a
  state accepting or non-accepting.
- For a live update, the driver publishes its whole state to the system's
  data store. The new instance zeroes its state and then restores it from
  the store.

The model is functional. A `Dfa` value is immutable. Every driver entry point
is a function from the old state (and the request's data) to the new state
and the reply.

| file | module | what it holds |
|---|---|---|
| `bytes.dfy` | `Bytes` | unsigned bytes, signed `char`s, normalisation of a char to a table index |
| `automaton.dfy` | `Automaton` | the state record, the zeroed state, the step fold, `write` (as a function and as the driver's loop), `read` |
| `control.dfy` | `Control` | reset, define transition, mark accepting / non-accepting, the ioctl dispatch |
| `snapshot.dfy` | `Snapshot` | the data store, the memory images of the table and the flags, save, restore, initialisation |
| `scenarios.dfy` | `Scenarios` | the test harness's scenarios: clearing the device, the odd-length automaton, many writes, long writes, live update |
| `as_written.dfy` | `AsWritten` | the table with signed `char` cells, as declared, for the finding below |

Design choices:

- States and symbols are `Byte` (integers in [0, 255]). Caller data is
  `SignedChar` (integers in [-128, 127]). `Normalize` adds 256 to a negative
  char, as the driver does at each use site.
- The table cells hold `Byte`, not signed `char`. This is the evidently
  intended behaviour; see "Findings".
- Accepting flags are C `int`s that `read` compares with 1. They are modelled
  as `bool`. The snapshot stores each flag as a 4-byte little-endian int and
  reads it back with the same "equals 1" test.
- The data store is a map from entry names (`"states"`, `"accepting_states"`,
  `"current_state"`) to entries. An entry is either a memory block of bytes
  or a u32 value. The table's memory image is row-major: cell `[p][a]` is
  byte `p * 256 + a`.
- The snapshot is the three data-store entries the driver publishes
  (dfa.c:191-193), not a single blob.

## Model

| member | source | states |
|---|---|---|
| `Bytes.Normalize` | minix_source/usr/src/minix/drivers/dfa/dfa.c:84 | the index is the unsigned byte congruent to the char modulo 256; non-negative chars are kept |
| `Bytes.ToSigned` | minix_source/usr/src/minix/drivers/dfa/dfa.c:118 | storing an index back into a char gives the char congruent to it modulo 256, negative exactly from 128 up |
| `Bytes.NormalizeToSigned` | minix_source/usr/src/minix/drivers/dfa/dfa.c:84 | normalising the char a caller sends for byte `b` gives back `b` |
| `Bytes.ToSignedNormalize` | minix_source/usr/src/minix/drivers/dfa/dfa.c:110-111 | normalisation loses nothing: the char is recovered from its index |
| `Bytes.NormalizeSameIndex` | minix_source/usr/src/minix/drivers/dfa/dfa.c:136 | two chars select the same row or column iff they are equal; -1 selects index 255 |
| `Bytes.NormalizeAll` | minix_source/usr/src/minix/drivers/dfa/dfa.c:82-84 | a buffer is normalised element by element, keeping length and order |
| `Automaton.Zeroed` | minix_source/usr/src/minix/drivers/dfa/dfa.c:220-222 | after initialisation every transition leads to 0, no state accepts, and the current state is 0 |
| `Automaton.Run` | minix_source/usr/src/minix/drivers/dfa/dfa.c:82-87 | the write fold: an empty buffer leaves the state, and after a non-empty buffer the state is an entry of the table's column for the last byte |
| `Automaton.Trace` | minix_source/usr/src/minix/drivers/dfa/dfa.c:82-87 | the states visited while consuming a buffer form a path that follows the table from the start state |
| `Automaton.RunIsPathEnd` | minix_source/usr/src/minix/drivers/dfa/dfa.c:82-87 | the state after a buffer is the last state of any path that follows the table along it: lookups are applied in input order |
| `Automaton.RunIsTraceEnd` | minix_source/usr/src/minix/drivers/dfa/dfa.c:82-87 | such a path always exists, so the run is fully determined by the table, the start state and the input |
| `Automaton.RunAppend` | minix_source/usr/src/minix/drivers/dfa/dfa.c:82-87 | consuming `xs` and then `ys` equals consuming `xs + ys` |
| `Automaton.RunSnoc` | minix_source/usr/src/minix/drivers/dfa/dfa.c:86 | one more byte costs exactly one more table lookup from the state reached so far |
| `Automaton.Write` | minix_source/usr/src/minix/drivers/dfa/dfa.c:82-89 | write returns the full byte count and never changes the table or the flags |
| `Automaton.WriteAppend` | minix_source/usr/src/minix/drivers/dfa/dfa.c:82-87 | two consecutive writes have the effect of one write of the concatenated buffers |
| `Automaton.WriteOne` | minix_source/usr/src/minix/drivers/dfa/dfa.c:83-86 | writing one byte moves to `table[current][normalised byte]`; an empty write changes nothing |
| `Automaton.WriteLoop` | minix_source/usr/src/minix/drivers/dfa/dfa.c:82-89 | the driver's loop updates the register once per byte, in order, ending in the fold's state, and returns the count |
| `Automaton.Read` | minix_source/usr/src/minix/drivers/dfa/dfa.c:59-69 | read returns exactly `size` bytes, each `'Y'` iff the current state accepts and `'N'` otherwise |
| `Automaton.ReadPrefix` | minix_source/usr/src/minix/drivers/dfa/dfa.c:60-63 | reads of different lengths agree on their common prefix; a zero-length read is empty |
| `Control.Reset` | minix_source/usr/src/minix/drivers/dfa/dfa.c:93-97 | reset sets the current state to 0 and touches neither the table nor the flags |
| `Control.AddTransition` | minix_source/usr/src/minix/drivers/dfa/dfa.c:109-121 | exactly cell `[p][a]` becomes `q`, every other cell and every flag is unchanged, and the current state is 0 afterwards |
| `Control.MarkAccepting` | minix_source/usr/src/minix/drivers/dfa/dfa.c:135-144 | only flag `p` changes, and it becomes set; the table and the current state are unchanged |
| `Control.MarkRejecting` | minix_source/usr/src/minix/drivers/dfa/dfa.c:157-162 | only flag `p` changes, and it becomes clear; the table and the current state are unchanged |
| `Control.ResetIdempotent` | minix_source/usr/src/minix/drivers/dfa/dfa.c:93-97 | resetting twice is resetting once, and the result does not depend on the previous current state |
| `Control.AddTransitionOverwrite` | minix_source/usr/src/minix/drivers/dfa/dfa.c:118-121 | redefining a cell keeps only the later target |
| `Control.AddTransitionCommute` | minix_source/usr/src/minix/drivers/dfa/dfa.c:118-121 | definitions of two different cells commute |
| `Control.MarkLastWins` | minix_source/usr/src/minix/drivers/dfa/dfa.c:142-160 | accept then reject leaves the state non-accepting, and reject then accept leaves it accepting |
| `Control.Ioctl` | minix_source/usr/src/minix/drivers/dfa/dfa.c:171-186 | ENOTTY iff the request code is not one of the four; any failure leaves the state unchanged; a copy failure iff the argument is too short for the command |
| `Control.IoctlDispatch` | minix_source/usr/src/minix/drivers/dfa/dfa.c:171-184 | each of the four codes runs exactly its own command on the normalised argument bytes |
| `Control.IoctlAddNegativeBytes` | minix_source/usr/src/minix/drivers/dfa/dfa.c:110-118 | an add request with bytes (-1, -1, -1) defines the transition 255 --255--> 255 |
| `Control.DefinedTransitionTaken` | minix_source/usr/src/minix/drivers/dfa/dfa.c:118-121 | after defining `0 --a--> q`, writing `a` lands in state `q` for every target byte, including those from 128 up |
| `Snapshot.TableImage` | minix_source/usr/src/minix/drivers/dfa/dfa.c:191 | the published table block is 65536 bytes, with cell `[p][a]` at offset `p * 256 + a` |
| `Snapshot.TableOfImage` | minix_source/usr/src/minix/drivers/dfa/dfa.c:201 | a retrieved block is read back with cell `[p][a]` taken from offset `p * 256 + a` |
| `Snapshot.FlagsImage` | minix_source/usr/src/minix/drivers/dfa/dfa.c:192 | the published flags block is 1024 bytes, with flag `p` as the little-endian int at offset `4 * p` |
| `Snapshot.FlagsOfImage` | minix_source/usr/src/minix/drivers/dfa/dfa.c:205 | a restored state accepts iff its int equals 1, the test that read applies |
| `Snapshot.Save` | minix_source/usr/src/minix/drivers/dfa/dfa.c:189-196 | saving adds or overwrites exactly the three entries and keeps every other entry of the store |
| `Snapshot.DeleteMem` | minix_source/usr/src/minix/drivers/dfa/dfa.c:202-206 | deleting a memory entry removes it if present, never leaves a memory entry of that name, and keeps every other entry and any u32 entry of that name |
| `Snapshot.DeleteU32` | minix_source/usr/src/minix/drivers/dfa/dfa.c:210 | deleting a u32 entry removes it if present, never leaves a u32 entry of that name, and keeps every other entry and any memory entry of that name |
| `Snapshot.RetrieveTable` | minix_source/usr/src/minix/drivers/dfa/dfa.c:200-201 | a memory entry of exactly `sizeof(states)` bytes is read back row-major into the table; anything else leaves the fallback |
| `Snapshot.RetrieveFlags` | minix_source/usr/src/minix/drivers/dfa/dfa.c:204-205 | a memory entry of exactly `sizeof(accepting_states)` bytes is read back with state `p` accepting iff its int equals 1; anything else leaves the fallback |
| `Snapshot.RetrieveCurrent` | minix_source/usr/src/minix/drivers/dfa/dfa.c:208-211 | a saved u32 below 256 becomes the register; any other outcome leaves the fallback, which is the model's choice (see "Left out") |
| `Snapshot.Restore` | minix_source/usr/src/minix/drivers/dfa/dfa.c:198-214 | restoring only removes entries, and never any but the three it reads |
| `Snapshot.Init` | minix_source/usr/src/minix/drivers/dfa/dfa.c:216-234 | a fresh start or a restart yields the zeroed state and leaves the store alone |
| `Snapshot.TableImageRoundTrip` | minix_source/usr/src/minix/drivers/dfa/dfa.c:191-201 | reading back the table's image gives the same table |
| `Snapshot.FlagsImageRoundTrip` | minix_source/usr/src/minix/drivers/dfa/dfa.c:192-205 | reading back the flags' image gives the same flags |
| `Snapshot.SaveRestoreRoundTrip` | minix_source/usr/src/minix/drivers/dfa/dfa.c:189-214 | restoring what was saved reproduces table, flags and current state exactly, and leaves the store as it was before the save, minus the three entries |
| `Snapshot.RestoreNothing` | minix_source/usr/src/minix/drivers/dfa/dfa.c:220-229 | a live update with nothing saved yields the zeroed table and flags; the current state 0 is the model's fallback, where the source copies an uninitialised value (see "Left out") |
| `Snapshot.LiveUpdateInvisible` | minix_source/usr/src/minix/drivers/dfa/dfa.c:216-231 | after a live update every later write and read behaves as on the old instance |
| `Scenarios.FillRowEffect` | test.py:72-73 | defining `p --a--> q` for the first `n` symbols sets exactly those cells of row `p` |
| `Scenarios.ClearRowsEffect` | test.py:69-73 | rejecting and zeroing the first `k` states clears exactly their rows and flags |
| `Scenarios.ClearAllIsZeroed` | test.py:69-73 | rejecting every state and sending each of its symbols to 0, from any state, gives the freshly initialised state |
| `Scenarios.ResetDevice` | test.py:69-73 | the harness's device reset leaves the driver exactly as freshly initialised, whatever its state before |
| `Scenarios.OddLengthSetup` | test.py:80-85 | the setup builds the automaton where 0 goes to 1 on every byte, every other state goes to 0, and only 1 accepts |
| `Scenarios.RunParity` | test.py:97 | in that automaton, from state 0 or 1, the state reached is the parity of start state plus input length |
| `Scenarios.OddLengthAnswer` | test.py:94-102 | after the setup, a read answers all `'Y'` iff the number of bytes written is odd, else all `'N'` |
| `Scenarios.WriteAllIsOneWrite` | test.py:91-102 | any number of successive writes acts as one write of their concatenation |
| `Scenarios.AcceptOddLength` | test.py:87-102 | after the setup and any writes, a read answers by the parity of the total bytes written |
| `Scenarios.LongWrites` | test.py:121-129 | an odd-length write makes reads all `'Y'`, and a second odd-length write makes them all `'N'` |
| `Scenarios.OddWritesAlternate` | test.py:121-129 | from state 0 of any odd-length automaton, an odd-length write answers all `'Y'` and a second odd-length write all `'N'` |
| `Scenarios.OneByteFlips` | test.py:109-112 | the setup answers `'N'`, one byte flips the answer to `'Y'`, a second byte flips it back |
| `Scenarios.PreserveAfterUpdate` | test.py:107-119 | the answer after one byte survives a live update, and the next byte still flips it |
| `Scenarios.TwoTransitionExample` | minix_source/usr/src/minix/drivers/dfa/dfa.c:82-121 | with 0 --'a'--> 1, 1 --'b'--> 2 and 2 accepting, "ab" reads `'Y'` and one more `'a'` falls back to state 0 and reads `'N'` |
| `AsWritten.CAdd` | minix_source/usr/src/minix/drivers/dfa/dfa.c:110-118 | as written, the char cell ends up holding the caller's target char itself |
| `AsWritten.CStep` | minix_source/usr/src/minix/drivers/dfa/dfa.c:83-86 | as written, a step is defined iff the register is in [0, 255], and the new register is a signed char value |
| `AsWritten.HighTargetGoesNegative` | minix_source/usr/src/minix/drivers/dfa/dfa.c:86 | as written, a target from 128 up makes the register negative, and the next byte reads outside the table |
| `AsWritten.Target200Example` | minix_source/usr/src/minix/drivers/dfa/dfa.c:18 | as written, adding 0 --0--> 200 and writing two zero bytes leaves the register at -56 and then reads row -56 |

## Findings

| source | as written | input that shows it | evidently intended | confidence | as-written member | corrected member |
|---|---|---|---|---|---|---|
| minix_source/usr/src/minix/drivers/dfa/dfa.c:86 | The table is declared `char states[256][256]` (line 18). Line 118 stores the normalised target, an int in [0, 255], into a signed `char` cell. Line 86 copies the cell into `current_state` without normalising it. | The ioctl add (0, 0, 200), then a write of two zero bytes. The first byte sets `current_state` to -56. The second reads `states[-56][0]`, outside the table. | Cells hold unsigned bytes, so any target in [0, 255] is reached. | high on a target where `char` is signed; not executed | `AsWritten.HighTargetGoesNegative` | `Control.DefinedTransitionTaken` |

The rest of the model uses the corrected table. Its cells are `Byte`, and the
current-state register is a `Byte` by type.

## Left out

- Kernel copies (`sys_safecopyfrom`, `sys_safecopyto`) and their error returns are not modelled for read and write. Their data is taken as already delivered. For ioctl, a copy failure is modelled only as an argument shorter than the command reads. The result is `CopyError` and no state change. The kernel's actual error code is not modelled.
- The request codes come from the test harness (test.py:28-31). The header that defines them, `sys/ioc_dfa.h`, is not part of this model.
- `Snapshot.Save`: the data-store calls are assumed to succeed. The source ignores their return codes.
- `Snapshot.Restore`: `ds_retrieve_mem` receives an uninitialised length argument in the source, which has no defined meaning. The model installs a memory entry only when it has exactly the expected size. Otherwise the zeroed value stays.
- `Snapshot.Restore`: a saved u32 current state of 256 or more would be copied as is by the source and later index outside the table. The model keeps 0 in that case. `Save` only produces values below 256.
- `Snapshot.Restore`: a retrieval failure is modelled as "entry missing or of the wrong kind", and the model then keeps the zeroed value. This is the model's choice. For the table and the flags the source leaves whatever the failed call left in the arrays. For the current state the source copies the uninitialised local `current_state_value` into the register (dfa.c:208-211), so the register holds an indeterminate value, possibly 256 or more, not 0. `Snapshot.RestoreNothing` states the model's fallback.
- The SEF and chardriver lifecycle is host framework glue and is not modelled. This covers `sef_local_startup`, `chardriver_announce`, `chardriver_task` and `main`. `Snapshot.Init` models only the state effect of `sef_cb_init`, not whether the driver announces itself.
- The `printf` diagnostics in `do_dfa_add` and `do_dfa_accept` are output only. With normalisation they are unreachable.
- The stack buffers sized by the request length are a memory concern of the C host.
- The unused `position` argument of read and write is not modelled.
- `Automaton.Read` returns only the data. The state is not an output because read cannot change it. The byte count the driver returns is the length of the data.
- The test harness itself (`fcntl`, `os.system`, random lengths) is not modelled. Its scenarios are stated as lemmas over all lengths and all byte values.
