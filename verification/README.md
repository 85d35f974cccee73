# State synchronisation and TGA writer: a Dafny model

This project models two parts of the networked-physics demo.

- **The state synchronisation of `SyncDemo.cpp`.**
  - The per-cube wire codec and the state packet around it: six input bits, a 16-bit sequence, a cube count, then each cube's bounded fields. An at-rest flag removes the six velocity fields from the wire.
  - Clamping of a quantised snapshot into the codec's ranges.
  - The priority accumulators: per-cube weights, growth by `deltaTime * weight` every frame, and ranking by descending accumulator.
  - The greedy packer (`MeasureCubesToSend`): a single forward pass over the 63 top-ranked cubes under a 500-byte budget.
  - One frame's send step: accumulate, rank, pack, zero the sent accumulators, assemble the packet and advance the 16-bit send sequence.
  - The jitter buffer state machine and the receive filter that feeds it.
  - The playout step, and the session reset.
- **`WriteTGA` of `Util.cpp`.**
  - The output is the 18-byte header of a run-length-encoded true-colour image (image type 10 of the Truevision TGA 2.0 format).
  - Each row follows, encoded on its own as RLE and RAW packets of 1 to 128 pixels.
  - The file is modelled as the byte sequence the calls to `putc`/`fwrite` would append.

Layout, one module per file:

- `options.dfy`: `Option` and `Read`.
- `bits.dfy`: fixed-width unsigned integers as bits.
- `fields.dfy`: the bounded-integer field table and its reader and writer.
- `cube_codec.dfy`: the cube and packet codec.
- `clamping.dfy`
- `priority.dfy`
- `packer.dfy`
- `jitter_buffer.dfy`
- `sync_session.dfy`
- `tga.dfy`

Modelling choices:

- **Constants the files use but do not define.** These are the pool size `NumCubes`, the quantisation bounds, the width of the compressed orientation, `MaxPlayers`, and the at-rest test `AtRest()`. They are fields of `CubeCodec.Config`. `Config.Valid` asks for `numCubes >= 63` because the send step reads ranked entries 0..62, and for non-empty field ranges.
- **Field widths and bit order.** A bounded field `lo..hi` is written as `value - lo` in the minimal number of bits that holds `hi - lo`, least significant bit first. The stream library is not part of this model, so this is the model's convention. The reader fails on a short stream or on a value above `hi`.
- **Orientation.** The compressed orientation is an opaque code of `orientationBits` bits.
- **Time and accumulators** are reals.
- **The sequence buffer** behind the jitter buffer is a map keyed by sequence number. Whether an insert is accepted is a parameter of each insert.

## Model

| member | source | states |
|---|---|---|
| Bits.BitsForFits | src/game/SyncDemo.cpp:72-92 | every value 0..n is below 2 to the power of the width chosen for n |
| Bits.BitsForMinimal | src/game/SyncDemo.cpp:72-92 | the chosen width is the least one: one bit fewer cannot hold n |
| Bits.BitsForPow2 | src/game/SyncDemo.cpp:78 | a range 0..2^k-1 gets exactly k bits, so the orientation field is orientationBits wide |
| Bits.FromToBits | src/game/SyncDemo.cpp:72-92 | reading back the low k bits of a value below 2^k gives the value |
| Fields.ReadInt | src/game/SyncDemo.cpp:72-92 | a successful read yields a value inside the field's bounds and consumes exactly the field's width |
| Fields.ReadWriteInt | src/game/SyncDemo.cpp:72-92 | one bounded field read back from its bits gives the value and leaves what followed |
| Fields.ReadWriteFields | src/game/SyncDemo.cpp:70-104 | a field table read back from what was written gives every value and leaves what followed |
| Fields.WriteSixFields | src/game/SyncDemo.cpp:72-92 | a table of six fields is written field by field in table order |
| Fields.WriteFieldsAppend | src/game/SyncDemo.cpp:112-129 | writing two field tables one after the other is writing their concatenation |
| CubeCodec.DecodeCube | src/game/SyncDemo.cpp:70-104 | a decoded cube has an index in the pool and positions and velocities in range; `interacting` is false; an at-rest cube's six velocities are zero |
| CubeCodec.CubeRoundTrip | src/game/SyncDemo.cpp:70-104 | decoding an encoded cube gives back index, positions, orientation and at-rest flag; velocities come back when not at rest and are zero when at rest; nothing after the cube is read |
| CubeCodec.PrefixFieldBits | src/game/SyncDemo.cpp:72-76 | the index and the three positions are written as their offsets from their lower bounds |
| CubeCodec.OrientationFieldBits | src/game/SyncDemo.cpp:78 | the orientation code is written as itself in exactly orientationBits bits |
| CubeCodec.FlagBit | src/game/SyncDemo.cpp:80-82 | a boolean is written as the one bit it is |
| CubeCodec.VelocityFieldBits | src/game/SyncDemo.cpp:86-92 | each velocity is written as its offset from its lower bound |
| CubeCodec.PrefixLayout | src/game/SyncDemo.cpp:72-82 | the fixed part of a cube is the index, then x, y and z as offsets from their lower bounds, then the orientation code in exactly orientationBits bits, then the at-rest bit |
| CubeCodec.VelocityLayout | src/game/SyncDemo.cpp:86-92 | the velocity part is linear x, y, z then angular x, y, z, each as the offset from its lower bound |
| CubeCodec.CubeLayout | src/game/SyncDemo.cpp:72-93 | a cube on the wire is its fixed part followed by its velocity part exactly when it is not at rest |
| CubeCodec.CubeCost | src/game/SyncDemo.cpp:72-93 | a cube's measured cost is the fixed prefix (index, three positions, orientation, one flag bit) plus the six velocity widths exactly when it is not at rest |
| CubeCodec.EncodeCube | src/game/SyncDemo.cpp:70-93 | the bits written for a cube are exactly as many as its measured cost |
| CubeCodec.EncodeCubes | src/game/SyncDemo.cpp:125-128 | the bits written for a run of cubes are exactly the sum of their costs |
| CubeCodec.EncodeStateUpdate | src/game/SyncDemo.cpp:112-129 | a state packet is 28 header bits (6 input, 16 sequence, 6 count) plus the cost of its cubes |
| CubeCodec.DecodeCubes | src/game/SyncDemo.cpp:125-128 | reading n cubes yields n entries |
| CubeCodec.CubesRoundTrip | src/game/SyncDemo.cpp:125-128 | a run of encoded cubes decodes back entry by entry, each as it survives the wire |
| CubeCodec.DecodeStateUpdate | src/game/SyncDemo.cpp:112-129 | a decoded packet has a 16-bit sequence and at most 63 cubes |
| CubeCodec.StateUpdateRoundTrip | src/game/SyncDemo.cpp:112-129 | decoding an encoded state packet gives back the input, the sequence, the cube count and each cube as it survives the wire |
| CubeCodec.HeaderWidths | src/game/SyncDemo.cpp:121-123 | the sequence occupies 16 bits and the cube count 6 |
| CubeCodec.WriteFlags | src/game/SyncDemo.cpp:114-119 | a run of one-bit fields writes the booleans themselves |
| CubeCodec.CounterLayout | src/game/SyncDemo.cpp:121-123 | the sequence and count are written as their 16 and 6 low bits |
| CubeCodec.HeaderBits | src/game/SyncDemo.cpp:114-123 | the header bits are the six input bits, then the sequence, then the count |
| CubeCodec.HeaderLayout | src/game/SyncDemo.cpp:114-128 | the packet on the wire is input bits, 16-bit sequence, 6-bit count, then the cubes in order |
| Clamping.Clamp | src/game/SyncDemo.cpp:357 | the result lies in lo..hi; it is the input when the input already does, lo when the input is below lo and hi when it is above hi |
| Clamping.ClampCube | src/game/SyncDemo.cpp:355-367 | x and y are clamped to -positionBoundXY..positionBoundXY-1, z to 0..positionBoundZ-1, each linear velocity to -linearVelocityBound..linearVelocityBound-1 and each angular velocity to -angularVelocityBound..angularVelocityBound-1; orientation and interacting are untouched; in-range fields keep their values |
| Clamping.ClampSnapshot | src/game/SyncDemo.cpp:351-369 | same length, and cube i of the result is cube i of the snapshot clamped; a cube already in range is unchanged |
| Clamping.ClampSnapshotIdempotent | src/game/SyncDemo.cpp:351-369 | clamping a clamped snapshot changes nothing |
| Clamping.ClampedCubeEncodable | src/game/SyncDemo.cpp:351-369 | a clamped cube with a valid orientation code can be written under any pool index |
| Clamping.ClampedSnapshotEncodable | src/game/SyncDemo.cpp:351-369 | every cube of a clamped snapshot with valid orientation codes can be written under its own pool index |
| Priority.CalculateCubePriorities | src/game/SyncDemo.cpp:420-436 | one weight per cube: 1, plus 1000000 for cube 0, plus 100 when interacting |
| Priority.WeightOrder | src/game/SyncDemo.cpp:420-436 | every weight is at least 1; cube 0 outweighs every other cube; an interacting cube weighs at least 101 |
| Priority.Accumulate | src/game/SyncDemo.cpp:500-501 | accumulator i grows by deltaTime times weight i; the table keeps its size |
| Priority.AccumulateGrows | src/game/SyncDemo.cpp:496-501 | every accumulator grows by at least the frame time, strictly when the frame time is positive |
| Priority.InfoList | src/game/SyncDemo.cpp:503-505 | the table copied for sorting pairs cube i with accumulator i |
| Priority.Insert | src/game/SyncDemo.cpp:507 | inserting into a descending list gives a descending list with one more element and the same contents plus the new entry |
| Priority.SortByAccum | src/game/SyncDemo.cpp:438 | the result is a permutation of the input sorted by descending accumulator |
| Priority.RankingExists | src/game/SyncDemo.cpp:503-507 | every accumulator table has a ranking |
| Priority.RankingFacts | src/game/SyncDemo.cpp:503-515 | any ranking has one entry per cube, distinct indices in range, each paired with that cube's accumulator |
| Packer.Costs | src/game/SyncDemo.cpp:454-460 | candidate i's cost is the measured cost of the cube it names |
| Packer.MeasureCubesToSend | src/game/SyncDemo.cpp:446-468 | 63 marks; candidate i is marked exactly when the bits of the earlier marked candidates plus its own cost are below max_bytes*8; whatever is marked fits under the budget; the marks equal the reference pass |
| Packer.GreedyMarks | src/game/SyncDemo.cpp:452-467 | the reference pass marks a candidate exactly when it still fits strictly under the budget, and the marked total stays under it |
| Packer.GreedyUniform | src/game/SyncDemo.cpp:452-467 | with equal costs c, candidate k is taken exactly when (k+1)*c is under the budget |
| Packer.UniformBudgetExample | src/game/SyncDemo.cpp:517-519 | 63 candidates of 80 bits under 500 bytes: exactly 49 are taken |
| Packer.SkipThenTake | src/game/SyncDemo.cpp:462-466 | a candidate that does not fit does not end the pass: a cheaper later one is still taken |
| JitterBuffer.Create | src/game/SyncDemo.cpp:165-171 | a new buffer is stopped, with start time 0, an empty store and the mode's playout delay |
| JitterBuffer.AddStateUpdate | src/game/SyncDemo.cpp:173-185 | the first add after create or reset sets the start time to its arrival time; later adds never move it; an accepted insert stores the update under its sequence and leaves every other entry alone; a refused one changes no entry |
| JitterBuffer.DueSequence | src/game/SyncDemo.cpp:204-206 | the due sequence is a 16-bit number |
| JitterBuffer.GetStateUpdate | src/game/SyncDemo.cpp:187-218 | fails while stopped or before start plus delay; otherwise succeeds exactly when the due sequence is stored, delivering and removing that entry only; a failed fetch changes nothing |
| JitterBuffer.Reset | src/game/SyncDemo.cpp:220-225 | a reset buffer is a freshly created one with the same playout delay |
| JitterBuffer.SingleConsumption | src/game/SyncDemo.cpp:208-217 | right after a fetch, a second fetch at the same time fails |
| JitterBuffer.IsRunning | src/game/SyncDemo.cpp:227-235 | the buffer runs exactly when it is not stopped and the time has reached start plus delay |
| JitterBuffer.FetchKeepsRunning | src/game/SyncDemo.cpp:227-235 | a fetch never changes whether the buffer is running, at any time |
| JitterBuffer.PlayoutTiming | src/game/SyncDemo.cpp:196-213 | k frames (below 65536) after start plus delay, the fetch succeeds exactly when sequence k is stored and yields it |
| JitterBuffer.PlayoutExample | src/game/SyncDemo.cpp:173-218 | three updates at 0, 0.02 and 0.05 with a 0.035 delay: the clock starts at 0, and at 0.05 update 0 is delivered once |
| SyncSession.Reset | src/game/SyncDemo.cpp:269-283 | jitter buffer reset, send sequence 0, every accumulator 0 with index i, position errors zero, orientation errors identity; remote input, packet switch and playout delay untouched |
| SyncSession.ResetWellFormed | src/game/SyncDemo.cpp:274-282 | after reset there is one non-negative accumulator per cube and a valid 16-bit sequence |
| SyncSession.Candidates | src/game/SyncDemo.cpp:509-515 | the candidates are the cube indices of the first 63 ranked entries, in rank order |
| SyncSession.Selected | src/game/SyncDemo.cpp:545-553 | as many cubes as marks, each one of the candidates |
| SyncSession.SelectedOrder | src/game/SyncDemo.cpp:545-553 | the packet keeps the candidates' rank order: the candidate in a marked slot i is entry j, where j counts the marks before slot i |
| SyncSession.SelectedMembers | src/game/SyncDemo.cpp:545-553 | a cube is listed exactly when a marked candidate slot names it |
| SyncSession.SelectedDistinct | src/game/SyncDemo.cpp:545-553 | distinct candidates give a packet without repeated cube indices |
| SyncSession.ZeroSent | src/game/SyncDemo.cpp:521-530 | exactly the accumulators of the marked cubes become 0; every other one is unchanged |
| SyncSession.Entries | src/game/SyncDemo.cpp:547-552 | packet entry k carries cube index k of the list and that cube's snapshot state |
| SyncSession.SelectedCost | src/game/SyncDemo.cpp:545-553 | the entries put in the packet cost exactly the bits the packer counted for them |
| SyncSession.SentCubes | src/game/SyncDemo.cpp:509-530 | at most 63 cubes are sent, each a pool index |
| SyncSession.SendFrame | src/game/SyncDemo.cpp:496-559 | the packet carries the input and the pre-increment sequence; the sequence then advances mod 65536; with state, the packet lists the snapshot entries of exactly the cubes `Selected` picks, which `SelectedOrder` shows are in rank order, else no cubes; at most 63 distinct cubes costing under 4000 bits; when every snapshot cube can be written (as after `ClampSnapshot` with valid orientation codes), the packet can be written and takes fewer than 28 + 4000 bits; sent accumulators become 0 and the others grow; nothing else changes |
| SyncSession.AssemblePacket | src/game/SyncDemo.cpp:534-555 | the packet carries the given input and sequence, and the marked cubes with their snapshot states exactly when the mode includes state; when every snapshot cube can be written, the packet can be written in fewer than 28 + 4000 bits |
| SyncSession.ClampedPacketEncodable | src/game/SyncDemo.cpp:478-555 | a packet built from a clamped snapshot with valid orientation codes can always be written, in fewer than 28 + 4000 bits |
| SyncSession.PacketFacts | src/game/SyncDemo.cpp:541-555 | the listed cubes are distinct, in range, and under the bit budget |
| SyncSession.UnsentCubeGains | src/game/SyncDemo.cpp:496-530 | a cube not sent in a frame of positive length ends with a strictly larger accumulator |
| SyncSession.Qualifies | src/game/SyncDemo.cpp:578 | a delivery reaches the jitter buffer exactly when it is a state packet on port 1001 |
| SyncSession.ReceiveOne | src/game/SyncDemo.cpp:573-585 | a disabled session or a non-qualifying delivery changes nothing; a qualifying one starts a stopped clock; an accepted one is stored under its sequence; no entry is lost and every other entry keeps its value; only the jitter buffer changes |
| SyncSession.ReceivePackets | src/game/SyncDemo.cpp:567-589 | only state packets from the right port reach the jitter buffer, and none when packets are disabled; the first one starts a stopped buffer's clock; nothing else in the session changes |
| SyncSession.ReceiveStores | src/game/SyncDemo.cpp:567-589 | with packets enabled, an accepted qualifying delivery is stored unless a later one of the frame reuses its sequence; no entry is lost; an entry no accepted qualifying delivery names keeps its value; every stored sequence was stored before or came from such a delivery |
| SyncSession.RemoteControl | src/game/SyncDemo.cpp:412-413 | authority is 0 exactly for an interacting cube and MaxPlayers for every other cube; the cube is enabled exactly when it is not at rest |
| SyncSession.PlayoutFrame | src/game/SyncDemo.cpp:593-610 | an update is applied exactly when the buffer runs and the due sequence is stored; the applied update is the one stored under the due sequence, and that entry alone leaves the jitter buffer; its input becomes the remote input; the remote simulation advances one frame exactly while the buffer runs; nothing else changes |
| SyncSession.PlayoutOnce | src/game/SyncDemo.cpp:593-600 | an update is applied at most once: playing out again at the same time applies nothing and changes nothing |
| Tga.PacketBytes | src/game/Util.cpp:56-80 | RLE: header byte (count-1)+128, high bit set, then the one pixel; RAW: header byte count-1, high bit clear, then all its pixels' bytes |
| Tga.RunEndStops | src/game/Util.cpp:46-55 | the run stops at the window's end or at the first pixel that differs from the first one |
| Tga.RawEndStops | src/game/Util.cpp:67-76 | the raw scan stops at the window's end or at the first pixel equal to its predecessor |
| Tga.NextPacket | src/game/Util.cpp:37-80 | a packet covers 1 to 128 pixels and does not reach past the row's end |
| Tga.NextPacketShape | src/game/Util.cpp:37-80 | the packet stands for exactly the pixels it covers; it is RLE exactly when the next two pixels are equal; inside a RAW packet consecutive pixels differ |
| Tga.NextPacketEnds | src/game/Util.cpp:37-80 | an RLE packet ends only at the row end, at 128 pixels or before the first pixel that differs from its own; a RAW packet ends only at the row end, at 128 pixels or just before the second pixel of an equal pair |
| Tga.RowPackets | src/game/Util.cpp:32-81 | every packet of a row covers 1 to 128 pixels |
| Tga.RowPacketsHead | src/game/Util.cpp:32-44 | a row with pixels left starts with the packet chosen at its first pixel |
| Tga.RowPacketsChoice | src/game/Util.cpp:32-81 | packet k is the packet chosen at the pixel where the first k packets end, and that pixel is inside the row |
| Tga.EncodeRow | src/game/Util.cpp:27-82 | a row's packets take at most four bytes per pixel, and there are bytes exactly when the row has pixels |
| Tga.ExpandFirst | src/game/Util.cpp:32-81 | the packets from a pixel expand to the pixels the first packet covers, up to where it ends, then to what the packets from there expand to |
| Tga.LosslessPrefix | src/game/Util.cpp:27-82 | the pixels before any packet boundary, then the packets from it, give back the whole row |
| Tga.RowPacketsLossless | src/game/Util.cpp:27-82 | the packets of a row expand back to exactly that row |
| Tga.DecodeEncodedPacket | src/game/Util.cpp:56-80 | each packet's bytes read back as that packet |
| Tga.DecodeEncodedPackets | src/game/Util.cpp:37-80 | a list of packets reads back as the pixels it stands for |
| Tga.RowRoundTrip | src/game/Util.cpp:27-82 | each row decodes back from its own packets, and no byte past them is read |
| Tga.RowsRoundTrip | src/game/Util.cpp:27-82 | rows of one width read back one after another, with nothing left over |
| Tga.Header | src/game/Util.cpp:12-25 | 18 bytes: 0, 0, 10, nine zeros, width then height as low/high bytes of their low 16 bits, 24, 0 |
| Tga.HeaderRead | src/game/Util.cpp:12-25 | a reader finds image type 10, depth 24, the width and height, and the image data from byte 18 on |
| Tga.RowBytes | src/game/Util.cpp:29-30 | each row is three bytes per pixel long |
| Tga.RowBytesAt | src/game/Util.cpp:29-30 | row y starts at byte width*3*y and lies inside the pixel buffer |
| Tga.ImageRowBytes | src/game/Util.cpp:27-31 | the encoder visits height rows, and row y holds exactly the bytes of row y |
| Tga.WriteTga | src/game/Util.cpp:6-25 | when the file cannot be opened it fails and writes nothing; otherwise it succeeds and the output begins with the header |
| Tga.TgaRoundTrip | src/game/Util.cpp:6-87 | for sizes below 65536, reading the output back gives the width, the height and, row by row, exactly the input pixel bytes |

## Left out

- The error smoothing after playout is left out because it is floating-point vector and quaternion decay. Only its reset to zero and identity is modelled.
- `ApplySnapshot`, and the writes `ApplyStateUpdate` makes into the game instance, are external simulation. Only the authority/enabled mapping (`SyncSession.RemoteControl`) is kept.
- Physics ticking, `Render`, the bandwidth text, `KeyEvent`, `Initialize`, `Shutdown` and the per-mode settings table are left out as simulation, rendering and UI. The mode enters only as `includeState`, a parameter of `SyncSession.SendFrame`.
- The network simulator and the packet factory are left out. Latency, loss and jitter are outside the model, so the frame's deliveries are an input of `SyncSession.ReceivePackets`. `SendFrame` returns the packet instead of sending it.
- `serialize_int`, `serialize_object`, `serialize_uint16`, `AtRest()` and the quantisation constants are not part of this model. Their widths, bit order and values are the conventions or `Config` fields described above.
- The byte capacity of the measuring stream, `max_bytes * 2`, is not modelled. Measurement is taken to always report the full cost.
- `protocol::SequenceBuffer` is not part of this model. Its ring of `NumStateUpdates` = 256 slots (SyncDemo.cpp lines 17 and 166), the eviction of old entries and the aliasing of sequences 256 apart are replaced by a map plus an acceptance verdict per insert.
- JitterBuffer.AddStateUpdate: the store is a map without capacity. An insert never evicts the entry 256 sequences older that shares its ring slot; whether the ring refuses an insert is the acceptance verdict.
- CubeCodec.DecodeCube: the decoded cube's `interacting` is false. The reader never writes that field, so it keeps its default, which is declared in `Snapshot.h`; `Snapshot.h` is not part of this model.
- Single- and double-precision arithmetic is replaced by reals. `0.035f` and the 60 Hz frame computation are exact in the model.
- The ranking is any permutation sorted by descending accumulator, because `std::sort` is not stable. `SendFrame` takes the ranking as a parameter, and the order among equal accumulators is left open.
- File opening, writing and closing in `WriteTGA` are replaced by a flag saying whether the file opened, and by the returned byte sequence.
- Tga.TgaRoundTrip: stated only for widths and heights below 65536. The header keeps only the low 16 bits of each, so larger images cannot be read back at their size.
- JitterBuffer.PlayoutTiming: stated for frame numbers below 65536. Later frames wrap around to the same sequences, which `JitterBuffer.DueSequence` states.
- SyncSession.UnsentCubeGains: stated for a positive frame time. With a zero frame time the accumulators do not grow.

## Notes on behaviour

- The packer compares strictly: a cube is taken only while the total stays below `max_bytes * 8`. So 63 candidates of 80 bits under 500 bytes give 49 cubes; a 50th would make exactly 4000 bits, which the strict test refuses (`Packer.UniformBudgetExample`).
- The accumulators of the marked cubes are zeroed even when the mode sends no cube state and the packet carries no cubes.
- A RAW packet stops in front of a pair of equal pixels and includes the first pixel of that pair. That pixel is therefore never the start of the following RLE run.
- The jitter buffer's reset keeps the playout delay. Only construction sets it.
