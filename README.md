# Ikawa roaster client: frames, checksum and reassembly

This project models the protocol core of `libikawa.py`, the Python client for
Ikawa coffee roasters that talks to the roaster over Bluetooth LE:

- **Checksum** (`Crc.dfy`, module `Crc`). This is the protocol's own 16-bit
  CRC. It folds the bytes into an accumulator and returns the low 16 bits
  big-endian.
- **Framing** (`Framing.dfy`, module `Framing`). A frame is a 0x7E delimiter,
  then the byte-stuffed payload, then the byte-stuffed checksum, then a
  closing 0x7E. Stuffing replaces 0x7D and 0x7E with 0x7D 0x5D and 0x7D 0x5E.
  The decoder checks the delimiters, unstuffs the bytes, splits off the last
  two bytes and checks them against the checksum.
- **Client** (`Client.dfy`, module `Client`). This is the `Ikawa` object: its
  state after construction, the notification handler, and numbering commands
  in `send_cmd`.
  - The notification handler appends the incoming bytes to the receive
    buffer and drops everything before the first delimiter. Once the buffer
    is longer than three bytes and ends in a delimiter, it decodes the
    buffer, parses the response and checks its sequence number. It then
    clears the buffer whatever happened.
  - The handler is modelled twice:
    - `Notify` is a function on a value `Receiver`: sequence number, receive
      buffer, and the responses handed on.
    - `Ikawa.OnNotify` is a method on the class, proved equal to `Notify`.

Every loop of the source, and each frame operation, is a method proved
against a function that specifies it; the loops carry their invariants:

| method | specified by |
|---|---|
| `Crc16` | `CrcOf` |
| `EscapeData` | `Escape` |
| `UnescapeData` | `Unescape` |
| `EncodeFrame` | `FrameOf` |
| `DecodeFrame` | `Decode` |
| `TrimToDelimiter` | `DropGarbage` |

The properties are proved about those functions:

- decoding an encoded frame gives the payload back;
- each of the decoder's refusals is characterised exactly;
- the handler keeps the buffer synchronised;
- the sequence number advances exactly when a matching reply arrives;
- accepted responses stay in order;
- a frame split over any number of notifications has the same effect as the
  frame arriving whole.

The handler's exceptions become outcomes:

- `decode_frame` raising becomes `FrameRejected` with the reason.
- `Response.FromString` raising becomes `ParseFailed`.

In the source both exceptions leave the handler after its `finally` has
cleared the buffer, and the model clears it too.

The handler does not look for a second delimiter, does not discard short
candidates and does not catch decode errors. Once the buffer is longer than
three bytes and ends in 0x7E, it decodes the whole buffer, and decode errors
propagate after the `finally`.

The consequences of this are proved:

- `TailLeavesFlag`: the tail of a frame whose start was lost leaves a lone
  0x7E in the buffer.
- `FlagSpoilsNextFrame`: the next whole frame is then decoded with that 0x7E
  as an extra payload byte. It is refused unless the checksum happens to
  agree.
- `FlagSpoilsExample`: the payload `08 01` is one such case.

## Model

| member | source | states |
|---|---|---|
| Crc.CrcStep | libikawa.py:141-143 | one loop step leaves the accumulator below 0x10000 whatever it started from |
| Crc.CrcStepLow16 | libikawa.py:141-143 | a step reads only the low 16 bits of the accumulator |
| Crc.ToBigEndian | libikawa.py:144 | the two bytes read back big-endian give the low 16 bits of the value |
| Crc.CrcOf | libikawa.py:137-144 | the checksum is two bytes whose big-endian value is the fold of the data, masked to 16 bits |
| Crc.Crc16 | libikawa.py:137-144 | the loop returns exactly the checksum of the data from the given initial value |
| Crc.CrcFold | libikawa.py:139-143 | defines the accumulator after the loop, one step per byte from the initial value; after at least one byte it is below 0x10000, so the final mask only matters for an empty input |
| Crc.CrcFoldAppend | libikawa.py:140-143 | folding a concatenation folds the second part from the accumulator reached after the first |
| Crc.CrcOfAppend | libikawa.py:137-144 | the checksum of a + b is the checksum of b started from the checksum of a |
| Crc.CrcOfEmpty | libikawa.py:137-144 | no data gives FF FF |
| Crc.CrcOfZeroByte | libikawa.py:137-144 | the single byte 00 gives 0F 87 |
| Crc.CrcOfOneTwo | libikawa.py:137-144 | the bytes 01 02 give CA 72 |
| Framing.Escape | libikawa.py:87-95 | escaping adds one byte per 0x7D or 0x7E and leaves no 0x7E in its output |
| Framing.EscapeAppend | libikawa.py:87-95 | escaping works byte by byte: it distributes over concatenation |
| Framing.EscapeData | libikawa.py:87-95 | the loop returns exactly the escaped input |
| Framing.Unescape | libikawa.py:113-122 | unescaping never lengthens its input and is the identity on input without 0x7D |
| Framing.UnescapeEscape | libikawa.py:87-122 | unescaping inverts escaping on every byte sequence |
| Framing.UnescapeData | libikawa.py:113-122 | the loop returns exactly the unescaped input, or none where the escape is not in the table (or the input ends in 0x7D) |
| Framing.Inner | libikawa.py:110 | stripping the first and last byte leaves what lies between them |
| Framing.EncodeFrame | libikawa.py:82-102 | the method returns exactly the frame of the data, which starts and ends with 0x7E |
| Framing.FrameOf | libikawa.py:82-102 | defines the frame: 0x7E, the escaped payload, the escaped checksum of the payload from 0xFFFF, 0x7E; it is delimited and at least four bytes longer than the payload |
| Framing.FrameShape | libikawa.py:82-102 | a frame is delimited, holds no 0x7E between its delimiters, and has length 4 + payload + one per escaped byte |
| Framing.Decode | libikawa.py:105-135 | defines the decoder: delimiter check (an empty frame is the indexing error), then unescape, then split off the last two bytes and compare the checksum, with Python's slicing of fewer than two bytes; an accepted frame is delimited and at least four bytes longer than its payload |
| Framing.DecodeFrame | libikawa.py:105-135 | the method returns exactly the decoder's result, error cases included |
| Framing.DecodeEncode | libikawa.py:82-135 | decoding the frame of any payload gives that payload back |
| Framing.DecodeAccepts | libikawa.py:105-135 | a frame decodes to d exactly when it is delimited and unescapes to d followed by the checksum of d |
| Framing.DecodeRefuses | libikawa.py:105-135 | empty input, missing delimiter, unknown escape and bad checksum each arise exactly in their own case |
| Framing.DecodeAfterStrayFlag | libikawa.py:105-135 | a 0x7E in front of a frame becomes a payload byte, and the frame then decodes only if the checksums agree |
| Framing.FrameOfOneTwo | libikawa.py:82-102 | the frame of 01 02 is 7E 01 02 CA 72 7E |
| Client.DropGarbage | libikawa.py:66-67 | the trimmed buffer is a suffix that is empty or starts at 0x7E, and no dropped byte was 0x7E |
| Client.TrimToDelimiter | libikawa.py:66-67 | the deleting loop leaves exactly the trimmed buffer |
| Client.Notify | libikawa.py:63-79 | defines one notification: append, trim, then the handler on the trimmed buffer; after any notification the buffer is empty or starts at 0x7E |
| Client.Handle | libikawa.py:68-79 | defines the handler on the trimmed buffer: keep it while it is at most three bytes or does not end in 0x7E, otherwise decode, parse and correlate; the buffer ends up either kept (only when waiting) or empty, and the number moves by at most one |
| Client.Correlate | libikawa.py:71-77 | defines the sequence check: a parse failure, a match (number + 1, response queued) or a mismatch; it leaves the buffer alone and accepts exactly when the parsed number is the expected one |
| Client.NotifyBuffersOrClears | libikawa.py:68-79 | a buffer that cannot yet hold a frame is kept and nothing else changes; once decoding happens the buffer is empty whatever the outcome |
| Client.NotifyAdvancesIffMatch | libikawa.py:70-77 | the number advances by one and the response is queued if and only if the decoded, parsed response carries the expected number; otherwise neither changes |
| Client.CorrelateKeeps | libikawa.py:72-75 | matching a response keeps the queue numbered 1, 2, … with the expected number next |
| Client.NotifyCorrelates | libikawa.py:63-79 | every notification keeps that numbering |
| Client.NotifyAllCorrelates | libikawa.py:63-79 | any sequence of notifications keeps that numbering |
| Client.ReplyAccepted | libikawa.py:63-79 | a whole frame with the expected number on an empty buffer is accepted: number + 1, response queued, buffer empty |
| Client.StaleReplyDropped | libikawa.py:72-79 | the same frame with another number changes nothing and reports the mismatch |
| Client.NotifyNothing | libikawa.py:63-68 | empty notifications on an empty buffer change nothing |
| Client.FrameInChunks | libikawa.py:63-79 | a frame split over notifications in any way has the same effect as the frame arriving in one |
| Client.TailLeavesFlag | libikawa.py:65-68 | the tail of a frame whose start was lost leaves a lone 0x7E in the buffer |
| Client.FlagSpoilsNextFrame | libikawa.py:65-79 | a whole frame arriving on that lone 0x7E is refused with a checksum error unless the checksums happen to agree |
| Client.FlagSpoilsExample | libikawa.py:131-133 | the payload 08 01 is such a case: 7E 08 01 and 08 01 have different checksums |
| Client.Ikawa.constructor | libikawa.py:17-20 | a new client expects number 1, has an empty buffer and has queued nothing |
| Client.Ikawa.OnNotify | libikawa.py:63-79 | the callback's new state and outcome are exactly those of the handler function; it keeps the buffer synchronised and the queue numbering |
| Client.Ikawa.HandleBuffer | libikawa.py:68-79 | on the trimmed buffer: wait, or decode, parse, match and clear, exactly as the handler function |
| Client.Ikawa.SendCmd | libikawa.py:49-55 | a command already numbered is refused and left alone; otherwise it gets the expected number and the result is the frame of its serialisation; the client's state is unchanged |

## Left out

- Bluetooth LE plumbing (lines 22-47, 56, 60-61): scanning, connecting,
  subscribing, disconnecting and writing the frame. `SendCmd` returns the
  frame it would write.
- Waiting for the reply in `send_cmd` (57-58): the `asyncio.Queue` is modelled
  as the append-only list of responses put into it. Taking responses out of
  it, and the blocking that goes with it, is not modelled.
- Concurrency: each notification is handled to completion before the next
  one. The source's callback has no `await` between reading and clearing the
  buffer, except the queue `put` on an unbounded queue.
- The protocol-buffer schema (`ikawa_pb2` is not part of this model).
  - `Response.FromString` is a function the client is given, with `None`
    where it raises.
  - `Cmd.SerializeToString` is a function of the sequence number and the
    command's other fields.
  - `Cmd` keeps only its `seq` field and an opaque body.
- `Client.Ikawa.SendCmd`: the `isinstance` assertion (line 50) is a typing
  check. The Dafny parameter type `Cmd` enforces it.
- The profile URL helpers (lines 146-158). They do base64 and URL work and no
  protocol logic.
- Logging `print` calls.
- `cli.py`, `plot_log.py` and `example.py`. These are user programs built on
  the client.
- `Crc.Crc16`: the accumulator is 32 bits wide where Python's is unbounded.
  It agrees with the source for every initial value below 2^32. The client
  only uses 0xFFFF.
- `Client.Ikawa.OnNotify`: the sequence number is an unbounded `nat`, as
  Python's int is. Whatever width the schema gives the field is not
  modelled.
- `Client.Ikawa.OnNotify`: the trimming loop runs on a copy of the buffer
  that is then stored back. The source deletes bytes from the bytearray in
  place.
- The escape tables (lines 14-15) are written as functions on their two keys,
  not as dictionaries. A byte outside the unescape table, or a 0x7D at the
  end of the input, is the `UnknownEscape` error.
