/** The client object: reassembly of notifications into frames, correlation
    of responses by sequence number, and sequence stamping of commands.

    The protocol-buffer schema is not part of this model: parsing a response
    and serialising a command are functions the client is given. */
module Client {
  import opened Crc
  import opened Framing

  /** A parsed response: the sequence number the device echoes and the rest
      of the message, which this layer does not look into. */
  datatype Response = Response(seqNum: nat, body: seq<byte>)

  /** The receive side of the client: the next expected sequence number, the
      bytes received since the last frame boundary, and the responses handed
      on so far. */
  datatype Receiver = Receiver(seqNum: nat, recvBuf: seq<byte>, respQueue: seq<Response>)

  /** What one notification led to. `FrameRejected` and `ParseFailed` are the
      cases in which the source's handler raises (after clearing the buffer). */
  datatype Outcome =
    | Buffered
    | Accepted(response: Response)
    | SeqMismatch(got: nat, expected: nat)
    | FrameRejected(error: FrameError)
    | ParseFailed

  datatype Step = Step(state: Receiver, outcome: Outcome)

  /** The buffer is empty or starts at a delimiter. */
  predicate Synced(buf: seq<byte>)
  {
    buf == [] || buf[0] == FRAME_BYTE
  }

  /** The handler decodes the buffer only when it is longer than three bytes
      and ends in a delimiter. */
  predicate ReadyToDecode(buf: seq<byte>)
  {
    |buf| > 3 && buf[|buf| - 1] == FRAME_BYTE
  }

  /** `s` without the bytes in front of its first delimiter. */
  function DropGarbage(s: seq<byte>): (r: seq<byte>)
    ensures Synced(r)
    ensures |r| <= |s| && r == s[|s| - |r|..]
    ensures forall i :: 0 <= i < |s| - |r| ==> s[i] != FRAME_BYTE
    decreases |s|
  {
    if s == [] || s[0] == FRAME_BYTE then s
    else
      var r := DropGarbage(s[1..]);
      assert forall i :: 1 <= i < |s| - |r| ==> s[i] == s[1..][i - 1];
      r
  }

  /** One call of the notification handler, as a function of the state
      before it; `parse` stands for the schema's response parser. Whatever
      arrives, the buffer is left empty or starting at a delimiter. */
  function Notify(st: Receiver, data: seq<byte>, parse: seq<byte> -> Option<Response>): (r: Step)
    ensures Synced(r.state.recvBuf)
  {
    Handle(st, DropGarbage(st.recvBuf + data), parse)
  }

  /** The handler once the buffer `buf` has been trimmed: keep waiting, or
      decode, correlate and clear the buffer. */
  function Handle(st: Receiver, buf: seq<byte>, parse: seq<byte> -> Option<Response>): (r: Step)
    ensures r.state.recvBuf == [] || (r.state.recvBuf == buf && r.outcome.Buffered?)
    ensures r.state.seqNum == st.seqNum || r.state.seqNum == st.seqNum + 1
  {
    if !ReadyToDecode(buf) then Step(st.(recvBuf := buf), Buffered)
    else
      match Decode(buf)
      case Err(e) => Step(st.(recvBuf := []), FrameRejected(e))
      case Ok(payload) => Correlate(st.(recvBuf := []), parse(payload))
  }

  /** Queue a parsed response and advance the expected number if the
      response carries it; drop it otherwise. */
  function Correlate(st: Receiver, parsed: Option<Response>): (r: Step)
    ensures r.state.recvBuf == st.recvBuf
    ensures r.outcome.Accepted? <==> parsed.Some? && parsed.value.seqNum == st.seqNum
  {
    match parsed
    case None => Step(st, ParseFailed)
    case Some(response) =>
      if response.seqNum == st.seqNum then
        Step(st.(seqNum := st.seqNum + 1, respQueue := st.respQueue + [response]), Accepted(response))
      else Step(st, SeqMismatch(response.seqNum, st.seqNum))
  }

  /** Responses are handed on in sequence order from 1 with no gap, and the
      expected number is the next one. */
  predicate Correlated(st: Receiver)
  {
    && st.seqNum == |st.respQueue| + 1
    && forall k :: 0 <= k < |st.respQueue| ==> st.respQueue[k].seqNum == k + 1
  }

  const INITIAL: Receiver := Receiver(1, [], [])

  // ---------------------------------------------------------------------
  // One notification

  /** While no complete frame can be there, the trimmed buffer is kept and
      nothing else changes; once the handler decodes, the buffer is emptied
      whatever the decode gives. */
  lemma NotifyBuffersOrClears(st: Receiver, data: seq<byte>, parse: seq<byte> -> Option<Response>)
    ensures var buf := DropGarbage(st.recvBuf + data);
      !ReadyToDecode(buf) ==> Notify(st, data, parse) == Step(st.(recvBuf := buf), Buffered)
    ensures var buf := DropGarbage(st.recvBuf + data);
      ReadyToDecode(buf) ==>
        Notify(st, data, parse).state.recvBuf == [] && !Notify(st, data, parse).outcome.Buffered?
  {
    var buf := DropGarbage(st.recvBuf + data);
    NotifyTrimmed(st, data, buf, parse);
    if !ReadyToDecode(buf) {
      HandleWaits(st, buf, parse);
    } else if Decode(buf).Err? {
      HandleRefused(st, buf, Decode(buf).error, parse);
    } else {
      HandleDecoded(st, buf, Decode(buf).value, parse);
      CorrelateKeepsBuffer(st.(recvBuf := []), parse(Decode(buf).value));
    }
  }

  /** The sequence number advances, by one, and the response is queued,
      exactly when the decoded and parsed response carries the expected
      number; otherwise neither changes. */
  lemma NotifyAdvancesIffMatch(st: Receiver, data: seq<byte>, parse: seq<byte> -> Option<Response>)
    ensures var r, buf := Notify(st, data, parse), DropGarbage(st.recvBuf + data);
      r.outcome.Accepted? <==>
        ReadyToDecode(buf) && Decode(buf).Ok? && parse(Decode(buf).value).Some?
        && parse(Decode(buf).value).value.seqNum == st.seqNum
    ensures var r := Notify(st, data, parse);
      r.outcome.Accepted? ==>
        r.outcome.response.seqNum == st.seqNum && r.state.seqNum == st.seqNum + 1
        && r.state.respQueue == st.respQueue + [r.outcome.response]
    ensures var r := Notify(st, data, parse);
      !r.outcome.Accepted? ==> r.state.seqNum == st.seqNum && r.state.respQueue == st.respQueue
  {
  }

  /** Correlation is kept by every notification. */
  lemma NotifyCorrelates(st: Receiver, data: seq<byte>, parse: seq<byte> -> Option<Response>)
    requires Correlated(st)
    ensures Correlated(Notify(st, data, parse).state)
  {
    var buf := DropGarbage(st.recvBuf + data);
    if ReadyToDecode(buf) && Decode(buf).Ok? {
      CorrelateKeeps(st.(recvBuf := []), parse(Decode(buf).value));
    }
  }

  lemma CorrelateKeeps(st: Receiver, parsed: Option<Response>)
    requires Correlated(st)
    ensures Correlated(Correlate(st, parsed).state)
  {
    var r := Correlate(st, parsed);
    if r.outcome.Accepted? {
      var q := r.state.respQueue;
      assert q == st.respQueue + [r.outcome.response];
      forall k | 0 <= k < |q|
        ensures q[k].seqNum == k + 1
      {
        if k < |st.respQueue| {
          assert q[k] == st.respQueue[k];
        }
      }
    }
  }

  /** Trimming drops a leading byte that is not a delimiter. */
  lemma DropGarbageSkips(s: seq<byte>)
    requires s != [] && s[0] != FRAME_BYTE
    ensures DropGarbage(s) == DropGarbage(s[1..])
  {
  }

  /** A buffer already at a delimiter is not trimmed. */
  lemma DropGarbageSynced(s: seq<byte>)
    requires Synced(s)
    ensures DropGarbage(s) == s
  {
  }

  /** A buffer that cannot yet hold a frame is kept as it is. */
  lemma HandleWaits(st: Receiver, buf: seq<byte>, parse: seq<byte> -> Option<Response>)
    requires !ReadyToDecode(buf)
    ensures Handle(st, buf, parse) == Step(st.(recvBuf := buf), Buffered)
  {
  }

  /** A notification is the handler run on the trimmed buffer. */
  lemma NotifyTrimmed(st: Receiver, data: seq<byte>, buf: seq<byte>, parse: seq<byte> -> Option<Response>)
    requires buf == DropGarbage(st.recvBuf + data)
    ensures Notify(st, data, parse) == Handle(st, buf, parse)
  {
  }

  /** What the handler does with a trimmed buffer does not depend on the
      buffer it replaces. */
  lemma HandleIgnoresBuffer(st: Receiver, prev: seq<byte>, buf: seq<byte>, parse: seq<byte> -> Option<Response>)
    ensures Handle(st.(recvBuf := prev), buf, parse) == Handle(st, buf, parse)
  {
  }

  /** A buffer that decodes is cleared and its payload parsed and correlated. */
  lemma HandleDecoded(st: Receiver, buf: seq<byte>, payload: seq<byte>, parse: seq<byte> -> Option<Response>)
    requires ReadyToDecode(buf) && Decode(buf) == Ok(payload)
    ensures Handle(st, buf, parse) == Correlate(st.(recvBuf := []), parse(payload))
  {
  }

  /** A buffer that fails to decode is cleared and the error reported. */
  lemma HandleRefused(st: Receiver, buf: seq<byte>, e: FrameError, parse: seq<byte> -> Option<Response>)
    requires ReadyToDecode(buf) && Decode(buf) == Err(e)
    ensures Handle(st, buf, parse) == Step(st.(recvBuf := []), FrameRejected(e))
  {
  }

  /** An encoded frame is kept whole by the trimming, is long enough to be
      decoded, and decodes to its payload. */
  lemma FrameReady(payload: seq<byte>)
    ensures DropGarbage(FrameOf(payload)) == FrameOf(payload)
    ensures ReadyToDecode(FrameOf(payload))
    ensures Decode(FrameOf(payload)) == Ok(payload)
  {
    FrameShape(payload);
    DropGarbageSynced(FrameOf(payload));
    DecodeEncode(payload);
  }

  /** A whole frame arriving on an empty buffer is decoded, and its payload
      parsed and correlated. */
  lemma NotifyFrame(st: Receiver, payload: seq<byte>, parse: seq<byte> -> Option<Response>)
    requires st.recvBuf == []
    ensures Notify(st, FrameOf(payload), parse) == Correlate(st, parse(payload))
  {
    var f := FrameOf(payload);
    assert st.recvBuf + f == f;
    FrameReady(payload);
    HandleDecoded(st, f, payload, parse);
    assert st.(recvBuf := []) == st;
  }

  /** A frame carrying the reply with the expected number, arriving in one
      notification on an empty buffer, is accepted. */
  lemma ReplyAccepted(st: Receiver, payload: seq<byte>, parse: seq<byte> -> Option<Response>)
    requires st.recvBuf == []
    requires parse(payload).Some? && parse(payload).value.seqNum == st.seqNum
    ensures Notify(st, FrameOf(payload), parse) ==
      Step(Receiver(st.seqNum + 1, [], st.respQueue + [parse(payload).value]), Accepted(parse(payload).value))
  {
    NotifyFrame(st, payload, parse);
    CorrelateAccepts(st, parse(payload).value);
  }

  lemma CorrelateAccepts(st: Receiver, response: Response)
    requires response.seqNum == st.seqNum
    ensures Correlate(st, Some(response)) ==
      Step(Receiver(st.seqNum + 1, st.recvBuf, st.respQueue + [response]), Accepted(response))
  {
  }

  /** The same frame carrying a reply with another number is dropped, and
      only the buffer changes. */
  lemma StaleReplyDropped(st: Receiver, payload: seq<byte>, parse: seq<byte> -> Option<Response>)
    requires st.recvBuf == []
    requires parse(payload).Some? && parse(payload).value.seqNum != st.seqNum
    ensures Notify(st, FrameOf(payload), parse) ==
      Step(st, SeqMismatch(parse(payload).value.seqNum, st.seqNum))
  {
    NotifyFrame(st, payload, parse);
  }

  // ---------------------------------------------------------------------
  // Several notifications

  function Concat(chunks: seq<seq<byte>>): seq<byte>
  {
    if chunks == [] then [] else chunks[0] + Concat(chunks[1..])
  }

  /** The state after handling each notification of `chunks` in turn. */
  function NotifyAll(st: Receiver, chunks: seq<seq<byte>>, parse: seq<byte> -> Option<Response>): Receiver
    decreases |chunks|
  {
    if chunks == [] then st else NotifyAll(Notify(st, chunks[0], parse).state, chunks[1..], parse)
  }

  /** A frame split over notifications in any way has the same effect as the
      whole frame arriving in one. */
  lemma {:induction false} FrameInChunks(st: Receiver, chunks: seq<seq<byte>>, payload: seq<byte>, parse: seq<byte> -> Option<Response>)
    requires st.recvBuf == []
    requires Concat(chunks) == FrameOf(payload)
    ensures NotifyAll(st, chunks, parse) == Notify(st, FrameOf(payload), parse).state
  {
    FrameShape(payload);
    ChunksAfterPrefix(st, chunks, payload, parse);
  }

  lemma {:induction false} ChunksAfterPrefix(st: Receiver, chunks: seq<seq<byte>>, payload: seq<byte>, parse: seq<byte> -> Option<Response>)
    requires var f := FrameOf(payload);
      |st.recvBuf| < |f| && st.recvBuf + Concat(chunks) == f
    ensures NotifyAll(st, chunks, parse) == Notify(st.(recvBuf := []), FrameOf(payload), parse).state
    decreases |chunks|
  {
    var f := FrameOf(payload);
    if chunks == [] {
      assert false;
    } else {
      var c, rest := chunks[0], chunks[1..];
      var pre := st.recvBuf + c;
      assert pre + Concat(rest) == f;
      if pre == f {
        assert Concat(rest) == [];
        LastChunk(st, chunks, payload, parse);
      } else {
        var next := Notify(st, c, parse).state;
        PrefixWaits(st, c, payload, parse);
        ChunksAfterPrefix(next, rest, payload, parse);
        assert next.(recvBuf := []) == st.(recvBuf := []);
      }
    }
  }

  /** The chunk that completes the frame, followed only by empty ones. */
  lemma LastChunk(st: Receiver, chunks: seq<seq<byte>>, payload: seq<byte>, parse: seq<byte> -> Option<Response>)
    requires chunks != [] && st.recvBuf + chunks[0] == FrameOf(payload) && Concat(chunks[1..]) == []
    ensures NotifyAll(st, chunks, parse) == Notify(st.(recvBuf := []), FrameOf(payload), parse).state
  {
    var next := Notify(st, chunks[0], parse).state;
    WholeFrameArrives(st, chunks[0], payload, parse);
    NotifyNothing(next, chunks[1..], parse);
  }

  /** The notification that completes the frame decodes it as if it had
      arrived whole on an empty buffer, and leaves the buffer empty. */
  lemma WholeFrameArrives(st: Receiver, c: seq<byte>, payload: seq<byte>, parse: seq<byte> -> Option<Response>)
    requires st.recvBuf + c == FrameOf(payload)
    ensures Notify(st, c, parse).state == Notify(st.(recvBuf := []), FrameOf(payload), parse).state
    ensures Notify(st, c, parse).state.recvBuf == []
  {
    var f := FrameOf(payload);
    var empty := st.(recvBuf := []);
    FrameReady(payload);
    HandleDecoded(st, f, payload, parse);
    NotifyFrame(empty, payload, parse);
    CorrelateKeepsBuffer(empty, parse(payload));
  }

  /** Correlation does not touch the buffer. */
  lemma CorrelateKeepsBuffer(st: Receiver, parsed: Option<Response>)
    ensures Correlate(st, parsed).state.recvBuf == st.recvBuf
  {
  }

  /** A notification that leaves a proper prefix of a frame in the buffer
      only stores it. */
  lemma PrefixWaits(st: Receiver, c: seq<byte>, payload: seq<byte>, parse: seq<byte> -> Option<Response>)
    requires var f, pre := FrameOf(payload), st.recvBuf + c;
      |pre| < |f| && pre == f[..|pre|]
    ensures Notify(st, c, parse) == Step(st.(recvBuf := st.recvBuf + c), Buffered)
  {
    var f, pre := FrameOf(payload), st.recvBuf + c;
    FrameShape(payload);
    if pre != [] {
      assert pre[0] == f[0];
    }
    DropGarbageSynced(pre);
    if |pre| > 3 {
      assert pre[|pre| - 1] == f[|pre| - 1];
    }
    HandleWaits(st, pre, parse);
  }

  /** Empty notifications on an empty buffer change nothing. */
  lemma {:induction false} NotifyNothing(st: Receiver, chunks: seq<seq<byte>>, parse: seq<byte> -> Option<Response>)
    requires st.recvBuf == [] && Concat(chunks) == []
    ensures NotifyAll(st, chunks, parse) == st
    decreases |chunks|
  {
    if chunks != [] {
      assert chunks[0] == [] && Concat(chunks[1..]) == [];
      assert Notify(st, chunks[0], parse).state == st;
      NotifyNothing(st, chunks[1..], parse);
    }
  }

  /** Correlation holds after any sequence of notifications from the
      initial state. */
  lemma {:induction false} NotifyAllCorrelates(st: Receiver, chunks: seq<seq<byte>>, parse: seq<byte> -> Option<Response>)
    requires Correlated(st)
    ensures Correlated(NotifyAll(st, chunks, parse))
    decreases |chunks|
  {
    if chunks != [] {
      NotifyCorrelates(st, chunks[0], parse);
      NotifyAllCorrelates(Notify(st, chunks[0], parse).state, chunks[1..], parse);
    }
  }

  // ---------------------------------------------------------------------
  // Resynchronisation, as the handler does it

  /** The tail of a frame whose start was lost leaves just its closing
      delimiter in the buffer. */
  lemma TailLeavesFlag(st: Receiver, tail: seq<byte>, parse: seq<byte> -> Option<Response>)
    requires st.recvBuf == []
    requires tail != [] && tail[|tail| - 1] == FRAME_BYTE
    requires forall i :: 0 <= i < |tail| - 1 ==> tail[i] != FRAME_BYTE
    ensures Notify(st, tail, parse) == Step(st.(recvBuf := [FRAME_BYTE]), Buffered)
  {
    assert st.recvBuf + tail == tail;
    TrimToFlag(tail);
    HandleWaits(st, [FRAME_BYTE], parse);
  }

  /** Only the closing delimiter of such a tail survives the trimming. */
  lemma TrimToFlag(tail: seq<byte>)
    requires tail != [] && tail[|tail| - 1] == FRAME_BYTE
    requires forall i :: 0 <= i < |tail| - 1 ==> tail[i] != FRAME_BYTE
    ensures DropGarbage(tail) == [FRAME_BYTE]
  {
    var r := DropGarbage(tail);
    assert |r| == 1 && r[0] == tail[|tail| - |r|];
  }

  /** A complete frame that then arrives on that leftover delimiter is
      decoded together with it, so the delimiter becomes a payload byte and
      the frame is refused unless the checksum happens to agree. */
  lemma FlagSpoilsNextFrame(st: Receiver, payload: seq<byte>, parse: seq<byte> -> Option<Response>)
    requires st.recvBuf == [FRAME_BYTE]
    requires CrcOf([FRAME_BYTE] + payload, CRC_INIT) != CrcOf(payload, CRC_INIT)
    ensures Notify(st, FrameOf(payload), parse) ==
      Step(st.(recvBuf := []), FrameRejected(CrcCheckFailed))
  {
    FrameShape(payload);
    DecodeAfterStrayFlag(payload);
    var buf := [FRAME_BYTE] + FrameOf(payload);
    assert buf[|buf| - 1] == FrameOf(payload)[|FrameOf(payload)| - 1];
  }

  /** This happens, for instance, to the payload '08 01'. */
  lemma FlagSpoilsExample()
    ensures CrcOf([FRAME_BYTE, 0x08, 0x01], CRC_INIT) != CrcOf([0x08, 0x01], CRC_INIT)
  {
    assert CrcOf([0x7E, 0x08, 0x01], CRC_INIT) == [0x76, 0xB9];
    assert CrcOf([0x08, 0x01], CRC_INIT) == [0x2F, 0xF1];
  }

  /** The handler's trimming loop: delete bytes from the front until the
      buffer starts at a delimiter or is empty. */
  method TrimToDelimiter(buf: seq<byte>) returns (trimmed: seq<byte>)
    ensures trimmed == DropGarbage(buf)
  {
    trimmed := buf;
    while |trimmed| > 0 && trimmed[0] != FRAME_BYTE
      invariant DropGarbage(trimmed) == DropGarbage(buf)
      decreases |trimmed|
    {
      DropGarbageSkips(trimmed);
      trimmed := trimmed[1..];
    }
    DropGarbageSynced(trimmed);
  }

  // ---------------------------------------------------------------------
  // The client object

  /** A command under construction; the caller leaves `seqNum` at 0 and the
      client stamps it. `body` stands for the command's other fields. */
  class Cmd {
    var seqNum: nat
    const body: seq<byte>

    constructor (seqNum: nat, body: seq<byte>)
      ensures this.seqNum == seqNum && this.body == body
    {
      this.seqNum := seqNum;
      this.body := body;
    }
  }

  datatype CmdError = SeqAlreadySet

  class Ikawa {
    var seqNum: nat
    var recvBuf: seq<byte>
    var respQueue: seq<Response>
    /** The schema's 'Response.FromString'; None where it raises. */
    const parse: seq<byte> -> Option<Response>
    /** The schema's 'SerializeToString' for a command with the given
        sequence number and other fields. */
    const serialize: (nat, seq<byte>) -> seq<byte>

    function State(): Receiver
      reads this
    {
      Receiver(seqNum, recvBuf, respQueue)
    }

    ghost predicate Valid()
      reads this
    {
      Synced(recvBuf) && Correlated(State())
    }

    constructor (parse: seq<byte> -> Option<Response>, serialize: (nat, seq<byte>) -> seq<byte>)
      ensures State() == INITIAL && Valid()
      ensures this.parse == parse && this.serialize == serialize
    {
      seqNum := 1;
      recvBuf := [];
      respQueue := [];
      this.parse := parse;
      this.serialize := serialize;
    }

    /** The notification callback: append, drop bytes before the first
        delimiter, and when the buffer may hold a whole frame decode it,
        match the sequence number and clear the buffer. */
    method OnNotify(data: seq<byte>) returns (outcome: Outcome)
      modifies this
      ensures Step(State(), outcome) == Notify(old(State()), data, parse)
      ensures Synced(recvBuf)
      ensures old(Valid()) ==> Valid()
    {
      ghost var before := State();
      recvBuf := recvBuf + data;
      recvBuf := TrimToDelimiter(recvBuf);
      ghost var buf := recvBuf;
      assert State() == before.(recvBuf := buf);
      outcome := HandleBuffer();
      HandleIgnoresBuffer(before, buf, buf, parse);
      NotifyTrimmed(before, data, buf, parse);
      if Correlated(before) {
        NotifyCorrelates(before, data, parse);
      }
    }

    /** The second half of the callback, on the trimmed buffer: wait for more
        bytes, or decode, parse, match the sequence number and clear the
        buffer whatever happens. */
    method HandleBuffer() returns (outcome: Outcome)
      modifies this
      ensures Step(State(), outcome) == Handle(old(State()), old(recvBuf), parse)
    {
      ghost var before := State();
      ghost var buf := recvBuf;
      if |recvBuf| > 3 && recvBuf[|recvBuf| - 1] == FRAME_BYTE {
        var decoded := DecodeFrame(recvBuf);
        recvBuf := [];
        if decoded.Err? {
          HandleRefused(before, buf, decoded.error, parse);
          outcome := FrameRejected(decoded.error);
        } else {
          HandleDecoded(before, buf, decoded.value, parse);
          var response := parse(decoded.value);
          if response.None? {
            outcome := ParseFailed;
          } else if response.value.seqNum == seqNum {
            CorrelateAccepts(before.(recvBuf := []), response.value);
            seqNum := seqNum + 1;
            respQueue := respQueue + [response.value];
            outcome := Accepted(response.value);
          } else {
            outcome := SeqMismatch(response.value.seqNum, seqNum);
          }
        }
      } else {
        HandleWaits(before, buf, parse);
        outcome := Buffered;
      }
    }

    /** Refuse a command whose sequence number is already set; otherwise
        stamp it with the expected number and give the frame to write. The
        expected number itself only moves when the matching reply arrives. */
    method SendCmd(cmd: Cmd) returns (r: Result<seq<byte>, CmdError>)
      modifies cmd
      ensures unchanged(this)
      ensures old(cmd.seqNum) != 0 ==> r == Err(SeqAlreadySet) && cmd.seqNum == old(cmd.seqNum)
      ensures old(cmd.seqNum) == 0 ==> cmd.seqNum == seqNum && r == Ok(FrameOf(serialize(seqNum, cmd.body)))
    {
      if cmd.seqNum != 0 {
        return Err(SeqAlreadySet);
      }
      cmd.seqNum := seqNum;
      var data := serialize(cmd.seqNum, cmd.body);
      var frame := EncodeFrame(data);
      return Ok(frame);
    }
  }
}
