/** HDLC-style framing of the roaster protocol: a payload and its checksum,
    each byte-stuffed, between two 0x7E delimiters. */
module Framing {
  import opened Crc

  const FRAME_BYTE: byte := 0x7E
  const ESCAPE_BYTE: byte := 0x7D

  /** The keys of the escape table: 0x7D and 0x7E. */
  predicate NeedsEscape(b: byte)
  {
    b == ESCAPE_BYTE || b == FRAME_BYTE
  }

  /** The escape table: 0x7D -> 0x5D, 0x7E -> 0x5E. */
  function EscapeMapping(b: byte): byte
    requires NeedsEscape(b)
  {
    if b == ESCAPE_BYTE then 0x5D else 0x5E
  }

  /** The keys of the unescape table: 0x5D and 0x5E. */
  predicate Unescapable(b: byte)
  {
    b == 0x5D || b == 0x5E
  }

  /** The unescape table: 0x5D -> 0x7D, 0x5E -> 0x7E. */
  function UnescapeMapping(b: byte): byte
    requires Unescapable(b)
  {
    if b == 0x5D then ESCAPE_BYTE else FRAME_BYTE
  }

  datatype Option<T> = None | Some(value: T)

  datatype Result<T, E> = Ok(value: T) | Err(error: E)

  /** Why a frame is refused: indexing an empty frame, a missing delimiter,
      an escape byte the unescape table does not know, a checksum that does
      not match. */
  datatype FrameError = EmptyFrame | InvalidFrameFormat | UnknownEscape | CrcCheckFailed

  // ---------------------------------------------------------------------
  // Escaping

  /** The bytes that stand for `b` inside a frame. */
  function EscapeByte(b: byte): seq<byte>
  {
    if NeedsEscape(b) then [ESCAPE_BYTE, EscapeMapping(b)] else [b]
  }

  /** How many bytes of `s` need an escape. */
  function Specials(s: seq<byte>): nat
  {
    if s == [] then 0 else (if NeedsEscape(s[0]) then 1 else 0) + Specials(s[1..])
  }

  /** `s` with every 0x7D and 0x7E replaced by its two-byte escape. */
  function Escape(s: seq<byte>): (r: seq<byte>)
    ensures |r| == |s| + Specials(s)
    ensures FRAME_BYTE !in r
  {
    if s == [] then [] else EscapeByte(s[0]) + Escape(s[1..])
  }

  lemma {:induction false} EscapeAppend(a: seq<byte>, b: seq<byte>)
    ensures Escape(a + b) == Escape(a) + Escape(b)
    decreases |a|
  {
    if a == [] {
      assert a + b == b;
    } else {
      assert (a + b)[0] == a[0] && (a + b)[1..] == a[1..] + b;
      EscapeAppend(a[1..], b);
    }
  }

  /** The source's loop: append the escape of each byte in turn. */
  method EscapeData(input: seq<byte>) returns (escaped: seq<byte>)
    ensures escaped == Escape(input)
  {
    escaped := [];
    for i := 0 to |input|
      invariant escaped == Escape(input[..i])
    {
      assert input[..i + 1] == input[..i] + [input[i]];
      EscapeAppend(input[..i], [input[i]]);
      if NeedsEscape(input[i]) {
        escaped := escaped + [ESCAPE_BYTE];
        escaped := escaped + [EscapeMapping(input[i])];
      } else {
        escaped := escaped + [input[i]];
      }
    }
    assert input[..|input|] == input;
  }

  // ---------------------------------------------------------------------
  // Unescaping

  /** `p` in front of a successful result; failure stays failure. */
  function Prefixed(p: seq<byte>, r: Option<seq<byte>>): Option<seq<byte>>
  {
    match r
    case None => None
    case Some(t) => Some(p + t)
  }

  lemma PrefixedAppend(p: seq<byte>, q: seq<byte>, r: Option<seq<byte>>)
    ensures Prefixed(p, Prefixed(q, r)) == Prefixed(p + q, r)
  {
    if r.Some? {
      assert p + (q + r.value) == (p + q) + r.value;
    }
  }

  /** Scan `s` left to right; an escape byte takes the next byte through the
      unescape table, and fails when there is no next byte or the table has
      no entry for it. Every other byte, 0x7E included, is kept as it is. */
  function Unescape(s: seq<byte>): (r: Option<seq<byte>>)
    ensures r.Some? ==> |r.value| <= |s|
    ensures ESCAPE_BYTE !in s ==> r == Some(s)
    decreases |s|
  {
    if s == [] then Some([])
    else if s[0] == ESCAPE_BYTE then
      if |s| < 2 || !Unescapable(s[1]) then None
      else Prefixed([UnescapeMapping(s[1])], Unescape(s[2..]))
    else
      assert [s[0]] + s[1..] == s;
      Prefixed([s[0]], Unescape(s[1..]))
  }

  /** Unescaping undoes escaping, for every byte sequence. */
  lemma {:induction false} UnescapeEscape(s: seq<byte>)
    ensures Unescape(Escape(s)) == Some(s)
    decreases |s|
  {
    if s != [] {
      var e, rest := EscapeByte(s[0]), Escape(s[1..]);
      assert Escape(s) == e + rest;
      UnescapeEscape(s[1..]);
      if NeedsEscape(s[0]) {
        assert (e + rest)[0] == ESCAPE_BYTE && (e + rest)[1] == EscapeMapping(s[0]);
        assert (e + rest)[2..] == rest;
      } else {
        assert (e + rest)[0] == s[0] && (e + rest)[1..] == rest;
      }
      assert [s[0]] + s[1..] == s;
    }
  }

  /** The source's loop, with the iterator as an index: on an escape byte it
      takes one more byte. */
  method UnescapeData(input: seq<byte>) returns (r: Option<seq<byte>>)
    ensures r == Unescape(input)
  {
    var unescaped: seq<byte> := [];
    var i := 0;
    assert input[i..] == input;
    assert Prefixed(unescaped, Unescape(input)) == Unescape(input) by {
      if Unescape(input).Some? {
        assert unescaped + Unescape(input).value == Unescape(input).value;
      }
    }
    while i < |input|
      invariant 0 <= i <= |input|
      invariant Unescape(input) == Prefixed(unescaped, Unescape(input[i..]))
    {
      var rest := input[i..];
      if input[i] == ESCAPE_BYTE {
        if i + 1 == |input| || !Unescapable(input[i + 1]) {
          return None;
        }
        assert rest[2..] == input[i + 2..];
        PrefixedAppend(unescaped, [UnescapeMapping(input[i + 1])], Unescape(input[i + 2..]));
        unescaped := unescaped + [UnescapeMapping(input[i + 1])];
        i := i + 2;
      } else {
        assert rest[1..] == input[i + 1..];
        PrefixedAppend(unescaped, [input[i]], Unescape(input[i + 1..]));
        unescaped := unescaped + [input[i]];
        i := i + 1;
      }
    }
    assert input[i..] == [];
    assert unescaped + [] == unescaped;
    return Some(unescaped);
  }

  // ---------------------------------------------------------------------
  // Frames

  /** `f` begins and ends with the delimiter. */
  predicate Delimited(f: seq<byte>)
  {
    |f| > 0 && f[0] == FRAME_BYTE && f[|f| - 1] == FRAME_BYTE
  }

  /** `f` without its first and last byte ('f[1:-1]'; empty when |f| < 2). */
  function Inner(f: seq<byte>): (r: seq<byte>)
    ensures |f| >= 2 ==> f == [f[0]] + r + [f[|f| - 1]]
  {
    if |f| >= 2 then f[1..|f| - 1] else []
  }

  /** The frame that carries `data`: at least the two delimiters and the
      two checksum bytes. */
  function FrameOf(data: seq<byte>): (r: seq<byte>)
    ensures Delimited(r) && |r| >= |data| + 4
  {
    [FRAME_BYTE] + Escape(data) + Escape(CrcOf(data, CRC_INIT)) + [FRAME_BYTE]
  }

  /** Where the trailing checksum starts ('u[:-2]' / 'u[-2:]'). */
  function CrcCut(u: seq<byte>): nat
  {
    if |u| >= 2 then |u| - 2 else 0
  }

  /** What the decoder makes of the bytes `f`. An accepted frame is
      delimited and at least four bytes longer than its payload. */
  function Decode(f: seq<byte>): (r: Result<seq<byte>, FrameError>)
    ensures r.Ok? ==> Delimited(f) && |r.value| + 4 <= |f|
  {
    if |f| == 0 then Err(EmptyFrame)
    else if f[0] != FRAME_BYTE || f[|f| - 1] != FRAME_BYTE then Err(InvalidFrameFormat)
    else
      match Unescape(Inner(f))
      case None => Err(UnknownEscape)
      case Some(u) =>
        var cut := CrcCut(u);
        if u[cut..] != CrcOf(u[..cut], CRC_INIT) then Err(CrcCheckFailed) else Ok(u[..cut])
  }

  /** `u` ends in the checksum of what comes before it. */
  predicate HasCrcTail(u: seq<byte>)
  {
    |u| >= 2 && u[|u| - 2..] == CrcOf(u[..|u| - 2], CRC_INIT)
  }

  method EncodeFrame(data: seq<byte>) returns (frame: seq<byte>)
    ensures frame == FrameOf(data)
    ensures Delimited(frame)
  {
    var crc := Crc16(data, CRC_INIT);
    var escapedData := EscapeData(data);
    var escapedCrc := EscapeData(crc);
    frame := [FRAME_BYTE] + escapedData + escapedCrc + [FRAME_BYTE];
  }

  method DecodeFrame(framedData: seq<byte>) returns (r: Result<seq<byte>, FrameError>)
    ensures r == Decode(framedData)
  {
    if |framedData| == 0 {
      return Err(EmptyFrame);
    }
    if framedData[0] != FRAME_BYTE || framedData[|framedData| - 1] != FRAME_BYTE {
      return Err(InvalidFrameFormat);
    }
    var dataWithCrcEscaped := if |framedData| >= 2 then framedData[1..|framedData| - 1] else [];
    var unescaped := UnescapeData(dataWithCrcEscaped);
    if unescaped.None? {
      return Err(UnknownEscape);
    }
    var dataWithCrc := unescaped.value;
    var cut := if |dataWithCrc| >= 2 then |dataWithCrc| - 2 else 0;
    var data := dataWithCrc[..cut];
    var receivedCrc := dataWithCrc[cut..];
    var calculatedCrc := Crc16(data, CRC_INIT);
    if receivedCrc != calculatedCrc {
      return Err(CrcCheckFailed);
    }
    return Ok(data);
  }

  // ---------------------------------------------------------------------
  // Properties

  /** An encoded frame starts and ends with the delimiter, has none in
      between, and is four bytes longer than the payload, plus one byte for
      every payload or checksum byte that needed an escape. */
  lemma FrameShape(data: seq<byte>)
    ensures Delimited(FrameOf(data))
    ensures forall i :: 0 < i < |FrameOf(data)| - 1 ==> FrameOf(data)[i] != FRAME_BYTE
    ensures |FrameOf(data)| == |data| + 4 + Specials(data) + Specials(CrcOf(data, CRC_INIT))
  {
    var f := FrameOf(data);
    var body := Escape(data) + Escape(CrcOf(data, CRC_INIT));
    assert f == [FRAME_BYTE] + body + [FRAME_BYTE];
    forall i | 0 < i < |f| - 1
      ensures f[i] != FRAME_BYTE
    {
      assert f[i] == body[i - 1];
    }
  }

  /** Decoding an encoded frame gives back the payload, whatever bytes it holds. */
  lemma DecodeEncode(data: seq<byte>)
    ensures Decode(FrameOf(data)) == Ok(data)
  {
    var u := data + CrcOf(data, CRC_INIT);
    FrameOfWraps(data);
    InnerWrapped(Escape(u));
    UnescapeEscape(u);
    DecodeAccepts(FrameOf(data), data);
  }

  /** A frame is the escape of payload-then-checksum between two delimiters. */
  lemma FrameOfWraps(data: seq<byte>)
    ensures FrameOf(data) == [FRAME_BYTE] + Escape(data + CrcOf(data, CRC_INIT)) + [FRAME_BYTE]
  {
    EscapeAppend(data, CrcOf(data, CRC_INIT));
  }

  lemma InnerWrapped(x: seq<byte>)
    ensures Inner([FRAME_BYTE] + x + [FRAME_BYTE]) == x
  {
    var f := [FRAME_BYTE] + x + [FRAME_BYTE];
    assert f[1..|f| - 1] == x;
  }

  /** The decoder accepts `f` with payload `d` exactly when `f` is delimited
      and its inside unescapes to `d` followed by the checksum of `d`. */
  lemma DecodeAccepts(f: seq<byte>, d: seq<byte>)
    ensures Decode(f) == Ok(d) <==> Delimited(f) && Unescape(Inner(f)) == Some(d + CrcOf(d, CRC_INIT))
  {
    if Delimited(f) && Unescape(Inner(f)).Some? {
      var u := Unescape(Inner(f)).value;
      var cut := CrcCut(u);
      if u == d + CrcOf(d, CRC_INIT) {
        assert u[..cut] == d && u[cut..] == CrcOf(d, CRC_INIT);
      }
      if Decode(f) == Ok(d) {
        assert u == u[..cut] + u[cut..];
      }
    }
  }

  /** The four ways the decoder refuses a frame, each exactly characterised. */
  lemma DecodeRefuses(f: seq<byte>)
    ensures Decode(f) == Err(EmptyFrame) <==> f == []
    ensures Decode(f) == Err(InvalidFrameFormat) <==> f != [] && !Delimited(f)
    ensures Decode(f) == Err(UnknownEscape) <==> Delimited(f) && Unescape(Inner(f)) == None
    ensures Decode(f) == Err(CrcCheckFailed) <==>
      Delimited(f) && Unescape(Inner(f)).Some? && !HasCrcTail(Unescape(Inner(f)).value)
  {
    if Delimited(f) && Unescape(Inner(f)).Some? {
      var u := Unescape(Inner(f)).value;
      if |u| < 2 {
        assert |u[CrcCut(u)..]| < 2;
      }
    }
  }

  /** A delimiter left over in front of a frame ends up inside the payload:
      the frame then decodes only if the checksum happens not to notice. */
  lemma DecodeAfterStrayFlag(data: seq<byte>)
    ensures Decode([FRAME_BYTE] + FrameOf(data)) ==
      if CrcOf([FRAME_BYTE] + data, CRC_INIT) == CrcOf(data, CRC_INIT)
      then Ok([FRAME_BYTE] + data)
      else Err(CrcCheckFailed)
  {
    var crc := CrcOf(data, CRC_INIT);
    StrayFlagUnescapes(data);
    var u := [FRAME_BYTE] + (data + crc);
    assert u[..CrcCut(u)] == [FRAME_BYTE] + data && u[CrcCut(u)..] == crc;
  }

  lemma StrayFlagUnescapes(data: seq<byte>)
    ensures Delimited([FRAME_BYTE] + FrameOf(data))
    ensures Unescape(Inner([FRAME_BYTE] + FrameOf(data))) ==
      Some([FRAME_BYTE] + (data + CrcOf(data, CRC_INIT)))
  {
    var crc := CrcOf(data, CRC_INIT);
    var body := Escape(data + crc);
    var g := [FRAME_BYTE] + body;
    FrameOfWraps(data);
    assert [FRAME_BYTE] + FrameOf(data) == [FRAME_BYTE] + g + [FRAME_BYTE];
    InnerWrapped(g);
    UnescapeEscape(data + crc);
    assert g[1..] == body;
  }

  /** The payload '01 02' needs no escapes: its frame is '7E 01 02 CA 72 7E'. */
  lemma FrameOfOneTwo()
    ensures FrameOf([0x01, 0x02]) == [0x7E, 0x01, 0x02, 0xCA, 0x72, 0x7E]
  {
    CrcOfOneTwo();
    assert Escape([0xCA, 0x72]) == [0xCA, 0x72];
    assert Escape([0x01, 0x02]) == [0x01, 0x02];
  }
}
