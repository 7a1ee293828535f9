/** The versioned frame envelope around an encoded value, and frames on a stream. */
module Frames {
  import opened Bytes
  import opened ByteStreams
  import opened BigEndian
  import opened Values
  import opened BinaryCodec
  import opened Sequences

  const MAGIC: Bytes := ['S' as int, 'L' as int, 'V' as int, '2' as int]
  const VERSION: nat := 2
  const HEADER_SIZE: nat := 24

  /** The CRC, of which nothing is assumed. */
  type Crc = Bytes -> nat

  datatype Frame = Frame(kind: int, requestId: int, payload: Value)

  function Checksum(crc: Crc, body: Bytes): (c: nat)
    ensures c < U32
  {
    crc(body) % U32
  }

  /** Magic, version, kind, flags, request id, body size, checksum. */
  function Header(kind: nat, flags: nat, requestId: nat, size: nat, checksum: nat): (b: Bytes)
    requires kind < 256 && flags < 65536 && requestId < U64 && size < U32 && checksum < U32
    ensures |b| == HEADER_SIZE
  {
    Ranges();
    MAGIC + [VERSION, kind] + Write(flags, 2) + Write(requestId, 8) + Write(size, 4) + Write(checksum, 4)
  }

  function EncodeFrame(crc: Crc, f: Frame): Result<Bytes> {
    match EncodeValue(f.payload, 0)
    case Error(e) => Error(e)
    case Ok(body) =>
      if |body| > MAX_FRAME_BYTES then Error(FrameError)
      else if !(0 <= f.kind < 256 && 0 <= f.requestId < U64) then Error(OutOfRange)
      else Ok(Header(f.kind, 0, f.requestId, |body|, Checksum(crc, body)) + body)
  }

  /** The header's fields, whatever they are. */
  datatype Fields = Fields(magic: Bytes, version: nat, kind: nat, flags: nat, requestId: nat, size: nat, checksum: nat)

  function Unpack(h: Bytes): Fields
    requires |h| == HEADER_SIZE
  {
    Fields(h[..4], h[4], h[5], Read(h[6..8]), Read(h[8..16]), Read(h[16..20]), Read(h[20..24]))
  }

  predicate Supported(h: Fields) {
    h.magic == MAGIC && h.version == VERSION && h.flags == 0
  }

  function DecodeFrame(crc: Crc, data: Bytes): Result<Frame> {
    if |data| < HEADER_SIZE then Error(FrameError)
    else
      var h := Unpack(data[..HEADER_SIZE]);
      if !Supported(h) then Error(FrameError)
      else if h.size > MAX_FRAME_BYTES || |data| != HEADER_SIZE + h.size then Error(FrameError)
      else
        var body := data[HEADER_SIZE..];
        if Checksum(crc, body) != h.checksum then Error(FrameError)
        else
          match DecodeValue(body)
          case Error(e) => Error(e)
          case Ok(v) => Ok(Frame(h.kind, h.requestId, v))
  }

  /** What reading one frame off a stream gives. */
  datatype FrameRead = EndOfStream | OneFrame(frame: Frame, rest: Bytes) | BadFrame

  function NextFrame(crc: Crc, b: Bytes): (r: FrameRead)
    ensures r.OneFrame? ==> |r.rest| < |b|
  {
    if b == [] then EndOfStream
    else if |b| < HEADER_SIZE then BadFrame
    else
      var h, rest := Unpack(b[..HEADER_SIZE]), b[HEADER_SIZE..];
      if !Supported(h) || h.size > MAX_FRAME_BYTES || |rest| < h.size then BadFrame
      else if Checksum(crc, rest[..h.size]) != h.checksum then BadFrame
      else
        match DecodeValue(rest[..h.size])
        case Error(_) => BadFrame
        case Ok(v) => OneFrame(Frame(h.kind, h.requestId, v), rest[h.size..])
  }

  /** What every frame begins with. */
  predicate Supports(data: Bytes) {
    && |data| >= 24
    && data[0] == 'S' as int && data[1] == 'L' as int && data[2] == 'V' as int && data[3] == '2' as int
    && data[4] == 2 && data[6] == 0 && data[7] == 0
    && Read(data[16..20]) <= 8388608
  }

  /** A frame is accepted exactly if its bytes are those of a frame: the magic, version 2, no flags, a
      size of at most eight mebibytes that is that of the body, the checksum of the body, and a value
      in it. Its kind is the sixth byte and its id the next eight after the flags. */
  lemma DecodesIff(crc: Crc, data: Bytes)
    ensures DecodeFrame(crc, data).Ok? <==>
      && Supports(data) && |data| == 24 + Read(data[16..20])
      && Read(data[20..24]) == crc(data[24..]) % 0x1_0000_0000
      && DecodeValue(data[24..]).Ok?
    ensures DecodeFrame(crc, data).Ok? ==>
      DecodeFrame(crc, data) == Ok(Frame(data[5], Read(data[8..16]), DecodeValue(data[24..]).value))
    ensures DecodeFrame(crc, data).Error? ==> DecodeFrame(crc, data).failure == FrameError
  {
    hide DecodeValue;
    DecodeFails(data);
    if |data| >= 24 {
      SupportedIff(data);
    }
  }

  lemma DecodeFails(data: Bytes)
    ensures |data| >= 24 && DecodeValue(data[24..]).Error? ==> DecodeValue(data[24..]).failure == FrameError
  {
  }

  lemma SupportedIff(data: Bytes)
    requires |data| >= 24
    ensures var h := Unpack(data[..24]);
      && (Supported(h) && h.size <= MAX_FRAME_BYTES <==> Supports(data))
      && h.kind == data[5] && h.requestId == Read(data[8..16])
      && h.size == Read(data[16..20]) && h.checksum == Read(data[20..24])
  {
    var h := data[..24];
    assert h[8..16] == data[8..16] && h[16..20] == data[16..20] && h[20..24] == data[20..24];
    assert h[..4] == MAGIC <==> h[0] == MAGIC[0] && h[1] == MAGIC[1] && h[2] == MAGIC[2] && h[3] == MAGIC[3];
    ReadTwo(h[6], h[7]);
    assert h[6..8] == [h[6], h[7]];
  }

  lemma ReadTwo(a: byte, b: byte)
    ensures Read([a, b]) == a * 256 + b
  {
    assert [a, b][..1] == [a] && [a][..0] == [];
    assert Read([a]) == Read([]) * 256 + a;
  }

  /** The bytes of a frame that is written. */
  lemma EncodedAt(crc: Crc, f: Frame)
    requires EncodeFrame(crc, f).Ok?
    ensures EncodeValue(f.payload, 0).Ok? && 0 <= f.kind < 256 && 0 <= f.requestId < 0x1_0000_0000_0000_0000
    ensures var (data, body) := (EncodeFrame(crc, f).value, EncodeValue(f.payload, 0).value);
      && Supports(data) && data[5] == f.kind && Read(data[8..16]) == f.requestId
      && Read(data[16..20]) == |body| && Read(data[20..24]) == crc(body) % 0x1_0000_0000 && data[24..] == body
  {
    var body := EncodeValue(f.payload, 0).value;
    hide EncodeValue;
    UnpackHeader(f.kind, 0, f.requestId, |body|, Checksum(crc, body), body);
    hide Header, Unpack;
    SupportedIff(EncodeFrame(crc, f).value);
  }

  /** What cannot be written: a payload that cannot, a body of more than eight mebibytes, and then a
      kind that is no byte or an id that is no unsigned 64-bit integer. */
  lemma EncodesIff(crc: Crc, f: Frame)
    ensures EncodeFrame(crc, f).Ok? <==>
      && EncodeValue(f.payload, 0).Ok? && |EncodeValue(f.payload, 0).value| <= 8388608
      && 0 <= f.kind <= 255 && 0 <= f.requestId <= 18446744073709551615
    ensures EncodeFrame(crc, f).Error? ==>
      EncodeFrame(crc, f).failure ==
        if EncodeValue(f.payload, 0).Error? then EncodeValue(f.payload, 0).failure
        else if |EncodeValue(f.payload, 0).value| > 8388608 then FrameError
        else OutOfRange
  {
    hide EncodeValue, Header;
  }

  // ---------------------------------------------------------------- reading a stream

  method ReadFrame(crc: Crc, stream: ByteStream) returns (r: Result<Frame>, ended: bool)
    requires stream.pos <= |stream.data|
    modifies stream
    ensures stream.pos <= |stream.data|
    ensures match NextFrame(crc, old(stream.Rest()))
            case EndOfStream => ended
            case BadFrame => !ended && r == Error(FrameError)
            case OneFrame(f, rest) => !ended && r == Ok(f) && stream.Rest() == rest
  {
    hide DecodeValue;
    var header := stream.Read(HEADER_SIZE);
    if header == [] {
      return Error(FrameError), true;
    }
    if |header| != HEADER_SIZE {
      return Error(FrameError), false;
    }
    var h := Unpack(header);
    if !Supported(h) || h.size > MAX_FRAME_BYTES {
      return Error(FrameError), false;
    }
    var body := stream.Read(h.size);
    if |body| != h.size || Checksum(crc, body) != h.checksum {
      return Error(FrameError), false;
    }
    var v := Decode(body);
    if v.Error? {
      return Error(FrameError), false;
    }
    return Ok(Frame(h.kind, h.requestId, v.value)), false;
  }

  // ---------------------------------------------------------------- frames written are frames read

  lemma HeaderParts(magic: Bytes, version: byte, kind: byte, a: Bytes, b: Bytes, c: Bytes, d: Bytes)
    requires |magic| == 4 && |a| == 2 && |b| == 8 && |c| == 4 && |d| == 4
    ensures var h := magic + [version, kind] + a + b + c + d;
      && |h| == 24 && h[..4] == magic && h[4] == version && h[5] == kind
      && h[6..8] == a && h[8..16] == b && h[16..20] == c && h[20..24] == d
  {
    var front := magic + [version, kind];
    var h := front + a + b + c + d;
    assert h == front + (a + b + c + d) && front[..4] == magic;
    assert h[6..8] == a;
    assert h[8..16] == b;
    assert h[16..20] == c;
    assert h[20..24] == d;
  }

  lemma UnpackHeader(kind: nat, flags: nat, requestId: nat, size: nat, checksum: nat, rest: Bytes)
    requires kind < 256 && flags < 65536 && requestId < U64 && size < U32 && checksum < U32
    ensures var b := Header(kind, flags, requestId, size, checksum) + rest;
      && Unpack(b[..HEADER_SIZE]) == Fields(MAGIC, VERSION, kind, flags, requestId, size, checksum)
      && b[HEADER_SIZE..] == rest
  {
    Ranges();
    ReadWrite(flags, 2);
    ReadWrite(requestId, 8);
    ReadWrite(size, 4);
    ReadWrite(checksum, 4);
    hide Write, Range;
    var h := Header(kind, flags, requestId, size, checksum);
    assert (h + rest)[..HEADER_SIZE] == h && (h + rest)[HEADER_SIZE..] == rest;
    HeaderParts(MAGIC, VERSION, kind, Write(flags, 2), Write(requestId, 8), Write(size, 4), Write(checksum, 4));
  }

  /** The writer accepts the frame. */
  predicate Written(crc: Crc, f: Frame) {
    IsDict(f.payload) && EncodeFrame(crc, f).Ok?
  }

  predicate AllWritten(crc: Crc, fs: seq<Frame>) {
    fs == [] || (Written(crc, fs[0]) && AllWritten(crc, fs[1..]))
  }

  /** The reader will take it too: it bounds the values of a payload in all. */
  predicate Readable(f: Frame) {
    Nodes(f.payload) <= MAX_ITEMS
  }

  /** The frames before the first that the reader will not take. */
  function UntilUnreadable(fs: seq<Frame>): (r: seq<Frame>)
    ensures |r| <= |fs| && (|r| == |fs| ==> r == fs)
  {
    if fs == [] || !Readable(fs[0]) then [] else [fs[0]] + UntilUnreadable(fs[1..])
  }

  /** A frame as it arrives: its payload canonical. */
  function Arrives(f: Frame): Frame {
    f.(payload := Canon(f.payload))
  }

  /** A written frame on the stream is read back, with reading stopped just behind it, exactly if it
      is readable; else it is refused. */
  lemma NextOfEncoded(crc: Crc, f: Frame, rest: Bytes)
    requires Written(crc, f)
    ensures NextFrame(crc, EncodeFrame(crc, f).value + rest) ==
      if Readable(f) then OneFrame(Arrives(f), rest) else BadFrame
  {
    hide DecodeValue, Header, Unpack;
    var body := EncodeValue(f.payload, 0).value;
    RoundTrip(f.payload);
    var header := Header(f.kind, 0, f.requestId, |body|, Checksum(crc, body));
    UnpackHeader(f.kind, 0, f.requestId, |body|, Checksum(crc, body), body + rest);
    assert header + body + rest == header + (body + rest);
    assert (body + rest)[..|body|] == body && (body + rest)[|body|..] == rest;
  }

  function WriteAll(crc: Crc, fs: seq<Frame>): Bytes
    requires AllWritten(crc, fs)
  {
    if fs == [] then [] else EncodeFrame(crc, fs[0]).value + WriteAll(crc, fs[1..])
  }

  /** Reading frames until the stream ends, or until one is bad. */
  datatype Session = Complete(frames: seq<Frame>) | Broken(frames: seq<Frame>)

  function ReadAll(crc: Crc, b: Bytes): Session
    decreases |b|
  {
    match NextFrame(crc, b)
    case EndOfStream => Complete([])
    case BadFrame => Broken([])
    case OneFrame(f, rest) =>
      var more := ReadAll(crc, rest);
      more.(frames := [f] + more.frames)
  }

  function AllArrive(fs: seq<Frame>): seq<Frame> {
    if fs == [] then [] else [Arrives(fs[0])] + AllArrive(fs[1..])
  }

  /** Frames written one after another are read back as exactly those frames, and then the end, if
      all are readable; else as those before the first that is not, and then an error. */
  lemma {:induction false} ReadAllWritten(crc: Crc, fs: seq<Frame>)
    requires AllWritten(crc, fs)
    ensures var taken := UntilUnreadable(fs);
      ReadAll(crc, WriteAll(crc, fs)) ==
      if |taken| == |fs| then Complete(AllArrive(fs)) else Broken(AllArrive(taken))
  {
    if fs != [] {
      hide NextFrame, EncodeFrame, Arrives;
      NextOfEncoded(crc, fs[0], WriteAll(crc, fs[1..]));
      ReadAllWritten(crc, fs[1..]);
    }
  }

  /** A stream cut inside a frame is reported as broken, after the frames before the cut. */
  lemma {:induction false} ReadAllCut(crc: Crc, fs: seq<Frame>, last: Frame, n: nat)
    requires AllWritten(crc, fs) && UntilUnreadable(fs) == fs
    requires Written(crc, last) && 0 < n < |EncodeFrame(crc, last).value|
    ensures ReadAll(crc, WriteAll(crc, fs) + EncodeFrame(crc, last).value[..n]) == Broken(AllArrive(fs))
  {
    var tail := EncodeFrame(crc, last).value[..n];
    if fs == [] {
      assert WriteAll(crc, fs) + tail == tail;
      CutFrameIsBad(crc, last, n);
    } else {
      hide NextFrame, EncodeFrame, Arrives;
      NextOfEncoded(crc, fs[0], WriteAll(crc, fs[1..]) + tail);
      Associate(EncodeFrame(crc, fs[0]).value, WriteAll(crc, fs[1..]), tail);
      ReadAllCut(crc, fs[1..], last, n);
    }
  }

  lemma CutFrameIsBad(crc: Crc, f: Frame, n: nat)
    requires Written(crc, f) && 0 < n < |EncodeFrame(crc, f).value|
    ensures NextFrame(crc, EncodeFrame(crc, f).value[..n]).BadFrame?
  {
    hide DecodeValue, Header, Unpack;
    var body := EncodeValue(f.payload, 0).value;
    var whole := EncodeFrame(crc, f).value;
    if n >= HEADER_SIZE {
      UnpackHeader(f.kind, 0, f.requestId, |body|, Checksum(crc, body), body);
      assert whole[..n][..HEADER_SIZE] == whole[..HEADER_SIZE];
    }
  }

  /** Decoding a whole buffer and reading it off a stream agree. */
  lemma DecodeIsNextAlone(crc: Crc, data: Bytes, f: Frame)
    ensures DecodeFrame(crc, data) == Ok(f) <==> NextFrame(crc, data) == OneFrame(f, [])
  {
    hide DecodeValue, Unpack;
    if |data| >= HEADER_SIZE {
      var h, rest := Unpack(data[..HEADER_SIZE]), data[HEADER_SIZE..];
      if h.size <= |rest| {
        assert rest[h.size..] == [] <==> |rest| == h.size;
        if |rest| == h.size { assert rest[..h.size] == rest; }
      }
    }
  }
}
