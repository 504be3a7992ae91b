/** The exec stream: frames of one tag byte, a big-endian u32 length and a payload. */
module ExecStream {
  import opened Wrappers
  import opened Bytes

  const CHUNK_SIZE := 0x1_0000
  const MAX_REQUEST_SIZE := 0x10_0000

  datatype Frame =
    | Stdin(data: Bytes)
    | StdinEof
    | Stdout(data: Bytes)
    | Stderr(data: Bytes)
    | Exit(code: Byte)
    | Error(text: Bytes)

  predicate Continues(b: Byte) {
    0x80 <= b < 0xc0
  }

  /** Well-formed UTF-8 (RFC 3629, section 4), which `String::from_utf8` checks. */
  predicate ValidUtf8(s: Bytes)
    decreases |s|
  {
    if s == [] then true
    else if s[0] < 0x80 then ValidUtf8(s[1..])
    else if |s| < 2 || s[0] < 0xc2 || s[0] > 0xf4 then false
    else if s[0] < 0xe0 then Continues(s[1]) && ValidUtf8(s[2..])
    else if |s| < 3 then false
    else if s[0] < 0xf0 then
      (if s[0] == 0xe0 then 0xa0 <= s[1] < 0xc0 else if s[0] == 0xed then 0x80 <= s[1] < 0xa0 else Continues(s[1]))
      && Continues(s[2]) && ValidUtf8(s[3..])
    else
      |s| >= 4
      && (if s[0] == 0xf0 then 0x90 <= s[1] < 0xc0 else if s[0] == 0xf4 then 0x80 <= s[1] < 0x90 else Continues(s[1]))
      && Continues(s[2]) && Continues(s[3]) && ValidUtf8(s[4..])
  }

  function Tag(f: Frame): Byte {
    match f
    case Stdin(_) => 1
    case StdinEof => 2
    case Stdout(_) => 3
    case Stderr(_) => 4
    case Exit(_) => 5
    case Error(_) => 6
  }

  function Payload(f: Frame): Bytes {
    match f
    case Stdin(d) => d
    case StdinEof => []
    case Stdout(d) => d
    case Stderr(d) => d
    case Exit(c) => [c]
    case Error(t) => t
  }

  /** `Frame::encode`; the length is truncated to 32 bits. */
  function Encode(f: Frame): (r: Bytes)
    ensures |r| == 5 + |Payload(f)|
  {
    [Tag(f)] + BigEndian(|Payload(f)|, 4) + Payload(f)
  }

  /** The text of an error frame is a `String`. */
  predicate IsFrame(f: Frame) {
    f.Error? ==> ValidUtf8(f.text)
  }

  datatype Problem = UnexpectedEof | TooLarge | InvalidFrame | NotUtf8

  datatype Result<T> = Ok(value: T, rest: Bytes) | Err(problem: Problem)

  datatype Read = End | Got(frame: Frame, rest: Bytes) | Failed(problem: Problem)

  function ParsePayload(bs: Bytes, limit: nat): Result<Bytes> {
    if |bs| < 4 then Err(UnexpectedEof)
    else
      var n := FromBigEndian(bs[..4]);
      if n > limit then Err(TooLarge)
      else if |bs| < 4 + n then Err(UnexpectedEof)
      else Ok(bs[4..4 + n], bs[4 + n..])
  }

  function FrameOf(tag: Byte, p: Bytes, rest: Bytes): Read {
    if tag == 1 then Got(Stdin(p), rest)
    else if tag == 2 && p == [] then Got(StdinEof, rest)
    else if tag == 3 then Got(Stdout(p), rest)
    else if tag == 4 then Got(Stderr(p), rest)
    else if tag == 5 && |p| == 1 then Got(Exit(p[0]), rest)
    else if tag == 6 then (if ValidUtf8(p) then Got(Error(p), rest) else Failed(NotUtf8))
    else Failed(InvalidFrame)
  }

  function Parse(bs: Bytes): Read {
    if bs == [] then End
    else
      var p := ParsePayload(bs[1..], CHUNK_SIZE);
      if p.Err? then Failed(p.problem) else FrameOf(bs[0], p.value, p.rest)
  }

  // ---- the reader ----------------------------------------------------------

  /** An `AsyncRead` over the bytes still to come. */
  class Reader {
    var rest: Bytes

    constructor (bytes: Bytes)
      ensures rest == bytes
    {
      rest := bytes;
    }

    /** `read_exact`: nothing when the stream ends first. */
    method ReadExact(n: nat) returns (r: Option<Bytes>)
      modifies this
      ensures if |old(rest)| < n then r.None? else r == Some(old(rest)[..n]) && rest == old(rest)[n..]
    {
      if |rest| < n {
        rest := [];
        return None;
      }
      r := Some(rest[..n]);
      rest := rest[n..];
    }

    method ReadPayload(limit: nat) returns (r: Result<Bytes>)
      modifies this
      ensures r == ParsePayload(old(rest), limit)
      ensures r.Ok? ==> rest == r.rest
    {
      var head := ReadExact(4);
      if head.None? {
        return Err(UnexpectedEof);
      }
      var n := FromBigEndian(head.value);
      assert forall k :: 0 <= k <= |rest| ==> rest[..k] == old(rest)[4..4 + k] && rest[k..] == old(rest)[4 + k..];
      if n > limit {
        return Err(TooLarge);
      }
      var body := ReadExact(n);
      if body.None? {
        return Err(UnexpectedEof);
      }
      return Ok(body.value, rest);
    }

    method ReadFrame() returns (r: Read)
      modifies this
      ensures r == Parse(old(rest))
      ensures r.Got? ==> rest == r.rest
    {
      var tag := ReadExact(1);
      if tag.None? {
        return End;
      }
      var p := ReadPayload(CHUNK_SIZE);
      if p.Err? {
        return Failed(p.problem);
      }
      return FrameOf(tag.value[0], p.value, p.rest);
    }
  }

  // ---- codec laws ----------------------------------------------------------

  lemma PayloadRoundTrip(p: Bytes, rest: Bytes, limit: nat)
    requires |p| < 0x1_0000_0000
    ensures ParsePayload(BigEndian(|p|, 4) + p + rest, limit) == if |p| <= limit then Ok(p, rest) else Err(TooLarge)
  {
    hide BigEndian, FromBigEndian;
    var bs := BigEndian(|p|, 4) + p + rest;
    assert bs[..4] == BigEndian(|p|, 4) && bs[4..4 + |p|] == p && bs[4 + |p|..] == rest;
    assert Power256(4) == 0x1_0000_0000;
    BigEndianRoundTrip(|p|, 4);
  }

  lemma PayloadAccepted(bs: Bytes, limit: nat)
    requires ParsePayload(bs, limit).Ok?
    ensures var r := ParsePayload(bs, limit);
            |r.value| <= limit && bs == BigEndian(|r.value|, 4) + r.value + r.rest
  {
    FromBigEndianRoundTrip(bs[..4]);
  }

  /** Reading accepts exactly the encodings of frames of at most 64 KiB, and returns
      the frame and the bytes behind it. */
  lemma ParseIff(bs: Bytes, f: Frame, rest: Bytes)
    ensures Parse(bs) == Got(f, rest) <==> bs == Encode(f) + rest && |Payload(f)| <= 65536 && IsFrame(f)
  {
    hide ParsePayload, BigEndian, FrameOf, Payload, Tag, ValidUtf8;
    if Parse(bs) == Got(f, rest) {
      PayloadAccepted(bs[1..], CHUNK_SIZE);
      var p := ParsePayload(bs[1..], CHUNK_SIZE);
      FrameOfIff(bs[0], p.value, p.rest, f, rest);
      assert bs == [bs[0]] + (BigEndian(|p.value|, 4) + p.value + p.rest) == Encode(f) + rest;
    }
    if bs == Encode(f) + rest && |Payload(f)| <= CHUNK_SIZE && IsFrame(f) {
      assert bs[1..] == BigEndian(|Payload(f)|, 4) + Payload(f) + rest;
      PayloadRoundTrip(Payload(f), rest, CHUNK_SIZE);
      FrameOfIff(bs[0], Payload(f), rest, f, rest);
    }
  }

  lemma FrameOfIff(tag: Byte, p: Bytes, after: Bytes, f: Frame, rest: Bytes)
    ensures FrameOf(tag, p, after) == Got(f, rest) <==> tag == Tag(f) && p == Payload(f) && after == rest && IsFrame(f)
  {
    hide ValidUtf8;
    if f.Exit? && |p| == 1 {
      assert p == [p[0]];
    }
  }

  /** A stream cut inside a frame is an error, never a frame or a clean end. */
  lemma CutFrame(f: Frame, k: nat)
    requires |Payload(f)| <= CHUNK_SIZE && 0 < k < |Encode(f)|
    ensures Parse(Encode(f)[..k]) == Failed(UnexpectedEof)
  {
    hide BigEndian, FromBigEndian, Payload, Tag, FrameOf;
    var e, n := Encode(f), |Payload(f)|;
    var bs := e[..k];
    if k >= 5 {
      assert e[1..5] == BigEndian(n, 4);
      assert bs[1..][..4] == e[1..5];
      assert Power256(4) == 0x1_0000_0000;
      BigEndianRoundTrip(n, 4);
    }
  }

  function EncodeAll(fs: seq<Frame>): Bytes {
    if fs == [] then [] else Encode(fs[0]) + EncodeAll(fs[1..])
  }

  datatype Ending = CleanEnd | Broken(problem: Problem)

  /** Everything a reader gets out of a stream. */
  function ReadAll(bs: Bytes): (seq<Frame>, Ending)
    decreases |bs|
  {
    match Parse(bs)
    case End => ([], CleanEnd)
    case Failed(p) => ([], Broken(p))
    case Got(f, rest) =>
      ParseIff(bs, f, rest);
      var (fs, e) := ReadAll(rest);
      ([f] + fs, e)
  }

  predicate Sendable(fs: seq<Frame>) {
    forall i :: 0 <= i < |fs| ==> |Payload(fs[i])| <= 65536 && IsFrame(fs[i])
  }

  /** Reading concatenated encodings and then any other bytes gives the frames first. */
  lemma {:induction false} ReadAllFrames(fs: seq<Frame>, tail: Bytes)
    requires Sendable(fs)
    ensures ReadAll(EncodeAll(fs) + tail) == (fs + ReadAll(tail).0, ReadAll(tail).1)
  {
    hide Encode, Parse;
    if fs == [] {
      assert EncodeAll(fs) + tail == tail && fs + ReadAll(tail).0 == ReadAll(tail).0;
    } else {
      var rest := EncodeAll(fs[1..]) + tail;
      assert EncodeAll(fs) + tail == Encode(fs[0]) + rest;
      ParseIff(Encode(fs[0]) + rest, fs[0], rest);
      ReadAllFrames(fs[1..], tail);
      assert [fs[0]] + (fs[1..] + ReadAll(tail).0) == fs + ReadAll(tail).0;
    }
  }

  /** A whole stream reads back as its frames and a clean end. */
  lemma StreamRoundTrip(fs: seq<Frame>)
    requires Sendable(fs)
    ensures ReadAll(EncodeAll(fs)) == (fs, CleanEnd)
  {
    hide Encode, EncodeAll;
    ReadAllFrames(fs, []);
    assert EncodeAll(fs) + [] == EncodeAll(fs) && fs + [] == fs;
  }

  /** A stream cut inside a frame reads as the whole frames before the cut and an error. */
  lemma StreamCut(fs: seq<Frame>, f: Frame, k: nat)
    requires Sendable(fs) && |Payload(f)| <= CHUNK_SIZE && 0 < k < |Encode(f)|
    ensures ReadAll(EncodeAll(fs) + Encode(f)[..k]) == (fs, Broken(UnexpectedEof))
  {
    hide Encode, EncodeAll;
    ReadAllFrames(fs, Encode(f)[..k]);
    CutFrame(f, k);
    assert fs + [] == fs;
  }

  // ---- requests ------------------------------------------------------------

  /** `encode_request` of an already serialised request; nothing when it is too large. */
  function EncodeRequest(payload: Bytes): Option<Bytes> {
    if |payload| > MAX_REQUEST_SIZE then None else Some(BigEndian(|payload|, 4) + payload)
  }

  /** A request can be sent exactly up to 1 MiB, and is read exactly from its own
      encoding, with the following frames untouched. */
  lemma RequestRoundTrip(bs: Bytes, payload: Bytes, rest: Bytes)
    ensures EncodeRequest(payload).Some? <==> |payload| <= 1048576
    ensures ParsePayload(bs, MAX_REQUEST_SIZE) == Ok(payload, rest) <==>
            EncodeRequest(payload).Some? && bs == EncodeRequest(payload).value + rest
  {
    hide ParsePayload, BigEndian;
    if ParsePayload(bs, MAX_REQUEST_SIZE).Ok? {
      PayloadAccepted(bs, MAX_REQUEST_SIZE);
    }
    if |payload| <= 1048576 {
      PayloadRoundTrip(payload, rest, MAX_REQUEST_SIZE);
    }
  }

  /** The bytes of the frames: a tag, four length bytes and the payload. */
  lemma FrameBytes(f: Frame)
    ensures Encode(f) ==
            [match f
             case Stdin(_) => 1
             case StdinEof => 2
             case Stdout(_) => 3
             case Stderr(_) => 4
             case Exit(_) => 5
             case Error(_) => 6] + BigEndian(|Payload(f)|, 4) + Payload(f)
    ensures f.StdinEof? ==> Encode(f) == [2, 0, 0, 0, 0]
    ensures f.Exit? ==> Encode(f) == [5, 0, 0, 0, 1, f.code]
  {
    assert BigEndian(0, 4) == [0, 0, 0, 0];
    assert BigEndian(1, 4) == [0, 0, 0, 1];
  }

  // ---- UTF-8 -----------------------------------------------------------------------

  /** A Unicode scalar value. */
  predicate Scalar(c: int) {
    0 <= c < 0xd800 || 0xe000 <= c < 0x11_0000
  }

  /** Section 3 of RFC 3629. */
  function EncodeScalar(c: int): Bytes
    requires Scalar(c)
  {
    if c < 0x80 then [c]
    else if c < 0x800 then [0xc0 + c / 64, 0x80 + c % 64]
    else if c < 0x1_0000 then [0xe0 + c / 4096, 0x80 + c / 64 % 64, 0x80 + c % 64]
    else [0xf0 + c / 0x4_0000, 0x80 + c / 4096 % 64, 0x80 + c / 64 % 64, 0x80 + c % 64]
  }

  predicate AllScalars(cs: seq<int>) {
    forall i :: 0 <= i < |cs| ==> Scalar(cs[i])
  }

  function EncodeScalars(cs: seq<int>): Bytes
    requires AllScalars(cs)
  {
    if cs == [] then [] else EncodeScalar(cs[0]) + EncodeScalars(cs[1..])
  }

  /** Texts are exactly the encodings of scalar values. */
  lemma Utf8Iff(s: Bytes)
    ensures ValidUtf8(s) <==> exists cs: seq<int> :: AllScalars(cs) && s == EncodeScalars(cs)
  {
    hide ValidUtf8, EncodeScalars;
    if ValidUtf8(s) {
      var cs := Scalars(s);
    }
    forall cs: seq<int> | AllScalars(cs) && s == EncodeScalars(cs) ensures ValidUtf8(s) {
      ScalarsValid(cs);
    }
  }

  lemma {:induction false} ScalarsValid(cs: seq<int>)
    requires AllScalars(cs)
    ensures ValidUtf8(EncodeScalars(cs))
  {
    if cs != [] {
      hide ValidUtf8;
      ScalarsValid(cs[1..]);
      ScalarFront(cs[0], EncodeScalars(cs[1..]));
    } else {
      assert EncodeScalars(cs) == [];
    }
  }

  lemma ScalarFront(c: int, rest: Bytes)
    requires Scalar(c) && ValidUtf8(rest)
    ensures ValidUtf8(EncodeScalar(c) + rest)
  {
    hide ValidUtf8;
    if c < 0x80 {
      OneMore(c, rest);
    } else if c < 0x800 {
      assert 2 <= c / 64 < 32;
      TwoMore(0xc0 + c / 64, 0x80 + c % 64, rest);
    } else if c < 0x1_0000 {
      assert 0 <= c / 4096 < 16 && (c / 4096 == 0 ==> c / 64 % 64 >= 32) && (c / 4096 == 13 ==> c / 64 % 64 < 32);
      ThreeMore(0xe0 + c / 4096, 0x80 + c / 64 % 64, 0x80 + c % 64, rest);
    } else {
      assert 0 <= c / 0x4_0000 <= 4 && (c / 0x4_0000 == 0 ==> c / 4096 % 64 >= 16) && (c / 0x4_0000 == 4 ==> c / 4096 % 64 < 16);
      FourMore(0xf0 + c / 0x4_0000, 0x80 + c / 4096 % 64, 0x80 + c / 64 % 64, 0x80 + c % 64, rest);
    }
  }

  lemma OneMore(a: Byte, rest: Bytes)
    requires a < 0x80 && ValidUtf8(rest)
    ensures ValidUtf8([a] + rest)
  {
    assert ([a] + rest)[1..] == rest;
  }

  lemma TwoMore(a: Byte, b: Byte, rest: Bytes)
    requires 0xc2 <= a < 0xe0 && Continues(b) && ValidUtf8(rest)
    ensures ValidUtf8([a, b] + rest)
  {
    assert ([a, b] + rest)[2..] == rest;
  }

  lemma ThreeMore(a: Byte, b: Byte, d: Byte, rest: Bytes)
    requires 0xe0 <= a < 0xf0 && Continues(b) && Continues(d) && ValidUtf8(rest)
    requires (a == 0xe0 ==> b >= 0xa0) && (a == 0xed ==> b < 0xa0)
    ensures ValidUtf8([a, b, d] + rest)
  {
    assert ([a, b, d] + rest)[3..] == rest;
  }

  lemma FourMore(a: Byte, b: Byte, d: Byte, e: Byte, rest: Bytes)
    requires 0xf0 <= a <= 0xf4 && Continues(b) && Continues(d) && Continues(e) && ValidUtf8(rest)
    requires (a == 0xf0 ==> b >= 0x90) && (a == 0xf4 ==> b < 0x90)
    ensures ValidUtf8([a, b, d, e] + rest)
  {
    assert ([a, b, d, e] + rest)[4..] == rest;
  }

  lemma TwoBytes(a: Byte, b: Byte) returns (c: int)
    requires 0xc2 <= a < 0xe0 && Continues(b)
    ensures Scalar(c) && EncodeScalar(c) == [a, b]
  {
    var x: int, y: int := a - 0xc0, b - 0x80;
    c := x * 64 + y;
    assert c / 64 == x && c % 64 == y;
  }

  lemma ThreeBytes(a: Byte, b: Byte, d: Byte) returns (c: int)
    requires 0xe0 <= a < 0xf0 && Continues(b) && Continues(d)
    requires (a == 0xe0 ==> b >= 0xa0) && (a == 0xed ==> b < 0xa0)
    ensures Scalar(c) && EncodeScalar(c) == [a, b, d]
  {
    var x: int, y: int, z: int := a - 0xe0, b - 0x80, d - 0x80;
    c := x * 4096 + y * 64 + z;
    assert c / 64 == x * 64 + y && c % 64 == z;
    assert c / 4096 == x && (x * 64 + y) % 64 == y;
  }

  lemma FourBytes(a: Byte, b: Byte, d: Byte, e: Byte) returns (c: int)
    requires 0xf0 <= a <= 0xf4 && Continues(b) && Continues(d) && Continues(e)
    requires (a == 0xf0 ==> b >= 0x90) && (a == 0xf4 ==> b < 0x90)
    ensures Scalar(c) && EncodeScalar(c) == [a, b, d, e]
  {
    var x: int, y: int, z: int, w: int := a - 0xf0, b - 0x80, d - 0x80, e - 0x80;
    c := x * 0x4_0000 + y * 4096 + z * 64 + w;
    assert c / 64 == x * 4096 + y * 64 + z && c % 64 == w;
    assert c / 4096 == x * 64 + y && c / 0x4_0000 == x;
    assert (x * 4096 + y * 64 + z) % 64 == z && (x * 64 + y) % 64 == y;
  }

  /** The scalar value a valid text starts with. */
  lemma FrontScalar(s: Bytes) returns (c: int, rest: Bytes)
    requires s != [] && ValidUtf8(s)
    ensures Scalar(c) && s == EncodeScalar(c) + rest && ValidUtf8(rest) && |rest| < |s|
  {
    hide EncodeScalar;
    if s[0] < 0x80 {
      c, rest := s[0], s[1..];
      OneByte(c);
    } else if s[0] < 0xe0 {
      c := TwoBytes(s[0], s[1]);
      rest := s[2..];
      assert s == [s[0], s[1]] + rest;
    } else if s[0] < 0xf0 {
      c := ThreeBytes(s[0], s[1], s[2]);
      rest := s[3..];
      assert s == [s[0], s[1], s[2]] + rest;
    } else {
      c := FourBytes(s[0], s[1], s[2], s[3]);
      rest := s[4..];
      assert s == [s[0], s[1], s[2], s[3]] + rest;
    }
  }

  lemma OneByte(c: int)
    requires 0 <= c < 0x80
    ensures EncodeScalar(c) == [c]
  {
  }

  lemma {:induction false} Scalars(s: Bytes) returns (cs: seq<int>)
    requires ValidUtf8(s)
    ensures AllScalars(cs) && s == EncodeScalars(cs)
    decreases |s|
  {
    if s == [] {
      cs := [];
    } else {
      hide ValidUtf8, EncodeScalar, EncodeScalars, AllScalars;
      var c, rest := FrontScalar(s);
      var ds := Scalars(rest);
      cs := [c] + ds;
      ScalarsCons(c, ds);
    }
  }

  lemma ScalarsCons(c: int, cs: seq<int>)
    requires Scalar(c) && AllScalars(cs)
    ensures AllScalars([c] + cs) && EncodeScalars([c] + cs) == EncodeScalar(c) + EncodeScalars(cs)
  {
    hide EncodeScalar;
    assert ([c] + cs)[1..] == cs;
  }
}
