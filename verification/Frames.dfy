/** Length-prefixed wire frames: encoding, strict decoding, and reading from a byte stream. */
module Frames {
  import opened Ordered
  import opened Text

  datatype ProtocolError =
    | FrameTooLarge(actual: nat, maximum: nat)
    | TruncatedHeader
    | InvalidMagic
    | LengthMismatch(declared: nat, actual: nat)
    | EncodeFailed
    | DecodeFailed
    | InputEnded

  datatype Result<+T> = Ok(value: T) | Err(error: ProtocolError)

  /** The body codec, which this model does not look into. */
  datatype Codec<!T> = Codec(encode: T -> Option<seq<Byte>>, decode: seq<Byte> -> Option<T>)

  /** Decoding undoes encoding. */
  ghost predicate RoundTrips<T(!new)>(c: Codec<T>) {
    forall x :: c.encode(x).Some? ==> c.decode(c.encode(x).value) == Some(x)
  }

  const MAGIC: seq<Byte> := [0x41, 0x4D, 0x4F, 0x44]

  const LENGTH_BOUND: nat := 0x1_0000_0000

  // ---------------------------------------------------------------- lengths

  function BigEndian(n: nat): (b: seq<Byte>)
    requires n < LENGTH_BOUND
    ensures |b| == 4
  {
    [n / 0x100_0000, n / 0x1_0000 % 256, n / 256 % 256, n % 256]
  }

  function FromBigEndian(b: seq<Byte>): (n: nat)
    requires |b| == 4
    ensures n < LENGTH_BOUND
  {
    (b[0] as int) * 0x100_0000 + (b[1] as int) * 0x1_0000 + (b[2] as int) * 256 + b[3] as int
  }

  lemma LengthRoundTrip(n: nat)
    requires n < LENGTH_BOUND
    ensures FromBigEndian(BigEndian(n)) == n
  {
    var a := n / 256;
    var b := a / 256;
    assert n / 0x1_0000 == b && n / 0x100_0000 == b / 256;
    assert n == a * 256 + n % 256 && a == b * 256 + a % 256 && b == (b / 256) * 256 + b % 256;
  }

  // ---------------------------------------------------------------- frames

  function EncodeFrame<T>(c: Codec<T>, frame: T, maximum: nat): Result<seq<Byte>> {
    match c.encode(frame)
    case None => Err(EncodeFailed)
    case Some(body) =>
      if |body| > maximum then Err(FrameTooLarge(|body|, maximum))
      else if |body| >= LENGTH_BOUND then Err(FrameTooLarge(|body|, LENGTH_BOUND - 1))
      else Ok(MAGIC + BigEndian(|body|) + body)
  }

  function DecodeFrame<T>(c: Codec<T>, encoded: seq<Byte>, maximum: nat): Result<T> {
    if |encoded| < 8 then Err(TruncatedHeader)
    else if encoded[..4] != MAGIC then Err(InvalidMagic)
    else
      var declared := FromBigEndian(encoded[4..8]);
      if declared > maximum then Err(FrameTooLarge(declared, maximum))
      else if |encoded| - 8 != declared then Err(LengthMismatch(declared, |encoded| - 8))
      else match c.decode(encoded[8..])
           case Some(frame) => Ok(frame)
           case None => Err(DecodeFailed)
  }

  /** A frame with the bytes left after it. */
  datatype Read<+T> = Read(frame: T, rest: seq<Byte>)

  function ReadFrom<T>(c: Codec<T>, stream: seq<Byte>, maximum: nat): Result<Read<T>> {
    if |stream| < 8 then Err(InputEnded)
    else if stream[..4] != MAGIC then Err(InvalidMagic)
    else
      var declared := FromBigEndian(stream[4..8]);
      if declared > maximum then Err(FrameTooLarge(declared, maximum))
      else if |stream| - 8 < declared then Err(InputEnded)
      else match DecodeFrame(c, stream[..8 + declared], maximum)
           case Ok(frame) => Ok(Read(frame, stream[8 + declared..]))
           case Err(e) => Err(e)
  }

  /** A transport positioned in its bytes. */
  class Reader {
    var remaining: seq<Byte>

    constructor (bytes: seq<Byte>)
      ensures remaining == bytes
    {
      remaining := bytes;
    }

    /** Reads exactly `n` bytes, or fails at the end of the input. */
    method ReadExact(n: nat) returns (r: Option<seq<Byte>>)
      modifies this
      ensures r.Some? <==> |old(remaining)| >= n
      ensures r.Some? ==> r.value == old(remaining)[..n] && remaining == old(remaining)[n..]
    {
      if |remaining| < n {
        remaining := [];
        return None;
      }
      r := Some(remaining[..n]);
      remaining := remaining[n..];
    }

    /** Reads one frame: header first, then exactly the declared body. */
    method ReadFrame<T>(c: Codec<T>, maximum: nat) returns (r: Result<T>)
      modifies this
      ensures match ReadFrom(c, old(remaining), maximum)
        case Ok(read) => r == Ok(read.frame) && remaining == read.rest
        case Err(e) => r == Err(e)
    {
      var header := ReadExact(8);
      if header.None? {
        return Err(InputEnded);
      }
      assert header.value[..4] == old(remaining)[..4] && header.value[4..8] == old(remaining)[4..8];
      if header.value[..4] != MAGIC {
        return Err(InvalidMagic);
      }
      var declared := FromBigEndian(header.value[4..8]);
      if declared > maximum {
        return Err(FrameTooLarge(declared, maximum));
      }
      var body := ReadExact(declared);
      if body.None? {
        return Err(InputEnded);
      }
      assert header.value + body.value == old(remaining)[..8 + declared];
      assert remaining == old(remaining)[8 + declared..];
      r := DecodeFrame(c, header.value + body.value, maximum);
    }
  }

  // ---------------------------------------------------------------- main results

  /** The bytes are the four letters AMOD, the length of the body with its most significant byte first,
      and the body. */
  predicate Framed(bytes: seq<Byte>, body: seq<Byte>) {
    && |bytes| == 8 + |body| && bytes[8..] == body
    && bytes[0] == 'A' as int && bytes[1] == 'M' as int && bytes[2] == 'O' as int && bytes[3] == 'D' as int
    && bytes[4] as int * 16777216 + bytes[5] as int * 65536 + bytes[6] as int * 256 + bytes[7] as int == |body|
  }

  /** Encoding succeeds exactly when the body encodes and its length fits the maximum and 32 bits, and
      then gives the frame of that body; the error names what does not fit. */
  lemma EncodeAnswers<T>(c: Codec<T>, frame: T, maximum: nat, bytes: seq<Byte>)
    ensures c.encode(frame) == None ==> EncodeFrame(c, frame, maximum) == Err(EncodeFailed)
    ensures c.encode(frame) != None ==>
      var body := c.encode(frame).value;
      && (EncodeFrame(c, frame, maximum) == Ok(bytes) <==>
            |body| <= maximum && |body| < 4294967296 && Framed(bytes, body))
      && (|body| > maximum ==> EncodeFrame(c, frame, maximum) == Err(FrameTooLarge(|body|, maximum)))
      && (|body| <= maximum && |body| >= 4294967296 ==>
            EncodeFrame(c, frame, maximum) == Err(FrameTooLarge(|body|, 4294967295)))
  {
    if c.encode(frame).Some? && |c.encode(frame).value| < LENGTH_BOUND {
      var body := c.encode(frame).value;
      EncodedIsFramed(body);
      if Framed(bytes, body) {
        FramedOnce(bytes, MAGIC + BigEndian(|body|) + body, body);
      }
    }
  }

  lemma EncodedIsFramed(body: seq<Byte>)
    requires |body| < LENGTH_BOUND
    ensures Framed(MAGIC + BigEndian(|body|) + body, body)
  {
    LengthRoundTrip(|body|);
  }

  lemma FramedOnce(a: seq<Byte>, b: seq<Byte>, body: seq<Byte>)
    requires Framed(a, body) && Framed(b, body)
    ensures a == b
  {
    SameDigits(a[4], a[5], a[6], a[7], b[4], b[5], b[6], b[7]);
    forall k | 0 <= k < |a| ensures a[k] == b[k] {
      if k >= 8 {
        assert a[8..][k - 8] == b[8..][k - 8];
      }
    }
  }

  lemma SameDigits(a: Byte, b: Byte, c: Byte, d: Byte, a': Byte, b': Byte, c': Byte, d': Byte)
    requires a as int * 16777216 + b as int * 65536 + c as int * 256 + d as int
          == a' as int * 16777216 + b' as int * 65536 + c' as int * 256 + d' as int
    ensures a == a' && b == b' && c == c' && d == d'
  {
    assert a == a';
    assert b == b';
  }

  /** Strict decoding succeeds exactly on a frame, within the maximum, of a body that decodes. */
  lemma DecodeAnswers<T>(c: Codec<T>, bytes: seq<Byte>, maximum: nat, frame: T)
    ensures DecodeFrame(c, bytes, maximum) == Ok(frame) <==>
      && |bytes| >= 8 && Framed(bytes, bytes[8..]) && |bytes| - 8 <= maximum
      && c.decode(bytes[8..]) == Some(frame)
  {
    if |bytes| >= 8 {
      assert bytes[4..8][0] == bytes[4] && bytes[4..8][1] == bytes[5];
      assert bytes[4..8][2] == bytes[6] && bytes[4..8][3] == bytes[7];
      assert bytes[..4] == [bytes[0], bytes[1], bytes[2], bytes[3]];
    }
  }

  lemma EncodedParts(body: seq<Byte>, suffix: seq<Byte>)
    requires |body| < LENGTH_BOUND
    ensures var stream := MAGIC + BigEndian(|body|) + body + suffix;
      && stream[..4] == MAGIC && stream[4..8] == BigEndian(|body|)
      && stream[8..8 + |body|] == body && stream[8 + |body|..] == suffix
      && stream[..8 + |body|] == MAGIC + BigEndian(|body|) + body
      && FromBigEndian(stream[4..8]) == |body|
  {
    LengthRoundTrip(|body|);
  }

  /** `head` is what a strict decode of `frame` accepts, in front of `rest`. */
  ghost predicate DecodesInFront<T>(c: Codec<T>, head: seq<Byte>, rest: seq<Byte>, stream: seq<Byte>, maximum: nat,
                                    frame: T) {
    stream == head + rest && DecodeFrame(c, head, maximum) == Ok(frame)
  }

  /** Reading from a stream and strict decoding agree: the reader returns a frame and leaves a rest
      exactly when what stands in front of that rest decodes to the frame. */
  lemma ReadsWhatDecodes<T>(c: Codec<T>, stream: seq<Byte>, maximum: nat, frame: T, rest: seq<Byte>)
    ensures ReadFrom(c, stream, maximum) == Ok(Read(frame, rest)) <==>
            exists head :: DecodesInFront(c, head, rest, stream, maximum, frame)
  {
    if ReadFrom(c, stream, maximum) == Ok(Read(frame, rest)) {
      var n := 8 + FromBigEndian(stream[4..8]);
      assert stream == stream[..n] + stream[n..];
      assert DecodesInFront(c, stream[..n], rest, stream, maximum, frame);
    }
    if head :| DecodesInFront(c, head, rest, stream, maximum, frame) {
      assert stream[..4] == head[..4] && stream[4..8] == head[4..8];
      assert stream[..|head|] == head && stream[|head|..] == rest;
    }
  }

  /** One encoded frame in front of any suffix is read back, leaving the suffix. */
  lemma ReadsBack<T(!new)>(c: Codec<T>, frame: T, maximum: nat, suffix: seq<Byte>)
    requires RoundTrips(c) && EncodeFrame(c, frame, maximum).Ok?
    ensures var encoded := EncodeFrame(c, frame, maximum).value;
      && ReadFrom(c, encoded + suffix, maximum) == Ok(Read(frame, suffix))
      && DecodeFrame(c, encoded, maximum) == Ok(frame)
  {
    var body := c.encode(frame).value;
    EncodedParts(body, suffix);
    EncodedParts(body, []);
    var encoded := MAGIC + BigEndian(|body|) + body;
    assert encoded + [] == encoded;
    assert encoded[8..] == body;
  }

  /** Adding bytes at the end of an encoding makes it undecodable. */
  lemma RejectsExtension<T>(c: Codec<T>, frame: T, maximum: nat, extra: seq<Byte>)
    requires EncodeFrame(c, frame, maximum).Ok? && extra != []
    ensures DecodeFrame(c, EncodeFrame(c, frame, maximum).value + extra, maximum).Err?
  {
    EncodedParts(c.encode(frame).value, extra);
  }

  /** Removing bytes at the end of an encoding makes it undecodable. */
  lemma RejectsTruncation<T>(c: Codec<T>, frame: T, maximum: nat, n: nat)
    requires EncodeFrame(c, frame, maximum).Ok? && n < |EncodeFrame(c, frame, maximum).value|
    ensures DecodeFrame(c, EncodeFrame(c, frame, maximum).value[..n], maximum).Err?
  {
    var encoded := EncodeFrame(c, frame, maximum).value;
    if n >= 8 {
      EncodedParts(c.encode(frame).value, []);
      assert encoded + [] == encoded;
      assert encoded[..n][4..8] == encoded[4..8];
    }
  }

  ghost predicate AllEncode<T>(c: Codec<T>, frames: seq<T>, maximum: nat) {
    forall i :: 0 <= i < |frames| ==> EncodeFrame(c, frames[i], maximum).Ok?
  }

  /** The encodings of several frames, one after the other. */
  ghost function Concatenated<T>(c: Codec<T>, frames: seq<T>, maximum: nat): seq<Byte>
    requires AllEncode(c, frames, maximum)
  {
    if frames == [] then []
    else EncodeFrame(c, frames[0], maximum).value + Concatenated(c, frames[1..], maximum)
  }

  /** Reading `n` frames in a row. */
  ghost function ReadMany<T>(c: Codec<T>, stream: seq<Byte>, maximum: nat, n: nat): Result<Read<seq<T>>> {
    if n == 0 then Ok(Read([], stream))
    else match ReadFrom(c, stream, maximum)
         case Err(e) => Err(e)
         case Ok(first) =>
           match ReadMany(c, first.rest, maximum, n - 1)
           case Err(e) => Err(e)
           case Ok(others) => Ok(Read([first.frame] + others.frame, others.rest))
  }

  /** Frames are self-delimiting: reading as many frames as were concatenated gives exactly those
      frames, in order, and leaves what follows. */
  lemma {:induction false} FramesDelimitThemselves<T(!new)>(c: Codec<T>, frames: seq<T>, maximum: nat,
                                                     suffix: seq<Byte>)
    requires RoundTrips(c) && AllEncode(c, frames, maximum)
    ensures ReadMany(c, Concatenated(c, frames, maximum) + suffix, maximum, |frames|) == Ok(Read(frames, suffix))
  {
    if frames == [] {
      assert [] + suffix == suffix;
    } else {
      var rest := Concatenated(c, frames[1..], maximum) + suffix;
      ReadsBack(c, frames[0], maximum, rest);
      assert EncodeFrame(c, frames[0], maximum).value + rest == Concatenated(c, frames, maximum) + suffix;
      FramesDelimitThemselves(c, frames[1..], maximum, suffix);
      assert [frames[0]] + frames[1..] == frames;
    }
  }
}
