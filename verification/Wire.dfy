/** The 24-byte header and the PCM16 payload of the binary frames that the
    desktop server and the browser exchange. */
module Wire {
  import opened Wrappers

  type byte = x: int | 0 <= x < 256
  type u32 = x: int | 0 <= x < 0x1_0000_0000
  type int16 = x: int | -32768 <= x < 32768

  const HEADER_BYTES := 24
  const MAGIC: seq<byte> := [0x4b, 0x44, 0x41, 0x31]
  const VERSION: byte := 1
  const AUDIO_ASR: byte := 1
  const AUDIO_TTS: byte := 2
  const IMAGE_INPUT: byte := 3
  const EBOOK_INPUT: byte := 4

  /** Sequence counters are 32 bits wide and wrap. */
  function Wrap(n: nat): u32 { n % 0x1_0000_0000 }

  lemma WrapNext(n: nat)
    ensures Wrap(Wrap(n) + 1) == Wrap(n + 1)
  {
  }

  function Min(a: int, b: int): int { if a < b then a else b }

  function Max(a: int, b: int): int { if a < b then b else a }

  /** What the four bytes at `offset` mean, least significant first. */
  function U32At(s: seq<byte>, offset: nat): u32
    requires offset + 4 <= |s|
  {
    Weighted(s[offset], s[offset + 1], s[offset + 2], s[offset + 3])
  }

  function Weighted(b0: int, b1: int, b2: int, b3: int): int
  {
    b0 + 256 * (b1 + 256 * (b2 + 256 * b3))
  }

  /** `value << (8 * bytes)` and `value >> (8 * bytes)`. */
  function ShiftLeft8(value: int, bytes: nat): int
    requires bytes < 4
  {
    match bytes case 0 => value case 1 => 0x100 * value case 2 => 0x1_0000 * value case _ => 0x100_0000 * value
  }

  function ShiftRight8(value: nat, bytes: nat): nat
  {
    if bytes == 0 then value else ShiftRight8(value, bytes - 1) / 256
  }

  lemma FourDigits(value: u32)
    ensures Weighted(ShiftRight8(value, 0) % 256, ShiftRight8(value, 1) % 256,
                     ShiftRight8(value, 2) % 256, ShiftRight8(value, 3) % 256) == value
  {
    var v1 := ShiftRight8(value, 1);
    var v2 := ShiftRight8(value, 2);
    var v3 := ShiftRight8(value, 3);
    assert ShiftRight8(value, 0) == value;
    assert v1 == value / 256 && v2 == v1 / 256 && v3 == v2 / 256;
    assert v3 % 256 == v3;
  }

  lemma DigitUnique(b: byte, c: byte, x: int, y: int)
    requires b + 256 * x == c + 256 * y
    ensures b == c && x == y
  {
  }

  lemma DigitsUnique(b0: byte, b1: byte, b2: byte, b3: byte, c0: byte, c1: byte, c2: byte, c3: byte)
    requires Weighted(b0, b1, b2, b3) == Weighted(c0, c1, c2, c3)
    ensures b0 == c0 && b1 == c1 && b2 == c2 && b3 == c3
  {
    DigitUnique(b0, c0, b1 + 256 * (b2 + 256 * b3), c1 + 256 * (c2 + 256 * c3));
    DigitUnique(b1, c1, b2 + 256 * b3, c2 + 256 * c3);
    DigitUnique(b2, c2, b3, c3);
  }

  method WriteU32(output: array<byte>, offset: nat, value: u32)
    requires offset + 4 <= output.Length
    modifies output
    ensures U32At(output[..], offset) == value
    ensures forall k :: 0 <= k < output.Length && !(offset <= k < offset + 4) ==> output[k] == old(output[k])
  {
    for i := 0 to 4
      invariant forall k :: 0 <= k < i ==> output[offset + k] == ShiftRight8(value, k) % 256
      invariant forall k :: 0 <= k < output.Length && !(offset <= k < offset + 4) ==> output[k] == old(output[k])
    {
      output[offset + i] := ShiftRight8(value, i) % 256;
    }
    FourDigits(value);
    assert output[offset + 0] == ShiftRight8(value, 0) % 256;
    assert output[offset + 1] == ShiftRight8(value, 1) % 256;
    assert output[offset + 2] == ShiftRight8(value, 2) % 256;
    assert output[offset + 3] == ShiftRight8(value, 3) % 256;
  }

  /** The accumulated bits never overlap, so the source's `|=` adds. */
  method ReadU32(input: seq<byte>, offset: nat) returns (value: u32)
    requires offset + 4 <= |input|
    ensures value == U32At(input, offset)
  {
    var bits := 0;
    for i := 0 to 4
      invariant i == 0 ==> bits == 0
      invariant i == 1 ==> bits == input[offset]
      invariant i == 2 ==> bits == Weighted(input[offset], input[offset + 1], 0, 0)
      invariant i == 3 ==> bits == Weighted(input[offset], input[offset + 1], input[offset + 2], 0)
      invariant i == 4 ==> bits == U32At(input, offset)
    {
      bits := bits + ShiftLeft8(input[offset + i], i);
    }
    value := bits;
  }

  /** Four bytes are determined by the number they mean. */
  lemma U32AtInjective(s: seq<byte>, t: seq<byte>, offset: nat)
    requires offset + 4 <= |s| && offset + 4 <= |t|
    requires U32At(s, offset) == U32At(t, offset)
    ensures s[offset..offset + 4] == t[offset..offset + 4]
  {
    DigitsUnique(s[offset], s[offset + 1], s[offset + 2], s[offset + 3],
                 t[offset], t[offset + 1], t[offset + 2], t[offset + 3]);
  }

  datatype Header = Header(kind: byte, stream: u32, sequence: u32, rate: u32, length: u32)

  /** The header read back from a frame; bytes 6 and 7 are reserved and ignored. */
  function ParseHeader(frame: seq<byte>): Option<Header>
  {
    if |frame| < HEADER_BYTES || frame[..4] != MAGIC || frame[4] != VERSION then None
    else Some(Header(frame[5], U32At(frame, 8), U32At(frame, 12), U32At(frame, 16), U32At(frame, 20)))
  }

  /** `h` laid out as the start of `frame`, with the reserved bytes zero. */
  ghost predicate StartsWith(frame: seq<byte>, h: Header)
  {
    ParseHeader(frame) == Some(h) && frame[6] == 0 && frame[7] == 0
  }

  /** The layout leaves no freedom: a frame is its header and what follows it. */
  lemma HeaderLayoutUnique(f: seq<byte>, g: seq<byte>, h: Header)
    requires StartsWith(f, h) && StartsWith(g, h)
    ensures f[..HEADER_BYTES] == g[..HEADER_BYTES]
  {
    U32AtInjective(f, g, 8);
    U32AtInjective(f, g, 12);
    U32AtInjective(f, g, 16);
    U32AtInjective(f, g, 20);
    assert f[..4] == g[..4];
    forall k | 0 <= k < HEADER_BYTES
      ensures f[k] == g[k]
    {
      if k < 4 {
        assert f[..4][k] == g[..4][k];
      } else if 8 <= k < 12 {
        assert f[8..12][k - 8] == g[8..12][k - 8];
      } else if 12 <= k < 16 {
        assert f[12..16][k - 12] == g[12..16][k - 12];
      } else if 16 <= k < 20 {
        assert f[16..20][k - 16] == g[16..20][k - 16];
      } else if 20 <= k {
        assert f[20..24][k - 20] == g[20..24][k - 20];
      }
    }
  }

  /** Fills in the header of a frame whose reserved bytes are still zero. */
  method WriteHeader(frame: array<byte>, h: Header)
    requires frame.Length >= HEADER_BYTES
    requires frame[6] == 0 && frame[7] == 0
    modifies frame
    ensures StartsWith(frame[..], h)
    ensures forall k :: HEADER_BYTES <= k < frame.Length ==> frame[k] == old(frame[k])
  {
    frame[0] := 0x4b;
    frame[1] := 0x44;
    frame[2] := 0x41;
    frame[3] := 0x31;
    frame[4] := VERSION;
    frame[5] := h.kind;
    WriteU32(frame, 8, h.stream);
    WriteU32(frame, 12, h.sequence);
    WriteU32(frame, 16, h.rate);
    WriteU32(frame, 20, h.length);
    assert frame[..][..4] == MAGIC;
  }

  lemma SameHeader(header: seq<byte>, frame: seq<byte>, h: Header)
    requires |header| == HEADER_BYTES <= |frame| && frame[..HEADER_BYTES] == header
    requires StartsWith(header, h)
    ensures StartsWith(frame, h)
  {
    assert forall k :: 0 <= k < HEADER_BYTES ==> frame[k] == header[k];
    assert frame[..4] == header[..4];
  }

  /** The two's complement bit pattern of `v`, and its two bytes. */
  function Unsigned(v: int16): nat { if v < 0 then v + 0x1_0000 else v }

  function Int16Low(v: int16): byte { Unsigned(v) % 256 }

  function Int16High(v: int16): byte { Unsigned(v) / 256 }

  function Int16Of(low: byte, high: byte): int16
  {
    var unsigned := low + 256 * high;
    if unsigned < 0x8000 then unsigned else unsigned - 0x1_0000
  }

  ghost predicate HoldsPcm(bytes: seq<byte>, values: seq<int16>)
  {
    && |bytes| == 2 * |values|
    && forall i :: 0 <= i < |values| ==> bytes[2 * i] == Int16Low(values[i]) && bytes[2 * i + 1] == Int16High(values[i])
  }

  function DecodePcm(bytes: seq<byte>): (values: seq<int16>)
    requires |bytes| % 2 == 0
    ensures |values| == |bytes| / 2
    ensures forall i :: 0 <= i < |values| ==> values[i] == Int16Of(bytes[2 * i], bytes[2 * i + 1])
  {
    seq(|bytes| / 2, i requires 0 <= i < |bytes| / 2 => Int16Of(bytes[2 * i], bytes[2 * i + 1]))
  }

  lemma Int16RoundTrip(low: byte, high: byte, v: int16)
    ensures Int16Of(low, high) == v <==> low == Int16Low(v) && high == Int16High(v)
  {
    assert Int16Of(low, high) == v <==> low + 256 * high == Unsigned(v);
    if low + 256 * high == Unsigned(v) {
      DigitUnique(low, Int16Low(v), high, Int16High(v));
    }
  }

  /** Decoding inverts encoding, and every even byte string is an encoding. */
  lemma PcmRoundTrip(bytes: seq<byte>, values: seq<int16>)
    requires |bytes| % 2 == 0
    ensures HoldsPcm(bytes, values) <==> DecodePcm(bytes) == values
  {
    hide Int16Low, Int16High, Int16Of;
    forall i | 0 <= i < |values| && |values| == |bytes| / 2
      ensures DecodePcm(bytes)[i] == values[i] <==>
              bytes[2 * i] == Int16Low(values[i]) && bytes[2 * i + 1] == Int16High(values[i])
    {
      Int16RoundTrip(bytes[2 * i], bytes[2 * i + 1], values[i]);
    }
  }
}
