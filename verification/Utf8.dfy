/** Code points as UTF-8 bytes, and counting characters in such text. */
module Utf8 {
  import opened Wrappers
  import opened Wire

  /** The Unicode scalar values. */
  predicate IsScalar(codepoint: nat)
  {
    codepoint <= 0x10ffff && !(0xd800 <= codepoint <= 0xdfff)
  }

  /** The bits set by `|` never overlap, so it adds. */
  method AppendUtf8(output: seq<byte>, codepoint: u32) returns (extended: seq<byte>, ok: bool)
    ensures ok <==> IsScalar(codepoint)
    ensures extended == if ok then output + Encode(codepoint) else output
  {
    if codepoint > 0x10ffff || (codepoint >= 0xd800 && codepoint <= 0xdfff) {
      return output, false;
    }
    ok := true;
    if codepoint <= 0x7f {
      extended := output + [codepoint];
    } else if codepoint <= 0x7ff {
      extended := output + [0xc0 + codepoint / 0x40];
      extended := extended + [0x80 + codepoint % 0x40];
    } else if codepoint <= 0xffff {
      extended := output + [0xe0 + codepoint / 0x1000];
      extended := extended + [0x80 + codepoint / 0x40 % 0x40];
      extended := extended + [0x80 + codepoint % 0x40];
    } else {
      extended := output + [0xf0 + codepoint / 0x4_0000];
      extended := extended + [0x80 + codepoint / 0x1000 % 0x40];
      extended := extended + [0x80 + codepoint / 0x40 % 0x40];
      extended := extended + [0x80 + codepoint % 0x40];
    }
  }

  function Encode(codepoint: nat): (r: seq<byte>)
    requires IsScalar(codepoint)
    ensures 1 <= |r| <= 4
  {
    if codepoint <= 0x7f then [codepoint]
    else if codepoint <= 0x7ff then [0xc0 + codepoint / 0x40, Trailing(codepoint)]
    else if codepoint <= 0xffff then [0xe0 + codepoint / 0x1000, Trailing(codepoint / 0x40), Trailing(codepoint)]
    else
      [0xf0 + codepoint / 0x4_0000, Trailing(codepoint / 0x1000), Trailing(codepoint / 0x40), Trailing(codepoint)]
  }

  function Trailing(bits: nat): byte { 0x80 + bits % 0x40 }

  predicate IsTrailing(b: byte) { 0x80 <= b < 0xc0 }

  /** How many bytes a leading byte announces; 0 when it cannot lead. */
  function Announced(lead: byte): nat
  {
    if lead < 0x80 then 1 else if lead < 0xc0 then 0 else if lead < 0xe0 then 2
    else if lead < 0xf0 then 3 else if lead < 0xf8 then 4 else 0
  }

  /** The bit pattern of one encoded value, of minimal length or not. */
  predicate Pattern(b: seq<byte>)
  {
    |b| > 0 && Announced(b[0]) == |b| && forall k :: 1 <= k < |b| ==> IsTrailing(b[k])
  }

  /** The payload bits of a pattern. */
  function Value(b: seq<byte>): nat
    requires Pattern(b)
  {
    if |b| == 1 then b[0]
    else if |b| == 2 then Mix2(b[0] - 0xc0, b[1] - 0x80)
    else if |b| == 3 then Mix2(Mix2(b[0] - 0xe0, b[1] - 0x80), b[2] - 0x80)
    else Mix2(Mix2(Mix2(b[0] - 0xf0, b[1] - 0x80), b[2] - 0x80), b[3] - 0x80)
  }

  function Mix2(high: nat, low: nat): nat { 0x40 * high + low }

  lemma EncodePattern(codepoint: nat)
    requires IsScalar(codepoint)
    ensures Pattern(Encode(codepoint)) && Value(Encode(codepoint)) == codepoint
  {
    assert codepoint / 0x1000 == codepoint / 0x40 / 0x40;
    assert codepoint / 0x4_0000 == codepoint / 0x1000 / 0x40;
  }

  lemma Mix2Unique(h: nat, l: nat, h': nat, l': nat)
    requires l < 0x40 && l' < 0x40 && Mix2(h, l) == Mix2(h', l')
    ensures h == h' && l == l'
  {
  }

  lemma ValueUnique(a: seq<byte>, b: seq<byte>)
    requires Pattern(a) && Pattern(b) && |a| == |b| && Value(a) == Value(b)
    ensures a == b
  {
    if |a| == 2 {
      Mix2Unique(a[0] - 0xc0, a[1] - 0x80, b[0] - 0xc0, b[1] - 0x80);
    } else if |a| == 3 {
      Mix2Unique(Mix2(a[0] - 0xe0, a[1] - 0x80), a[2] - 0x80, Mix2(b[0] - 0xe0, b[1] - 0x80), b[2] - 0x80);
      Mix2Unique(a[0] - 0xe0, a[1] - 0x80, b[0] - 0xe0, b[1] - 0x80);
    } else if |a| == 4 {
      var x, y := Mix2(a[0] - 0xf0, a[1] - 0x80), Mix2(b[0] - 0xf0, b[1] - 0x80);
      Mix2Unique(Mix2(x, a[2] - 0x80), a[3] - 0x80, Mix2(y, b[2] - 0x80), b[3] - 0x80);
      Mix2Unique(x, a[2] - 0x80, y, b[2] - 0x80);
      Mix2Unique(a[0] - 0xf0, a[1] - 0x80, b[0] - 0xf0, b[1] - 0x80);
    }
  }

  /** The encoding is the shortest pattern of its value, and the only one that
      short. */
  lemma EncodeShortest(codepoint: nat, b: seq<byte>)
    requires IsScalar(codepoint) && Pattern(b) && Value(b) == codepoint
    ensures |Encode(codepoint)| <= |b|
    ensures |Encode(codepoint)| == |b| ==> Encode(codepoint) == b
  {
    EncodePattern(codepoint);
    if |Encode(codepoint)| == |b| {
      ValueUnique(Encode(codepoint), b);
    }
  }

  function EncodeAll(codepoints: seq<nat>): seq<byte>
    requires forall c :: c in codepoints ==> IsScalar(c)
  {
    if codepoints == [] then [] else Encode(codepoints[0]) + EncodeAll(codepoints[1..])
  }

  /** Reading code points back: each leading byte says how far its pattern goes. */
  function DecodeAll(bytes: seq<byte>): Option<seq<nat>>
    decreases |bytes|
  {
    if bytes == [] then Some([])
    else
      var n := Announced(bytes[0]);
      if n == 0 || n > |bytes| || !Pattern(bytes[..n]) then None
      else
        match DecodeAll(bytes[n..])
        case None => None
        case Some(rest) => Some([Value(bytes[..n])] + rest)
  }

  lemma {:induction false} EncodingDecodes(codepoints: seq<nat>)
    requires forall c :: c in codepoints ==> IsScalar(c)
    ensures DecodeAll(EncodeAll(codepoints)) == Some(codepoints)
  {
    if codepoints != [] {
      var first, rest := Encode(codepoints[0]), EncodeAll(codepoints[1..]);
      EncodePattern(codepoints[0]);
      EncodingDecodes(codepoints[1..]);
      hide Encode, Value, IsTrailing;
      var bytes := EncodeAll(codepoints);
      assert bytes == first + rest && bytes[0] == first[0];
      assert bytes[..|first|] == first && bytes[|first|..] == rest;
      assert codepoints == [codepoints[0]] + codepoints[1..];
    }
  }

  /** Bytes that are not trailing bytes: `(c & 0xc0) != 0x80`. */
  function Leading(bytes: seq<byte>, n: nat): nat
    requires n <= |bytes|
  {
    if n == 0 then 0 else Leading(bytes, n - 1) + if IsTrailing(bytes[n - 1]) then 0 else 1
  }

  method Characters(value: seq<byte>) returns (count: nat)
    ensures count == Leading(value, |value|)
  {
    count := 0;
    for i := 0 to |value|
      invariant count == Leading(value, i)
    {
      if value[i] / 0x40 != 2 {
        count := count + 1;
      }
    }
  }

  lemma {:induction false} LeadingAppend(a: seq<byte>, b: seq<byte>, n: nat)
    requires n <= |b|
    ensures Leading(a + b, |a| + n) == Leading(a, |a|) + Leading(b, n)
  {
    if n > 0 {
      LeadingAppend(a, b, n - 1);
    } else {
      LeadingPrefix(a, b, |a|);
    }
  }

  lemma {:induction false} LeadingPrefix(a: seq<byte>, b: seq<byte>, n: nat)
    requires n <= |a|
    ensures Leading(a + b, n) == Leading(a, n)
  {
    if n > 0 {
      LeadingPrefix(a, b, n - 1);
    }
  }

  lemma {:induction false} OneLeading(b: seq<byte>, n: nat)
    requires Pattern(b) && n <= |b|
    ensures Leading(b, n) == if n == 0 then 0 else 1
  {
    if n > 0 {
      OneLeading(b, n - 1);
    }
  }

  /** The character limit of the translation handler counts code points. */
  lemma {:induction false} CharactersAreCodepoints(codepoints: seq<nat>)
    requires forall c :: c in codepoints ==> IsScalar(c)
    ensures Leading(EncodeAll(codepoints), |EncodeAll(codepoints)|) == |codepoints|
  {
    if codepoints != [] {
      var first, rest := Encode(codepoints[0]), EncodeAll(codepoints[1..]);
      EncodePattern(codepoints[0]);
      OneLeading(first, |first|);
      CharactersAreCodepoints(codepoints[1..]);
      hide Encode, Pattern, IsTrailing, Leading;
      LeadingAppend(first, rest, |rest|);
    }
  }
}
