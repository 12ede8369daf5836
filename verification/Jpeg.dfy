/** Finding the frame dimensions of a JPEG image by walking its markers. */
module Jpeg {
  import opened Wire
  import opened Scanning

  datatype Reason = Incomplete | InvalidMarker | Truncated | InvalidFrame | NoDimensions

  datatype Result = Dimensions(width: nat, height: nat) | Invalid(reason: Reason)

  predicate IsFrameMarker(m: byte)
  {
    0xc0 <= m <= 0xcf && m != 0xc4 && m != 0xc8 && m != 0xcc
  }

  predicate IsStandalone(m: byte) { m == 0x01 || 0xd0 <= m <= 0xd8 }

  predicate EndsSearch(m: byte) { m == 0xd9 || m == 0xda }

  function Word(p: seq<byte>, at: nat): nat
    requires at + 2 <= |p|
  {
    256 * (p[at] as int) + p[at + 1]
  }

  predicate Framed(p: seq<byte>)
  {
    |p| >= 2 && p[..2] == [0xff, 0xd8] && p[|p| - 2..] == [0xff, 0xd9]
  }

  /** The first position from `at` on that is not a fill byte. */
  function SkipFill(p: seq<byte>, at: nat): (r: nat)
    requires at <= |p|
    ensures at <= r <= |p|
    ensures forall k :: at <= k < r ==> p[k] == 0xff
    ensures r < |p| ==> p[r] != 0xff
    decreases |p| - at
  {
    if at == |p| || p[at] != 0xff then at else SkipFill(p, at + 1)
  }

  function FrameSize(p: seq<byte>, at: nat, length: nat): Result
    requires at + length <= |p|
  {
    if length < 8 then Invalid(InvalidFrame) else Dimensions(Word(p, at + 5), Word(p, at + 3))
  }

  /** The walk from position `at` on. */
  function Walk(p: seq<byte>, at: nat): Result
    decreases |p| - at
  {
    if at >= |p| then Invalid(NoDimensions)
    else if p[at] != 0xff then Invalid(InvalidMarker)
    else
      var m := SkipFill(p, at);
      if m == |p| || EndsSearch(p[m]) then Invalid(NoDimensions)
      else if IsStandalone(p[m]) then Walk(p, m + 1)
      else if m + 3 > |p| then Invalid(NoDimensions)
      else
        var length := Word(p, m + 1);
        if length < 2 || m + 1 + length > |p| then Invalid(Truncated)
        else if IsFrameMarker(p[m]) then FrameSize(p, m + 1, length)
        else Walk(p, m + 1 + length)
  }

  function JpegSize(p: seq<byte>): Result
  {
    if Framed(p) then Walk(p, 2) else Invalid(Incomplete)
  }

  lemma WalkStep(p: seq<byte>, at: nat)
    ensures at >= |p| ==> Walk(p, at) == Invalid(NoDimensions)
    ensures at < |p| && p[at] != 0xff ==> Walk(p, at) == Invalid(InvalidMarker)
    ensures at < |p| && p[at] == 0xff ==>
              var m := SkipFill(p, at);
              if m == |p| || EndsSearch(p[m]) then Walk(p, at) == Invalid(NoDimensions)
              else if IsStandalone(p[m]) then Walk(p, at) == Walk(p, m + 1)
              else if m + 3 > |p| then Walk(p, at) == Invalid(NoDimensions)
              else
                var length := Word(p, m + 1);
                if length < 2 || m + 1 + length > |p| then Walk(p, at) == Invalid(Truncated)
                else if IsFrameMarker(p[m]) then Walk(p, at) == FrameSize(p, m + 1, length)
                else Walk(p, at) == Walk(p, m + 1 + length)
  {
    hide Word, SkipFill, IsFrameMarker, FrameSize;
  }

  method JpegDimensions(payload: seq<byte>) returns (r: Result)
    ensures r == JpegSize(payload)
  {
    hide Walk, Word, IsFrameMarker;
    if |payload| < 2 || payload[..2] != [0xff, 0xd8] || payload[|payload| - 2..] != [0xff, 0xd9] {
      return Invalid(Incomplete);
    }
    var position := 2;
    while position < |payload|
      invariant 2 <= position && Walk(payload, 2) == Walk(payload, position)
      decreases |payload| - position
    {
      WalkStep(payload, position);
      if payload[position] != 0xff {
        return Invalid(InvalidMarker);
      }
      ghost var start := position;
      while position < |payload| && payload[position] == 0xff
        invariant start <= position <= |payload|
        invariant SkipFill(payload, start) == SkipFill(payload, position)
      {
        position := position + 1;
      }
      if position >= |payload| {
        break;
      }
      var marker := payload[position];
      position := position + 1;
      if marker == 0xd9 || marker == 0xda {
        return Invalid(NoDimensions);
      }
      if marker == 0x01 || 0xd0 <= marker <= 0xd8 {
        continue;
      }
      if position + 2 > |payload| {
        return Invalid(NoDimensions);
      }
      var length := Word(payload, position);
      if length < 2 || position + length > |payload| {
        return Invalid(Truncated);
      }
      if IsFrameMarker(marker) {
        if length < 8 {
          return Invalid(InvalidFrame);
        }
        var height, width := Word(payload, position + 3), Word(payload, position + 5);
        return Dimensions(width, height);
      }
      position := position + length;
    }
    WalkStep(payload, position);
    r := Invalid(NoDimensions);
  }

  // ---------------------------------------------------------------- the printer

  /** A marker segment before the frame header, with `fill` bytes 0xff before its
      marker; at least one is required. */
  datatype Segment =
    | Standalone(fill: nat, marker: byte)
    | Sized(fill: nat, marker: byte, body: seq<byte>)

  predicate ValidSegment(s: Segment)
  {
    && s.fill >= 1
    && match s
       case Standalone(_, marker) => IsStandalone(marker)
       case Sized(_, marker, body) =>
         && !IsStandalone(marker) && !EndsSearch(marker) && !IsFrameMarker(marker) && marker != 0xff
         && |body| + 2 < 0x1_0000
  }

  function WordBytes(w: nat): (r: seq<byte>)
    requires w < 0x1_0000
    ensures |r| == 2
  {
    [w / 256, w % 256]
  }

  function Fill(n: nat): (r: seq<byte>)
    ensures |r| == n && forall k :: 0 <= k < n ==> r[k] == 0xff
  {
    seq(n, _ => 0xff)
  }

  function SegmentBytes(s: Segment): seq<byte>
    requires ValidSegment(s)
  {
    match s
    case Standalone(fill, marker) => Fill(fill) + [marker]
    case Sized(fill, marker, body) => Fill(fill) + [marker] + WordBytes(|body| + 2) + body
  }

  function SegmentsBytes(segments: seq<Segment>): seq<byte>
    requires forall s :: s in segments ==> ValidSegment(s)
  {
    if segments == [] then [] else SegmentBytes(segments[0]) + SegmentsBytes(segments[1..])
  }

  /** A frame header: precision, height, width and whatever else it holds. */
  datatype Frame = Frame(fill: nat, marker: byte, precision: byte, height: nat, width: nat, more: seq<byte>)

  predicate ValidFrame(f: Frame)
  {
    f.fill >= 1 && IsFrameMarker(f.marker) && f.height < 0x1_0000 && f.width < 0x1_0000 && 1 <= |f.more| < 0xfff9
  }

  function FrameBytes(f: Frame): seq<byte>
    requires ValidFrame(f)
  {
    Fill(f.fill) + [f.marker] + WordBytes(|f.more| + 7) + [f.precision] +
    WordBytes(f.height) + WordBytes(f.width) + f.more
  }

  lemma SkipsFill(p: seq<byte>, at: nat, n: nat)
    requires at + n < |p| && (forall k :: at <= k < at + n ==> p[k] == 0xff) && p[at + n] != 0xff
    ensures SkipFill(p, at) == at + n
  {
  }

  lemma WordAt(p: seq<byte>, at: nat, w: nat)
    requires w < 0x1_0000 && At(p, at, WordBytes(w))
    ensures Word(p, at) == w
  {
    assert p[at + 0] == WordBytes(w)[0] && p[at + 1] == WordBytes(w)[1];
  }

  lemma SegmentWalked(p: seq<byte>, at: nat, s: Segment)
    requires ValidSegment(s) && At(p, at, SegmentBytes(s))
    ensures Walk(p, at) == Walk(p, at + |SegmentBytes(s)|)
  {
    hide SkipFill, Word, WordBytes, Fill;
    match s
    case Standalone(fill, marker) =>
      AtSplit(p, at, Fill(fill), [marker]);
      MarkerAt(p, at, fill, marker);
    case Sized(fill, marker, body) =>
      AtSplit(p, at, Fill(fill) + [marker] + WordBytes(|body| + 2), body);
      AtSplit(p, at, Fill(fill) + [marker], WordBytes(|body| + 2));
      AtSplit(p, at, Fill(fill), [marker]);
      MarkerAt(p, at, fill, marker);
      WordAt(p, at + fill + 1, |body| + 2);
  }

  lemma MarkerAt(p: seq<byte>, at: nat, fill: nat, marker: byte)
    requires fill >= 1 && marker != 0xff && At(p, at, Fill(fill)) && At(p, at + fill, [marker])
    ensures at < |p| && p[at] == 0xff && SkipFill(p, at) == at + fill < |p| && p[at + fill] == marker
  {
    assert [marker][0] == marker;
    assert p[at + fill] == marker;
    forall k | at <= k < at + fill
      ensures p[k] == 0xff
    {
      assert Fill(fill)[k - at] == 0xff;
    }
    SkipsFill(p, at, fill);
  }

  lemma {:induction false} SegmentsWalked(p: seq<byte>, at: nat, segments: seq<Segment>)
    requires forall s :: s in segments ==> ValidSegment(s)
    requires At(p, at, SegmentsBytes(segments))
    ensures Walk(p, at) == Walk(p, at + |SegmentsBytes(segments)|)
    decreases |segments|
  {
    hide Walk, SegmentBytes, At, ValidSegment;
    if segments != [] {
      AtSplit(p, at, SegmentBytes(segments[0]), SegmentsBytes(segments[1..]));
      SegmentWalked(p, at, segments[0]);
      SegmentsWalked(p, at + |SegmentBytes(segments[0])|, segments[1..]);
    }
  }

  lemma FrameFound(p: seq<byte>, at: nat, f: Frame)
    requires ValidFrame(f) && At(p, at, FrameBytes(f))
    ensures Walk(p, at) == Dimensions(f.width, f.height)
  {
    hide SkipFill, Word, WordBytes, Fill;
    var head := Fill(f.fill) + [f.marker];
    var length := head + WordBytes(|f.more| + 7);
    var precision := length + [f.precision];
    var height := precision + WordBytes(f.height);
    AtSplit(p, at, height + WordBytes(f.width), f.more);
    AtSplit(p, at, height, WordBytes(f.width));
    AtSplit(p, at, precision, WordBytes(f.height));
    AtSplit(p, at, length, [f.precision]);
    AtSplit(p, at, head, WordBytes(|f.more| + 7));
    AtSplit(p, at, Fill(f.fill), [f.marker]);
    MarkerAt(p, at, f.fill, f.marker);
    WordAt(p, at + f.fill + 1, |f.more| + 7);
    WordAt(p, at + f.fill + 4, f.height);
    WordAt(p, at + f.fill + 6, f.width);
  }

  /** `p` is SOI, segments, a frame header and a remainder, ending in EOI. */
  ghost predicate Prints(p: seq<byte>, segments: seq<Segment>, f: Frame, rest: seq<byte>)
  {
    && (forall s :: s in segments ==> ValidSegment(s)) && ValidFrame(f)
    && p == [0xff, 0xd8] + SegmentsBytes(segments) + FrameBytes(f) + rest
    && p[|p| - 2..] == [0xff, 0xd9]
  }

  /** The parser reads what a printer writes: any segments with any fill bytes,
      then a frame header, then anything, the whole ending in EOI. */
  lemma PrintedDimensionsFound(p: seq<byte>, segments: seq<Segment>, f: Frame, rest: seq<byte>)
    requires Prints(p, segments, f, rest)
    ensures JpegSize(p) == Dimensions(f.width, f.height)
  {
    hide Walk, SegmentsBytes, FrameBytes, ValidSegment, ValidFrame;
    assert p[..2] == [0xff, 0xd8];
    assert At(p, 2, SegmentsBytes(segments));
    SegmentsWalked(p, 2, segments);
    assert At(p, 2 + |SegmentsBytes(segments)|, FrameBytes(f));
    FrameFound(p, 2 + |SegmentsBytes(segments)|, f);
  }

  // -------------------------------------------------------------- and back again

  lemma FillIs(p: seq<byte>, at: nat, m: nat)
    requires at <= m <= |p| && forall k :: at <= k < m ==> p[k] == 0xff
    ensures p[at..m] == Fill(m - at)
  {
  }

  lemma WordIs(p: seq<byte>, at: nat)
    requires at + 2 <= |p|
    ensures Word(p, at) < 0x1_0000 && p[at..at + 2] == WordBytes(Word(p, at))
  {
  }

  lemma Cut(p: seq<byte>, i: nat, j: nat, k: nat)
    requires i <= j <= k <= |p|
    ensures p[i..k] == p[i..j] + p[j..k]
    ensures k == j + 1 ==> p[j..k] == [p[j]]
  {
  }

  lemma StandaloneRead(p: seq<byte>, at: nat, m: nat)
    requires at < m < |p| && (forall k :: at <= k < m ==> p[k] == 0xff) && IsStandalone(p[m])
    ensures p[at..m + 1] == SegmentBytes(Standalone(m - at, p[m]))
  {
    hide Fill;
    FillIs(p, at, m);
    Cut(p, at, m, m + 1);
  }

  lemma FourCuts(p: seq<byte>, a: nat, b: nat, c: nat, d: nat)
    requires a < b && b + 1 == c && c + 2 <= d <= |p|
    ensures p[a..d] == p[a..b] + [p[b]] + p[c..c + 2] + p[c + 2..d]
  {
  }

  lemma SizedIs(fill: nat, marker: byte, body: seq<byte>)
    requires fill >= 1 && !IsStandalone(marker) && !EndsSearch(marker) && !IsFrameMarker(marker) && marker != 0xff
    requires |body| + 2 < 0x1_0000
    ensures ValidSegment(Sized(fill, marker, body))
    ensures SegmentBytes(Sized(fill, marker, body)) == Fill(fill) + [marker] + WordBytes(|body| + 2) + body
  {
    hide Fill, WordBytes, IsFrameMarker;
  }

  lemma SizedRead(p: seq<byte>, at: nat, m: nat, length: nat)
    requires at < m < |p| && (forall k :: at <= k < m ==> p[k] == 0xff) && p[m] != 0xff
    requires !IsStandalone(p[m]) && !EndsSearch(p[m]) && !IsFrameMarker(p[m])
    requires m + 3 <= |p| && length == Word(p, m + 1) && 2 <= length && m + 1 + length <= |p|
    ensures ValidSegment(Sized(m - at, p[m], p[m + 3..m + 1 + length]))
    ensures p[at..m + 1 + length] == SegmentBytes(Sized(m - at, p[m], p[m + 3..m + 1 + length]))
  {
    hide Fill, WordBytes, Word, IsFrameMarker, IsStandalone, EndsSearch, SegmentBytes, ValidSegment;
    var body := p[m + 3..m + 1 + length];
    WordIs(p, m + 1);
    FillIs(p, at, m);
    FourCuts(p, at, m, m + 1, m + 1 + length);
    SizedIs(m - at, p[m], body);
  }

  /** One step of the walk that goes on read one segment. */
  lemma StepReadsSegment(p: seq<byte>, at: nat) returns (s: Segment)
    requires at < |p| && p[at] == 0xff && SkipFill(p, at) < |p| && !EndsSearch(p[SkipFill(p, at)])
    requires var m := SkipFill(p, at);
      IsStandalone(p[m]) ||
      (m + 3 <= |p| && !IsFrameMarker(p[m]) && 2 <= Word(p, m + 1) && m + 1 + Word(p, m + 1) <= |p|)
    ensures ValidSegment(s)
    ensures var m := SkipFill(p, at);
      var next := if IsStandalone(p[m]) then m + 1 else m + 1 + Word(p, m + 1);
      next <= |p| && p[at..next] == SegmentBytes(s)
  {
    hide Word, SegmentBytes;
    var m := SkipFill(p, at);
    assert m > at;
    if IsStandalone(p[m]) {
      s := Standalone(m - at, p[m]);
      StandaloneRead(p, at, m);
    } else {
      var length := Word(p, m + 1);
      s := Sized(m - at, p[m], p[m + 3..m + 1 + length]);
      SizedRead(p, at, m, length);
    }
  }

  lemma StepReadsFrame(p: seq<byte>, at: nat) returns (f: Frame)
    requires at < |p| && p[at] == 0xff && SkipFill(p, at) + 3 <= |p| && IsFrameMarker(p[SkipFill(p, at)])
    requires var m := SkipFill(p, at); 8 <= Word(p, m + 1) && m + 1 + Word(p, m + 1) <= |p|
    ensures ValidFrame(f)
    ensures var m := SkipFill(p, at); p[at..m + 1 + Word(p, m + 1)] == FrameBytes(f)
    ensures var m := SkipFill(p, at); f.height == Word(p, m + 4) && f.width == Word(p, m + 6)
  {
    hide SkipFill, Word, WordBytes, Fill;
    var m := SkipFill(p, at);
    var length := Word(p, m + 1);
    FillIs(p, at, m);
    WordIs(p, m + 1);
    WordIs(p, m + 4);
    WordIs(p, m + 6);
    f := Frame(m - at, p[m], p[m + 3], Word(p, m + 4), Word(p, m + 6), p[m + 8..m + 1 + length]);
    Cut(p, at, m, m + 1);
    Cut(p, at, m + 1, m + 3);
    Cut(p, at, m + 3, m + 4);
    Cut(p, at, m + 4, m + 6);
    Cut(p, at, m + 6, m + 8);
    Cut(p, at, m + 8, m + 1 + length);
  }

  /** Whenever the walk finds dimensions, the image is what the printer writes. */
  lemma {:induction false} WalkReadsGrammar(p: seq<byte>, at: nat)
    returns (segments: seq<Segment>, f: Frame, rest: seq<byte>)
    requires at <= |p| && Walk(p, at).Dimensions?
    ensures (forall s :: s in segments ==> ValidSegment(s)) && ValidFrame(f)
    ensures p[at..] == SegmentsBytes(segments) + FrameBytes(f) + rest
    ensures Walk(p, at) == Dimensions(f.width, f.height)
    decreases |p| - at
  {
    hide SegmentBytes, FrameBytes, Word, ValidSegment, ValidFrame;
    var m := SkipFill(p, at);
    if IsFrameMarker(p[m]) && !IsStandalone(p[m]) {
      f := StepReadsFrame(p, at);
      segments, rest := [], p[m + 1 + Word(p, m + 1)..];
      assert p[at..] == [] + p[at..m + 1 + Word(p, m + 1)] + rest;
    } else {
      var s := StepReadsSegment(p, at);
      var next := if IsStandalone(p[m]) then m + 1 else m + 1 + Word(p, m + 1);
      var others;
      others, f, rest := WalkReadsGrammar(p, next);
      segments := [s] + others;
      MoreSegments(p, at, next, s, others, f, rest);
    }
  }

  lemma MoreSegments(p: seq<byte>, at: nat, next: nat, s: Segment, others: seq<Segment>, f: Frame, rest: seq<byte>)
    requires at <= next <= |p| && ValidSegment(s) && ValidFrame(f) && forall o :: o in others ==> ValidSegment(o)
    requires p[at..next] == SegmentBytes(s) && p[next..] == SegmentsBytes(others) + FrameBytes(f) + rest
    ensures forall o :: o in [s] + others ==> ValidSegment(o)
    ensures p[at..] == SegmentsBytes([s] + others) + FrameBytes(f) + rest
  {
    hide SegmentBytes, FrameBytes, ValidSegment, ValidFrame;
    assert ([s] + others)[1..] == others;
    assert p[at..] == p[at..next] + p[next..];
  }

  /** Dimensions are reported exactly for the images the printer writes. */
  lemma DimensionsIff(p: seq<byte>, width: nat, height: nat)
    ensures JpegSize(p) == Dimensions(width, height) <==>
            exists segments, f, rest :: Prints(p, segments, f, rest) && f.width == width && f.height == height
  {
    hide Walk, SegmentsBytes, FrameBytes, ValidSegment, ValidFrame;
    if JpegSize(p) == Dimensions(width, height) {
      var segments, f, rest := WalkReadsGrammar(p, 2);
      assert p == [0xff, 0xd8] + p[2..];
      assert Prints(p, segments, f, rest);
    }
    if exists segments, f, rest :: Prints(p, segments, f, rest) && f.width == width && f.height == height {
      var segments, f, rest :| Prints(p, segments, f, rest) && f.width == width && f.height == height;
      PrintedDimensionsFound(p, segments, f, rest);
    }
  }
}
