/** Reader text: whitespace normalisation, the speech form with its block
    breaks, and the snapping of a speech offset to a word. */
module ReaderText {

  /** What `\s` matches and `trim` removes. */
  predicate Space(c: char)
  {
    || '\t' <= c <= '\r' || c == ' ' || c == '\U{00A0}' || c == '\U{1680}' || '\U{2000}' <= c <= '\U{200A}'
    || c == '\U{2028}' || c == '\U{2029}' || c == '\U{202F}' || c == '\U{205F}' || c == '\U{3000}' || c == '\U{FEFF}'
  }

  const BREAK := '\U{2029}'

  function DropSpaces(s: string): (r: string)
    ensures |r| <= |s| && r == s[|s| - |r|..]
    ensures r == "" || !Space(r[0])
    ensures s != "" && Space(s[0]) ==> |r| < |s|
    ensures s != "" && !Space(s[0]) ==> r == s
  {
    if s == "" || !Space(s[0]) then s else DropSpaces(s[1..])
  }

  function DropTrailing(s: string): (r: string)
    ensures r <= s
    ensures r == "" || !Space(r[|r| - 1])
    ensures s != "" && !Space(s[|s| - 1]) ==> r == s
  {
    if s == "" || !Space(s[|s| - 1]) then s else DropTrailing(s[..|s| - 1])
  }

  /** `replace(/\s+/gu, ' ')` */
  function Collapse(s: string): string
    decreases |s|
  {
    if s == "" then ""
    else if Space(s[0]) then " " + Collapse(DropSpaces(s))
    else [s[0]] + Collapse(s[1..])
  }

  function NormalizeReaderText(value: string): string { DropTrailing(DropSpaces(Collapse(value))) }

  /** Whitespace occurs only as single spaces. */
  ghost predicate SingleSpaced(t: string)
  {
    forall i :: 0 <= i < |t| && Space(t[i]) ==> t[i] == ' ' && (i + 1 < |t| ==> !Space(t[i + 1]))
  }

  /** The normal form: single-spaced words, nothing around them. */
  ghost predicate Normal(t: string)
  {
    SingleSpaced(t) && (t != "" ==> !Space(t[0]) && !Space(t[|t| - 1]))
  }

  lemma CollapseStep(s: string)
    requires s != ""
    ensures if Space(s[0]) then
              Collapse(s) == " " + Collapse(DropSpaces(s)) && |DropSpaces(s)| < |s| &&
              (DropSpaces(s) != "" ==> !Space(DropSpaces(s)[0]))
            else Collapse(s) == [s[0]] + Collapse(s[1..])
  {
    hide Space;
  }

  lemma OneMoreSpaced(c: char, t: string)
    requires SingleSpaced(t) && (Space(c) ==> c == ' ' && (t != "" ==> !Space(t[0])))
    ensures SingleSpaced([c] + t)
  {
    hide Space;
    forall i | 0 <= i < |[c] + t| && Space(([c] + t)[i])
      ensures ([c] + t)[i] == ' ' && (i + 1 < |[c] + t| ==> !Space(([c] + t)[i + 1]))
    {
      if i > 0 {
        assert ([c] + t)[i] == t[i - 1];
      }
    }
  }

  lemma {:induction false} CollapseSingleSpaced(s: string)
    ensures SingleSpaced(Collapse(s))
    ensures s != "" && !Space(s[0]) ==> Collapse(s) != "" && !Space(Collapse(s)[0])
    ensures s == "" ==> Collapse(s) == ""
    decreases |s|
  {
    hide Space, SingleSpaced, DropSpaces, Collapse;
    if s == "" {
      CollapseNothing();
    } else {
      CollapseStep(s);
      if Space(s[0]) {
        CollapseSingleSpaced(DropSpaces(s));
        OneMoreSpaced(' ', Collapse(DropSpaces(s)));
      } else {
        CollapseSingleSpaced(s[1..]);
        OneMoreSpaced(s[0], Collapse(s[1..]));
      }
    }
  }

  lemma CollapseNothing()
    ensures Collapse("") == "" && SingleSpaced("")
  {
  }

  lemma PartSingleSpaced(t: string, from: nat, to: nat)
    requires SingleSpaced(t) && from <= to <= |t|
    ensures SingleSpaced(t[from..to])
  {
    hide Space;
    forall i | 0 <= i < to - from && Space(t[from..to][i])
      ensures t[from..to][i] == ' ' && (i + 1 < to - from ==> !Space(t[from..to][i + 1]))
    {
      assert t[from..to][i] == t[from + i];
    }
  }

  lemma DropSpacesSpaced(c: string)
    requires SingleSpaced(c)
    ensures SingleSpaced(DropSpaces(c))
  {
    hide Space, DropSpaces, SingleSpaced;
    var d := DropSpaces(c);
    PartSingleSpaced(c, |c| - |d|, |c|);
    assert c[|c| - |d|..|c|] == d;
  }

  lemma DropTrailingSpaced(d: string)
    requires SingleSpaced(d)
    ensures SingleSpaced(DropTrailing(d))
  {
    hide Space, DropTrailing, SingleSpaced;
    var e := DropTrailing(d);
    PartSingleSpaced(d, 0, |e|);
    assert d[0..|e|] == e;
  }

  lemma EndsDropped(c: string)
    ensures var e := DropTrailing(DropSpaces(c)); e != "" ==> !Space(e[0]) && !Space(e[|e| - 1])
  {
    hide Space, DropSpaces, DropTrailing;
    var d := DropSpaces(c);
    var e := DropTrailing(d);
    if e != "" {
      assert e[0] == d[0];
    }
  }

  lemma NormalizeGivesNormal(s: string)
    ensures Normal(NormalizeReaderText(s))
  {
    hide Collapse, Space, DropSpaces, DropTrailing, SingleSpaced;
    CollapseSingleSpaced(s);
    DropSpacesSpaced(Collapse(s));
    DropTrailingSpaced(DropSpaces(Collapse(s)));
    EndsDropped(Collapse(s));
  }

  lemma {:induction false} CollapseKeepsNormal(t: string)
    requires SingleSpaced(t) && (t != "" ==> !Space(t[|t| - 1]))
    ensures Collapse(t) == t
  {
    hide Space;
    if t != "" {
      CollapseKeepsNormal(t[1..]);
      if Space(t[0]) {
        assert DropSpaces(t) == t[1..];
        assert t == " " + t[1..];
      } else {
        assert t == [t[0]] + t[1..];
      }
    }
  }

  lemma NormalizeKeepsNormal(t: string)
    requires Normal(t)
    ensures NormalizeReaderText(t) == t
  {
    CollapseKeepsNormal(t);
  }

  // ---------------------------------------------------------------- the speech form

  /** How much of the start of `s` the separator `\u2029|\s*\n+\s*` matches: one
      block break, or a whole run of whitespace with a newline in it. */
  function BreakLength(s: string): (n: nat)
    ensures n <= |s|
  {
    if s == "" then 0
    else if s[0] == BREAK then 1
    else
      var run := |s| - |DropSpaces(s)|;
      if '\n' in s[..run] then run else 0
  }

  /** `split` on that separator; `piece` is the text since the last one. */
  function SplitBlocks(piece: string, s: string): seq<string>
    decreases |s|
  {
    if s == "" then [piece]
    else if BreakLength(s) > 0 then [piece] + SplitBlocks("", s[BreakLength(s)..])
    else SplitBlocks(piece + [s[0]], s[1..])
  }

  /** `map(normalizeReaderText)` and `filter(Boolean)` */
  function NormalBlocks(pieces: seq<string>): seq<string>
  {
    if pieces == [] then []
    else
      var block := NormalizeReaderText(pieces[0]);
      (if block == "" then [] else [block]) + NormalBlocks(pieces[1..])
  }

  function Join(blocks: seq<string>): string
  {
    if blocks == [] then ""
    else if |blocks| == 1 then blocks[0]
    else blocks[0] + [BREAK] + Join(blocks[1..])
  }

  function Blocks(value: string): seq<string> { NormalBlocks(SplitBlocks("", value)) }

  function NormalizeReaderSpeechText(value: string): string { Join(Blocks(value)) }

  ghost predicate GoodBlocks(blocks: seq<string>)
  {
    forall i :: 0 <= i < |blocks| ==> blocks[i] != "" && Normal(blocks[i])
  }

  lemma {:induction false} NormalBlocksGood(pieces: seq<string>)
    ensures GoodBlocks(NormalBlocks(pieces))
  {
    hide Normal, NormalizeReaderText;
    if pieces != [] {
      NormalizeGivesNormal(pieces[0]);
      hide Normal, NormalizeReaderText;
      NormalBlocksGood(pieces[1..]);
    }
  }

  /** Inside a normal block nothing separates. */
  lemma NoBreakInside(b: string, t: string)
    requires b != "" && SingleSpaced(b) && !Space(b[|b| - 1])
    ensures BreakLength(b + t) == 0
  {
    var s := b + t;
    if Space(b[0]) {
      assert !Space(b[1]);
      assert s[1..][0] == b[1];
      assert DropSpaces(s) == s[1..];
    }
  }

  lemma SplitStep(piece: string, s: string)
    requires s != "" && BreakLength(s) == 0
    ensures SplitBlocks(piece, s) == SplitBlocks(piece + [s[0]], s[1..])
  {
  }

  lemma {:induction false} SplitPastBlock(piece: string, b: string, t: string)
    requires SingleSpaced(b) && (b != "" ==> !Space(b[|b| - 1]))
    ensures SplitBlocks(piece, b + t) == SplitBlocks(piece + b, t)
    decreases |b|
  {
    hide BreakLength, Space, SingleSpaced, SplitBlocks;
    if b == "" {
      assert b + t == t && piece + b == piece;
    } else {
      NoBreakInside(b, t);
      SplitStep(piece, b + t);
      PartSingleSpaced(b, 1, |b|);
      assert b[1..|b|] == b[1..];
      SplitPastBlock(piece + [b[0]], b[1..], t);
      assert (b + t)[1..] == b[1..] + t;
      assert piece + [b[0]] + b[1..] == piece + b;
    }
  }

  lemma SplitLast(piece: string, b: string)
    requires Normal(b)
    ensures SplitBlocks(piece, b) == [piece + b]
  {
    SplitPastBlock(piece, b, "");
    assert b + "" == b;
  }

  lemma SplitFirst(b: string, rest: string)
    requires Normal(b)
    ensures SplitBlocks("", b + [BREAK] + rest) == [b] + SplitBlocks("", rest)
  {
    hide BreakLength, Space, SingleSpaced, SplitBlocks;
    SplitPastBlock("", b, [BREAK] + rest);
    assert b + [BREAK] + rest == b + ([BREAK] + rest);
    assert "" + b == b;
    AtBreak(b, rest);
  }

  /** Splitting undoes joining. */
  lemma {:induction false} SplitJoin(blocks: seq<string>)
    requires GoodBlocks(blocks) && blocks != []
    ensures SplitBlocks("", Join(blocks)) == blocks
  {
    hide Normal, SplitBlocks;
    if |blocks| == 1 {
      SplitLast("", blocks[0]);
      assert "" + blocks[0] == blocks[0];
    } else {
      SplitJoin(blocks[1..]);
      SplitFirst(blocks[0], Join(blocks[1..]));
    }
  }

  lemma AtBreak(b: string, rest: string)
    ensures SplitBlocks(b, [BREAK] + rest) == [b] + SplitBlocks("", rest)
  {
    var s := [BREAK] + rest;
    assert s[0] == BREAK && s[1..] == rest;
  }

  lemma {:induction false} NormalBlocksKeepGood(blocks: seq<string>)
    requires GoodBlocks(blocks)
    ensures NormalBlocks(blocks) == blocks
  {
    hide Normal, NormalizeReaderText;
    if blocks != [] {
      NormalizeKeepsNormal(blocks[0]);
      hide Normal, NormalizeReaderText;
      NormalBlocksKeepGood(blocks[1..]);
    }
  }

  lemma NothingLeft()
    ensures Collapse("") == "" && DropSpaces("") == "" && DropTrailing("") == "" && SplitBlocks("", "") == [""]
  {
  }

  lemma EmptyText()
    ensures Blocks("") == []
  {
    hide Collapse, DropSpaces, DropTrailing, SplitBlocks, Space;
    NothingLeft();
    assert [""][1..] == [] && NormalBlocks([]) == [];
  }

  /** The blocks of a joined text are the blocks it was joined from. */
  lemma BlocksOfJoin(blocks: seq<string>)
    requires GoodBlocks(blocks)
    ensures Blocks(Join(blocks)) == blocks
  {
    if blocks == [] {
      EmptyText();
    } else {
      hide GoodBlocks, SplitBlocks, NormalBlocks, Join;
      SplitJoin(blocks);
      NormalBlocksKeepGood(blocks);
    }
  }

  lemma BlocksGood(value: string)
    ensures GoodBlocks(Blocks(value))
  {
    hide NormalBlocks, SplitBlocks, GoodBlocks;
    NormalBlocksGood(SplitBlocks("", value));
  }

  /** Normalising a second time changes nothing. */
  lemma SpeechTextIdempotent(value: string)
    ensures NormalizeReaderSpeechText(NormalizeReaderSpeechText(value)) == NormalizeReaderSpeechText(value)
  {
    hide Blocks, Join, GoodBlocks;
    BlocksGood(value);
    BlocksOfJoin(Blocks(value));
  }

  // -------------------------------------------------------------------- slices

  datatype Slice = Slice(text: string, offset: nat, speech: string)

  /** `offset` is where a word of `text` starts. */
  ghost predicate WordStart(text: string, offset: nat)
  {
    offset < |text| && !Space(text[offset]) && (offset == 0 || Space(text[offset - 1]))
  }

  /** The two loops of `readerSpeechSlice`: back to the start of the word around
      `start`, or from a separator on to the next word. */
  method SnapToWord(text: string, start: nat) returns (offset: nat)
    requires Spaced(text) && start < |text|
    ensures WordStart(text, offset)
    ensures offset <= start ==> forall k :: offset <= k <= start ==> !Space(text[k])
    ensures offset > start ==> offset == start + 1 && Space(text[start])
  {
    hide Space;
    offset := start;
    while offset > 0 && offset < |text| && !Space(text[offset - 1]) && !Space(text[offset])
      invariant 0 <= offset <= start
      invariant offset < start ==> forall k :: offset <= k <= start ==> !Space(text[k])
    {
      offset := offset - 1;
    }
    ghost var snapped := offset;
    while offset < |text| && Space(text[offset])
      invariant snapped <= offset <= |text|
      invariant offset > snapped ==> Space(text[snapped]) && offset == snapped + 1 && offset < |text|
    {
      offset := offset + 1;
    }
  }

  /** The requested offset is clamped into the text first; one that is not a
      finite number counts as zero. */
  method ReaderSpeechSlice(value: string, requested: int, finite: bool) returns (r: Slice)
    ensures r.text == NormalizeReaderSpeechText(value)
    ensures r.offset <= |r.text| && r.speech == r.text[r.offset..]
    ensures r.speech != "" ==> WordStart(r.text, r.offset)
    ensures finite && 0 <= requested < |r.text| ==>
              r.speech != "" &&
              (r.offset <= requested ==> forall k :: r.offset <= k <= requested ==> !Space(r.text[k])) &&
              (r.offset > requested ==> r.offset == requested + 1 && Space(r.text[requested]))
    ensures !finite || requested <= 0 ==> r.offset == 0
    ensures finite && requested >= |r.text| ==> r.speech == ""
  {
    hide Space, NormalizeReaderSpeechText;
    var text := NormalizeReaderSpeechText(value);
    SpeechTextSpaced(value);
    var offset := if finite then requested else 0;
    offset := if offset > |text| then |text| else offset;
    offset := if offset < 0 then 0 else offset;
    if offset == |text| {
      return Slice(text, offset, "");
    }
    var snapped := SnapToWord(text, offset);
    r := Slice(text, snapped, text[snapped..]);
  }

  lemma SpeechTextSpaced(value: string)
    ensures Spaced(NormalizeReaderSpeechText(value))
  {
    hide Blocks, Join, Spaced, GoodBlocks;
    BlocksGood(value);
    JoinShape(Blocks(value));
  }

  /** In a normalised speech text whitespace is never first, last or doubled. */
  ghost predicate Spaced(t: string)
  {
    && (t != "" ==> !Space(t[0]) && !Space(t[|t| - 1]))
    && forall i :: 0 <= i < |t| - 1 && Space(t[i]) ==> !Space(t[i + 1])
  }

  lemma {:induction false} JoinShape(blocks: seq<string>)
    requires GoodBlocks(blocks)
    ensures Spaced(Join(blocks)) && (blocks != [] ==> Join(blocks) != "")
  {
    hide Space;
    if |blocks| > 1 {
      JoinShape(blocks[1..]);
      SpacedJoin(blocks[0], Join(blocks[1..]));
    } else if |blocks| == 1 {
      assert Normal(blocks[0]);
    }
  }

  lemma SpacedJoin(a: string, b: string)
    requires Normal(a) && a != "" && Spaced(b) && b != ""
    ensures Spaced(a + [BREAK] + b)
  {
    hide Space;
    var t := a + [BREAK] + b;
    forall i | 0 <= i < |t| - 1 && Space(t[i])
      ensures !Space(t[i + 1])
    {
      if i < |a| {
        assert t[i] == a[i] && i + 1 < |a| && t[i + 1] == a[i + 1];
      } else if i == |a| {
        assert t[i + 1] == b[0];
      } else {
        assert t[i] == b[i - |a| - 1] && t[i + 1] == b[i - |a|];
      }
    }
  }
}
