/** Narrating a translation while it is still being produced: blocks complete in
    any order, and speech is extended by what becomes contiguous. */
module Narration {
  import opened ReaderText

  /** The completed translation rows, by source index. */
  type Rows = map<nat, string>

  /** The first index from `from` on, below `total`, whose row is not complete. */
  function ContiguousEnd(rows: Rows, from: nat, total: nat): (end: nat)
    requires from <= total
    ensures from <= end <= total
    ensures forall k :: from <= k < end ==> k in rows
    ensures end < total ==> end !in rows
    decreases total - from
  {
    if from == total || from !in rows then from else ContiguousEnd(rows, from + 1, total)
  }

  function Row(rows: Rows, k: nat): string { if k in rows then rows[k] else "" }

  /** All blocks of the rows `from` up to `end`, in order. */
  function RowBlocks(rows: Rows, from: nat, end: nat): seq<string>
  {
    if end <= from then [] else RowBlocks(rows, from, end - 1) + Blocks(Row(rows, end - 1))
  }

  /** `filter(Boolean)` */
  function NonEmpty(texts: seq<string>): seq<string>
  {
    if texts == [] then []
    else NonEmpty(texts[..|texts| - 1]) + if texts[|texts| - 1] == "" then [] else [texts[|texts| - 1]]
  }

  /** The speech texts of the rows `from` up to `end`. */
  function RowTexts(rows: Rows, from: nat, end: nat): seq<string>
  {
    if end <= from then [] else RowTexts(rows, from, end - 1) + [NormalizeReaderSpeechText(Row(rows, end - 1))]
  }

  /** Collects the contiguous rows from the anchor; rows lie below `total`. */
  method ReaderTranslatedText(rows: Rows, anchor: nat, total: nat) returns (text: string)
    requires anchor <= total && forall k :: k in rows ==> k < total
    ensures text == TranslatedText(rows, anchor, total)
  {
    hide Blocks, Join, NormalizeReaderSpeechText, RowBlocks, NonEmpty;
    var texts := [];
    var index := anchor;
    while index in rows
      invariant anchor <= index <= total
      invariant forall k :: anchor <= k < index ==> k in rows
      invariant texts == RowTexts(rows, anchor, index)
      decreases total - index
    {
      texts := texts + [NormalizeReaderSpeechText(rows[index])];
      index := index + 1;
    }
    EndUnique(rows, anchor, total, index);
    text := Join(NonEmpty(texts));
    RowsJoin(rows, anchor, index);
  }

  lemma EndUnique(rows: Rows, from: nat, total: nat, end: nat)
    requires from <= end <= total && (forall k :: from <= k < end ==> k in rows)
    requires end == total || end !in rows
    ensures ContiguousEnd(rows, from, total) == end
    decreases end - from
  {
    if from < end {
      EndUnique(rows, from + 1, total, end);
    }
  }

  /** The text so far: the blocks of all contiguous rows, joined. */
  function TranslatedText(rows: Rows, anchor: nat, total: nat): string
    requires anchor <= total
  {
    Join(RowBlocks(rows, anchor, ContiguousEnd(rows, anchor, total)))
  }

  lemma {:induction false} RowBlocksGood(rows: Rows, from: nat, end: nat)
    requires from <= end
    ensures GoodBlocks(RowBlocks(rows, from, end))
  {
    hide Blocks, Normal;
    if from < end {
      RowBlocksGood(rows, from, end - 1);
      BlocksGood(Row(rows, end - 1));
    }
  }

  lemma {:induction false} JoinAppend(a: seq<string>, b: seq<string>)
    requires a != [] && b != []
    ensures Join(a + b) == Join(a) + [BREAK] + Join(b)
  {
    if |a| == 1 {
      assert (a + b)[1..] == b;
    } else {
      JoinAppend(a[1..], b);
      assert (a + b)[1..] == a[1..] + b;
      assert a[0] + [BREAK] + (Join(a[1..]) + [BREAK] + Join(b)) == a[0] + [BREAK] + Join(a[1..]) + [BREAK] + Join(b);
    }
  }

  lemma JoinEmptyIff(blocks: seq<string>)
    requires GoodBlocks(blocks)
    ensures Join(blocks) == "" <==> blocks == []
  {
    hide Spaced, GoodBlocks;
    JoinShape(blocks);
  }

  lemma RowGood(row: string)
    ensures GoodBlocks(Blocks(row)) && NormalizeReaderSpeechText(row) == Join(Blocks(row))
    ensures NormalizeReaderSpeechText(row) == "" <==> Blocks(row) == []
  {
    hide Blocks, Join, GoodBlocks;
    BlocksGood(row);
    JoinEmptyIff(Blocks(row));
  }

  lemma NonEmptyStep(texts: seq<string>, text: string)
    ensures NonEmpty(texts + [text]) == if text == "" then NonEmpty(texts) else NonEmpty(texts) + [text]
  {
    assert (texts + [text])[..|texts|] == texts;
  }

  /** Adding one more part to two lists that join to the same text. */
  lemma JoinStep(texts: seq<string>, blocks: seq<string>, more: seq<string>)
    requires Join(texts) == Join(blocks) && (texts == [] <==> blocks == []) && more != []
    ensures Join(texts + [Join(more)]) == Join(blocks + more)
  {
    if blocks == [] {
      assert [] + [Join(more)] == [Join(more)] && [] + more == more;
    } else {
      JoinAppend(blocks, more);
      JoinAppend(texts, [Join(more)]);
    }
  }

  /** Joining the rows' own texts gives the same as joining all their blocks. */
  lemma {:induction false} RowsJoin(rows: Rows, from: nat, end: nat)
    requires from <= end
    ensures Join(NonEmpty(RowTexts(rows, from, end))) == Join(RowBlocks(rows, from, end))
    ensures NonEmpty(RowTexts(rows, from, end)) == [] <==> RowBlocks(rows, from, end) == []
  {
    hide Blocks, Join, NormalizeReaderSpeechText;
    if from == end {
      assert NonEmpty([]) == [];
    } else {
      RowsJoin(rows, from, end - 1);
      RowsJoinStep(rows, from, end);
    }
  }

  lemma RowsJoinStep(rows: Rows, from: nat, end: nat)
    requires from < end
    requires Join(NonEmpty(RowTexts(rows, from, end - 1))) == Join(RowBlocks(rows, from, end - 1))
    requires NonEmpty(RowTexts(rows, from, end - 1)) == [] <==> RowBlocks(rows, from, end - 1) == []
    ensures Join(NonEmpty(RowTexts(rows, from, end))) == Join(RowBlocks(rows, from, end))
    ensures NonEmpty(RowTexts(rows, from, end)) == [] <==> RowBlocks(rows, from, end) == []
  {
    hide Blocks, Join, NormalizeReaderSpeechText, NonEmpty;
    OneMoreRow(RowTexts(rows, from, end - 1), RowBlocks(rows, from, end - 1), Row(rows, end - 1));
  }

  lemma OneMoreRow(texts: seq<string>, blocks: seq<string>, row: string)
    requires Join(NonEmpty(texts)) == Join(blocks) && (NonEmpty(texts) == [] <==> blocks == [])
    ensures var longer := NonEmpty(texts + [NormalizeReaderSpeechText(row)]);
      Join(longer) == Join(blocks + Blocks(row)) && (longer == [] <==> blocks + Blocks(row) == [])
  {
    hide Blocks, Join, GoodBlocks, NormalizeReaderSpeechText, NonEmpty;
    var more := Blocks(row);
    RowGood(row);
    NonEmptyStep(texts, NormalizeReaderSpeechText(row));
    if more == [] {
      assert blocks + [] == blocks;
    } else {
      JoinStep(NonEmpty(texts), blocks, more);
    }
  }

  /** The text is its own speech form, so slicing it shifts no offset. */
  lemma TranslatedTextIsNormal(rows: Rows, anchor: nat, total: nat)
    requires anchor <= total
    ensures NormalizeReaderSpeechText(TranslatedText(rows, anchor, total)) == TranslatedText(rows, anchor, total)
  {
    hide Blocks, Join, GoodBlocks, RowBlocks, ContiguousEnd;
    var end := ContiguousEnd(rows, anchor, total);
    RowBlocksGood(rows, anchor, end);
    BlocksOfJoin(RowBlocks(rows, anchor, end));
  }

  /** More rows complete; none changes or goes away. */
  ghost predicate Extends(rows: Rows, more: Rows)
  {
    forall k :: k in rows ==> k in more && more[k] == rows[k]
  }

  lemma {:induction false} RowBlocksExtend(rows: Rows, more: Rows, from: nat, end: nat, later: nat)
    requires from <= end <= later && Extends(rows, more)
    requires (forall k :: from <= k < end ==> k in rows) && (forall k :: from <= k < later ==> k in more)
    ensures RowBlocks(rows, from, end) <= RowBlocks(more, from, later)
    ensures end == later ==> RowBlocks(rows, from, end) == RowBlocks(more, from, later)
    decreases later
  {
    hide Blocks;
    if end < later {
      RowBlocksExtend(rows, more, from, end, later - 1);
    } else if from < end {
      RowBlocksExtend(rows, more, from, end - 1, end - 1);
    }
  }

  lemma EndExtends(rows: Rows, more: Rows, from: nat, total: nat)
    requires from <= total && Extends(rows, more)
    ensures ContiguousEnd(rows, from, total) <= ContiguousEnd(more, from, total)
  {
    var end := ContiguousEnd(more, from, total);
    assert end == total || end !in rows;
  }

  lemma JoinPrefix(a: seq<string>, b: seq<string>)
    requires a <= b
    ensures Join(a) <= Join(b)
  {
    var rest := b[|a|..];
    assert a + rest == b;
    if a == [] {
      assert Join(a) == "";
    } else if rest == [] {
      assert a == b;
    } else {
      JoinAppend(a, rest);
      assert Join(b) == Join(a) + ([BREAK] + Join(rest));
    }
  }

  /** In whatever order blocks complete, the text only grows at its end. */
  lemma TranslatedTextGrows(rows: Rows, more: Rows, anchor: nat, total: nat)
    requires anchor <= total && Extends(rows, more)
    ensures TranslatedText(rows, anchor, total) <= TranslatedText(more, anchor, total)
  {
    hide Blocks, Join, RowBlocks, ContiguousEnd, Extends;
    var end, later := ContiguousEnd(rows, anchor, total), ContiguousEnd(more, anchor, total);
    EndExtends(rows, more, anchor, total);
    RowBlocksExtend(rows, more, anchor, end, later);
    JoinPrefix(RowBlocks(rows, anchor, end), RowBlocks(more, anchor, later));
  }

  /** All texts handed to the speech controller so far, end to end. */
  function Spoken(chunks: seq<string>): string
  {
    if chunks == [] then "" else Spoken(chunks[..|chunks| - 1]) + chunks[|chunks| - 1]
  }

  lemma SpokenOne(chunk: string)
    ensures Spoken([chunk]) == chunk
  {
    assert [chunk][..0] == [] && Spoken([]) == "";
  }

  /** One narration of the translated side within one translation run. */
  class TranslatedSpeech {
    const anchor: nat
    const total: nat
    var offset: nat
    var appendedLength: nat
    var chunks: seq<string>
    var ended: bool
    ghost var rows: Rows

    /** What was handed over is the text from the start offset on. */
    ghost predicate Valid()
      reads this
    {
      && anchor <= total && (forall k :: k in rows ==> k < total)
      && var text := TranslatedText(rows, anchor, total);
      && appendedLength == |text| && offset <= |text|
      && Spoken(chunks) == text[offset..]
    }

    /** `startBookSpeech` on the target side with some text translated. An offset
        at the end of the text starts again from its beginning. */
    constructor (rows: Rows, anchor: nat, total: nat, requested: int, finite: bool)
      requires anchor <= total && forall k :: k in rows ==> k < total
      requires TranslatedText(rows, anchor, total) != ""
      ensures Valid() && this.rows == rows && this.anchor == anchor && this.total == total && !ended
      ensures WordStart(TranslatedText(rows, anchor, total), offset)
    {
      hide TranslatedText, NormalizeReaderSpeechText, WordStart;
      var text := ReaderTranslatedText(rows, anchor, total);
      var sliced := ReaderSpeechSlice(text, requested, finite);
      TranslatedTextIsNormal(rows, anchor, total);
      FirstWord(text);
      this.rows, this.anchor, this.total := rows, anchor, total;
      offset := if sliced.speech != "" then sliced.offset else 0;
      chunks := [if sliced.speech != "" then sliced.speech else sliced.text];
      appendedLength := |sliced.text|;
      ended := false;
      new;
      SpokenOne(chunks[0]);
    }

    /** `syncReaderTranslationSpeech`, after a block completed or at the end. */
    method Sync(more: Rows, finished: bool)
      requires Valid() && Extends(rows, more) && forall k :: k in more ==> k < total
      modifies this
      ensures Valid() && rows == more
      ensures offset == old(offset) && old(chunks) <= chunks
      ensures ended == (old(ended) || finished)
    {
      hide TranslatedText, ContiguousEnd;
      var text := ReaderTranslatedText(more, anchor, total);
      TranslatedTextGrows(rows, more, anchor, total);
      if |text| < appendedLength {
        return;
      }
      var addition := text[appendedLength..];
      if addition != "" || finished {
        chunks := chunks + [addition];
        ended := ended || finished;
      }
      ghost var before := TranslatedText(rows, anchor, total);
      assert text[offset..] == before[offset..] + addition;
      appendedLength := |text|;
      rows := more;
    }
  }

  lemma FirstWord(text: string)
    requires text != "" && NormalizeReaderSpeechText(text) == text
    ensures WordStart(text, 0)
  {
    hide NormalizeReaderSpeechText, Space;
    SpeechTextSpaced(text);
  }
}
