/** Streaming Markdown: completed lines are rendered, an open code fence and the
    unfinished line stay in a plain-text tail. */
module Markdown {
  import opened Wrappers

  /** An open fence: its delimiter and length, where its line starts, and where
      the line after it starts. */
  datatype Fence = Fence(delimiter: char, length: nat, start: nat, content: nat)

  datatype Mark = Mark(delimiter: char, length: nat)

  /** Where the line that starts at `offset` ends, its newline included. */
  function LineEnd(s: string, offset: nat): (end: nat)
    requires offset < |s|
    ensures offset < end <= |s|
    ensures forall k :: offset <= k < end - 1 ==> s[k] != '\n'
    ensures s[end - 1] == '\n' || end == |s|
    decreases |s| - offset
  {
    if s[offset] == '\n' || offset + 1 == |s| then offset + 1 else LineEnd(s, offset + 1)
  }

  /** How many `c` follow from `offset` on, up to `limit`. */
  function RunLength(line: string, offset: nat, c: char, limit: nat): (n: nat)
    ensures n <= limit && (n > 0 ==> offset + n <= |line|)
    ensures forall k :: offset <= k < offset + n ==> line[k] == c
    ensures n < limit && offset + n < |line| ==> line[offset + n] != c
    decreases limit
  {
    if limit == 0 || offset >= |line| || line[offset] != c then 0
    else 1 + RunLength(line, offset + 1, c, limit - 1)
  }

  /** The match of `^ {0,3}(`{3,}|~{3,})[^\n]*\n?$` on one line: any text may
      follow the run, on an opening and on a closing fence alike. */
  function FenceMark(line: string): Option<Mark>
  {
    var indent := RunLength(line, 0, ' ', 3);
    if indent >= |line| then None
    else
      var c := line[indent];
      var n := RunLength(line, indent, c, |line|);
      if (c == '`' || c == '~') && n >= 3 then Some(Mark(c, n)) else None
  }

  lemma {:induction false} RunLengthUnique(line: string, offset: nat, c: char, limit: nat, n: nat)
    requires n <= limit && offset + n <= |line|
    requires forall k :: offset <= k < offset + n ==> line[k] == c
    requires n == limit || offset + n == |line| || line[offset + n] != c
    ensures RunLength(line, offset, c, limit) == n
    decreases n
  {
    if n > 0 {
      RunLengthUnique(line, offset + 1, c, limit - 1, n - 1);
    }
  }

  /** Lines that are fence marks are exactly those that start with at most three
      spaces and a full run of at least three backticks or tildes. */
  lemma FenceMarkIff(line: string, indent: nat, n: nat)
    requires indent < |line| && 0 < n <= |line| - indent && line[indent] != ' '
    requires forall k :: 0 <= k < indent ==> line[k] == ' '
    requires forall k :: indent <= k < indent + n ==> line[k] == line[indent]
    requires indent + n < |line| ==> line[indent + n] != line[indent]
    ensures FenceMark(line) ==
            if indent <= 3 && n >= 3 && (line[indent] == '`' || line[indent] == '~')
            then Some(Mark(line[indent], n)) else None
  {
    RunLengthUnique(line, 0, ' ', 3, if indent <= 3 then indent else 3);
    if indent <= 3 {
      RunLengthUnique(line, indent, line[indent], |line|, n);
    }
  }

  predicate Closes(f: Fence, mark: Option<Mark>)
  {
    mark.Some? && mark.value.delimiter == f.delimiter && mark.value.length >= f.length
  }

  /** The fence open after one more line. */
  function AfterLine(active: Option<Fence>, line: string, offset: nat): Option<Fence>
  {
    var mark := FenceMark(line);
    if active.None? then
      if mark.None? then None
      else Some(Fence(mark.value.delimiter, mark.value.length, offset, offset + |line|))
    else if Closes(active.value, mark) then None
    else active
  }

  /** The fence open at the end of `s`, given the one open at `offset`. */
  function Scan(s: string, offset: nat, active: Option<Fence>): Option<Fence>
    requires offset <= |s|
    decreases |s| - offset
  {
    if offset == |s| then active
    else Scan(s, LineEnd(s, offset), AfterLine(active, s[offset..LineEnd(s, offset)], offset))
  }

  method OpenFence(source: string) returns (active: Option<Fence>)
    ensures active == Scan(source, 0, None)
  {
    hide FenceMark, LineEnd;
    var offset := 0;
    active := None;
    while offset < |source|
      invariant offset <= |source|
      invariant Scan(source, 0, None) == Scan(source, offset, active)
    {
      var line := source[offset..LineEnd(source, offset)];
      var mark := FenceMark(line);
      if mark.Some? {
        if active.None? {
          active := Some(Fence(mark.value.delimiter, mark.value.length, offset, offset + |line|));
        } else if mark.value.delimiter == active.value.delimiter && mark.value.length >= active.value.length {
          active := None;
        }
      }
      offset := offset + |line|;
    }
  }

  /** Length of the completed lines: one past the last newline. */
  function Completed(source: string): (n: nat)
    ensures n <= |source|
    ensures n > 0 ==> source[n - 1] == '\n'
    ensures forall k :: n <= k < |source| ==> source[k] != '\n'
  {
    if source == [] then 0
    else if source[|source| - 1] == '\n' then |source|
    else Completed(source[..|source| - 1])
  }

  ghost function FenceOf(source: string): Option<Fence>
  {
    Scan(source[..Completed(source)], 0, None)
  }

  lemma FenceInside(source: string)
    ensures FenceOf(source).Some? ==> FenceOf(source).value.start < FenceOf(source).value.content <= Completed(source)
  {
    ScanFrom(source[..Completed(source)], 0, None);
  }

  /** The part of the source that is rendered, and the part shown as plain text. */
  ghost function Stable(source: string): string
  {
    FenceInside(source);
    if FenceOf(source).Some? then source[..FenceOf(source).value.start] else source[..Completed(source)]
  }

  ghost function FenceLine(source: string): string
  {
    FenceInside(source);
    if FenceOf(source).Some? then source[FenceOf(source).value.start..FenceOf(source).value.content] else ""
  }

  ghost function Tail(source: string): string
  {
    FenceInside(source);
    if FenceOf(source).Some? then source[FenceOf(source).value.content..] else source[Completed(source)..]
  }

  datatype Mode = Text | Code

  /** The per-element state: what was last rendered, and what the tail shows. */
  class StreamingElement {
    var rendered: Option<string>
    var mode: Mode
    var tail: string
    var renders: nat

    constructor ()
      ensures rendered == None && mode == Text && tail == "" && renders == 0
    {
      rendered := None;
      mode := Text;
      tail := "";
      renders := 0;
    }

    /** Whatever was shown before, the element ends up showing exactly this
        source; Markdown is rendered again only when the stable part changed. */
    method RenderStreamingMarkdown(source: string)
      modifies this
      ensures rendered == Some(Stable(source)) && tail == Tail(source)
      ensures mode == if FenceOf(source).Some? then Code else Text
      ensures renders == old(renders) + if old(rendered) == Some(Stable(source)) then 0 else 1
    {
      hide Scan, Completed;
      var completedLine := Completed(source);
      var renderable := source[..completedLine];
      var rest := source[completedLine..];
      var next := Text;
      var fence := OpenFence(renderable);
      FenceInside(source);
      if fence.Some? {
        renderable := source[..fence.value.start];
        rest := source[fence.value.content..];
        next := Code;
      }
      if rendered != Some(renderable) {
        renders := renders + 1;
        rendered := Some(renderable);
      }
      if mode != next {
        tail := "";
        mode := next;
      }
      tail := rest;
    }
  }

  // ------------------------------------------------------------ what it keeps

  lemma LineEndStable(a: string, s: string, offset: nat)
    requires offset < |a| && a <= s && a[|a| - 1] == '\n'
    ensures LineEnd(s, offset) == LineEnd(a, offset)
    ensures s[offset..LineEnd(s, offset)] == a[offset..LineEnd(a, offset)]
    decreases |a| - offset
  {
    if a[offset] != '\n' && offset + 1 < |a| {
      LineEndStable(a, s, offset + 1);
    }
    assert LineEnd(s, offset) == LineEnd(a, offset);
    var end := LineEnd(a, offset);
    assert s[offset..end] == a[offset..end];
  }

  /** Scanning completed lines and then the rest is scanning it all. */
  lemma {:induction false} ScanSplit(a: string, s: string, offset: nat, active: Option<Fence>)
    requires offset <= |a| && a <= s && (a == "" || a[|a| - 1] == '\n')
    ensures Scan(s, offset, active) == Scan(s, |a|, Scan(a, offset, active))
    decreases |a| - offset
  {
    if offset < |a| {
      LineEndStable(a, s, offset);
      hide LineEnd, AfterLine;
      var end := LineEnd(a, offset);
      ScanSplit(a, s, end, AfterLine(active, a[offset..end], offset));
    }
  }

  /** A fence open at the end was open before, or starts at `offset` or later. */
  lemma {:induction false} ScanFrom(s: string, offset: nat, active: Option<Fence>)
    requires offset <= |s|
    requires active.Some? ==> active.value.start < active.value.content <= offset
    ensures var f := Scan(s, offset, active);
      f.Some? ==>
        && f.value.start < f.value.content <= |s|
        && (f == active || offset <= f.value.start)
    decreases |s| - offset
  {
    if offset < |s| {
      hide FenceMark;
      var end := LineEnd(s, offset);
      ScanFrom(s, end, AfterLine(active, s[offset..end], offset));
    }
  }

  lemma CompletedGrows(source: string, more: string)
    ensures Completed(source) <= Completed(source + more)
    ensures source[..Completed(source)] <= (source + more)[..Completed(source + more)]
  {
    var n := Completed(source);
    if n > 0 {
      assert (source + more)[n - 1] == '\n';
    }
  }

  /** Whatever text follows, the part already rendered only grows. */
  lemma StablePartGrows(source: string, more: string)
    ensures Stable(source) <= Stable(source + more)
  {
    CompletedGrows(source, more);
    var a := source[..Completed(source)];
    var b := (source + more)[..Completed(source + more)];
    FenceInside(source);
    ScanSplit(a, b, 0, None);
    ScanFrom(b, |a|, FenceOf(source));
    FenceInside(source + more);
  }

  /** Nothing is lost or shown twice: the rendered part, the line that opened the
      fence, if one is open, and the tail are the whole source. */
  lemma PartsAreSource(source: string)
    ensures Stable(source) + FenceLine(source) + Tail(source) == source
    ensures FenceLine(source) == "" <==> FenceOf(source).None?
  {
    hide Scan, Completed;
    FenceInside(source);
    var i := if FenceOf(source).Some? then FenceOf(source).value.start else Completed(source);
    var j := if FenceOf(source).Some? then FenceOf(source).value.content else Completed(source);
    ThreeParts(source, i, j);
  }

  lemma ThreeParts(s: string, i: nat, j: nat)
    requires i <= j <= |s|
    ensures s[..i] + s[i..j] + s[j..] == s
  {
  }

  /** `offset` is the start of a line of `s`. */
  ghost predicate LineStart(s: string, offset: nat)
  {
    offset < |s| && (offset == 0 || s[offset - 1] == '\n')
  }

  ghost function MarkAt(s: string, offset: nat): Option<Mark>
    requires offset < |s|
  {
    FenceMark(s[offset..LineEnd(s, offset)])
  }

  ghost predicate OpenedBy(s: string, f: Fence)
  {
    && LineStart(s, f.start) && f.content == LineEnd(s, f.start)
    && MarkAt(s, f.start) == Some(Mark(f.delimiter, f.length))
  }

  ghost predicate UnclosedFrom(s: string, f: Fence, from: nat)
  {
    forall k :: LineStart(s, k) && from <= k ==> !Closes(f, MarkAt(s, k))
  }

  /** The fence reported was opened by the line it names, and no later line
      closes it. */
  lemma {:induction false} ScanReportsOpenFence(s: string, offset: nat, active: Option<Fence>)
    requires offset == |s| || LineStart(s, offset)
    ensures var f := Scan(s, offset, active);
      f.Some? ==>
        || (f == active && UnclosedFrom(s, f.value, offset))
        || (OpenedBy(s, f.value) && UnclosedFrom(s, f.value, f.value.content))
    decreases |s| - offset
  {
    if offset < |s| {
      hide FenceMark, LineEnd, Closes;
      var end := LineEnd(s, offset);
      NextLineStart(s, offset);
      ScanReportsOpenFence(s, end, AfterLine(active, s[offset..end], offset));
    }
  }

  lemma ReportedFenceIsOpen(source: string)
    ensures var s := source[..Completed(source)];
      FenceOf(source).Some? ==>
        OpenedBy(s, FenceOf(source).value) && UnclosedFrom(s, FenceOf(source).value, FenceOf(source).value.content)
  {
    hide OpenedBy, UnclosedFrom;
    ScanReportsOpenFence(source[..Completed(source)], 0, None);
  }

  lemma NextLineStart(s: string, offset: nat)
    requires LineStart(s, offset)
    ensures LineEnd(s, offset) == |s| || LineStart(s, LineEnd(s, offset))
    ensures forall k :: LineStart(s, k) && offset < k ==> LineEnd(s, offset) <= k
  {
    hide LineEnd;
  }

  // ------------------------------------------------------------------ CommonMark

  /** The text after the run of a fence mark. */
  function Info(line: string): string
    requires FenceMark(line).Some?
  {
    line[RunLength(line, 0, ' ', 3) + FenceMark(line).value.length..]
  }

  predicate Blank(text: string) { forall c :: c in text ==> c == ' ' || c == '\t' || c == '\r' || c == '\n' }

  /** Section 4.5 of CommonMark 0.31 on the text after a run: an opening run of backticks
      has no backtick after it, a closing run nothing but white space. */
  function CommonAfterLine(active: Option<Fence>, line: string, offset: nat): Option<Fence>
  {
    var mark := FenceMark(line);
    if mark.None? then active
    else if active.None? then
      if mark.value.delimiter == '`' && '`' in Info(line) then None
      else Some(Fence(mark.value.delimiter, mark.value.length, offset, offset + |line|))
    else if Closes(active.value, mark) && Blank(Info(line)) then None
    else active
  }

  function CommonScan(s: string, offset: nat, active: Option<Fence>): Option<Fence>
    requires offset <= |s|
    decreases |s| - offset
  {
    if offset == |s| then active
    else CommonScan(s, LineEnd(s, offset), CommonAfterLine(active, s[offset..LineEnd(s, offset)], offset))
  }

  /** A line the two rules read differently: it opens a fence of backticks although
      another backtick follows, or closes one although text follows. */
  predicate Diverges(active: Option<Fence>, line: string)
  {
    var mark := FenceMark(line);
    mark.Some? &&
    if active.None? then mark.value.delimiter == '`' && '`' in Info(line)
    else Closes(active.value, mark) && !Blank(Info(line))
  }

  lemma LineAgreesIff(active: Option<Fence>, line: string, offset: nat)
    ensures AfterLine(active, line, offset) == CommonAfterLine(active, line, offset) <==> !Diverges(active, line)
  {
    hide FenceMark, Info, Blank;
  }

  /** Both rules are in the same state after every line. */
  predicate StatesAgree(s: string, offset: nat, a: Option<Fence>, b: Option<Fence>)
    requires offset <= |s|
    decreases |s| - offset
  {
    a == b &&
    (offset < |s| ==>
       var end := LineEnd(s, offset);
       var line := s[offset..end];
       StatesAgree(s, end, AfterLine(a, line, offset), CommonAfterLine(b, line, offset)))
  }

  predicate NoneDiverges(s: string, offset: nat, active: Option<Fence>)
    requires offset <= |s|
    decreases |s| - offset
  {
    offset < |s| ==>
      var end := LineEnd(s, offset);
      var line := s[offset..end];
      !Diverges(active, line) && NoneDiverges(s, end, AfterLine(active, line, offset))
  }

  /** The code reads the fences of a text as CommonMark does, line by line, exactly when
      no line is one of those; and then it reports the same fence. */
  lemma {:induction false} ScansAgreeIff(s: string, offset: nat, active: Option<Fence>)
    requires offset <= |s|
    ensures StatesAgree(s, offset, active, active) <==> NoneDiverges(s, offset, active)
    ensures NoneDiverges(s, offset, active) ==> Scan(s, offset, active) == CommonScan(s, offset, active)
    decreases |s| - offset
  {
    hide LineEnd, AfterLine, CommonAfterLine, Diverges;
    if offset < |s| {
      var end := LineEnd(s, offset);
      var line := s[offset..end];
      LineAgreesIff(active, line, offset);
      if !Diverges(active, line) {
        ScansAgreeIff(s, end, AfterLine(active, line, offset));
      } else {
        DifferentStates(s, end, AfterLine(active, line, offset), CommonAfterLine(active, line, offset));
      }
    }
  }

  lemma DifferentStates(s: string, offset: nat, a: Option<Fence>, b: Option<Fence>)
    requires offset <= |s| && a != b
    ensures !StatesAgree(s, offset, a, b)
  {
  }

  /** A line of three backticks and any text after them. */
  lemma ThreeBackticks(info: string)
    requires info == "" || info[0] != '`'
    ensures FenceMark("```" + info) == Some(Mark('`', 3)) && Info("```" + info) == info
  {
    var line := "```" + info;
    assert forall k :: 0 <= k < 3 ==> line[k] == '`';
    assert info != "" ==> line[3] == info[0];
    FenceMarkIff(line, 0, 3);
    RunLengthUnique(line, 0, ' ', 3, 0);
  }

  /** A line of either kind. */
  lemma TextAfterClosingFence()
    ensures Diverges(Some(Fence('`', 3, 0, 4)), "``` x\n")
  {
    hide FenceMark, Info;
    var info := " x\n";
    ThreeBackticks(info);
    assert "```" + info == "``` x\n";
    assert info[1] == 'x' && info[1] in info;
  }

  lemma BacktickAfterOpeningFence()
    ensures Diverges(None, "```a`b\n")
  {
    hide FenceMark, Info;
    var info := "a`b\n";
    ThreeBackticks(info);
    assert "```" + info == "```a`b\n";
    assert info[1] == '`' && info[1] in info;
  }

  lemma {:induction false} LineEndIs(s: string, offset: nat, end: nat)
    requires offset < end <= |s| && s[end - 1] == '\n' && forall k :: offset <= k < end - 1 ==> s[k] != '\n'
    ensures LineEnd(s, offset) == end
    decreases end - offset
  {
    if offset + 1 < end {
      LineEndIs(s, offset + 1, end);
    }
  }

  lemma LastLine(s: string, offset: nat, active: Option<Fence>)
    requires offset < |s| && LineEnd(s, offset) == |s|
    ensures Scan(s, offset, active) == AfterLine(active, s[offset..], offset)
    ensures CommonScan(s, offset, active) == CommonAfterLine(active, s[offset..], offset)
  {
    hide LineEnd, AfterLine, CommonAfterLine;
    assert s[offset..|s|] == s[offset..];
  }

  /** A text after which the code sees no open fence, and CommonMark does. */
  lemma ClosedByTextLine()
    ensures Scan("```\n``` x\n", 0, None) == None
    ensures CommonScan("```\n``` x\n", 0, None) == Some(Fence('`', 3, 0, 4))
  {
    hide LineEnd, FenceMark, Blank, Info;
    var s, first, second := "```\n``` x\n", "```\n", "``` x\n";
    LineEndIs(s, 0, 4);
    LineEndIs(s, 4, 10);
    assert s[0..4] == first && s[4..] == second;
    PlainFence();
    TextAfterClosingFence();
    LastLine(s, 4, Some(Fence('`', 3, 0, 4)));
  }

  lemma PlainFence()
    ensures FenceMark("```\n") == Some(Mark('`', 3)) && '`' !in Info("```\n")
  {
    hide FenceMark, Info;
    ThreeBackticks("\n");
    assert "```" + "\n" == "```\n";
  }

  /** A text after which the code sees an open fence, and CommonMark does not. */
  lemma OpenedByInlineCode()
    ensures Scan("```a`b\n", 0, None) == Some(Fence('`', 3, 0, 7))
    ensures CommonScan("```a`b\n", 0, None) == None
  {
    hide LineEnd, FenceMark, Info;
    var s := "```a`b\n";
    LineEndIs(s, 0, 7);
    assert s[0..] == s;
    BacktickAfterOpeningFence();
    InlineMark();
    LastLine(s, 0, None);
  }

  lemma InlineMark()
    ensures FenceMark("```a`b\n") == Some(Mark('`', 3))
  {
    hide FenceMark, Info;
    ThreeBackticks("a`b\n");
    assert "```" + "a`b\n" == "```a`b\n";
  }
}
