/** The attributes of a start tag. */
module Attributes {
  import opened Wrappers
  import opened Scanning
  import opened XmlTags
  import Entities

  /** A name and its value as written between the quotes. */
  datatype Pair = Pair(name: string, raw: string)

  datatype Step = Stop | Passed(next: nat) | Read(pair: Pair, next: nat)

  predicate IsQuote(c: char) { c == '"' || c == '\'' }

  function AfterEquals(s: string, name: string, at: nat): (r: Step)
    requires at <= |s|
    ensures r.Passed? ==> at <= r.next <= |s|
    ensures r.Read? ==> at < r.next <= |s|
  {
    var opening := Skip(s, IsSpace, at);
    if opening == |s| then Stop
    else if !IsQuote(s[opening]) then Passed(opening)
    else
      var end := Find(s, s[opening], opening + 1);
      if end == |s| then Stop else Read(Pair(name, s[opening + 1..end]), end + 1)
  }

  function AfterAttributeName(s: string, start: nat, end: nat): (r: Step)
    requires start < end <= |s|
    ensures r.Passed? ==> start < r.next <= |s|
    ensures r.Read? ==> start < r.next <= |s|
  {
    var equals := Skip(s, IsSpace, end);
    if equals == |s| then Stop
    else if s[equals] != '=' then Passed(equals + 1)
    else AfterEquals(s, s[start..end], equals + 1)
  }

  /** What the next turn from `at` on reads. A name without a value also consumes the
      character after it. */
  function NextStep(s: string, at: nat): (r: Step)
    requires at <= |s|
    ensures r.Passed? ==> at < r.next <= |s|
    ensures r.Read? ==> at < r.next <= |s|
  {
    var start := Skip(s, IsSpace, at);
    if start == |s| || s[start] == '/' then Stop
    else
      var end := Skip(s, IsNameChar, start);
      if end == start then Passed(start + 1) else AfterAttributeName(s, start, end)
  }

  /** All attributes from a position on, in order. */
  function Pairs(s: string, at: nat): seq<Pair>
    requires at <= |s|
    decreases |s| - at
  {
    match NextStep(s, at)
    case Stop => []
    case Passed(next) => Pairs(s, next)
    case Read(pair, next) => [pair] + Pairs(s, next)
  }

  /** The decoded value of the first pair with the local name. */
  function Lookup(pairs: seq<Pair>, requested: string): Option<string>
  {
    if pairs == [] then None
    else if LocalName(pairs[0].name) == requested then Some(Entities.Decode(pairs[0].raw, 0))
    else Lookup(pairs[1..], requested)
  }

  /** What `attribute` answers: the decoded value of the first attribute of the name. */
  function Value(s: string, at: nat, requested: string): Option<string>
    requires at <= |s|
  {
    Lookup(Pairs(s, at), requested)
  }

  lemma ValueStep(s: string, at: nat, requested: string)
    requires at <= |s|
    ensures match NextStep(s, at)
            case Stop => Value(s, at, requested) == None
            case Passed(next) => Value(s, at, requested) == Value(s, next, requested)
            case Read(pair, next) =>
              Value(s, at, requested) ==
                if LocalName(pair.name) == requested then Some(Entities.Decode(pair.raw, 0))
                else Value(s, next, requested)
  {
    hide NextStep, LocalName, Entities.Decode;
  }

  lemma StepCases(s: string, at: nat)
    requires at <= |s|
    ensures var start := Skip(s, IsSpace, at);
      if start == |s| || s[start] == '/' then NextStep(s, at) == Stop
      else
        var end := Skip(s, IsNameChar, start);
        if end == start then NextStep(s, at) == Passed(start + 1)
        else
          var equals := Skip(s, IsSpace, end);
          if equals == |s| then NextStep(s, at) == Stop
          else if s[equals] != '=' then NextStep(s, at) == Passed(equals + 1)
          else NextStep(s, at) == AfterEquals(s, s[start..end], equals + 1)
  {
    hide AfterEquals, Skip, IsSpace, IsNameChar;
  }

  method Attribute(source: string, requested: string) returns (r: Option<string>)
    ensures r == Value(source, 0, requested)
  {
    hide Value, LocalName, Entities.Decode, NextStep;
    var cursor := 0;
    NothingLeft(source, requested);
    while cursor < |source|
      invariant cursor <= |source|
      invariant Value(source, 0, requested) == Value(source, cursor, requested)
      decreases |source| - cursor
    {
      ValueStep(source, cursor, requested);
      var step := ReadStep(source, cursor);
      match step
      case Stop =>
        return None;
      case Passed(next) =>
        cursor := next;
      case Read(pair, next) =>
        cursor := next;
        if LocalName(pair.name) == requested {
          var decoded := Entities.DecodeXml(pair.raw);
          return Some(decoded);
        }
    }
    return None;
  }

  /** The body of the loop. */
  method ReadStep(source: string, at: nat) returns (step: Step)
    requires at < |source|
    ensures step == NextStep(source, at)
  {
    hide Skip, Find, IsSpace, IsNameChar, NextStep, AfterAttributeName;
    StepCases(source, at);
    var cursor := SkipSpaces(source, at);
    if cursor >= |source| || source[cursor] == '/' {
      return Stop;
    }
    var nameStart := cursor;
    cursor := ScanName(source, cursor);
    if cursor == nameStart {
      return Passed(cursor + 1);
    }
    var name := source[nameStart..cursor];
    cursor := SkipSpaces(source, cursor);
    if cursor >= |source| {
      return Stop;
    }
    cursor := cursor + 1;
    if source[cursor - 1] != '=' {
      return Passed(cursor);
    }
    cursor := SkipSpaces(source, cursor);
    if cursor >= |source| {
      return Stop;
    }
    if !IsQuote(source[cursor]) {
      return Passed(cursor);
    }
    var quote := source[cursor];
    cursor := cursor + 1;
    var valueEnd := Find(source, quote, cursor);
    if valueEnd == |source| {
      return Stop;
    }
    step := Read(Pair(name, source[cursor..valueEnd]), valueEnd + 1);
  }

  lemma NothingLeft(s: string, requested: string)
    ensures Value(s, |s|, requested) == None
  {
    assert Skip(s, IsSpace, |s|) == |s|;
  }

  /** The inner loop over white space. */
  method SkipSpaces(source: string, start: nat) returns (cursor: nat)
    requires start <= |source|
    ensures cursor == Skip(source, IsSpace, start)
  {
    cursor := start;
    while cursor < |source| && IsSpace(source[cursor])
      invariant start <= cursor <= |source|
      invariant Skip(source, IsSpace, start) == Skip(source, IsSpace, cursor)
    {
      cursor := cursor + 1;
    }
  }

  // ------------------------------------------------------------------ any text at all

  /** White space from `from` up to `to`, and no further. */
  ghost predicate Blanks(s: string, from: nat, to: nat)
  {
    from <= to <= |s| && (to < |s| ==> !IsSpace(s[to])) && forall k :: from <= k < to ==> IsSpace(s[k])
  }

  /** A whole name from `from` up to `to`. */
  ghost predicate NameRun(s: string, from: nat, to: nat)
  {
    from < to <= |s| && (to < |s| ==> !IsNameChar(s[to])) && forall k :: from <= k < to ==> IsNameChar(s[k])
  }

  /** From `at` on a name stands at `start` up to `end`, and behind it the text goes on at
      `after`. */
  ghost predicate Names(s: string, at: nat, start: nat, end: nat, after: nat)
  {
    Blanks(s, at, start) && NameRun(s, start, end) && Blanks(s, end, after)
  }

  /** A name, '=', and a value between two equal quotes. */
  ghost predicate ReadsPair(
    s: string, at: nat, start: nat, end: nat, equals: nat, opening: nat, pair: Pair, next: nat)
  {
    && Names(s, at, start, end, equals) && equals < |s| && s[equals] == '='
    && Blanks(s, equals + 1, opening) && opening < |s| && IsQuote(s[opening])
    && opening + 1 < next <= |s| && s[next - 1] == s[opening]
    && (forall k :: opening < k < next - 1 ==> s[k] != s[opening])
    && pair == Pair(s[start..end], s[opening + 1..next - 1])
  }

  /** A stray character. */
  ghost predicate PassesStray(s: string, at: nat, start: nat, next: nat)
  {
    Blanks(s, at, start) && start < |s| && s[start] != '/' && !IsNameChar(s[start]) && next == start + 1
  }

  /** A name without '=', and the character after it. */
  ghost predicate PassesName(s: string, at: nat, start: nat, end: nat, after: nat, next: nat)
  {
    Names(s, at, start, end, after) && after < |s| && s[after] != '=' && next == after + 1
  }

  /** A name and '=' without a quote after them. */
  ghost predicate PassesUnquoted(s: string, at: nat, start: nat, end: nat, equals: nat, next: nat)
  {
    && Names(s, at, start, end, equals) && equals < |s| && s[equals] == '='
    && Blanks(s, equals + 1, next) && next < |s| && !IsQuote(s[next])
  }

  lemma BlanksIff(s: string, from: nat, to: nat)
    requires from <= |s|
    ensures Blanks(s, from, to) <==> to == Skip(s, IsSpace, from)
  {
    SkipFirst(s, IsSpace, from);
  }

  lemma NameRunIff(s: string, from: nat, to: nat)
    requires from <= |s|
    ensures NameRun(s, from, to) <==> to == Skip(s, IsNameChar, from) && from < to
  {
    SkipFirst(s, IsNameChar, from);
  }

  lemma SpaceIsNoName(c: char)
    ensures IsSpace(c) || c == '/' ==> !IsNameChar(c)
  {
  }

  /** Where the names stand is determined. */
  lemma NamesIff(s: string, at: nat, start: nat, end: nat, after: nat)
    requires at <= |s|
    ensures Names(s, at, start, end, after) <==>
            && start == Skip(s, IsSpace, at) && end == Skip(s, IsNameChar, start) && start < end
            && after == Skip(s, IsSpace, end)
  {
    hide Blanks, NameRun, IsSpace, IsNameChar, Skip;
    BlanksIff(s, at, start);
    if start == Skip(s, IsSpace, at) {
      NameRunIff(s, start, end);
      if end == Skip(s, IsNameChar, start) {
        BlanksIff(s, end, after);
      }
    }
  }

  lemma QuotedIff(s: string, name: string, at: nat, opening: nat, pair: Pair, next: nat)
    requires at <= |s| && opening == Skip(s, IsSpace, at)
    ensures AfterEquals(s, name, at) == Read(pair, next) <==>
            && opening < |s| && IsQuote(s[opening]) && opening + 1 < next <= |s| && s[next - 1] == s[opening]
            && (forall k :: opening < k < next - 1 ==> s[k] != s[opening])
            && pair == Pair(name, s[opening + 1..next - 1])
    ensures AfterEquals(s, name, at) == Passed(next) <==> opening == next < |s| && !IsQuote(s[opening])
  {
    hide Find, Skip, IsSpace, IsQuote;
    if opening < |s| {
      FindFirst(s, s[opening], opening + 1);
    }
  }

  /** On any text whatsoever: an attribute is read next exactly where a whole name, '=' and
      a value between equal quotes stand, and otherwise what is passed over is a stray
      character, a name without '=' together with the character after it, or a name and
      '=' without a quote. */
  lemma NextStepIff(s: string, at: nat, pair: Pair, next: nat)
    requires at <= |s|
    ensures NextStep(s, at) == Read(pair, next) <==>
            exists start, end, equals, opening :: ReadsPair(s, at, start, end, equals, opening, pair, next)
    ensures NextStep(s, at) == Passed(next) <==>
            || (exists start :: PassesStray(s, at, start, next))
            || (exists start, end, after :: PassesName(s, at, start, end, after, next))
            || (exists start, end, equals :: PassesUnquoted(s, at, start, end, equals, next))
  {
    hide NextStep, Skip, IsSpace, IsNameChar, IsQuote, AfterEquals, ReadsPair, PassesStray, PassesName, PassesUnquoted;
    StepCases(s, at);
    var start := Skip(s, IsSpace, at);
    StrayIff(s, at, start, next);
    if start < |s| && s[start] != '/' && IsNameChar(s[start]) {
      var end := Skip(s, IsNameChar, start);
      NameBegins(s, start, end);
      var after := Skip(s, IsSpace, end);
      NamedIff(s, at, start, end, after, pair, next);
    } else {
      NoName(s, at, start, pair, next);
    }
  }

  lemma NameBegins(s: string, start: nat, end: nat)
    requires start < |s| && end == Skip(s, IsNameChar, start) && IsNameChar(s[start])
    ensures start < end
  {
    hide IsNameChar;
  }

  lemma StrayIff(s: string, at: nat, start: nat, next: nat)
    requires at <= |s| && start == Skip(s, IsSpace, at)
    ensures (exists x :: PassesStray(s, at, x, next)) <==>
            start < |s| && s[start] != '/' && !IsNameChar(s[start]) && next == start + 1
    ensures start < |s| && !IsNameChar(s[start]) ==> Skip(s, IsNameChar, start) == start
  {
    hide IsSpace, IsNameChar, Blanks;
    BlanksIff(s, at, start);
    forall x: nat | PassesStray(s, at, x, next)
      ensures x == start
    {
      BlanksIff(s, at, x);
    }
    if start < |s| && s[start] != '/' && !IsNameChar(s[start]) && next == start + 1 {
      assert PassesStray(s, at, start, next);
    }
  }

  lemma NoName(s: string, at: nat, start: nat, pair: Pair, next: nat)
    requires at <= |s| && start == Skip(s, IsSpace, at)
    requires !(start < |s| && s[start] != '/' && IsNameChar(s[start]))
    ensures forall x, end, equals, opening :: !ReadsPair(s, at, x, end, equals, opening, pair, next)
    ensures forall x, end, after :: !PassesName(s, at, x, end, after, next)
    ensures forall x, end, equals :: !PassesUnquoted(s, at, x, end, equals, next)
  {
    if start < |s| {
      SpaceIsNoName(s[start]);
    }
    forall x: nat, end: nat, after: nat
      ensures !Names(s, at, x, end, after)
    {
      hide Skip, IsSpace, IsNameChar, Names;
      NamesIff(s, at, x, end, after);
      if Names(s, at, x, end, after) {
        NameRunIff(s, x, end);
        NamedHere(s, at, x, end, after);
      }
    }
  }

  lemma NamedHere(s: string, at: nat, start: nat, end: nat, after: nat)
    requires Names(s, at, start, end, after)
    ensures start < |s| && IsNameChar(s[start])
  {
  }

  lemma NamedIff(s: string, at: nat, start: nat, end: nat, after: nat, pair: Pair, next: nat)
    requires at <= |s| && start == Skip(s, IsSpace, at) && end == Skip(s, IsNameChar, start) && start < end
    requires after == Skip(s, IsSpace, end)
    ensures (exists x, y, z, o :: ReadsPair(s, at, x, y, z, o, pair, next)) <==>
            after < |s| && s[after] == '=' && AfterEquals(s, s[start..end], after + 1) == Read(pair, next)
    ensures (exists x, y, z :: PassesName(s, at, x, y, z, next)) <==>
            after < |s| && s[after] != '=' && next == after + 1
    ensures (exists x, y, z :: PassesUnquoted(s, at, x, y, z, next)) <==>
            after < |s| && s[after] == '=' && AfterEquals(s, s[start..end], after + 1) == Passed(next)
  {
    hide Skip, IsSpace, IsNameChar, IsQuote, AfterEquals, Names, Blanks;
    OnlyNames(s, at, start, end, after);
    if after < |s| && s[after] == '=' {
      var opening := Skip(s, IsSpace, after + 1);
      QuotedIff(s, s[start..end], after + 1, opening, pair, next);
      OnlyBlanks(s, after + 1, opening);
      assert ReadsPair(s, at, start, end, after, opening, pair, next) <==>
             AfterEquals(s, s[start..end], after + 1) == Read(pair, next);
      assert PassesUnquoted(s, at, start, end, after, next) <==>
             AfterEquals(s, s[start..end], after + 1) == Passed(next);
    }
    assert PassesName(s, at, start, end, after, next) <==> after < |s| && s[after] != '=' && next == after + 1;
  }

  lemma OnlyNames(s: string, at: nat, start: nat, end: nat, after: nat)
    requires at <= |s| && start == Skip(s, IsSpace, at) && end == Skip(s, IsNameChar, start) && start < end
    requires after == Skip(s, IsSpace, end)
    ensures forall x: nat, y: nat, z: nat :: Names(s, at, x, y, z) <==> x == start && y == end && z == after
  {
    forall x: nat, y: nat, z: nat
      ensures Names(s, at, x, y, z) <==> x == start && y == end && z == after
    {
      hide Skip, IsSpace, IsNameChar, Names;
      NamesIff(s, at, x, y, z);
    }
  }

  lemma OnlyBlanks(s: string, at: nat, opening: nat)
    requires at <= |s| && opening == Skip(s, IsSpace, at)
    ensures forall o: nat :: Blanks(s, at, o) <==> o == opening
  {
    forall o: nat
      ensures Blanks(s, at, o) <==> o == opening
    {
      BlanksIff(s, at, o);
    }
  }

  // ------------------------------------------------------------ prefixed attributes

  /** The value of the attribute of exactly that name. */
  function PlainLookup(pairs: seq<Pair>, requested: string): Option<string>
  {
    if pairs == [] then None
    else if pairs[0].name == requested then Some(Entities.Decode(pairs[0].raw, 0))
    else PlainLookup(pairs[1..], requested)
  }

  /** The first attribute of the local name, if there is one, has no prefix. */
  predicate PlainFirst(pairs: seq<Pair>, requested: string)
  {
    pairs == [] || pairs[0].name == requested ||
    (LocalName(pairs[0].name) != requested && PlainFirst(pairs[1..], requested))
  }

  function WithValues(pairs: seq<Pair>, values: seq<string>): seq<Pair>
    requires |values| == |pairs|
  {
    if pairs == [] then [] else [Pair(pairs[0].name, values[0])] + WithValues(pairs[1..], values[1..])
  }

  ghost predicate SameAnswer(pairs: seq<Pair>, values: seq<string>, requested: string)
    requires |values| == |pairs|
  {
    Lookup(WithValues(pairs, values), requested) == PlainLookup(WithValues(pairs, values), requested)
  }

  lemma {:induction false} PlainAnswers(pairs: seq<Pair>, values: seq<string>, requested: string)
    requires ':' !in requested && |values| == |pairs| && PlainFirst(pairs, requested)
    ensures SameAnswer(pairs, values, requested)
  {
    hide LocalName, Entities.Decode;
    if pairs != [] {
      PlainName(requested);
      if pairs[0].name != requested {
        PlainAnswers(pairs[1..], values[1..], requested);
      }
    }
  }

  /** With all values the same, nothing else is answered. */
  lemma {:induction false} OneValue(pairs: seq<Pair>, values: seq<string>, requested: string)
    requires |values| == |pairs| && forall k :: 0 <= k < |values| ==> values[k] == "b"
    ensures PlainLookup(WithValues(pairs, values), requested) in {None, Some("b")}
  {
    hide Entities.Decode;
    if pairs != [] {
      Entities.PlainDecodes("b", 0);
      OneValue(pairs[1..], values[1..], requested);
    }
  }

  lemma {:induction false} PrefixAnswers(pairs: seq<Pair>, requested: string) returns (values: seq<string>)
    requires ':' !in requested && !PlainFirst(pairs, requested)
    ensures |values| == |pairs| && !SameAnswer(pairs, values, requested)
  {
    hide LocalName, Entities.Decode;
    if LocalName(pairs[0].name) == requested {
      var others := seq(|pairs| - 1, _ => "b");
      values := ["a"] + others;
      assert values[1..] == others;
      Entities.PlainDecodes("a", 0);
      OneValue(pairs[1..], others, requested);
    } else {
      var rest := PrefixAnswers(pairs[1..], requested);
      values := [""] + rest;
      assert values[1..] == rest;
    }
  }

  /** Whatever the attributes' values, the plain one is answered exactly when no prefixed
      attribute of the same local name stands before it or alone. */
  lemma PlainAnsweredIff(pairs: seq<Pair>, requested: string)
    requires ':' !in requested
    ensures (forall values :: |values| == |pairs| ==> SameAnswer(pairs, values, requested)) <==>
            PlainFirst(pairs, requested)
  {
    if PlainFirst(pairs, requested) {
      forall values | |values| == |pairs|
        ensures SameAnswer(pairs, values, requested)
      {
        PlainAnswers(pairs, values, requested);
      }
    } else {
      var values := PrefixAnswers(pairs, requested);
    }
  }

  /** An example: `xml:id` before `id`. */
  lemma PrefixedIsAnswered()
    ensures !PlainFirst([Pair("xml:id", "a"), Pair("id", "b")], "id")
    ensures Lookup([Pair("xml:id", "a"), Pair("id", "b")], "id") == Some("a")
  {
    hide Entities.Decode, LocalName;
    PrefixedName("xml", "id");
    assert "xml" + ":" + "id" == "xml:id";
    Entities.PlainDecodes("a", 0);
  }
}
