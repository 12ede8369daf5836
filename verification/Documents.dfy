/** Documents as a printer writes them, and what the scanner reads in them. */
module Documents {
  import opened Wrappers
  import opened Scanning
  import opened XmlTags
  import opened Attributes

  /** An attribute as written: white space before its name and around '=', and its
      quoted value. */
  datatype Attr = Attr(gap: string, name: string, before: string, after: string, quote: char, raw: string)

  predicate Spaces(s: string) { forall c :: c in s ==> IsSpace(c) }

  predicate IsName(s: string) { s != "" && forall c :: c in s ==> IsNameChar(c) }

  predicate ValidAttr(a: Attr)
  {
    && a.gap != "" && Spaces(a.gap) && IsName(a.name) && Spaces(a.before) && Spaces(a.after)
    && IsQuote(a.quote) && a.quote !in a.raw
  }

  function AttrText(a: Attr): string
  {
    a.gap + a.name + a.before + "=" + a.after + [a.quote] + a.raw + [a.quote]
  }

  function AttrsText(attrs: seq<Attr>): string
  {
    if attrs == [] then "" else AttrText(attrs[0]) + AttrsText(attrs[1..])
  }

  function PairsOf(attrs: seq<Attr>): seq<Pair>
  {
    if attrs == [] then [] else [Pair(attrs[0].name, attrs[0].raw)] + PairsOf(attrs[1..])
  }

  /** The end of a tag: white space and, for an empty element, a slash. */
  datatype Tail = Tail(spaces: string, slash: bool)

  function TailText(t: Tail): string { t.spaces + if t.slash then "/" else "" }

  /** One part of a document. */
  datatype Item =
    | Text(text: string)
    | Comment(body: string)
    | Markup(kind: char, body: string)
    | Element(name: string, attrs: seq<Attr>, tail: Tail)

  predicate Closes(s: string, k: nat)
  {
    k + 3 <= |s| && s[k] == '-' && s[k + 1] == '-' && s[k + 2] == '>'
  }

  predicate ValidItem(item: Item)
  {
    match item
    case Text(text) => '<' !in text
    case Comment(body) => forall k: nat :: k < |body| ==> !Closes(body, k)
    case Markup(kind, body) => IsMarkupKind(kind) && '>' !in body && !(kind == '!' && "--" <= body)
    case Element(name, attrs, tail) => IsName(name) && (forall a :: a in attrs ==> ValidAttr(a)) && Spaces(tail.spaces)
  }

  function InTag(attrs: seq<Attr>, tail: Tail): string { AttrsText(attrs) + TailText(tail) }

  function ItemText(item: Item): string
  {
    match item
    case Text(text) => text
    case Comment(body) => "<!--" + body + "-->"
    case Markup(kind, body) => "<" + [kind] + body + ">"
    case Element(name, attrs, tail) => "<" + name + InTag(attrs, tail) + ">"
  }

  function Print(items: seq<Item>): string
  {
    if items == [] then "" else ItemText(items[0]) + Print(items[1..])
  }

  function OwnTags(item: Item, next: nat): seq<Tag>
  {
    if item.Element? then [Tag(item.name, InTag(item.attrs, item.tail), next)] else []
  }

  /** The start tags of a printed document, the first item standing at `at`. */
  function TagsOf(items: seq<Item>, at: nat): seq<Tag>
  {
    if items == [] then []
    else
      var next := at + |ItemText(items[0])|;
      OwnTags(items[0], next) + TagsOf(items[1..], next)
  }

  // ------------------------------------------------------------------ attributes

  lemma OtherChars(c: char)
    ensures IsQuote(c) ==> !IsSpace(c) && !IsNameChar(c)
    ensures IsSpace(c) ==> !IsNameChar(c) && !IsQuote(c) && c != '>'
    ensures IsNameChar(c) ==> !IsQuote(c) && c != '>' && c != '/'
    ensures c == '=' || c == '/' ==> !IsSpace(c) && !IsNameChar(c) && !IsQuote(c)
    ensures c == '>' ==> !IsNameChar(c)
  {
  }

  lemma SpacesRead(s: string, at: nat, run: string)
    requires At(s, at, run) && Spaces(run) && at + |run| < |s| && !IsSpace(s[at + |run|])
    ensures Skip(s, IsSpace, at) == at + |run|
  {
    SkipsRun(s, IsSpace, at, run);
  }

  lemma NameRead(s: string, at: nat, name: string)
    requires At(s, at, name) && IsName(name) && at + |name| < |s| && !IsNameChar(s[at + |name|])
    ensures Skip(s, IsNameChar, at) == at + |name| && s[at..at + |name|] == name
    ensures s[at] == name[0] && IsNameChar(s[at])
  {
    SkipsRun(s, IsNameChar, at, name);
    AtSlice(s, at, name);
    assert name[0] in name;
    assert s[at + 0] == name[0];
  }

  lemma QuotedRead(s: string, name: string, at: nat, after: string, quote: char, raw: string)
    requires Spaces(after) && IsQuote(quote) && quote !in raw
    requires At(s, at, after + [quote] + raw + [quote])
    ensures AfterEquals(s, name, at) == Read(Pair(name, raw), at + |after| + |raw| + 2)
  {
    hide Find, Skip;
    AtSplit(s, at, after + [quote] + raw, [quote]);
    AtSplit(s, at, after + [quote], raw);
    AtSplit(s, at, after, [quote]);
    AtChar(s, at + |after|, quote);
    AtChar(s, at + |after| + 1 + |raw|, quote);
    OtherChars(quote);
    SpacesRead(s, at, after);
    FindsEnd(s, at + |after| + 1, raw, quote);
    AtSlice(s, at + |after| + 1, raw);
  }

  /** The character after a name is white space or '='. */
  lemma BeforeEquals(s: string, at: nat, before: string)
    requires At(s, at, before + "=") && Spaces(before)
    ensures At(s, at, before) && at + |before| < |s| && s[at + |before|] == '='
    ensures !IsNameChar(s[at]) && Skip(s, IsSpace, at) == at + |before|
  {
    AtSplit(s, at, before, "=");
    AtChar(s, at + |before|, '=');
    OtherChars('=');
    SpacesRead(s, at, before);
    OtherChars(s[at]);
    if before != "" {
      assert before[0] in before;
      assert s[at + 0] == before[0];
    }
  }

  lemma AttrParts(s: string, at: nat, a: Attr)
    requires At(s, at, AttrText(a))
    ensures At(s, at, a.gap) && At(s, at + |a.gap|, a.name)
    ensures At(s, at + |a.gap| + |a.name|, a.before + "=")
    ensures At(s, at + |a.gap| + |a.name| + |a.before| + 1, a.after + [a.quote] + a.raw + [a.quote])
  {
    hide At;
    var head := a.gap + a.name;
    assert AttrText(a) == (head + (a.before + "=")) + (a.after + [a.quote] + a.raw + [a.quote]);
    AtSplit(s, at, head + (a.before + "="), a.after + [a.quote] + a.raw + [a.quote]);
    AtSplit(s, at, head, a.before + "=");
    AtSplit(s, at, a.gap, a.name);
  }

  lemma AttrRead(s: string, at: nat, a: Attr)
    requires ValidAttr(a) && At(s, at, AttrText(a))
    ensures NextStep(s, at) == Read(Pair(a.name, a.raw), at + |AttrText(a)|)
  {
    hide At, Spaces, IsName, Skip, IsSpace, IsNameChar, IsQuote, AfterEquals, NextStep;
    AttrParts(s, at, a);
    var name := at + |a.gap|;
    var end := name + |a.name|;
    BeforeEquals(s, end, a.before);
    NameRead(s, name, a.name);
    OtherChars(s[name]);
    SpacesRead(s, at, a.gap);
    QuotedRead(s, a.name, end + |a.before| + 1, a.after, a.quote, a.raw);
    StepCases(s, at);
  }

  lemma TailRead(s: string, at: nat, tail: Tail)
    requires At(s, at, TailText(tail)) && Spaces(tail.spaces) && at + |TailText(tail)| == |s|
    ensures NextStep(s, at) == Stop
  {
    AtSplit(s, at, tail.spaces, if tail.slash then "/" else "");
    if tail.slash {
      AtChar(s, at + |tail.spaces|, '/');
    }
    SkipsRun(s, IsSpace, at, tail.spaces);
    assert Skip(s, IsSpace, at) == at + |tail.spaces|;
    assert tail.slash || at + |tail.spaces| == |s|;
  }

  lemma {:induction false} AttrsRead(s: string, at: nat, attrs: seq<Attr>, tail: Tail)
    requires (forall a :: a in attrs ==> ValidAttr(a)) && Spaces(tail.spaces)
    requires At(s, at, InTag(attrs, tail)) && at + |InTag(attrs, tail)| == |s|
    ensures Pairs(s, at) == PairsOf(attrs)
    decreases |attrs|
  {
    hide At, ValidAttr, AttrText, TailText, NextStep, Spaces;
    if attrs == [] {
      assert InTag(attrs, tail) == TailText(tail);
      TailRead(s, at, tail);
    } else {
      assert InTag(attrs, tail) == AttrText(attrs[0]) + InTag(attrs[1..], tail);
      AtSplit(s, at, AttrText(attrs[0]), InTag(attrs[1..], tail));
      AttrRead(s, at, attrs[0]);
      AttrsRead(s, at + |AttrText(attrs[0])|, attrs[1..], tail);
    }
  }

  // ------------------------------------------------------------------------ tags

  lemma {:induction false} BareRun(s: string, at: nat, run: string)
    requires At(s, at, run) && forall c :: c in run ==> !IsQuote(c) && c != '>'
    ensures TagEnd(s, at, None) == TagEnd(s, at + |run|, None)
    decreases |run|
  {
    hide At;
    if run != "" {
      assert run == [run[0]] + run[1..];
      AtSplit(s, at, [run[0]], run[1..]);
      AtChar(s, at, run[0]);
      assert run[0] in run;
      BareRun(s, at + 1, run[1..]);
    }
  }

  lemma {:induction false} QuotedRun(s: string, at: nat, run: string, quote: char)
    requires At(s, at, run) && quote !in run
    ensures TagEnd(s, at, Some(quote)) == TagEnd(s, at + |run|, Some(quote))
    decreases |run|
  {
    hide At;
    if run != "" {
      assert run == [run[0]] + run[1..];
      AtSplit(s, at, [run[0]], run[1..]);
      AtChar(s, at, run[0]);
      QuotedRun(s, at + 1, run[1..], quote);
    }
  }

  lemma BareHead(a: Attr)
    requires ValidAttr(a)
    ensures forall c :: c in a.gap + a.name + a.before + "=" + a.after ==> !IsQuote(c) && c != '>'
  {
    forall c | c in a.gap + a.name + a.before + "=" + a.after
      ensures !IsQuote(c) && c != '>'
    {
      OtherChars(c);
    }
  }

  lemma AttrInTag(s: string, at: nat, a: Attr)
    requires ValidAttr(a) && At(s, at, AttrText(a))
    ensures TagEnd(s, at, None) == TagEnd(s, at + |AttrText(a)|, None)
  {
    BareHead(a);
    hide At, IsSpace, IsNameChar;
    var head := a.gap + a.name + a.before + "=" + a.after;
    AtSplit(s, at, head + [a.quote] + a.raw, [a.quote]);
    AtSplit(s, at, head + [a.quote], a.raw);
    AtSplit(s, at, head, [a.quote]);
    BareRun(s, at, head);
    AtChar(s, at + |head|, a.quote);
    QuotedRun(s, at + |head| + 1, a.raw, a.quote);
    AtChar(s, at + |head| + 1 + |a.raw|, a.quote);
  }

  lemma {:induction false} InsideTag(s: string, at: nat, attrs: seq<Attr>, tail: Tail)
    requires (forall a :: a in attrs ==> ValidAttr(a)) && Spaces(tail.spaces)
    requires At(s, at, InTag(attrs, tail))
    ensures TagEnd(s, at, None) == TagEnd(s, at + |InTag(attrs, tail)|, None)
    decreases |attrs|
  {
    hide At, ValidAttr, AttrText, TagEnd;
    if attrs == [] {
      assert InTag(attrs, tail) == TailText(tail);
      BareRun(s, at, TailText(tail));
    } else {
      assert InTag(attrs, tail) == AttrText(attrs[0]) + InTag(attrs[1..], tail);
      AtSplit(s, at, AttrText(attrs[0]), InTag(attrs[1..], tail));
      AttrInTag(s, at, attrs[0]);
      InsideTag(s, at + |AttrText(attrs[0])|, attrs[1..], tail);
    }
  }

  // ----------------------------------------------------------------------- items

  lemma {:induction false} TextPassed(s: string, at: nat, text: string)
    requires At(s, at, text) && '<' !in text
    ensures Find(s, '<', at) == Find(s, '<', at + |text|)
    decreases |text|
  {
    hide At;
    if text != "" {
      assert text == [text[0]] + text[1..];
      AtSplit(s, at, [text[0]], text[1..]);
      AtChar(s, at, text[0]);
      TextPassed(s, at + 1, text[1..]);
    }
  }

  lemma TagsFromFind(s: string, i: nat, j: nat)
    requires i <= |s| && j <= |s| && Find(s, '<', i) == Find(s, '<', j)
    ensures Tags(s, i) == Tags(s, j)
  {
    hide Find, TokenAt;
  }

  lemma ClosesIs(s: string, k: nat)
    requires k <= |s|
    ensures StartsAt(s, k, "-->") <==> Closes(s, k)
  {
    if Closes(s, k) {
      assert s[k..][..3] == "-->";
    }
    if StartsAt(s, k, "-->") {
      assert s[k..][0] == '-' && s[k..][1] == '-' && s[k..][2] == '>';
    }
  }

  lemma CommentBody(s: string, at: nat, body: string)
    requires At(s, at, body + "-->") && forall k: nat :: k < |body| ==> !Closes(body, k)
    ensures Closes(s, at + |body|) && forall k: nat :: at <= k < at + |body| ==> !Closes(s, k)
  {
    var whole := body + "-->";
    var n := |body|;
    assert s[at + n] == whole[n] && s[at + (n + 1)] == whole[n + 1] && s[at + (n + 2)] == whole[n + 2];
    forall k: nat | at <= k < at + n
      ensures !Closes(s, k)
    {
      var i := k - at;
      assert !Closes(body, i);
      assert s[at + i] == whole[i] && s[at + (i + 1)] == whole[i + 1] && s[at + (i + 2)] == whole[i + 2];
    }
  }

  lemma CommentPassed(s: string, at: nat, body: string)
    requires At(s, at, "<!--" + body + "-->") && ValidItem(Comment(body))
    ensures NextToken(s, at) == Skipped(at + |body| + 7)
  {
    hide At, Find, FindText, StartsAt, NextToken, Closes, AfterComment;
    assert "<!--" + body + "-->" == "<!--" + (body + "-->");
    AtSplit(s, at, "<!--", body + "-->");
    CommentHere(s, at);
    CommentBody(s, at + 4, body);
    CommentFits(s, at + 4 + |body|);
    CommentIff(s, at, at + |body| + 7);
    BeginsIs(s, at);
    FindHere(s, at);
    TokenCases(s, at);
  }

  lemma CommentHere(s: string, at: nat)
    requires At(s, at, "<!--")
    ensures BeginsComment(s, at) && s[at] == '<'
  {
    AtSlice(s, at, "<!--");
    assert s[at + 0] == "<!--"[0];
  }

  lemma CommentFits(s: string, k: nat)
    requires Closes(s, k)
    ensures k + 3 <= |s|
  {
  }

  lemma OpensAt(s: string, at: nat, c: char)
    requires At(s, at, "<" + [c])
    ensures Find(s, '<', at) == at && at + 1 < |s| && s[at + 1] == c
  {
    AtSplit(s, at, "<", [c]);
    AtChar(s, at, '<');
    AtChar(s, at + 1, c);
  }

  lemma MarkupParts(s: string, at: nat, kind: char, body: string)
    requires At(s, at, "<" + [kind] + body + ">")
    ensures At(s, at, "<" + [kind]) && At(s, at + 2, body)
    ensures at + 2 + |body| < |s| && s[at + 2 + |body|] == '>'
  {
    hide At;
    AtSplit(s, at, "<" + [kind] + body, ">");
    AtSplit(s, at, "<" + [kind], body);
    AtChar(s, at + 2 + |body|, '>');
  }

  lemma MarkupPassed(s: string, at: nat, kind: char, body: string)
    requires At(s, at, "<" + [kind] + body + ">") && ValidItem(Markup(kind, body))
    ensures NextToken(s, at) == Skipped(at + |body| + 3)
  {
    hide Find, At, NextToken, StartsAt, IsNameChar, Skip;
    MarkupParts(s, at, kind, body);
    OpensAt(s, at, kind);
    FindsEnd(s, at + 2, body, '>');
    NotComment(s, at, kind, body);
    TokenCases(s, at);
  }

  lemma CommentOpens(s: string, at: nat)
    requires at <= |s| && StartsAt(s, at, "<!--")
    ensures at + 4 <= |s| && s[at + 1] == '!' && s[at + 2] == '-' && s[at + 3] == '-'
  {
    assert s[at..][1] == '!' && s[at..][2] == '-' && s[at..][3] == '-';
  }

  lemma NotComment(s: string, at: nat, kind: char, body: string)
    requires At(s, at, "<" + [kind] + body + ">") && !(kind == '!' && "--" <= body)
    ensures !StartsAt(s, at, "<!--")
  {
    var whole := "<" + [kind] + body + ">";
    assert whole[1] == kind;
    assert whole[2] == if |body| == 0 then '>' else body[0];
    assert |body| > 0 ==> whole[3] == if |body| == 1 then '>' else body[1];
    if StartsAt(s, at, "<!--") {
      hide StartsAt;
      CommentOpens(s, at);
    }
  }

  lemma InTagHead(attrs: seq<Attr>, tail: Tail)
    requires (forall a :: a in attrs ==> ValidAttr(a)) && Spaces(tail.spaces)
    ensures var rest := InTag(attrs, tail) + ">"; !IsNameChar(rest[0])
  {
    hide IsSpace, IsNameChar;
    var rest := InTag(attrs, tail) + ">";
    OtherChars(rest[0]);
    if attrs != [] {
      var a := attrs[0];
      assert ValidAttr(a) && a.gap[0] in a.gap;
      assert AttrText(a)[0] == a.gap[0];
      assert AttrsText(attrs)[0] == AttrText(a)[0];
    } else if tail.spaces != "" {
      assert rest == TailText(tail) + ">";
      assert rest[0] == tail.spaces[0];
      assert tail.spaces[0] in tail.spaces;
    }
  }

  lemma ElementParts(s: string, at: nat, name: string, inside: string)
    requires At(s, at, "<" + name + inside + ">")
    ensures At(s, at, "<") && At(s, at + 1, name) && At(s, at + 1 + |name|, inside)
    ensures At(s, at + 1 + |name| + |inside|, ">") && At(s, at + 1 + |name|, inside + ">")
  {
    hide At;
    AtSplit(s, at, "<" + name + inside, ">");
    AtSplit(s, at, "<" + name, inside);
    AtSplit(s, at, "<", name);
    assert "<" + name + inside + ">" == "<" + name + (inside + ">");
    AtSplit(s, at, "<" + name, inside + ">");
  }

  lemma ElementRead(s: string, at: nat, name: string, attrs: seq<Attr>, tail: Tail)
    requires At(s, at, ItemText(Element(name, attrs, tail))) && ValidItem(Element(name, attrs, tail))
    ensures NextToken(s, at) == Start(Tag(name, InTag(attrs, tail), at + |ItemText(Element(name, attrs, tail))|))
  {
    hide At, ValidAttr, Find, Skip, IsNameChar, InTag, TagEnd, NextToken;
    var inside := InTag(attrs, tail);
    ElementParts(s, at, name, inside);
    AtChar(s, at, '<');
    var nameEnd := at + 1 + |name|;
    InTagHead(attrs, tail);
    FirstOf(s, nameEnd, inside + ">");
    NameRead(s, at + 1, name);
    InsideTag(s, nameEnd, attrs, tail);
    AtChar(s, nameEnd + |inside|, '>');
    AtSlice(s, nameEnd, inside);
    EndsHere(s, at, nameEnd + |inside|);
    NotMarkup(s, at);
    TokenCases(s, at);
  }

  lemma FirstOf(s: string, at: nat, part: string)
    requires At(s, at, part) && part != ""
    ensures at < |s| && s[at] == part[0]
  {
    assert s[at + 0] == part[0];
  }

  lemma EndsHere(s: string, at: nat, end: nat)
    requires at < |s| && s[at] == '<' && end < |s| && s[end] == '>'
    ensures Find(s, '<', at) == at && TagEnd(s, end, None) == end
  {
  }

  lemma NotMarkup(s: string, at: nat)
    requires at + 1 < |s| && IsNameChar(s[at + 1])
    ensures !IsMarkupKind(s[at + 1]) && !StartsAt(s, at, "<!--")
  {
  }

  lemma ItemRead(s: string, at: nat, item: Item)
    requires ValidItem(item) && At(s, at, ItemText(item))
    ensures var next := at + |ItemText(item)|;
      Tags(s, at) == OwnTags(item, next) + Tags(s, next)
  {
    hide NextToken, Find, InTag;
    match item
    case Text(text) =>
      TextPassed(s, at, text);
      TagsFromFind(s, at, at + |text|);
    case Comment(body) =>
      CommentPassed(s, at, body);
    case Markup(kind, body) =>
      MarkupPassed(s, at, kind, body);
    case Element(name, attrs, tail) =>
      ElementRead(s, at, name, attrs, tail);
  }

  lemma TagsOfFirst(items: seq<Item>, at: nat)
    requires items != []
    ensures var next := at + |ItemText(items[0])|;
      TagsOf(items, at) == OwnTags(items[0], next) + TagsOf(items[1..], next)
    ensures Print(items) == ItemText(items[0]) + Print(items[1..])
  {
    hide ItemText, InTag;
  }

  lemma NothingToRead(s: string, at: nat)
    ensures Tags(s, |s|) == TagsOf([], at) == [] && Print([]) == ""
  {
    assert Find(s, '<', |s|) == |s|;
  }

  lemma {:induction false} ItemsRead(s: string, at: nat, items: seq<Item>)
    requires forall item :: item in items ==> ValidItem(item)
    requires At(s, at, Print(items)) && at + |Print(items)| == |s|
    ensures Tags(s, at) == TagsOf(items, at)
    decreases |items|
  {
    hide At, ValidItem, ItemText, OwnTags, Tags, TagsOf, Print;
    if items == [] {
      NothingToRead(s, at);
    } else {
      TagsOfFirst(items, at);
      AtSplit(s, at, ItemText(items[0]), Print(items[1..]));
      ItemRead(s, at, items[0]);
      ItemsRead(s, at + |ItemText(items[0])|, items[1..]);
    }
  }

  /** Scanning a printed document finds its elements' start tags, all of them and
      nothing else, in document order: not in comments, not in other markup, and
      whatever '>' their quoted values hold. */
  lemma DocumentTags(items: seq<Item>)
    requires forall item :: item in items ==> ValidItem(item)
    ensures Tags(Print(items), 0) == TagsOf(items, 0)
  {
    ItemsRead(Print(items), 0, items);
  }

  /** Wherever a CDATA section stands, it is passed over whole exactly when it holds
      no '>'. */
  lemma CdataPassedIff(s: string, at: nat, body: string)
    requires At(s, at, "<![CDATA[" + body + "]]>")
    ensures NextToken(s, at) == Skipped(at + |body| + 12) <==> '>' !in body
  {
    hide StartsAt, TokenAt, NextToken, At, Find;
    CdataChars(s, at, body);
    NoCommentHere(s, at);
    TokenCases(s, at);
    FindHere(s, at);
    FindFirst(s, '>', at + 2);
    if '>' in body {
      var k :| 0 <= k < |body| && body[k] == '>';
      assert s[at + 9 + k] == '>';
    } else {
      assert forall k :: at + 2 <= k < at + |body| + 11 ==> s[k] != '>';
    }
  }

  lemma CdataChars(s: string, at: nat, body: string)
    requires At(s, at, "<![CDATA[" + body + "]]>")
    ensures at + |body| + 12 <= |s| && s[at] == '<' && s[at + 1] == '!' && s[at + 2] == '['
    ensures s[at + |body| + 11] == '>'
    ensures forall k :: at + 2 <= k < at + |body| + 11 && !(at + 9 <= k < at + 9 + |body|) ==> s[k] != '>'
    ensures forall k :: 0 <= k < |body| ==> s[at + 9 + k] == body[k]
    ensures forall k :: at + 9 <= k < at + 9 + |body| ==> s[k] == body[k - at - 9]
    ensures '>' !in body ==> forall k :: at + 9 <= k < at + 9 + |body| ==> s[k] != '>'
  {
    var whole := "<![CDATA[" + body + "]]>";
    assert forall k :: 0 <= k < |whole| ==> s[at + k] == whole[k];
    assert s[at + 0] == whole[0] && s[at + 1] == whole[1] && s[at + 2] == whole[2];
    assert s[at + (|body| + 11)] == whole[|body| + 11];
    forall k | 0 <= k < |body|
      ensures s[at + 9 + k] == body[k]
    {
      assert s[at + (9 + k)] == whole[9 + k];
    }
    forall k | at + 9 <= k < at + 9 + |body|
      ensures s[k] == body[k - at - 9]
    {
      assert s[at + 9 + (k - at - 9)] == body[k - at - 9];
    }
    forall k | at + 2 <= k < at + |body| + 11 && !(at + 9 <= k < at + 9 + |body|)
      ensures s[k] != '>'
    {
      assert s[at + (k - at)] == whole[k - at];
    }
  }

  lemma FindHere(s: string, at: nat)
    requires at < |s| && s[at] == '<'
    ensures Find(s, '<', at) == at
  {
  }

  lemma NoCommentHere(s: string, at: nat)
    requires at + 2 < |s| && s[at + 2] != '-'
    ensures !StartsAt(s, at, "<!--")
  {
    if StartsAt(s, at, "<!--") {
      CommentOpens(s, at);
    }
  }

  /** Otherwise what follows the first '>' is scanned: a tag inside a CDATA section
      is reported, which XML does not allow. */
  lemma CdataTagReported()
    ensures Tags("<![CDATA[><a>]]>", 0) == [Tag("a", "", 13)]
  {
    hide Tags, ValidItem, Print, TagsOf;
    var items := [Markup('!', "[CDATA["), Element("a", [], Tail("", false)), Text("]]>")];
    CdataText();
    CdataTags();
    CdataValid();
    DocumentTags(items);
  }

  lemma CdataValid()
    ensures ValidItem(Markup('!', "[CDATA[")) && ValidItem(Text("]]>")) && ValidItem(Element("a", [], Tail("", false)))
  {
    var body := "[CDATA[";
    assert body[0] == '[';
  }

  lemma PrintThree(a: Item, b: Item, c: Item)
    ensures Print([a, b, c]) == ItemText(a) + (ItemText(b) + ItemText(c))
  {
    hide ItemText;
    assert [a, b, c][1..] == [b, c] && [b, c][1..] == [c] && [c][1..] == [];
    assert Print([c]) == ItemText(c) + "" == ItemText(c);
    assert Print([b, c]) == ItemText(b) + ItemText(c);
  }

  lemma CdataText()
    ensures Print([Markup('!', "[CDATA["), Element("a", [], Tail("", false)), Text("]]>")]) == "<![CDATA[><a>]]>"
  {
    hide Print;
    PrintThree(Markup('!', "[CDATA["), Element("a", [], Tail("", false)), Text("]]>"));
    assert ItemText(Element("a", [], Tail("", false))) == "<a>";
    assert ItemText(Markup('!', "[CDATA[")) == "<![CDATA[>";
  }

  lemma CdataTags()
    ensures TagsOf([Markup('!', "[CDATA["), Element("a", [], Tail("", false)), Text("]]>")], 0) == [Tag("a", "", 13)]
  {
    var a, b, c := Markup('!', "[CDATA["), Element("a", [], Tail("", false)), Text("]]>");
    assert [a, b, c][1..] == [b, c] && [b, c][1..] == [c] && [c][1..] == [];
    assert TagsOf([c], 13) == TagsOf([], 16) == [];
    assert |ItemText(b)| == 3 && |ItemText(a)| == 10;
    assert TagsOf([b, c], 10) == [Tag("a", "", 13)];
  }

  // ------------------------------------------------------------------ any text at all

  /** The next '<' from `at` on. */
  ghost predicate Opens(s: string, at: nat, opening: nat)
  {
    at <= opening < |s| && s[opening] == '<' && forall k :: at <= k < opening ==> s[k] != '<'
  }

  ghost predicate BeginsComment(s: string, opening: nat)
  {
    opening + 4 <= |s| && s[opening..opening + 4] == "<!--"
  }

  ghost predicate IsComment(s: string, opening: nat, next: nat)
  {
    && BeginsComment(s, opening) && opening + 7 <= next <= |s| && Closes(s, next - 3)
    && forall k: nat :: opening + 4 <= k < next - 3 ==> !Closes(s, k)
  }

  ghost predicate IsMarkup(s: string, opening: nat, next: nat)
  {
    && opening + 3 <= next <= |s| && IsMarkupKind(s[opening + 1]) && !BeginsComment(s, opening)
    && s[next - 1] == '>' && forall k :: opening + 2 <= k < next - 1 ==> s[k] != '>'
  }

  ghost predicate IsStray(s: string, opening: nat, next: nat)
  {
    next == opening + 1 < |s| && !IsMarkupKind(s[next]) && !IsNameChar(s[next])
  }

  /** The quote that is open behind the first `k` characters of a tag's attributes. */
  function OpenQuote(s: string, from: nat, k: nat): Option<char>
    requires from <= k <= |s|
  {
    if k == from then None
    else
      var before, c := OpenQuote(s, from, k - 1), s[k - 1];
      if before == Some(c) then None else if before == None && IsQuote(c) then Some(c) else before
  }

  /** The '>' at `end` closes the tag: it stands outside quotes and is the first to. */
  ghost predicate ClosesTag(s: string, from: nat, end: nat)
  {
    && from <= end < |s| && s[end] == '>' && OpenQuote(s, from, end) == None
    && forall k :: from <= k < end && s[k] == '>' ==> OpenQuote(s, from, k) != None
  }

  ghost predicate IsTag(s: string, opening: nat, tag: Tag)
  {
    var nameEnd := opening + 1 + |tag.name|;
    && opening + 1 < nameEnd < tag.content <= |s| && !IsNameChar(s[nameEnd])
    && (forall k :: opening + 1 <= k < nameEnd ==> IsNameChar(s[k]))
    && tag.name == s[opening + 1..nameEnd] && tag.attributes == s[nameEnd..tag.content - 1]
    && ClosesTag(s, nameEnd, tag.content - 1)
  }

  lemma FindIs(s: string, c: char, from: nat, r: nat)
    requires from <= r <= |s| && (r < |s| ==> s[r] == c) && forall k :: from <= k < r ==> s[k] != c
    ensures Find(s, c, from) == r
  {
    FindFirst(s, c, from);
  }

  lemma BeginsIs(s: string, opening: nat)
    requires opening <= |s|
    ensures StartsAt(s, opening, "<!--") <==> BeginsComment(s, opening)
  {
    if BeginsComment(s, opening) {
      assert s[opening..][..4] == s[opening..opening + 4];
    }
    if StartsAt(s, opening, "<!--") {
      assert s[opening..][..4] == s[opening..opening + 4] == "<!--";
    }
  }

  lemma {:induction false} FindTextIs(s: string, from: nat)
    requires from <= |s|
    ensures var r := FindText(s, "-->", from);
      (r < |s| ==> Closes(s, r)) && forall k: nat :: from <= k < r ==> !Closes(s, k)
    decreases |s| - from
  {
    ClosesIs(s, from);
    if from < |s| && !StartsAt(s, from, "-->") {
      FindTextIs(s, from + 1);
    }
  }

  lemma CommentIff(s: string, opening: nat, next: nat)
    requires BeginsComment(s, opening)
    ensures AfterComment(s, opening) == Skipped(next) <==> IsComment(s, opening, next)
  {
    FindTextIs(s, opening + 4);
    hide FindText;
    var end := FindText(s, "-->", opening + 4);
    if IsComment(s, opening, next) {
      assert !(end < next - 3) && !(next - 3 < end);
    }
  }

  lemma MarkupIff(s: string, opening: nat, next: nat)
    requires opening + 1 < |s| && IsMarkupKind(s[opening + 1]) && !BeginsComment(s, opening)
    ensures AfterMarkup(s, opening) == Skipped(next) <==> IsMarkup(s, opening, next)
  {
    hide Find;
    FindFirst(s, '>', opening + 2);
    if IsMarkup(s, opening, next) {
      FindIs(s, '>', opening + 2, next - 1);
    }
  }

  /** Reading on inside a tag. */
  lemma {:induction false} TagEndFrom(s: string, from: nat, k: nat)
    requires from <= k <= |s|
    requires forall i :: from <= i < k && s[i] == '>' ==> OpenQuote(s, from, i) != None
    ensures TagEnd(s, from, None) == TagEnd(s, k, OpenQuote(s, from, k))
    decreases k
  {
    if from < k {
      TagEndFrom(s, from, k - 1);
      hide OpenQuote;
      TagEndStep(s, from, k);
    }
  }

  lemma TagEndStep(s: string, from: nat, k: nat)
    requires from < k <= |s| && (s[k - 1] == '>' ==> OpenQuote(s, from, k - 1) != None)
    ensures TagEnd(s, k - 1, OpenQuote(s, from, k - 1)) == TagEnd(s, k, OpenQuote(s, from, k))
  {
  }

  lemma {:induction false} TagEndCloses(s: string, from: nat, k: nat)
    requires from <= k <= |s|
    requires forall i :: from <= i < k && s[i] == '>' ==> OpenQuote(s, from, i) != None
    ensures var end := TagEnd(s, k, OpenQuote(s, from, k)); end < |s| ==> ClosesTag(s, from, end)
    decreases |s| - k
  {
    hide OpenQuote;
    if k < |s| && (s[k] != '>' || OpenQuote(s, from, k) != None) {
      TagEndStep(s, from, k + 1);
      TagEndCloses(s, from, k + 1);
    }
  }

  lemma TagEndIff(s: string, from: nat, end: nat)
    requires from <= end < |s|
    ensures TagEnd(s, from, None) == end <==> ClosesTag(s, from, end)
  {
    TagEndCloses(s, from, from);
    if ClosesTag(s, from, end) {
      TagEndFrom(s, from, end);
    }
  }

  lemma SkipIs(s: string, from: nat, r: nat)
    requires from <= r <= |s| && (r < |s| ==> !IsNameChar(s[r])) && forall k :: from <= k < r ==> IsNameChar(s[k])
    ensures Skip(s, IsNameChar, from) == r
  {
    SkipFirst(s, IsNameChar, from);
  }

  lemma NameStarts(s: string, opening: nat, nameEnd: nat, tag: Tag)
    requires opening + 1 <= |s| && nameEnd == Skip(s, IsNameChar, opening + 1) && opening + 1 < nameEnd
    requires AfterName(s, opening, nameEnd) == Start(tag)
    ensures IsTag(s, opening, tag)
  {
    SkipFirst(s, IsNameChar, opening + 1);
    hide TagEnd, Skip, IsNameChar, ClosesTag, OpenQuote;
    var end := TagEnd(s, nameEnd, None);
    TagEndIff(s, nameEnd, end);
    ClosedAfter(s, nameEnd, end);
  }

  lemma TagIsNamed(s: string, opening: nat, nameEnd: nat, tag: Tag)
    requires opening + 1 <= |s| && nameEnd == Skip(s, IsNameChar, opening + 1) && opening + 1 < nameEnd
    requires IsTag(s, opening, tag)
    ensures AfterName(s, opening, nameEnd) == Start(tag)
  {
    hide TagEnd, Skip, IsNameChar, ClosesTag, OpenQuote;
    SkipIs(s, opening + 1, opening + 1 + |tag.name|);
    ClosedAfter(s, nameEnd, tag.content - 1);
    TagEndIff(s, nameEnd, tag.content - 1);
  }

  lemma NameIff(s: string, opening: nat, nameEnd: nat, tag: Tag)
    requires opening + 1 <= |s| && nameEnd == Skip(s, IsNameChar, opening + 1) && opening + 1 < nameEnd
    ensures AfterName(s, opening, nameEnd) == Start(tag) <==> IsTag(s, opening, tag)
  {
    hide IsTag, AfterName, Skip;
    if AfterName(s, opening, nameEnd) == Start(tag) {
      NameStarts(s, opening, nameEnd, tag);
    }
    if IsTag(s, opening, tag) {
      TagIsNamed(s, opening, nameEnd, tag);
    }
  }

  lemma ClosedAfter(s: string, from: nat, end: nat)
    ensures ClosesTag(s, from, end) ==> from <= end < |s| && s[end] == '>'
    ensures from == end < |s| && IsNameChar(s[from]) ==> !ClosesTag(s, from, end)
  {
  }

  /** On any text whatsoever, what the scanner passes over next is a comment, other markup
      or a stray '<', each up to its own end, and what it reports next is a start tag with
      its whole name and its attributes up to the first '>' outside quotes. */
  lemma NextTokenIff(s: string, at: nat, next: nat, tag: Tag)
    requires at <= |s|
    ensures NextToken(s, at) == Skipped(next) <==>
            exists o :: Opens(s, at, o) && (IsComment(s, o, next) || IsMarkup(s, o, next) || IsStray(s, o, next))
    ensures NextToken(s, at) == Start(tag) <==> exists o :: Opens(s, at, o) && IsTag(s, o, tag)
  {
    FindFirst(s, '<', at);
    hide Find, NextToken, StartsAt, Skip, IsNameChar, AfterComment, AfterMarkup, AfterName;
    hide ClosesTag, OpenQuote, Closes;
    var opening := Find(s, '<', at);
    OneOpening(s, at, opening);
    TokenCases(s, at);
    if opening < |s| {
      BeginsIs(s, opening);
      TokenAtIff(s, opening, next, tag);
      if opening + 1 < |s| {
        assert NextToken(s, at) == TokenAt(s, opening) by {
          NextIsAt(s, at);
        }
      } else {
        NothingFits(s, opening, next, tag);
      }
    }
  }

  lemma NextIsAt(s: string, at: nat)
    requires at <= |s| && Find(s, '<', at) + 1 < |s|
    ensures NextToken(s, at) == TokenAt(s, Find(s, '<', at))
  {
    hide TokenAt, Find;
  }

  lemma OneOpening(s: string, at: nat, opening: nat)
    requires at <= opening <= |s| && (opening < |s| ==> s[opening] == '<')
    requires forall k :: at <= k < opening ==> s[k] != '<'
    ensures forall o :: Opens(s, at, o) <==> o == opening < |s|
  {
  }

  lemma NothingFits(s: string, opening: nat, next: nat, tag: Tag)
    requires opening + 1 == |s|
    ensures !IsComment(s, opening, next) && !IsMarkup(s, opening, next) && !IsStray(s, opening, next)
    ensures !IsTag(s, opening, tag)
  {
  }

  lemma TokenAtIff(s: string, opening: nat, next: nat, tag: Tag)
    requires opening < |s| && s[opening] == '<'
    ensures opening + 1 < |s| ==>
              (TokenAt(s, opening) == Skipped(next) <==>
                 IsComment(s, opening, next) || IsMarkup(s, opening, next) || IsStray(s, opening, next))
    ensures opening + 1 < |s| ==> (TokenAt(s, opening) == Start(tag) <==> IsTag(s, opening, tag))
  {
    hide Find, StartsAt, AfterComment, AfterMarkup, AfterName, ClosesTag, OpenQuote, Closes;
    BeginsIs(s, opening);
    if opening + 1 < |s| {
      var nameEnd := Skip(s, IsNameChar, opening + 1);
      if BeginsComment(s, opening) {
        CommentOpens(s, opening);
        CommentIff(s, opening, next);
        OnlySkips(s, opening);
      } else if IsMarkupKind(s[opening + 1]) {
        MarkupIff(s, opening, next);
        OnlySkips(s, opening);
      } else {
        SkipFirst(s, IsNameChar, opening + 1);
        if nameEnd > opening + 1 {
          NameIff(s, opening, nameEnd, tag);
          OnlyStarts(s, opening, nameEnd);
        }
      }
    }
  }

  lemma OnlySkips(s: string, opening: nat)
    requires opening + 1 < |s|
    ensures opening + 4 <= |s| ==> !AfterComment(s, opening).Start?
    ensures !AfterMarkup(s, opening).Start?
  {
    hide FindText, Find;
  }

  lemma OnlyStarts(s: string, opening: nat, nameEnd: nat)
    requires opening < nameEnd <= |s|
    ensures !AfterName(s, opening, nameEnd).Skipped?
  {
    hide TagEnd;
  }

  // ------------------------------------------- the attributes of elements by name

  /** The attributes read in each tag of the local name, in order. */
  function PairsNamed(tags: seq<Tag>, requested: string): seq<seq<Pair>>
  {
    if tags == [] then []
    else
      var own := if LocalName(tags[0].name) == requested then [Pairs(tags[0].attributes, 0)] else [];
      own + PairsNamed(tags[1..], requested)
  }

  /** The attributes written in each element of the local name, in order. */
  function ElementPairs(items: seq<Item>, requested: string): seq<seq<Pair>>
  {
    if items == [] then []
    else
      var own := if items[0].Element? && LocalName(items[0].name) == requested then [PairsOf(items[0].attrs)] else [];
      own + ElementPairs(items[1..], requested)
  }

  lemma ElementAttrs(item: Item)
    requires ValidItem(item) && item.Element?
    ensures Pairs(InTag(item.attrs, item.tail), 0) == PairsOf(item.attrs)
  {
    hide ValidAttr, InTag, Spaces, Pairs;
    AttrsRead(InTag(item.attrs, item.tail), 0, item.attrs, item.tail);
  }

  lemma PairsNamedFirst(tag: Tag, tags: seq<Tag>, requested: string)
    ensures PairsNamed([tag] + tags, requested) ==
            (if LocalName(tag.name) == requested then [Pairs(tag.attributes, 0)] else []) + PairsNamed(tags, requested)
  {
    hide LocalName, Pairs;
    assert ([tag] + tags)[1..] == tags;
  }

  lemma {:induction false} ElementsNamed(items: seq<Item>, at: nat, requested: string)
    requires forall item :: item in items ==> ValidItem(item)
    ensures PairsNamed(TagsOf(items, at), requested) == ElementPairs(items, requested)
    decreases |items|
  {
    hide ItemText, InTag, Pairs, PairsOf, LocalName, ValidItem, PairsNamed;
    if items == [] {
      NoneNamed(requested);
    } else {
      var next := at + |ItemText(items[0])|;
      ElementsNamed(items[1..], next, requested);
      match items[0]
      case Element(name, attrs, tail) =>
        ElementAttrs(items[0]);
        PairsNamedFirst(Tag(name, InTag(attrs, tail), next), TagsOf(items[1..], next), requested);
      case _ =>
        assert TagsOf(items, at) == TagsOf(items[1..], next);
    }
  }

  lemma NoneNamed(requested: string)
    ensures PairsNamed([], requested) == []
  {
  }

  /** What is read of the elements of one name is what was written in them. */
  lemma DocumentPairs(items: seq<Item>, requested: string)
    requires forall item :: item in items ==> ValidItem(item)
    ensures PairsNamed(Tags(Print(items), 0), requested) == ElementPairs(items, requested)
  {
    DocumentTags(items);
    ElementsNamed(items, 0, requested);
  }
}
