/** The start tags of an XML text, found by scanning it once. */
module XmlTags {
  import opened Wrappers
  import opened Scanning

  /** A start tag: its name as written, the text of its attributes and where its
      content begins. */
  datatype Tag = Tag(name: string, attributes: string, content: nat)

  predicate IsNameChar(c: char)
  {
    '0' <= c <= '9' || 'a' <= c <= 'z' || 'A' <= c <= 'Z' || c == '_' || c == '-' || c == '.' || c == ':'
  }

  predicate IsMarkupKind(c: char) { c == '/' || c == '!' || c == '?' }

  /** The part of a name after its last colon. */
  function LocalName(name: string): (r: string)
    ensures ':' !in r && |r| <= |name| && name[|name| - |r|..] == r
    ensures |r| < |name| ==> name[|name| - |r| - 1] == ':'
  {
    if name == "" || name[|name| - 1] == ':' then ""
    else LocalName(name[..|name| - 1]) + [name[|name| - 1]]
  }

  /** A name without a colon is its own local name. */
  lemma {:induction false} PlainName(name: string)
    requires ':' !in name
    ensures LocalName(name) == name
    decreases |name|
  {
    if name != "" {
      assert name[|name| - 1] in name;
      PlainName(name[..|name| - 1]);
      assert name == name[..|name| - 1] + [name[|name| - 1]];
    }
  }

  lemma {:induction false} PrefixedName(prefix: string, name: string)
    requires ':' !in name
    ensures LocalName(prefix + ":" + name) == name
    decreases |name|
  {
    var whole := prefix + ":" + name;
    if name != "" {
      var last := |name| - 1;
      assert whole[|whole| - 1] == name[last] && name[last] in name;
      assert whole[..|whole| - 1] == prefix + ":" + name[..last];
      PrefixedName(prefix, name[..last]);
    }
  }

  predicate StartsAt(s: string, at: nat, part: string)
    requires at <= |s|
  {
    part <= s[at..]
  }

  /** `std::string::find` of a text; the length when there is none. */
  function FindText(s: string, part: string, from: nat): (r: nat)
    requires from <= |s|
    ensures from <= r <= |s|
    ensures r < |s| ==> r + |part| <= |s|
    decreases |s| - from
  {
    if from == |s| || StartsAt(s, from, part) then from else FindText(s, part, from + 1)
  }

  /** Where the '>' outside quotes stands; the length when there is none. */
  function TagEnd(s: string, at: nat, quote: Option<char>): (r: nat)
    requires at <= |s|
    ensures at <= r <= |s|
    ensures r < |s| ==> s[r] == '>'
    decreases |s| - at
  {
    if at == |s| then at
    else
      match quote
      case Some(q) => TagEnd(s, at + 1, if s[at] == q then None else quote)
      case None =>
        if s[at] == '"' || s[at] == '\'' then TagEnd(s, at + 1, Some(s[at]))
        else if s[at] == '>' then at
        else TagEnd(s, at + 1, None)
  }

  /** What the scanner finds from a position on. */
  datatype Token = End | Skipped(next: nat) | Start(tag: Tag)

  function AfterComment(s: string, opening: nat): Token
    requires opening + 4 <= |s|
  {
    var end := FindText(s, "-->", opening + 4);
    if end == |s| then End else Skipped(end + 3)
  }

  function AfterMarkup(s: string, opening: nat): Token
    requires opening + 2 <= |s|
  {
    var end := Find(s, '>', opening + 2);
    if end == |s| then End else Skipped(end + 1)
  }

  function AfterName(s: string, opening: nat, nameEnd: nat): Token
    requires opening < nameEnd <= |s|
  {
    var end := TagEnd(s, nameEnd, None);
    if end == |s| then End else Start(Tag(s[opening + 1..nameEnd], s[nameEnd..end], end + 1))
  }

  /** The token that the '<' at `opening` begins. */
  function TokenAt(s: string, opening: nat): Token
    requires opening + 1 < |s|
  {
    if StartsAt(s, opening, "<!--") then AfterComment(s, opening)
    else if IsMarkupKind(s[opening + 1]) then AfterMarkup(s, opening)
    else
      var nameEnd := Skip(s, IsNameChar, opening + 1);
      if nameEnd == opening + 1 then Skipped(opening + 1) else AfterName(s, opening, nameEnd)
  }

  function NextToken(s: string, cursor: nat): (r: Token)
    requires cursor <= |s|
    ensures r.Skipped? ==> cursor < r.next <= |s|
    ensures r.Start? ==> cursor < r.tag.content <= |s|
  {
    var opening := Find(s, '<', cursor);
    if opening + 1 >= |s| then End else TokenAt(s, opening)
  }

  /** All start tags from a position on, in document order. */
  function Tags(s: string, cursor: nat): seq<Tag>
    requires cursor <= |s|
    decreases |s| - cursor
  {
    match NextToken(s, cursor)
    case End => []
    case Skipped(next) => Tags(s, next)
    case Start(tag) => [tag] + Tags(s, tag.content)
  }

  /** The tags among `tags` with the local name `requested`, in order. */
  function Named(tags: seq<Tag>, requested: string): seq<Tag>
  {
    if tags == [] then []
    else (if LocalName(tags[0].name) == requested then [tags[0]] else []) + Named(tags[1..], requested)
  }

  /** What is still to be found from one position is what is to be found from another. */
  predicate Same(s: string, from: nat, to: nat, requested: string)
  {
    from <= to <= |s| && Named(Tags(s, from), requested) == Named(Tags(s, to), requested)
  }

  /** `r` is the first tag of the name from `start` on; what follows its content is
      what remains to be found. */
  predicate Finds(s: string, start: nat, requested: string, r: Option<Tag>)
    requires start <= |s|
  {
    match r
    case None => Named(Tags(s, start), requested) == []
    case Some(tag) =>
      && start < tag.content <= |s|
      && Named(Tags(s, start), requested) == [tag] + Named(Tags(s, tag.content), requested)
  }

  lemma TagsStep(s: string, start: nat, cursor: nat, requested: string)
    requires Same(s, start, cursor, requested)
    ensures match NextToken(s, cursor)
            case End => Finds(s, start, requested, None)
            case Skipped(next) => Same(s, start, next, requested)
            case Start(tag) =>
              if LocalName(tag.name) == requested then Finds(s, start, requested, Some(tag))
              else Same(s, start, tag.content, requested)
  {
    hide NextToken, LocalName;
  }

  lemma SameHere(s: string, at: nat, requested: string)
    requires at <= |s|
    ensures Same(s, at, at, requested)
  {
  }

  lemma TokenCases(s: string, cursor: nat)
    requires cursor <= |s|
    ensures var opening := Find(s, '<', cursor);
      if opening + 1 >= |s| then NextToken(s, cursor) == End
      else if StartsAt(s, opening, "<!--") then
        opening + 4 <= |s| && NextToken(s, cursor) == AfterComment(s, opening)
      else if IsMarkupKind(s[opening + 1]) then NextToken(s, cursor) == AfterMarkup(s, opening)
      else
        var nameEnd := Skip(s, IsNameChar, opening + 1);
        NextToken(s, cursor) ==
          if nameEnd == opening + 1 then Skipped(opening + 1) else AfterName(s, opening, nameEnd)
  {
    hide AfterComment, AfterMarkup, AfterName, Find, Skip, IsNameChar;
  }

  method FindTag(xml: string, requested: string, start: nat) returns (r: Option<Tag>)
    requires start <= |xml|
    ensures Finds(xml, start, requested, r)
  {
    hide Finds, Same, LocalName, NextToken;
    var cursor := start;
    SameHere(xml, start, requested);
    NoMoreTokens(xml);
    while cursor < |xml|
      invariant start <= cursor <= |xml|
      invariant Same(xml, start, cursor, requested)
      decreases |xml| - cursor
    {
      var token := ReadToken(xml, cursor);
      TagsStep(xml, start, cursor, requested);
      match token
      case End =>
        return None;
      case Skipped(next) =>
        cursor := next;
      case Start(tag) =>
        if LocalName(tag.name) == requested {
          return Some(tag);
        }
        cursor := tag.content;
    }
    TagsStep(xml, start, cursor, requested);
    return None;
  }

  lemma NoMoreTokens(s: string)
    ensures NextToken(s, |s|) == End
  {
  }

  /** The body of the loop: a comment, other markup, a stray '<' or a start tag. */
  method ReadToken(xml: string, cursor: nat) returns (token: Token)
    requires cursor < |xml|
    ensures token == NextToken(xml, cursor)
  {
    hide StartsAt, IsNameChar, NextToken, TokenAt, Find, Skip, FindText, TagEnd;
    TokenCases(xml, cursor);
    var opening := Find(xml, '<', cursor);
    if opening == |xml| || opening + 1 >= |xml| {
      return End;
    }
    if StartsAt(xml, opening, "<!--") {
      var end := FindText(xml, "-->", opening + 4);
      if end == |xml| {
        return End;
      }
      return Skipped(end + 3);
    }
    if xml[opening + 1] == '/' || xml[opening + 1] == '!' || xml[opening + 1] == '?' {
      var end := Find(xml, '>', opening + 2);
      if end == |xml| {
        return End;
      }
      return Skipped(end + 1);
    }
    var nameEnd := ScanName(xml, opening + 1);
    if nameEnd == opening + 1 {
      return Skipped(opening + 1);
    }
    var end := ScanToEnd(xml, nameEnd);
    if end == |xml| {
      return End;
    }
    token := Start(Tag(xml[opening + 1..nameEnd], xml[nameEnd..end], end + 1));
  }

  /** The inner loop over the characters of a name. */
  method ScanName(xml: string, start: nat) returns (nameEnd: nat)
    requires start <= |xml|
    ensures nameEnd == Skip(xml, IsNameChar, start)
  {
    hide IsNameChar;
    nameEnd := start;
    while nameEnd < |xml| && IsNameChar(xml[nameEnd])
      invariant start <= nameEnd <= |xml|
      invariant Skip(xml, IsNameChar, start) == Skip(xml, IsNameChar, nameEnd)
    {
      nameEnd := nameEnd + 1;
    }
  }

  /** The inner loop that looks for the closing '>' of a tag. */
  method ScanToEnd(xml: string, nameEnd: nat) returns (end: nat)
    requires nameEnd <= |xml|
    ensures end == TagEnd(xml, nameEnd, None)
  {
    var quote: Option<char> := None;
    end := nameEnd;
    while end < |xml|
      invariant nameEnd <= end <= |xml|
      invariant TagEnd(xml, nameEnd, None) == TagEnd(xml, end, quote)
    {
      var value := xml[end];
      if quote.Some? {
        if value == quote.value {
          quote := None;
        }
      } else if value == '"' || value == '\'' {
        quote := Some(value);
      } else if value == '>' {
        break;
      }
      end := end + 1;
    }
  }
}
