/** Character references in XML text. */
module Entities {
  import opened Wrappers
  import opened Wire
  import opened Utf8
  import opened Scanning

  /** The value of a digit of base ten or sixteen; `base` when it is none. */
  function Digit(c: char, base: nat): (r: nat)
    ensures r <= base
  {
    if '0' <= c <= '9' && base >= 10 then c as nat - '0' as nat
    else if 'a' <= c <= 'f' && base == 16 then c as nat - 'a' as nat + 10
    else if 'A' <= c <= 'F' && base == 16 then c as nat - 'A' as nat + 10
    else base
  }

  predicate AllDigits(s: string, base: nat) { s != "" && forall c :: c in s ==> Digit(c, base) < base }

  /** The number written by the first `n` digits. */
  function Number(s: string, base: nat, n: nat): nat
    requires n <= |s|
  {
    if n == 0 then 0 else Number(s, base, n - 1) * base + Digit(s[n - 1], base)
  }

  /** `std::from_chars` over a whole text into 32 bits. */
  function FromChars(s: string, base: nat): Option<u32>
  {
    if AllDigits(s, base) && Number(s, base, |s|) < 0x1_0000_0000 then Some(Number(s, base, |s|)) else None
  }

  const PREDEFINED: map<string, char> :=
    map["amp" := '&', "lt" := '<', "gt" := '>', "quot" := '"', "apos" := '\'']

  /** The code point an entity between '&' and ';' names, if any. */
  function Named(entity: string): Option<u32>
  {
    if entity in PREDEFINED then Some(PREDEFINED[entity] as u32)
    else if |entity| >= 2 && entity[0] == '#' && (entity[1] == 'x' || entity[1] == 'X') then FromChars(entity[2..], 16)
    else if |entity| >= 1 && entity[0] == '#' then FromChars(entity[1..], 10)
    else None
  }

  /** What an entity stands for: its code point, or itself when it names none. */
  function Expansion(entity: string): string
  {
    match Named(entity)
    case Some(c) => if IsScalar(c) then Chars(Encode(c)) else "&" + entity + ";"
    case None => "&" + entity + ";"
  }

  /** An entity is read up to the next ';' when that comes soon enough. */
  predicate Delimited(s: string, at: nat, end: nat)
  {
    at < end < |s| && end - at <= 16
  }

  function Decode(s: string, at: nat): string
    requires at <= |s|
    decreases |s| - at
  {
    if at == |s| then ""
    else if s[at] != '&' then [s[at]] + Decode(s, at + 1)
    else
      var end := Find(s, ';', at + 1);
      if Delimited(s, at, end) then Expansion(s[at + 1..end]) + Decode(s, end + 1)
      else "&" + Decode(s, at + 1)
  }

  /** One turn of the loop: what it writes and where it goes on. */
  lemma DecodeStep(s: string, at: nat)
    requires at < |s|
    ensures s[at] != '&' ==> Decode(s, at) == [s[at]] + Decode(s, at + 1)
    ensures s[at] == '&' && !Delimited(s, at, Find(s, ';', at + 1)) ==> Decode(s, at) == "&" + Decode(s, at + 1)
    ensures var end := Find(s, ';', at + 1);
      s[at] == '&' && Delimited(s, at, end) ==> Decode(s, at) == Expansion(s[at + 1..end]) + Decode(s, end + 1)
  {
    hide Expansion;
  }

  lemma Write(output: string, part: string, rest: string)
    ensures output + (part + rest) == (output + part) + rest
  {
  }

  method DecodeXml(source: string) returns (output: string)
    ensures output == Decode(source, 0)
  {
    hide Decode, Expansion;
    output := "";
    var cursor := 0;
    while cursor < |source|
      invariant cursor <= |source|
      invariant Decode(source, 0) == output + Decode(source, cursor)
      decreases |source| - cursor
    {
      DecodeStep(source, cursor);
      if source[cursor] != '&' {
        Write(output, [source[cursor]], Decode(source, cursor + 1));
        output := output + [source[cursor]];
        cursor := cursor + 1;
        continue;
      }
      var end := Find(source, ';', cursor + 1);
      if end == |source| || end - cursor > 16 {
        Write(output, "&", Decode(source, cursor + 1));
        output := output + [source[cursor]];
        cursor := cursor + 1;
        continue;
      }
      var expanded := Expand(source[cursor + 1..end]);
      Write(output, expanded, Decode(source, end + 1));
      output := output + expanded;
      cursor := end + 1;
    }
    DecodeEnds(source, output);
  }

  lemma DecodeEnds(s: string, output: string)
    ensures output + Decode(s, |s|) == output
  {
  }

  /** The body of the loop for one delimited entity. */
  method Expand(entity: string) returns (output: string)
    ensures output == Expansion(entity)
  {
    hide Encode, FromChars, IsScalar;
    output := "";
    var codepoint: Option<u32> := None;
    if entity == "amp" {
      codepoint := Some('&' as nat);
    } else if entity == "lt" {
      codepoint := Some('<' as nat);
    } else if entity == "gt" {
      codepoint := Some('>' as nat);
    } else if entity == "quot" {
      codepoint := Some('"' as nat);
    } else if entity == "apos" {
      codepoint := Some('\'' as nat);
    } else if "#x" <= entity || "#X" <= entity {
      codepoint := FromChars(entity[2..], 16);
    } else if "#" <= entity {
      codepoint := FromChars(entity[1..], 10);
    }
    assert codepoint == Named(entity);
    var known := false;
    if codepoint.Some? {
      var encoded;
      encoded, known := AppendUtf8([], codepoint.value);
      output := Chars(encoded);
    }
    if !known {
      output := "&" + entity + ";";
    }
  }

  // ---------------------------------------------------------------- the printer

  /** Escaped text: plain characters, predefined entities and numeric references. */
  datatype Piece =
    | Plain(c: char)
    | Predef(name: string)
    | Numeric(hex: bool, upper: bool, digits: string)

  function Base(hex: bool): nat { if hex then 16 else 10 }

  function Prefix(hex: bool, upper: bool): string { if !hex then "#" else if upper then "#X" else "#x" }

  function Value(digits: string, hex: bool): nat { Number(digits, Base(hex), |digits|) }

  /** The length limit is the code's: an entity of at most fifteen characters. */
  predicate ValidPiece(p: Piece)
  {
    match p
    case Plain(c) => c != '&'
    case Predef(name) => name in PREDEFINED
    case Numeric(hex, upper, digits) =>
      AllDigits(digits, Base(hex)) && IsScalar(Value(digits, hex)) && |Prefix(hex, upper)| + |digits| <= 15
  }

  function Print(p: Piece): string
  {
    match p
    case Plain(c) => [c]
    case Predef(name) => "&" + name + ";"
    case Numeric(hex, upper, digits) => "&" + (Prefix(hex, upper) + digits) + ";"
  }

  function Meaning(p: Piece): string
    requires ValidPiece(p)
  {
    match p
    case Plain(c) => [c]
    case Predef(name) => [PREDEFINED[name]]
    case Numeric(hex, _, digits) => Chars(Encode(Value(digits, hex)))
  }

  function PrintAll(pieces: seq<Piece>): string
  {
    if pieces == [] then "" else Print(pieces[0]) + PrintAll(pieces[1..])
  }

  function MeaningAll(pieces: seq<Piece>): string
    requires forall p :: p in pieces ==> ValidPiece(p)
  {
    if pieces == [] then "" else Meaning(pieces[0]) + MeaningAll(pieces[1..])
  }

  lemma NumericNamed(hex: bool, upper: bool, digits: string)
    requires AllDigits(digits, Base(hex))
    ensures Named(Prefix(hex, upper) + digits) == FromChars(digits, Base(hex))
    ensures ';' !in Prefix(hex, upper) + digits
  {
    hide FromChars;
    var entity := Prefix(hex, upper) + digits;
    assert entity[0] == '#';
    assert entity[|Prefix(hex, upper)|..] == digits;
    if !hex {
      assert entity[1] == digits[0];
      assert digits[0] in digits;
    }
  }

  lemma PredefinedExpands(name: string)
    requires name in PREDEFINED
    ensures Expansion(name) == [PREDEFINED[name]] && ';' !in name && |name| <= 4
  {
    assert IsScalar(PREDEFINED[name] as nat) && PREDEFINED[name] as nat <= 0x7f;
    assert Chars(Encode(PREDEFINED[name] as nat)) == [PREDEFINED[name]];
  }

  lemma NumericExpands(hex: bool, upper: bool, digits: string)
    requires AllDigits(digits, Base(hex)) && IsScalar(Value(digits, hex))
    ensures Expansion(Prefix(hex, upper) + digits) == Chars(Encode(Value(digits, hex)))
  {
    hide AllDigits, Encode, Number, Named;
    NumericNamed(hex, upper, digits);
  }

  lemma EntityDecodes(s: string, at: nat, entity: string)
    requires At(s, at, "&" + entity + ";") && ';' !in entity
    ensures |entity| <= 15 ==> Decode(s, at) == Expansion(entity) + Decode(s, at + |entity| + 2)
    ensures |entity| > 15 ==> Decode(s, at) == "&" + Decode(s, at + 1)
  {
    hide Expansion, Decode;
    AtSplit(s, at, "&" + entity, ";");
    AtSplit(s, at, "&", entity);
    AtChar(s, at, '&');
    AtChar(s, at + 1 + |entity|, ';');
    FindsEnd(s, at + 1, entity, ';');
    AtSlice(s, at + 1, entity);
    DecodeStep(s, at);
  }

  lemma PieceDecodes(s: string, at: nat, p: Piece)
    requires ValidPiece(p) && At(s, at, Print(p))
    ensures Decode(s, at) == Meaning(p) + Decode(s, at + |Print(p)|)
  {
    hide Decode, Expansion, Number, Encode, AllDigits, IsScalar;
    match p
    case Plain(c) =>
      AtChar(s, at, c);
      DecodeStep(s, at);
    case Predef(name) =>
      PredefinedExpands(name);
      EntityDecodes(s, at, name);
    case Numeric(hex, upper, digits) =>
      NumericNamed(hex, upper, digits);
      NumericExpands(hex, upper, digits);
      EntityDecodes(s, at, Prefix(hex, upper) + digits);
  }

  lemma {:induction false} PiecesDecode(s: string, at: nat, pieces: seq<Piece>)
    requires forall p :: p in pieces ==> ValidPiece(p)
    requires At(s, at, PrintAll(pieces)) && at + |PrintAll(pieces)| == |s|
    ensures Decode(s, at) == MeaningAll(pieces)
    decreases |pieces|
  {
    hide ValidPiece, Meaning, Print, At;
    if pieces != [] {
      AtSplit(s, at, Print(pieces[0]), PrintAll(pieces[1..]));
      PieceDecodes(s, at, pieces[0]);
      PiecesDecode(s, at + |Print(pieces[0])|, pieces[1..]);
    }
  }

  /** Decoding undoes any escaping into predefined entities and numeric references. */
  lemma DecodingUndoesEscaping(pieces: seq<Piece>)
    requires forall p :: p in pieces ==> ValidPiece(p)
    ensures Decode(PrintAll(pieces), 0) == MeaningAll(pieces)
  {
    PiecesDecode(PrintAll(pieces), 0, pieces);
  }

  // ------------------------------------------------------ the five predefined

  function EscapeOne(c: char): Piece
  {
    if c == '&' then Predef("amp") else if c == '<' then Predef("lt") else if c == '>' then Predef("gt")
    else if c == '"' then Predef("quot") else if c == '\'' then Predef("apos") else Plain(c)
  }

  function Escape(v: string): string { PrintAll(seq(|v|, i requires 0 <= i < |v| => EscapeOne(v[i]))) }

  lemma {:induction false} EscapedMeaning(v: string, pieces: seq<Piece>)
    requires |pieces| == |v| && forall i :: 0 <= i < |v| ==> pieces[i] == EscapeOne(v[i])
    ensures forall p :: p in pieces ==> ValidPiece(p)
    ensures MeaningAll(pieces) == v
    decreases |v|
  {
    if v != "" {
      assert Meaning(EscapeOne(v[0])) == [v[0]];
      EscapedMeaning(v[1..], pieces[1..]);
      assert v == [v[0]] + v[1..];
    }
  }

  /** Any text at all survives escaping by the five predefined entities. */
  lemma PredefinedRoundTrip(v: string)
    ensures Decode(Escape(v), 0) == v
  {
    var pieces := seq(|v|, i requires 0 <= i < |v| => EscapeOne(v[i]));
    EscapedMeaning(v, pieces);
    DecodingUndoesEscaping(pieces);
  }

  // ------------------------------------------------------- numeric references

  function Glyph(d: nat): char
    requires d < 16
  {
    if d < 10 then ('0' as nat + d) as char else ('a' as nat + (d - 10)) as char
  }

  function Digits(n: nat, hex: bool): string
  {
    if n < Base(hex) then [Glyph(n)] else Digits(n / Base(hex), hex) + [Glyph(n % Base(hex))]
  }

  lemma NumberPrefix(s: string, c: char, base: nat, n: nat)
    requires n <= |s|
    ensures Number(s + [c], base, n) == Number(s, base, n)
  {
  }

  lemma GlyphDigit(d: nat, hex: bool)
    requires d < Base(hex)
    ensures Digit(Glyph(d), Base(hex)) == d
  {
  }

  lemma OneMoreDigit(s: string, d: nat, hex: bool)
    requires d < Base(hex)
    ensures Value(s + [Glyph(d)], hex) == Value(s, hex) * Base(hex) + d
    ensures AllDigits(s, Base(hex)) || s == "" ==> AllDigits(s + [Glyph(d)], Base(hex))
  {
    hide Digit, Glyph;
    GlyphDigit(d, hex);
    NumberPrefix(s, Glyph(d), Base(hex), |s|);
  }

  lemma {:induction false} DigitsValue(n: nat, hex: bool)
    ensures AllDigits(Digits(n, hex), Base(hex)) && Value(Digits(n, hex), hex) == n
  {
    hide AllDigits, Glyph, Digit;
    if n >= Base(hex) {
      DigitsValue(n / Base(hex), hex);
      OneMoreDigit(Digits(n / Base(hex), hex), n % Base(hex), hex);
    } else {
      OneMoreDigit("", n, hex);
      assert "" + [Glyph(n)] == [Glyph(n)];
    }
  }

  function Power(hex: bool, k: nat): nat { if k == 0 then 1 else Base(hex) * Power(hex, k - 1) }

  lemma {:induction false} DigitsShort(n: nat, hex: bool, k: nat)
    requires k > 0 && n < Power(hex, k)
    ensures |Digits(n, hex)| <= k
  {
    if n >= Base(hex) {
      assert k > 1 by {
        assert Power(hex, 0) == 1;
      }
      assert n / Base(hex) < Power(hex, k - 1);
      DigitsShort(n / Base(hex), hex, k - 1);
    }
  }

  function References(codepoints: seq<nat>, hex: bool, upper: bool): seq<Piece>
  {
    if codepoints == [] then []
    else [Numeric(hex, upper, Digits(codepoints[0], hex))] + References(codepoints[1..], hex, upper)
  }

  lemma ScalarDigits(c: nat, hex: bool)
    requires IsScalar(c)
    ensures |Digits(c, hex)| <= 7
  {
    assert Power(true, 7) == 0x1000_0000;
    assert Power(false, 7) == 10_000_000;
    DigitsShort(c, hex, 7);
  }

  lemma ReferenceMeaning(c: nat, hex: bool, upper: bool)
    requires IsScalar(c)
    ensures ValidPiece(Numeric(hex, upper, Digits(c, hex)))
    ensures Meaning(Numeric(hex, upper, Digits(c, hex))) == Chars(Encode(c))
  {
    hide Digits, Encode, AllDigits;
    DigitsValue(c, hex);
    ScalarDigits(c, hex);
  }

  lemma {:induction false} ReferencesMeaning(codepoints: seq<nat>, hex: bool, upper: bool)
    requires forall c :: c in codepoints ==> IsScalar(c)
    ensures forall p :: p in References(codepoints, hex, upper) ==> ValidPiece(p)
    ensures MeaningAll(References(codepoints, hex, upper)) == Chars(EncodeAll(codepoints))
  {
    hide ValidPiece, Meaning, Digits, Encode, IsScalar;
    if codepoints != [] {
      ReferenceMeaning(codepoints[0], hex, upper);
      ReferencesMeaning(codepoints[1..], hex, upper);
      assert Chars(EncodeAll(codepoints)) == Chars(Encode(codepoints[0])) + Chars(EncodeAll(codepoints[1..]));
    }
  }

  /** Any Unicode text written as numeric references decodes to its UTF-8. */
  lemma NumericRoundTrip(codepoints: seq<nat>, hex: bool, upper: bool)
    requires forall c :: c in codepoints ==> IsScalar(c)
    ensures Decode(PrintAll(References(codepoints, hex, upper)), 0) == Chars(EncodeAll(codepoints))
  {
    ReferencesMeaning(codepoints, hex, upper);
    DecodingUndoesEscaping(References(codepoints, hex, upper));
  }

  // ----------------------------------------------------------- the length limit

  lemma {:induction false} PlainDecodes(s: string, at: nat)
    requires at <= |s| && '&' !in s[at..]
    ensures Decode(s, at) == s[at..]
    decreases |s| - at
  {
    if at < |s| {
      assert s[at] in s[at..];
      PlainDecodes(s, at + 1);
    }
  }

  /** A numeric reference of a scalar value is decoded exactly when it is at most
      fifteen characters long between '&' and ';'; a longer one, which XML allows
      through leading zeros, is copied as it stands. */
  lemma ReferenceDecodedIff(hex: bool, upper: bool, digits: string)
    requires AllDigits(digits, Base(hex)) && IsScalar(Value(digits, hex))
    ensures var entity := Prefix(hex, upper) + digits;
      Decode("&" + entity + ";", 0) == Chars(Encode(Value(digits, hex))) <==> |entity| <= 15
  {
    hide Expansion, Decode, Encode, Number, IsScalar;
    var entity := Prefix(hex, upper) + digits;
    var s := "&" + entity + ";";
    NumericNamed(hex, upper, digits);
    NumericExpands(hex, upper, digits);
    EntityDecodes(s, 0, entity);
    DecodeEnds(s, "");
    if |entity| > 15 {
      NoAmpersand(hex, upper, digits);
      PlainDecodes(s, 1);
      assert Decode(s, 0) == s;
    }
  }

  lemma NoAmpersand(hex: bool, upper: bool, digits: string)
    requires AllDigits(digits, Base(hex))
    ensures '&' !in ("&" + (Prefix(hex, upper) + digits) + ";")[1..]
  {
    assert ("&" + (Prefix(hex, upper) + digits) + ";")[1..] == Prefix(hex, upper) + digits + ";";
  }
}
