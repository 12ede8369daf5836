/** References between the files of an archive, resolved to normal paths. */
module Paths {
  import opened Wrappers
  import opened Scanning

  function HexValue(c: char): (r: int)
    ensures -1 <= r < 16
  {
    if '0' <= c <= '9' then c as int - '0' as int
    else if 'a' <= c <= 'f' then c as int - 'a' as int + 10
    else if 'A' <= c <= 'F' then c as int - 'A' as int + 10
    else -1
  }

  predicate IsHexPair(high: char, low: char) { HexValue(high) >= 0 && HexValue(low) >= 0 }

  function Octet(high: char, low: char): char
    requires IsHexPair(high, low)
  {
    (HexValue(high) * 16 + HexValue(low)) as char
  }

  function Prepend(s: string, rest: Option<string>): Option<string>
  {
    if rest.Some? then Some(s + rest.value) else None
  }

  /** A '%' with fewer than two characters after it stands for itself. */
  function PercentDecode(s: string, at: nat): Option<string>
    requires at <= |s|
    decreases |s| - at
  {
    if at == |s| then Some("")
    else if s[at] == '%' && at + 2 < |s| then
      if IsHexPair(s[at + 1], s[at + 2]) then Prepend([Octet(s[at + 1], s[at + 2])], PercentDecode(s, at + 3))
      else None
    else Prepend([s[at]], PercentDecode(s, at + 1))
  }

  /** Where the query or fragment of a reference begins. */
  function SuffixAt(s: string, from: nat): (r: nat)
    requires from <= |s|
    ensures from <= r <= |s|
    decreases |s| - from
  {
    if from == |s| || s[from] == '?' || s[from] == '#' then from else SuffixAt(s, from + 1)
  }

  predicate IsAbsolute(path: string) { path != "" && path[0] == '/' }

  /** `parent_path` up to separators that normalisation drops. */
  function Parent(base: string): string
  {
    if base == "" then "" else if base[|base| - 1] == '/' then base[..|base| - 1] else Parent(base[..|base| - 1])
  }

  /** `operator/` of two paths. */
  function Joined(parent: string, path: string): string
  {
    if IsAbsolute(path) || parent == "" then path else parent + "/" + path
  }

  /** The texts between the separators of a path. */
  function Components(s: string, from: nat): seq<string>
    requires from <= |s|
    decreases |s| - from
  {
    var end := Find(s, '/', from);
    if end == |s| then [s[from..]] else [s[from..end]] + Components(s, end + 1)
  }

  function Rows(names: seq<string>): string
  {
    if names == [] then "" else if |names| == 1 then names[0] else names[0] + "/" + Rows(names[1..])
  }

  /** A path read so far: its names and whether it ends in a separator. */
  datatype State = State(stack: seq<string>, slash: bool)

  predicate IsNothing(c: string) { c == "" || c == "." }

  /** Lexical normalisation of a relative path over its first `n` components: ".."
      removes the name before it and stays where there is none. */
  function Normal(components: seq<string>, n: nat): State
    requires n <= |components|
  {
    if n == 0 then State([], false)
    else
      var s := Normal(components, n - 1);
      var c := components[n - 1];
      if IsNothing(c) then State(s.stack, true)
      else if c != ".." then State(s.stack + [c], false)
      else if s.stack == [] || s.stack[|s.stack| - 1] == ".." then State(s.stack + [".."], false)
      else State(s.stack[..|s.stack| - 1], true)
  }

  function Render(s: State): string
  {
    if s.stack == [] then "."
    else Rows(s.stack) + if s.slash && s.stack[|s.stack| - 1] != ".." then "/" else ""
  }

  function LexicallyNormal(path: string): string
  {
    var components := Components(path, 0);
    Render(Normal(components, |components|))
  }

  // ------------------------------------------------------------ the specification

  /** The stack machine: it stops when ".." finds the stack empty. */
  function Machine(components: seq<string>, n: nat): Option<State>
    requires n <= |components|
  {
    if n == 0 then Some(State([], false))
    else
      match Machine(components, n - 1)
      case None => None
      case Some(s) =>
        var c := components[n - 1];
        if IsNothing(c) then Some(State(s.stack, true))
        else if c != ".." then Some(State(s.stack + [c], false))
        else if s.stack == [] then None
        else Some(State(s.stack[..|s.stack| - 1], true))
  }

  predicate Acceptable(decoded: string)
  {
    decoded != "" && '\\' !in decoded && 0 as char !in decoded
  }

  /** A decoded reference followed from the directory of `base`. */
  function Follow(base: string, decoded: string): Option<string>
  {
    var path := Joined(Parent(base), decoded);
    var components := Components(path, 0);
    if IsAbsolute(base) || IsAbsolute(path) then None
    else
      match Machine(components, |components|)
      case None => None
      case Some(s) => Some(Render(s))
  }

  function Resolve(base: string, reference: string): Option<string>
  {
    match PercentDecode(reference[..SuffixAt(reference, 0)], 0)
    case None => None
    case Some(decoded) => if Acceptable(decoded) then Follow(base, decoded) else None
  }

  // ---------------------------------------------------------- the two stacks agree

  predicate IsComponent(c: string) { '/' !in c }

  /** Names that a stack holds when nothing has underflowed. */
  predicate IsName(c: string) { IsComponent(c) && !IsNothing(c) && c != ".." }

  lemma {:induction false} ComponentsHaveNoSlash(s: string, from: nat)
    requires from <= |s|
    ensures forall c :: c in Components(s, from) ==> IsComponent(c)
    ensures Components(s, from) != []
    decreases |s| - from
  {
    FindFirst(s, '/', from);
    var end := Find(s, '/', from);
    if end < |s| {
      ComponentsHaveNoSlash(s, end + 1);
    }
  }

  lemma NameFacts(c: string)
    ensures IsName(c) ==> c != ".." && IsComponent(c)
    ensures IsComponent(c) && !IsNothing(c) && c != ".." ==> IsName(c)
    ensures IsComponent("..") && !IsNothing("..")
  {
  }

  /** While nothing underflows the normal form is the machine's stack of names; once
      something has, it begins with "..". */
  lemma {:induction false} MachineIsNormal(components: seq<string>, n: nat)
    requires n <= |components| && forall c :: c in components ==> IsComponent(c)
    ensures var m, s := Machine(components, n), Normal(components, n);
      if m.Some? then s == m.value && forall c :: c in s.stack ==> IsName(c)
      else s.stack != [] && s.stack[0] == ".." && forall c :: c in s.stack ==> IsComponent(c)
  {
    hide IsComponent, IsName, IsNothing;
    if n > 0 {
      MachineIsNormal(components, n - 1);
      NameFacts(components[n - 1]);
      var before := Normal(components, n - 1).stack;
      if before != [] {
        assert before[|before| - 1] in before;
        NameFacts(before[|before| - 1]);
      }
    }
  }

  lemma RowsHead(names: seq<string>)
    requires names != []
    ensures Rows(names) == names[0] || (|names| > 1 && Rows(names) == names[0] + "/" + Rows(names[1..]))
  {
  }

  predicate LeavesArchive(normalized: string) { normalized == ".." || "../" <= normalized }

  lemma HeadDecides(head: string, rest: string)
    requires IsComponent(head) && (rest == "" || rest[0] == '/')
    ensures LeavesArchive(head + rest) <==> head == ".."
  {
    var whole := head + rest;
    assert |head| > 2 ==> whole[2] == head[2] && head[2] in head;
    assert |head| >= 2 ==> whole[0] == head[0] && whole[1] == head[1];
    assert |head| == 1 && rest != "" ==> whole[1] == '/';
    assert |head| == 0 && rest != "" ==> whole[0] == '/';
    assert |head| == 2 && rest != "" ==> whole[2] == '/';
    if |head| == 2 && head[0] == '.' && head[1] == '.' {
      assert head == "..";
      assert rest != "" ==> whole[..3] == "../";
    }
  }

  /** The test on the text tells whether the stack begins with "..". */
  lemma TextTellsUnderflow(s: State)
    requires forall c :: c in s.stack ==> IsComponent(c)
    ensures LeavesArchive(Render(s)) <==> s.stack != [] && s.stack[0] == ".."
  {
    hide LeavesArchive;
    if s.stack == [] {
      HeadDecides(".", "");
      assert "." + "" == ".";
    } else {
      RowsHead(s.stack);
      var tail := if s.slash && s.stack[|s.stack| - 1] != ".." then "/" else "";
      if Rows(s.stack) == s.stack[0] {
        HeadDecides(s.stack[0], tail);
      } else {
        HeadDecides(s.stack[0], "/" + Rows(s.stack[1..]) + tail);
        assert Render(s) == s.stack[0] + ("/" + Rows(s.stack[1..]) + tail);
      }
    }
  }

  lemma NamesAreComponents()
    ensures forall c :: IsName(c) ==> IsComponent(c) && c != ".."
  {
    forall c | IsName(c)
      ensures IsComponent(c) && c != ".."
    {
    }
  }

  lemma NormalDecides(components: seq<string>)
    requires forall c :: c in components ==> IsComponent(c)
    ensures var m, text := Machine(components, |components|), Render(Normal(components, |components|));
      if LeavesArchive(text) then m == None else m.Some? && text == Render(m.value)
  {
    hide Machine, Normal, Render, LeavesArchive, IsComponent, IsName;
    MachineIsNormal(components, |components|);
    NamesAreComponents();
    var stack := Normal(components, |components|).stack;
    assert stack != [] ==> stack[0] in stack;
    TextTellsUnderflow(Normal(components, |components|));
  }

  method ResolvePath(base: string, reference: string) returns (r: Option<string>)
    ensures r == Resolve(base, reference)
  {
    hide IsHexPair, Machine, Normal, Components, Render, LeavesArchive, PercentDecode;
    var source := reference[..SuffixAt(reference, 0)];
    var decoded := DecodePercents(source);
    if decoded == None {
      return None;
    }
    if decoded.value == "" || '\\' in decoded.value || 0 as char in decoded.value {
      return None;
    }
    var path := Joined(Parent(base), decoded.value);
    if IsAbsolute(base) || IsAbsolute(path) {
      return None;
    }
    var normalized := LexicallyNormal(path);
    ComponentsHaveNoSlash(path, 0);
    NormalDecides(Components(path, 0));
    if LeavesArchive(normalized) {
      return None;
    }
    return Some(normalized);
  }

  lemma PrependMore(a: string, b: string, rest: Option<string>)
    ensures Prepend(a, Prepend(b, rest)) == Prepend(a + b, rest)
    ensures Prepend("", rest) == rest && Prepend(a, Some("")) == Some(a)
  {
    assert a + "" == a;
    if rest.Some? {
      assert a + (b + rest.value) == (a + b) + rest.value;
      assert "" + rest.value == rest.value;
    }
  }

  /** The decoding loop of the resolver. */
  method DecodePercents(reference: string) returns (r: Option<string>)
    ensures r == PercentDecode(reference, 0)
  {
    hide PercentDecode, Prepend;
    var decoded := "";
    var index := 0;
    PrependMore("", "", PercentDecode(reference, 0));
    while index < |reference|
      invariant index <= |reference|
      invariant PercentDecode(reference, 0) == Prepend(decoded, PercentDecode(reference, index))
    {
      PercentStep(reference, index);
      if reference[index] == '%' && index + 2 < |reference| {
        var high, low := HexValue(reference[index + 1]), HexValue(reference[index + 2]);
        if high < 0 || low < 0 {
          PrependNone(decoded);
          return None;
        }
        PrependMore(decoded, [(high * 16 + low) as char], PercentDecode(reference, index + 3));
        decoded := decoded + [(high * 16 + low) as char];
        index := index + 2;
      } else {
        PrependMore(decoded, [reference[index]], PercentDecode(reference, index + 1));
        decoded := decoded + [reference[index]];
      }
      index := index + 1;
    }
    PercentEnds(reference);
    PrependMore(decoded, "", None);
    return Some(decoded);
  }

  lemma PrependNone(s: string)
    ensures Prepend(s, None) == None
  {
  }

  lemma PercentStep(s: string, at: nat)
    requires at < |s|
    ensures if s[at] == '%' && at + 2 < |s| then
              if HexValue(s[at + 1]) < 0 || HexValue(s[at + 2]) < 0 then PercentDecode(s, at) == None
              else PercentDecode(s, at) == Prepend([Octet(s[at + 1], s[at + 2])], PercentDecode(s, at + 3))
            else PercentDecode(s, at) == Prepend([s[at]], PercentDecode(s, at + 1))
  {
  }

  lemma PercentEnds(s: string)
    ensures PercentDecode(s, |s|) == Some("")
  {
  }

  // -------------------------------------------------------------- what it promises

  function Names(components: seq<string>, n: nat): nat
    requires n <= |components|
  {
    if n == 0 then 0
    else Names(components, n - 1) + if IsNothing(components[n - 1]) || components[n - 1] == ".." then 0 else 1
  }

  function Ups(components: seq<string>, n: nat): nat
    requires n <= |components|
  {
    if n == 0 then 0 else Ups(components, n - 1) + if components[n - 1] == ".." then 1 else 0
  }

  predicate NeverUnder(components: seq<string>, n: nat)
    requires n <= |components|
  {
    forall k :: 0 <= k <= n ==> Ups(components, k) <= Names(components, k)
  }

  lemma Counted(components: seq<string>, n: nat)
    requires 0 < n <= |components|
    ensures var c := components[n - 1];
      Names(components, n) - Ups(components, n) ==
      Names(components, n - 1) - Ups(components, n - 1) + if IsNothing(c) then 0 else if c == ".." then -1 else 1
    ensures NeverUnder(components, n) <==>
            NeverUnder(components, n - 1) && Ups(components, n) <= Names(components, n)
  {
    assert NeverUnder(components, n) ==> Ups(components, n) <= Names(components, n);
    assert NeverUnder(components, n - 1) ==> forall k :: 0 <= k < n ==> Ups(components, k) <= Names(components, k);
  }

  lemma CountedNone(components: seq<string>)
    ensures Names(components, 0) == Ups(components, 0) == 0 && NeverUnder(components, 0)
  {
  }

  /** The machine runs through exactly when no beginning of the path holds more ".."
      than names; its depth is then the difference. */
  lemma {:induction false} MachineRunsIff(components: seq<string>, n: nat)
    requires n <= |components|
    ensures Machine(components, n).Some? <==> NeverUnder(components, n)
    ensures Machine(components, n).Some? ==>
              |Machine(components, n).value.stack| == Names(components, n) - Ups(components, n)
  {
    hide Names, Ups, NeverUnder, IsNothing;
    if n > 0 {
      MachineRunsIff(components, n - 1);
      Counted(components, n);
    } else {
      CountedNone(components);
    }
  }

  /** A reference is accepted exactly when it decodes, is relative and never climbs
      above the directory the archive begins in. */
  lemma ResolvesIff(base: string, reference: string)
    ensures Resolve(base, reference).Some? <==>
            var decoded := PercentDecode(reference[..SuffixAt(reference, 0)], 0);
            && decoded.Some? && Acceptable(decoded.value) && !IsAbsolute(base) && !IsAbsolute(decoded.value)
            && var components := Components(Joined(Parent(base), decoded.value), 0);
               NeverUnder(components, |components|)
  {
    hide PercentDecode, Components, Machine, NeverUnder, Render;
    var decoded := PercentDecode(reference[..SuffixAt(reference, 0)], 0);
    if decoded.Some? {
      var path := Joined(Parent(base), decoded.value);
      MachineRunsIff(Components(path, 0), |Components(path, 0)|);
      if !IsAbsolute(base) {
        ParentAbsolute(base);
      }
    }
  }

  lemma {:induction false} ParentAbsolute(base: string)
    requires !IsAbsolute(base)
    ensures !IsAbsolute(Parent(base))
  {
    if base != "" && base[|base| - 1] != '/' {
      ParentAbsolute(base[..|base| - 1]);
    }
  }

  lemma {:induction false} RowsComponents(names: seq<string>, tail: string)
    requires names != [] && forall c :: c in names ==> IsComponent(c)
    requires tail == "" || tail == "/"
    ensures Components(Rows(names) + tail, 0) == names + if tail == "" then [] else [""]
    decreases |names|
  {
    hide IsComponent, Components;
    var head := names[0];
    if |names| == 1 {
      assert names == [head];
      if tail == "" {
        OneComponent(head);
        assert head + "" == head;
      } else {
        OneComponent("");
        MoreComponents(head, "");
        assert head + "/" + "" == head + "/";
      }
    } else {
      RowsComponents(names[1..], tail);
      MoreComponents(head, Rows(names[1..]) + tail);
      assert Rows(names) + tail == head + "/" + (Rows(names[1..]) + tail);
      assert names == [head] + names[1..];
    }
  }

  lemma OneComponent(head: string)
    requires IsComponent(head)
    ensures Components(head, 0) == [head]
  {
    assert head == head + "";
    HeadEnds(head, head, "");
  }

  lemma MoreComponents(head: string, rest: string)
    requires IsComponent(head)
    ensures Components(head + "/" + rest, 0) == [head] + Components(rest, 0)
  {
    var s := head + "/" + rest;
    assert s == head + ("/" + rest);
    HeadEnds(s, head, "/" + rest);
    assert s[|head| + 1..] == rest;
    ComponentsShift(s, |head| + 1, 0);
  }

  lemma HeadEnds(s: string, head: string, rest: string)
    requires s == head + rest && IsComponent(head) && (rest == "" || rest[0] == '/')
    ensures Find(s, '/', 0) == |head| && s[..|head|] == head
  {
    FindFirst(s, '/', 0);
    assert rest != "" ==> s[|head|] == '/';
    forall k | 0 <= k < |head|
      ensures s[k] != '/'
    {
      assert s[k] == head[k];
    }
  }

  lemma {:induction false} FindShift(s: string, c: char, skip: nat, from: nat)
    requires skip + from <= |s|
    ensures Find(s, c, skip + from) == skip + Find(s[skip..], c, from)
    decreases |s| - from
  {
    if skip + from < |s| && s[skip + from] != c {
      FindShift(s, c, skip, from + 1);
    }
  }

  lemma {:induction false} ComponentsShift(s: string, skip: nat, from: nat)
    requires skip + from <= |s|
    ensures Components(s, skip + from) == Components(s[skip..], from)
    decreases |s| - from
  {
    FindShift(s, '/', skip, from);
    var end := Find(s[skip..], '/', from);
    assert s[skip..][from..end] == s[skip + from..skip + end];
    assert s[skip..][from..] == s[skip + from..];
    if skip + end < |s| {
      ComponentsShift(s, skip, end + 1);
    }
  }

  lemma {:induction false} MachineOnNames(components: seq<string>, names: seq<string>, n: nat)
    requires n <= |names| <= |components| && names == components[..|names|]
    requires forall c :: c in names ==> IsName(c)
    ensures Machine(components, n) == Some(State(names[..n], false))
  {
    if n > 0 {
      MachineOnNames(components, names, n - 1);
      assert IsName(names[n - 1]) && names[n - 1] == components[n - 1];
      assert names[..n] == names[..n - 1] + [names[n - 1]];
    } else {
      assert names[..n] == [];
    }
  }

  function StackComponents(s: State): seq<string>
  {
    if s.stack == [] then ["."] else s.stack + if s.slash then [""] else []
  }

  lemma RenderedComponents(s: State)
    requires forall c :: c in s.stack ==> IsName(c)
    ensures Components(Render(s), 0) == StackComponents(s)
  {
    hide Rows, IsComponent, IsName, Components;
    NameFacts(".");
    if s.stack == [] {
      assert IsComponent(".") by {
        DotIsComponent();
      }
      OneComponent(".");
    } else {
      forall c | c in s.stack
        ensures IsComponent(c) && c != ".."
      {
        NameFacts(c);
      }
      assert s.stack[|s.stack| - 1] in s.stack;
      RowsComponents(s.stack, if s.slash then "/" else "");
    }
  }

  lemma DotIsComponent()
    ensures IsComponent(".")
  {
  }

  lemma RenderedRuns(s: State)
    requires s.stack != [] && forall c :: c in s.stack ==> IsName(c)
    ensures Machine(StackComponents(s), |StackComponents(s)|) == Some(s)
  {
    hide Machine, IsName;
    var components := StackComponents(s);
    assert components[..|s.stack|] == s.stack;
    MachineOnNames(components, s.stack, |s.stack|);
    assert s.stack[..|s.stack|] == s.stack;
    if s.slash {
      LastStep(components);
    }
  }

  /** A rendered stack of names is read back as it is. */
  lemma RenderedIsRead(s: State)
    requires forall c :: c in s.stack ==> IsName(c)
    ensures var components := Components(Render(s), 0);
      Machine(components, |components|).Some?
      && Render(Machine(components, |components|).value) == Render(s)
      && (forall c :: c in components ==> c != "..")
  {
    hide Rows, Machine, Components, IsName;
    RenderedComponents(s);
    if s.stack == [] {
      OneStep(["."]);
    } else {
      RenderedRuns(s);
    }
    forall c | c in StackComponents(s)
      ensures c != ".."
    {
      NameFacts(c);
    }
  }

  lemma OneStep(components: seq<string>)
    requires components == ["."]
    ensures Machine(components, 1) == Some(State([], true))
  {
    assert Machine(components, 0) == Some(State([], false));
  }

  lemma LastStep(components: seq<string>)
    requires components != [] && components[|components| - 1] == "" && Machine(components, |components| - 1).Some?
    ensures Machine(components, |components|) ==
            Some(State(Machine(components, |components| - 1).value.stack, true))
  {
  }

  /** What a reference resolves to is a relative path in normal form without "..". */
  lemma ResolvedIsNormal(base: string, reference: string)
    requires Resolve(base, reference).Some?
    ensures var r := Resolve(base, reference).value;
      r != "" && !IsAbsolute(r) && LexicallyNormal(r) == r
      && (forall c :: c in Components(r, 0) ==> c != "..")
  {
    hide PercentDecode, Acceptable, Components, Machine, Normal, Render;
    var decoded := PercentDecode(reference[..SuffixAt(reference, 0)], 0).value;
    var components := Components(Joined(Parent(base), decoded), 0);
    ComponentsHaveNoSlash(Joined(Parent(base), decoded), 0);
    MachineIsNormal(components, |components|);
    var s := Machine(components, |components|).value;
    RenderedIsRead(s);
    RenderedRelative(s);
    ComponentsHaveNoSlash(Render(s), 0);
    MachineIsNormal(Components(Render(s), 0), |Components(Render(s), 0)|);
  }

  lemma RenderedRelative(s: State)
    requires forall c :: c in s.stack ==> IsName(c)
    ensures Render(s) != "" && !IsAbsolute(Render(s))
  {
    if s.stack != [] {
      assert s.stack[0] in s.stack && s.stack[0][0] in s.stack[0];
      assert Rows(s.stack)[0] == s.stack[0][0];
    }
  }

  // ------------------------------------------------------------- percent-encoding

  /** A byte written as itself or as '%' and two hexadecimal digits. */
  datatype Written = Raw(c: char) | Percent(high: char, low: char)

  predicate ValidWritten(w: Written)
  {
    match w
    case Raw(c) => c != '%' && c != '?' && c != '#'
    case Percent(high, low) => IsHexPair(high, low)
  }

  function WrittenText(w: Written): string
  {
    match w
    case Raw(c) => [c]
    case Percent(high, low) => ['%', high, low]
  }

  function WrittenChar(w: Written): char
    requires ValidWritten(w)
  {
    match w
    case Raw(c) => c
    case Percent(high, low) => Octet(high, low)
  }

  function Encoded(ws: seq<Written>): string
  {
    if ws == [] then "" else WrittenText(ws[0]) + Encoded(ws[1..])
  }

  function Meant(ws: seq<Written>): string
    requires forall w :: w in ws ==> ValidWritten(w)
  {
    if ws == [] then "" else [WrittenChar(ws[0])] + Meant(ws[1..])
  }

  lemma WrittenDecodes(s: string, at: nat, w: Written)
    requires ValidWritten(w) && At(s, at, WrittenText(w))
    ensures PercentDecode(s, at) == Prepend([WrittenChar(w)], PercentDecode(s, at + |WrittenText(w)|))
  {
    hide PercentDecode;
    assert s[at + 0] == WrittenText(w)[0];
    if w.Percent? {
      assert s[at + 1] == WrittenText(w)[1] && s[at + 2] == WrittenText(w)[2];
    }
    PercentStep(s, at);
  }

  lemma {:induction false} EncodedDecodesFrom(s: string, at: nat, ws: seq<Written>)
    requires forall w :: w in ws ==> ValidWritten(w)
    requires At(s, at, Encoded(ws)) && at + |Encoded(ws)| == |s|
    ensures PercentDecode(s, at) == Some(Meant(ws))
    decreases |ws|
  {
    hide At, ValidWritten, WrittenChar, WrittenText;
    if ws != [] {
      AtSplit(s, at, WrittenText(ws[0]), Encoded(ws[1..]));
      WrittenDecodes(s, at, ws[0]);
      EncodedDecodesFrom(s, at + |WrittenText(ws[0])|, ws[1..]);
    }
  }

  /** Decoding undoes every percent-encoding, whichever bytes it escapes. */
  lemma PercentRoundTrip(ws: seq<Written>)
    requires forall w :: w in ws ==> ValidWritten(w)
    ensures PercentDecode(Encoded(ws), 0) == Some(Meant(ws))
  {
    EncodedDecodesFrom(Encoded(ws), 0, ws);
  }

  lemma SuffixPast(s: string, at: nat, w: Written)
    requires ValidWritten(w) && At(s, at, WrittenText(w))
    ensures SuffixAt(s, at) == SuffixAt(s, at + |WrittenText(w)|)
  {
    assert s[at + 0] == WrittenText(w)[0];
    if w.Percent? {
      assert s[at + 1] == WrittenText(w)[1] && s[at + 2] == WrittenText(w)[2];
      assert SuffixAt(s, at) == SuffixAt(s, at + 1) == SuffixAt(s, at + 2);
    }
  }

  lemma {:induction false} SuffixFound(s: string, at: nat, ws: seq<Written>)
    requires forall w :: w in ws ==> ValidWritten(w)
    requires At(s, at, Encoded(ws))
    ensures SuffixAt(s, at) == SuffixAt(s, at + |Encoded(ws)|)
    decreases |ws|
  {
    hide ValidWritten, WrittenText, At, SuffixAt;
    if ws != [] {
      AtSplit(s, at, WrittenText(ws[0]), Encoded(ws[1..]));
      SuffixPast(s, at, ws[0]);
      SuffixFound(s, at + |WrittenText(ws[0])|, ws[1..]);
    }
  }

  /** A percent-encoded reference with any query or fragment resolves as the bytes it
      stands for. */
  lemma EncodedResolves(base: string, ws: seq<Written>, suffix: string)
    requires forall w :: w in ws ==> ValidWritten(w)
    requires suffix == "" || suffix[0] == '?' || suffix[0] == '#'
    ensures Resolve(base, Encoded(ws) + suffix) ==
            if Acceptable(Meant(ws)) then Follow(base, Meant(ws)) else None
  {
    hide Follow, Acceptable;
    var reference := Encoded(ws) + suffix;
    SuffixFound(reference, 0, ws);
    assert reference[..|Encoded(ws)|] == Encoded(ws);
    PercentRoundTrip(ws);
  }

  // ------------------------------------------------- every file is within reach

  /** The components that climb `n` directories. */
  function Dots(n: nat): (r: seq<string>)
    ensures |r| == n && forall k :: 0 <= k < n ==> r[k] == ".."
  {
    seq(n, _ => "..")
  }

  lemma {:induction false} RowsAppend(a: seq<string>, b: seq<string>)
    requires a != [] && b != []
    ensures Rows(a + b) == Rows(a) + "/" + Rows(b)
    decreases |a|
  {
    if |a| == 1 {
      assert (a + b)[1..] == b;
    } else {
      assert (a + b)[1..] == a[1..] + b;
      RowsAppend(a[1..], b);
    }
  }

  lemma {:induction false} ParentOf(directory: string, file: string)
    requires IsComponent(file)
    ensures Parent(directory + "/" + file) == directory
    ensures Parent(file) == ""
    decreases |file|
  {
    var path := directory + "/" + file;
    if file == "" {
      assert path[..|path| - 1] == directory;
    } else {
      var last := |file| - 1;
      assert path[|path| - 1] == file[last] && file[last] in file;
      assert path[..|path| - 1] == directory + "/" + file[..last];
      ParentOf(directory, file[..last]);
    }
  }

  lemma {:induction false} MachineClimbs(components: seq<string>, dirs: seq<string>, n: nat)
    requires |dirs| + n <= |components| && n <= |dirs| && dirs == components[..|dirs|]
    requires (forall c :: c in dirs ==> IsName(c)) && forall k :: |dirs| <= k < |dirs| + n ==> components[k] == ".."
    ensures Machine(components, |dirs| + n).Some?
    ensures Machine(components, |dirs| + n).value.stack == dirs[..|dirs| - n]
    decreases n
  {
    if n == 0 {
      MachineOnNames(components, dirs, |dirs|);
    } else {
      MachineClimbs(components, dirs, n - 1);
      assert components[|dirs| + n - 1] == "..";
    }
  }

  lemma {:induction false} MachineDescends(
    components: seq<string>, from: nat, kept: seq<string>, target: seq<string>, n: nat)
    requires from + n <= |components| && n <= |target|
    requires forall k :: 0 <= k < n ==> components[from + k] == target[k] && IsName(target[k])
    requires Machine(components, from).Some? && Machine(components, from).value.stack == kept
    ensures Machine(components, from + n).Some? && Machine(components, from + n).value.stack == kept + target[..n]
    ensures n > 0 ==> !Machine(components, from + n).value.slash
    decreases n
  {
    if n > 0 {
      MachineDescends(components, from, kept, target, n - 1);
      assert components[from + (n - 1)] == target[n - 1];
      assert kept + target[..n] == kept + target[..n - 1] + [target[n - 1]];
    } else {
      assert kept + target[..0] == kept;
    }
  }

  lemma ParentOfRows(dirs: seq<string>, file: string)
    requires IsName(file) && forall c :: c in dirs ==> IsName(c)
    ensures Parent(Rows(dirs + [file])) == Rows(dirs)
    ensures !IsAbsolute(Rows(dirs + [file]))
  {
    hide IsName, IsAbsolute, Parent, Rows;
    NameFacts(file);
    RelativeRows(dirs + [file]);
    RowsOne(file);
    if dirs == [] {
      assert [] + [file] == [file];
      ParentOf("", file);
    } else {
      RowsAppend(dirs, [file]);
      ParentOf(Rows(dirs), file);
    }
  }

  lemma JoinedRows(dirs: seq<string>, rest: seq<string>)
    requires rest != [] && (IsName(rest[0]) || rest[0] == "..") && forall c :: c in dirs ==> IsName(c)
    ensures Joined(Rows(dirs), Rows(rest)) == Rows(dirs + rest) && !IsAbsolute(Rows(dirs + rest))
  {
    hide IsName, IsAbsolute, Rows;
    RelativeRows(rest);
    RelativeRows(dirs + rest);
    RowsOne("");
    if dirs == [] {
      assert [] + rest == rest;
    } else {
      RelativeRows(dirs);
      RowsAppend(dirs, rest);
    }
  }

  lemma RowsOne(name: string)
    ensures Rows([name]) == name && Rows([]) == ""
  {
  }

  lemma RelativeRows(names: seq<string>)
    requires names != [] && (IsName(names[0]) || names[0] == "..")
    ensures Rows(names) != "" && !IsAbsolute(Rows(names))
  {
    assert names[0][0] in names[0];
    assert Rows(names)[0] == names[0][0];
  }

  /** From any file of the archive, the percent-encoded reference that climbs any number
      of its directories and descends to another file resolves to exactly that file. */
  lemma EveryFileReachable(dirs: seq<string>, file: string, up: nat, down: seq<string>, ws: seq<Written>)
    requires IsName(file) && down != [] && up <= |dirs|
    requires (forall c :: c in dirs ==> IsName(c)) && forall c :: c in down ==> IsName(c)
    requires (forall w :: w in ws ==> ValidWritten(w)) && Meant(ws) == Rows(Dots(up) + down)
    requires Acceptable(Meant(ws))
    ensures Resolve(Rows(dirs + [file]), Encoded(ws)) == Some(Rows(dirs[..|dirs| - up] + down))
  {
    hide Machine, Components, IsName, Acceptable, Rows, Encoded, Meant, ValidWritten;
    hide IsAbsolute, Joined, Parent, Render;
    EncodedResolves(Rows(dirs + [file]), ws, "");
    assert Encoded(ws) + "" == Encoded(ws);
    var rest := Dots(up) + down;
    assert rest[0] == ".." || rest[0] == down[0];
    ParentOfRows(dirs, file);
    JoinedRows(dirs, rest);
    assert dirs + Dots(up) + down == dirs + rest;
    ClimbsAndDescends(dirs, up, down);
    RenderedNames(dirs[..|dirs| - up] + down);
  }

  lemma PathParts(dirs: seq<string>, up: nat, down: seq<string>)
    ensures var components := dirs + Dots(up) + down;
      |components| == |dirs| + up + |down| && components[..|dirs|] == dirs
      && (forall k :: |dirs| <= k < |dirs| + up ==> components[k] == "..")
      && (forall k :: 0 <= k < |down| ==> components[|dirs| + up + k] == down[k])
  {
  }

  lemma MachineThrough(components: seq<string>, dirs: seq<string>, up: nat, down: seq<string>)
    requires down != [] && up <= |dirs| && |components| == |dirs| + up + |down| && components[..|dirs|] == dirs
    requires forall k :: |dirs| <= k < |dirs| + up ==> components[k] == ".."
    requires forall k :: 0 <= k < |down| ==> components[|dirs| + up + k] == down[k]
    requires (forall c :: c in dirs ==> IsName(c)) && forall c :: c in down ==> IsName(c)
    ensures Machine(components, |components|) == Some(State(dirs[..|dirs| - up] + down, false))
  {
    hide Machine, IsName;
    MachineClimbs(components, dirs, up);
    MachineDescends(components, |dirs| + up, dirs[..|dirs| - up], down, |down|);
    assert down[..|down|] == down;
  }

  lemma ClimbsAndDescends(dirs: seq<string>, up: nat, down: seq<string>)
    requires down != [] && up <= |dirs|
    requires (forall c :: c in dirs ==> IsName(c)) && forall c :: c in down ==> IsName(c)
    ensures var components := Components(Rows(dirs + Dots(up) + down), 0);
      Machine(components, |components|) == Some(State(dirs[..|dirs| - up] + down, false))
  {
    hide Machine, Components, IsName, Rows, IsComponent;
    var components := dirs + Dots(up) + down;
    AllComponents(dirs, up, down);
    RowsComponents(components, "");
    assert Rows(components) + "" == Rows(components) && components + [] == components;
    PathParts(dirs, up, down);
    MachineThrough(components, dirs, up, down);
  }

  lemma RenderedNames(target: seq<string>)
    requires target != []
    ensures Render(State(target, false)) == Rows(target)
  {
    assert Rows(target) + "" == Rows(target);
  }

  lemma AllComponents(dirs: seq<string>, up: nat, down: seq<string>)
    requires (forall c :: c in dirs ==> IsName(c)) && forall c :: c in down ==> IsName(c)
    ensures forall c :: c in dirs + Dots(up) + down ==> IsComponent(c)
  {
    forall c | c in dirs + Dots(up) + down
      ensures IsComponent(c)
    {
      NameFacts(c);
    }
  }
}
