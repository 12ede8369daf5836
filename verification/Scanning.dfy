/** Reading text by position. Each `char` stands for one byte of the source text. */
module Scanning {
  import opened Wire

  function Chars(bytes: seq<byte>): (r: string)
    ensures |r| == |bytes|
  {
    seq(|bytes|, i requires 0 <= i < |bytes| => bytes[i] as char)
  }

  /** `std::isspace` in the C locale. */
  predicate IsSpace(c: char) { c == ' ' || 9 as char <= c <= 13 as char }

  /** `std::string::find` of one character; the length when there is none. */
  function Find(s: string, c: char, from: nat): (r: nat)
    requires from <= |s|
    ensures from <= r <= |s|
    decreases |s| - from
  {
    if from == |s| || s[from] == c then from else Find(s, c, from + 1)
  }

  /** The first position from `from` on whose character does not satisfy `p`. */
  function Skip(s: string, p: char -> bool, from: nat): (r: nat)
    requires from <= |s|
    ensures from <= r <= |s|
    decreases |s| - from
  {
    if from == |s| || !p(s[from]) then from else Skip(s, p, from + 1)
  }

  lemma {:induction false} FindFirst(s: string, c: char, from: nat)
    requires from <= |s|
    ensures forall k :: from <= k < Find(s, c, from) ==> s[k] != c
    ensures Find(s, c, from) < |s| ==> s[Find(s, c, from)] == c
    decreases |s| - from
  {
    if from < |s| && s[from] != c {
      FindFirst(s, c, from + 1);
    }
  }

  lemma {:induction false} SkipFirst(s: string, p: char -> bool, from: nat)
    requires from <= |s|
    ensures forall k :: from <= k < Skip(s, p, from) ==> p(s[k])
    ensures Skip(s, p, from) < |s| ==> !p(s[Skip(s, p, from)])
    decreases |s| - from
  {
    if from < |s| && p(s[from]) {
      SkipFirst(s, p, from + 1);
    }
  }

  /** `part` is what stands at position `at`. */
  ghost predicate At<T>(s: seq<T>, at: nat, part: seq<T>)
  {
    at + |part| <= |s| && forall k :: 0 <= k < |part| ==> s[at + k] == part[k]
  }

  lemma AtSplit<T>(s: seq<T>, at: nat, a: seq<T>, b: seq<T>)
    requires At(s, at, a + b)
    ensures At(s, at, a) && At(s, at + |a|, b)
  {
    forall k | 0 <= k < |a|
      ensures s[at + k] == a[k]
    {
      assert (a + b)[k] == a[k];
    }
    forall k | 0 <= k < |b|
      ensures s[at + |a| + k] == b[k]
    {
      assert (a + b)[|a| + k] == b[k];
    }
  }

  lemma AtChar(s: string, at: nat, c: char)
    requires At(s, at, [c])
    ensures at < |s| && s[at] == c
  {
    assert [c][0] == c;
  }

  lemma AtSlice(s: string, at: nat, part: string)
    requires At(s, at, part)
    ensures s[at..at + |part|] == part
  {
  }

  lemma FindsEnd(s: string, at: nat, body: string, c: char)
    requires At(s, at, body) && c !in body && at + |body| < |s| && s[at + |body|] == c
    ensures Find(s, c, at) == at + |body|
  {
    FindFirst(s, c, at);
    forall k | at <= k < at + |body|
      ensures s[k] != c
    {
      assert s[k] == body[k - at];
    }
  }

  lemma SkipsRun(s: string, p: char -> bool, at: nat, run: string)
    requires At(s, at, run) && (forall c :: c in run ==> p(c))
    requires at + |run| < |s| ==> !p(s[at + |run|])
    ensures Skip(s, p, at) == at + |run|
  {
    SkipFirst(s, p, at);
    forall k | at <= k < at + |run|
      ensures p(s[k])
    {
      assert s[k] == run[k - at];
    }
  }
}
