/** The word edit distance of the speech quality check, computed row by row. */
module EditDistance {
  import opened Wrappers

  function Min3(a: nat, b: nat, c: nat): nat
  {
    if a <= b && a <= c then a else if b <= c then b else c
  }

  /** Distance between the first `i` words of `source` and the first `j` of `target`. */
  function Distance<W(==)>(source: seq<W>, target: seq<W>, i: nat, j: nat): nat
    requires i <= |source| && j <= |target|
    decreases i + j
  {
    if i == 0 then j
    else if j == 0 then i
    else Min3(Distance(source, target, i, j - 1) + 1, Distance(source, target, i - 1, j) + 1,
              Distance(source, target, i - 1, j - 1) + if source[i - 1] != target[j - 1] then 1 else 0)
  }

  lemma DistanceStep<W>(source: seq<W>, target: seq<W>, i: nat, j: nat)
    requires 0 < i <= |source| && 0 < j <= |target|
    ensures Distance(source, target, i, j) ==
            Min3(Distance(source, target, i, j - 1) + 1, Distance(source, target, i - 1, j) + 1,
                 Distance(source, target, i - 1, j - 1) + if source[i - 1] != target[j - 1] then 1 else 0)
  {
  }

  lemma DistanceEdge<W>(source: seq<W>, target: seq<W>, i: nat, j: nat)
    requires i <= |source| && j <= |target| && (i == 0 || j == 0)
    ensures Distance(source, target, i, j) == i + j
  {
  }

  /** One row of the table from the row above it. */
  method NextRow<W(==)>(source: seq<W>, target: seq<W>, row: nat, previous: seq<nat>) returns (current: seq<nat>)
    requires 0 < row <= |source| && |previous| == |target| + 1
    requires forall j :: 0 <= j <= |target| ==> previous[j] == Distance(source, target, row - 1, j)
    ensures |current| == |target| + 1
    ensures forall j :: 0 <= j <= |target| ==> current[j] == Distance(source, target, row, j)
  {
    hide Distance, Min3;
    DistanceEdge(source, target, row, 0);
    var word := source[row - 1];
    current := [row];
    for column := 1 to |target| + 1
      invariant |current| == column
      invariant forall j :: 0 <= j < column ==> current[j] == Distance(source, target, row, j)
    {
      var candidate := target[column - 1];
      var cell := Min3(current[|current| - 1] + 1, previous[column] + 1,
                       previous[column - 1] + if word != candidate then 1 else 0);
      DistanceStep(source, target, row, column);
      current := current + [cell];
    }
  }

  method WordErrors<W(==)>(source: seq<W>, target: seq<W>) returns (errors: nat)
    ensures errors == Distance(source, target, |source|, |target|)
  {
    var previous := seq(|target| + 1, j => j);
    for row := 1 to |source| + 1
      invariant |previous| == |target| + 1
      invariant forall j :: 0 <= j <= |target| ==> previous[j] == Distance(source, target, row - 1, j)
    {
      var current := NextRow(source, target, row, previous);
      previous := current;
    }
    errors := previous[|previous| - 1];
  }

  // ------------------------------------------------------------ what it means

  datatype Edit<W> = Keep | Replace(word: W) | Delete | Insert(word: W)

  /** Edits that change something, among the first `n`. */
  function Cost<W>(script: seq<Edit<W>>, n: nat): nat
    requires n <= |script|
  {
    if n == 0 then 0 else Cost(script, n - 1) + if script[n - 1].Keep? then 0 else 1
  }

  function Appended<W>(words: Option<seq<W>>, more: seq<W>): Option<seq<W>>
  {
    match words case None => None case Some(w) => Some(w + more)
  }

  /** What the first `n` edits make of the first `i` words, if they consume
      exactly those. */
  function Edited<W>(script: seq<Edit<W>>, n: nat, words: seq<W>, i: nat): Option<seq<W>>
    requires n <= |script| && i <= |words|
  {
    if n == 0 then if i == 0 then Some([]) else None
    else
      match script[n - 1]
      case Insert(word) => Appended(Edited(script, n - 1, words, i), [word])
      case Delete => if i == 0 then None else Edited(script, n - 1, words, i - 1)
      case Keep => if i == 0 then None else Appended(Edited(script, n - 1, words, i - 1), [words[i - 1]])
      case Replace(word) => if i == 0 then None else Appended(Edited(script, n - 1, words, i - 1), [word])
  }

  lemma {:induction false} ScriptStable<W>(script: seq<Edit<W>>, more: seq<Edit<W>>, n: nat, words: seq<W>, i: nat)
    requires n <= |script| && i <= |words| && script <= more
    ensures Edited(script, n, words, i) == Edited(more, n, words, i)
    ensures Cost(script, n) == Cost(more, n)
  {
    if n > 0 {
      ScriptStable(script, more, n - 1, words, i);
      if i > 0 {
        ScriptStable(script, more, n - 1, words, i - 1);
      }
    }
  }

  lemma BestEdit<W>(source: seq<W>, target: seq<W>, i: nat, j: nat) returns (di: nat, dj: nat, edit: Edit<W>)
    requires i <= |source| && j <= |target| && i + j > 0
    ensures di <= 1 && dj <= 1 && di <= i && dj <= j && di + dj > 0
    ensures di == 1 && dj == 1 ==> edit == if source[i - 1] == target[j - 1] then Keep else Replace(target[j - 1])
    ensures di == 1 && dj == 0 ==> edit == Delete
    ensures di == 0 ==> edit == Insert(target[j - 1])
    ensures Distance(source, target, i, j) ==
            Distance(source, target, i - di, j - dj) + if edit.Keep? then 0 else 1
  {
    hide Distance;
    if i == 0 || j == 0 {
      DistanceEdge(source, target, i, j);
      DistanceEdge(source, target, if j == 0 then i - 1 else 0, if j == 0 then 0 else j - 1);
    } else {
      DistanceStep(source, target, i, j);
    }
    if j == 0 || (i > 0 && Distance(source, target, i, j) == Distance(source, target, i - 1, j) + 1) {
      di, dj, edit := 1, 0, Delete;
    } else if i == 0 || Distance(source, target, i, j) == Distance(source, target, i, j - 1) + 1 {
      di, dj, edit := 0, 1, Insert(target[j - 1]);
    } else {
      di, dj := 1, 1;
      edit := if source[i - 1] == target[j - 1] then Keep else Replace(target[j - 1]);
    }
  }

  /** Some script of that cost turns the source into the target. */
  lemma {:induction false} DistanceAchieved<W>(source: seq<W>, target: seq<W>, i: nat, j: nat)
    returns (script: seq<Edit<W>>)
    requires i <= |source| && j <= |target|
    ensures Edited(script, |script|, source, i) == Some(target[..j])
    ensures Cost(script, |script|) == Distance(source, target, i, j)
    decreases i + j
  {
    hide Distance, Edited, Cost, Appended;
    if i == 0 && j == 0 {
      script := [];
      NothingToEdit(source, target);
    } else {
      var di, dj, edit := BestEdit(source, target, i, j);
      var rest := DistanceAchieved(source, target, i - di, j - dj);
      script := rest + [edit];
      OneMoreEdit(rest, edit, source, i - di, target, j - dj);
    }
  }

  lemma NothingToEdit<W>(source: seq<W>, target: seq<W>)
    ensures Edited([], 0, source, 0) == Some(target[..0]) && Cost<W>([], 0) == 0
    ensures Distance(source, target, 0, 0) == 0
  {
  }

  lemma OneMoreEdit<W>(rest: seq<Edit<W>>, edit: Edit<W>, source: seq<W>, i: nat, target: seq<W>, j: nat)
    requires i <= |source| && j <= |target|
    requires Edited(rest, |rest|, source, i) == Some(target[..j])
    ensures var script, n := rest + [edit], |rest| + 1;
      && Cost(script, n) == Cost(rest, |rest|) + (if edit.Keep? then 0 else 1)
      && (edit.Delete? && i < |source| ==> Edited(script, n, source, i + 1) == Some(target[..j]))
      && (j < |target| && edit == Insert(target[j]) ==> Edited(script, n, source, i) == Some(target[..j + 1]))
      && (i < |source| && j < |target| && (edit == Replace(target[j]) || (edit.Keep? && source[i] == target[j])) ==>
            Edited(script, n, source, i + 1) == Some(target[..j + 1]))
  {
    ScriptStable(rest, rest + [edit], |rest|, source, i);
    assert j < |target| ==> target[..j] + [target[j]] == target[..j + 1];
  }

  /** A cell is at most one more than its neighbours, and at most its diagonal
      neighbour where the words agree. */
  lemma {:induction false} CellBounds<W>(source: seq<W>, target: seq<W>, i: nat, j: nat)
    requires i <= |source| && j <= |target|
    ensures i > 0 ==> Distance(source, target, i, j) <= Distance(source, target, i - 1, j) + 1
    ensures j > 0 ==> Distance(source, target, i, j) <= Distance(source, target, i, j - 1) + 1
    ensures i > 0 && j > 0 ==>
              Distance(source, target, i, j) <=
              Distance(source, target, i - 1, j - 1) + if source[i - 1] == target[j - 1] then 0 else 1
  {
  }

  lemma AppendedIs<W>(words: Option<seq<W>>, word: W, target: seq<W>, j: nat)
    requires j <= |target| && Appended(words, [word]) == Some(target[..j])
    ensures j > 0 && words == Some(target[..j - 1]) && word == target[j - 1]
  {
    assert |target[..j]| == |words.value| + 1;
    assert words.value == (words.value + [word])[..j - 1] == target[..j][..j - 1] == target[..j - 1];
    assert word == (words.value + [word])[j - 1];
  }

  /** No script does it for less. */
  lemma {:induction false} DistanceMinimal<W>(
    source: seq<W>, target: seq<W>, i: nat, j: nat, script: seq<Edit<W>>, n: nat)
    requires i <= |source| && j <= |target| && n <= |script|
    requires Edited(script, n, source, i) == Some(target[..j])
    ensures Distance(source, target, i, j) <= Cost(script, n)
  {
    if n == 0 {
      assert |target[..j]| == 0;
    } else {
      CellBounds(source, target, i, j);
      hide Distance;
      match script[n - 1]
      case Insert(word) =>
        AppendedIs(Edited(script, n - 1, source, i), word, target, j);
        DistanceMinimal(source, target, i, j - 1, script, n - 1);
      case Delete =>
        DistanceMinimal(source, target, i - 1, j, script, n - 1);
      case Keep =>
        AppendedIs(Edited(script, n - 1, source, i - 1), source[i - 1], target, j);
        DistanceMinimal(source, target, i - 1, j - 1, script, n - 1);
      case Replace(word) =>
        AppendedIs(Edited(script, n - 1, source, i - 1), word, target, j);
        DistanceMinimal(source, target, i - 1, j - 1, script, n - 1);
    }
  }

  /** The distance lies between the length difference and the longer length. */
  lemma {:induction false} DistanceBounds<W>(source: seq<W>, target: seq<W>, i: nat, j: nat)
    requires i <= |source| && j <= |target|
    ensures i - j <= Distance(source, target, i, j) && j - i <= Distance(source, target, i, j)
    ensures Distance(source, target, i, j) <= if i < j then j else i
    decreases i + j
  {
    hide Distance;
    if i == 0 || j == 0 {
      DistanceEdge(source, target, i, j);
    } else {
      DistanceStep(source, target, i, j);
      DistanceBounds(source, target, i, j - 1);
      DistanceBounds(source, target, i - 1, j);
      DistanceBounds(source, target, i - 1, j - 1);
    }
  }

  /** It is zero exactly for equal texts. */
  lemma {:induction false} DistanceZeroIff<W>(source: seq<W>, target: seq<W>, i: nat, j: nat)
    requires i <= |source| && j <= |target|
    ensures Distance(source, target, i, j) == 0 <==> i == j && forall k :: 0 <= k < i ==> source[k] == target[k]
  {
    if i > 0 && j > 0 {
      DistanceBounds(source, target, i, j);
      DistanceZeroIff(source, target, i - 1, j - 1);
    }
  }

  /** It does not matter which text is the reference. */
  lemma {:induction false} DistanceSymmetric<W>(source: seq<W>, target: seq<W>, i: nat, j: nat)
    requires i <= |source| && j <= |target|
    ensures Distance(source, target, i, j) == Distance(target, source, j, i)
    decreases i + j
  {
    hide Distance;
    if i == 0 || j == 0 {
      DistanceEdge(source, target, i, j);
      DistanceEdge(target, source, j, i);
    } else {
      DistanceStep(source, target, i, j);
      DistanceStep(target, source, j, i);
      DistanceSymmetric(source, target, i, j - 1);
      DistanceSymmetric(source, target, i - 1, j);
      DistanceSymmetric(source, target, i - 1, j - 1);
    }
  }
}
