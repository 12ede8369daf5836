/** What joined speech should sound like: bodies placed on one timeline, each
    starting inside the pending tail of the audio before it. */
module OverlapAdd {
  import opened Wire

  type Bodies = seq<seq<real>>

  function Clamp(x: real): real { if x < -1.0 then -1.0 else if x > 1.0 then 1.0 else x }

  /** `body` laid over the last `pending` samples of `before`; what the body is
      too short to reach is lost. */
  function Join(before: seq<real>, pending: nat, body: seq<real>): (r: seq<real>)
    requires pending <= |before|
    ensures |r| == |before| - pending + |body|
    ensures forall k :: 0 <= k < |r| ==> r[k] == JoinedSample(before, pending, body, k)
  {
    seq(|before| - pending + |body|, k requires 0 <= k < |before| - pending + |body| =>
      JoinedSample(before, pending, body, k))
  }

  function JoinedSample(before: seq<real>, pending: nat, body: seq<real>, k: nat): real
    requires pending <= |before| && k < |before| - pending + |body|
  {
    var join := |before| - pending;
    if k < join then before[k]
    else if k < |before| then Clamp(before[k] + body[k - join])
    else body[k - join]
  }

  /** The tail a body of length `length` leaves after `pending` samples were
      pending: at most `overlap`, and only audio not mixed yet. */
  function NextPending(pending: nat, length: nat, overlap: nat): nat
  {
    Min(overlap, length - Min(pending, length))
  }

  /** Length of the tail held back after the first `n` bodies. */
  ghost function Pending(bodies: Bodies, overlap: nat, n: nat): (r: nat)
    requires n <= |bodies|
    ensures r <= overlap
    ensures n > 0 ==> r <= |bodies[n - 1]|
  {
    if n == 0 then 0 else NextPending(Pending(bodies, overlap, n - 1), |bodies[n - 1]|, overlap)
  }

  /** Everything emitted after the first `n` bodies, then the tail held back. */
  ghost function Rendered(bodies: Bodies, overlap: nat, n: nat): (r: seq<real>)
    requires n <= |bodies|
    ensures Pending(bodies, overlap, n) <= |r|
  {
    if n == 0 then []
    else Join(Rendered(bodies, overlap, n - 1), Pending(bodies, overlap, n - 1), bodies[n - 1])
  }

  ghost function TotalLength(bodies: Bodies, n: nat): nat
    requires n <= |bodies|
  {
    if n == 0 then 0 else TotalLength(bodies, n - 1) + |bodies[n - 1]|
  }

  /** Lengths of the tails held back between the first `n` bodies. */
  ghost function InteriorTails(bodies: Bodies, overlap: nat, n: nat): nat
    requires n <= |bodies|
  {
    if n == 0 then 0 else InteriorTails(bodies, overlap, n - 1) + Pending(bodies, overlap, n - 1)
  }

  lemma {:induction false} LengthLaw(bodies: Bodies, overlap: nat, n: nat)
    requires n <= |bodies|
    ensures |Rendered(bodies, overlap, n)| == TotalLength(bodies, n) - InteriorTails(bodies, overlap, n)
  {
    if n > 0 {
      LengthLaw(bodies, overlap, n - 1);
    }
  }

  /** Later bodies do not change what the first `n` gave. */
  lemma {:induction false} PrefixStable(bodies: Bodies, more: Bodies, overlap: nat, n: nat)
    requires n <= |bodies| <= |more| && more[..|bodies|] == bodies
    ensures Pending(bodies, overlap, n) == Pending(more, overlap, n)
    ensures Rendered(bodies, overlap, n) == Rendered(more, overlap, n)
  {
    if n > 0 {
      PrefixStable(bodies, more, overlap, n - 1);
      assert bodies[n - 1] == more[n - 1];
    }
  }

  /** Where body `i` lands on the timeline. */
  ghost function Start(bodies: Bodies, overlap: nat, i: nat): int
    requires i <= |bodies|
  {
    if i == 0 then 0 else Start(bodies, overlap, i - 1) + |bodies[i - 1]| - Pending(bodies, overlap, i)
  }

  ghost predicate Placed(bodies: Bodies, overlap: nat, i: nat, k: int)
  {
    i < |bodies| && Start(bodies, overlap, i) <= k < Start(bodies, overlap, i) + |bodies[i]|
  }

  ghost function SampleAt(bodies: Bodies, overlap: nat, i: nat, k: int): real
    requires Placed(bodies, overlap, i, k)
  {
    bodies[i][k - Start(bodies, overlap, i)]
  }

  /** None of the first `n` bodies is shorter than the tail pending before it. */
  ghost predicate TailsCovered(bodies: Bodies, overlap: nat, n: nat)
    requires n <= |bodies|
  {
    forall i :: 0 <= i < n ==> Pending(bodies, overlap, i) <= |bodies[i]|
  }

  lemma {:induction false} StartIsJoin(bodies: Bodies, overlap: nat, n: nat)
    requires n <= |bodies|
    ensures Start(bodies, overlap, n) == |Rendered(bodies, overlap, n)| - Pending(bodies, overlap, n)
  {
    if n > 0 {
      StartIsJoin(bodies, overlap, n - 1);
    }
  }

  lemma {:induction false} EndsInside(bodies: Bodies, overlap: nat, i: nat, n: nat)
    requires i < n <= |bodies| && TailsCovered(bodies, overlap, n)
    ensures Start(bodies, overlap, i) + |bodies[i]| <= |Rendered(bodies, overlap, n)|
    ensures i + 1 < n ==> Start(bodies, overlap, i) + |bodies[i]| <= Start(bodies, overlap, n)
  {
    StartIsJoin(bodies, overlap, n - 1);
    StartIsJoin(bodies, overlap, n);
    if i + 1 < n {
      EndsInside(bodies, overlap, i, n - 1);
    }
  }

  /** Position `k` of the stream holds body `i`'s sample alone, or its clamped
      sum with the next body's; no third body reaches `k`. */
  ghost predicate Carries(bodies: Bodies, overlap: nat, n: nat, i: nat, k: nat)
    requires n <= |bodies| && k < |Rendered(bodies, overlap, n)|
  {
    && i < n && Placed(bodies, overlap, i, k)
    && (forall j: nat :: j < n && Placed(bodies, overlap, j, k) ==> j == i || j == i + 1)
    && Rendered(bodies, overlap, n)[k] ==
       if i + 1 < n && Placed(bodies, overlap, i + 1, k)
       then Clamp(SampleAt(bodies, overlap, i, k) + SampleAt(bodies, overlap, i + 1, k))
       else SampleAt(bodies, overlap, i, k)
  }

  lemma SampleStep(bodies: Bodies, overlap: nat, n: nat, k: nat)
    requires 0 < n <= |bodies| && k < |Rendered(bodies, overlap, n)|
    ensures var before, join := Rendered(bodies, overlap, n - 1), Start(bodies, overlap, n - 1);
      && join <= |before| && k < join + |bodies[n - 1]|
      && Rendered(bodies, overlap, n)[k] ==
         if k < join then before[k]
         else if k < |before| then Clamp(before[k] + bodies[n - 1][k - join])
         else bodies[n - 1][k - join]
  {
    hide Clamp;
    StartIsJoin(bodies, overlap, n - 1);
  }

  lemma StillCarries(bodies: Bodies, overlap: nat, n: nat, i: nat, k: nat)
    requires 0 < n <= |bodies| && TailsCovered(bodies, overlap, n)
    requires k < |Rendered(bodies, overlap, n - 1)| && k < |Rendered(bodies, overlap, n)|
    requires Carries(bodies, overlap, n - 1, i, k)
    ensures Carries(bodies, overlap, n, i, k)
  {
    hide Clamp, Rendered, Start, Pending;
    SampleStep(bodies, overlap, n, k);
    if i + 2 < n {
      EndsInside(bodies, overlap, i, n - 1);
      assert !Placed(bodies, overlap, n - 1, k);
    }
  }

  lemma NewlyCarries(bodies: Bodies, overlap: nat, n: nat, k: nat)
    requires 0 < n <= |bodies| && TailsCovered(bodies, overlap, n)
    requires |Rendered(bodies, overlap, n - 1)| <= k < |Rendered(bodies, overlap, n)|
    ensures Carries(bodies, overlap, n, n - 1, k)
  {
    hide Clamp, Rendered, Start, Pending;
    SampleStep(bodies, overlap, n, k);
    forall j: nat | j < n && Placed(bodies, overlap, j, k)
      ensures j == n - 1
    {
      if j < n - 1 {
        EndsInside(bodies, overlap, j, n - 1);
      }
    }
  }

  lemma {:induction false} Timeline(bodies: Bodies, overlap: nat, n: nat, k: nat) returns (i: nat)
    requires n <= |bodies| && TailsCovered(bodies, overlap, n)
    requires k < |Rendered(bodies, overlap, n)|
    ensures Carries(bodies, overlap, n, i, k)
  {
    assert n > 0;
    hide Rendered, Carries;
    if k < |Rendered(bodies, overlap, n - 1)| {
      i := Timeline(bodies, overlap, n - 1, k);
      StillCarries(bodies, overlap, n, i, k);
    } else {
      i := n - 1;
      NewlyCarries(bodies, overlap, n, k);
    }
  }

  // -------------------------------------------------------------- what is heard

  ghost predicate Sample(bodies: Bodies, i: nat, j: nat) { i < |bodies| && j < |bodies[i]| }

  /** The bodies with one sample replaced. */
  ghost function Changed(bodies: Bodies, i: nat, j: nat, v: real): Bodies
    requires Sample(bodies, i, j)
  {
    bodies[i := bodies[i][j := v]]
  }

  /** A sample is heard when the finished stream depends on its value. */
  ghost predicate Heard(bodies: Bodies, overlap: nat, i: nat, j: nat)
    requires Sample(bodies, i, j)
  {
    exists v :: Rendered(Changed(bodies, i, j, v), overlap, |bodies|) != Rendered(bodies, overlap, |bodies|)
  }

  /** The sample lies in the tail held back after its body, beyond the reach of the
      next one. */
  ghost predicate Dropped(bodies: Bodies, overlap: nat, i: nat, j: nat)
    requires Sample(bodies, i, j)
  {
    i + 1 < |bodies| && j - (|bodies[i]| - Pending(bodies, overlap, i + 1)) >= |bodies[i + 1]|
  }

  lemma {:induction false} SameShape(bodies: Bodies, i: nat, j: nat, v: real, overlap: nat, n: nat)
    requires Sample(bodies, i, j) && n <= |bodies|
    ensures var more := Changed(bodies, i, j, v);
      && Pending(more, overlap, n) == Pending(bodies, overlap, n)
      && Start(more, overlap, n) == Start(bodies, overlap, n)
      && |Rendered(more, overlap, n)| == |Rendered(bodies, overlap, n)|
      && (n <= i ==> Rendered(more, overlap, n) == Rendered(bodies, overlap, n))
  {
    hide JoinedSample;
    if n > 0 {
      SameShape(bodies, i, j, v, overlap, n - 1);
    }
  }

  lemma {:induction false} BeforeStart(bodies: Bodies, overlap: nat, k: nat, m: nat, n: nat)
    requires m <= n <= |bodies| && k < Start(bodies, overlap, m)
    ensures k < Start(bodies, overlap, n) && k < |Rendered(bodies, overlap, m)| && k < |Rendered(bodies, overlap, n)|
    ensures Rendered(bodies, overlap, n)[k] == Rendered(bodies, overlap, m)[k]
    decreases n
  {
    hide Rendered, Clamp;
    StartIsJoin(bodies, overlap, m);
    StartIsJoin(bodies, overlap, n);
    if m < n {
      BeforeStart(bodies, overlap, k, m, n - 1);
      SampleStep(bodies, overlap, n, k);
    }
  }

  /** Where a sample lands, and that it stays there once the next body is joined. */
  lemma Lands(bodies: Bodies, overlap: nat, i: nat, j: nat)
    requires Sample(bodies, i, j)
    ensures var k := Start(bodies, overlap, i) + j;
      && 0 <= k < |Rendered(bodies, overlap, i + 1)|
      && (k >= Start(bodies, overlap, i + 1) ==> k >= |Rendered(bodies, overlap, i)|)
      && (i + 1 < |bodies| && !Dropped(bodies, overlap, i, j) ==> k < Start(bodies, overlap, i + 2))
      && (i + 1 < |bodies| && Dropped(bodies, overlap, i, j) ==> k >= |Rendered(bodies, overlap, i + 2)|)
  {
    StartIsJoin(bodies, overlap, i);
    StartIsJoin(bodies, overlap, i + 1);
    if i + 1 < |bodies| {
      StartIsJoin(bodies, overlap, i + 2);
    }
  }

  /** The stream after the sample's own body: only the sample's position depends on it. */
  lemma OwnBody(bodies: Bodies, overlap: nat, i: nat, j: nat, v: real, at: nat)
    requires Sample(bodies, i, j) && at < |Rendered(bodies, overlap, i + 1)|
    ensures var more := Changed(bodies, i, j, v);
      var k := Start(bodies, overlap, i) + j;
      && |Rendered(more, overlap, i + 1)| == |Rendered(bodies, overlap, i + 1)|
      && (at != k ==> Rendered(more, overlap, i + 1)[at] == Rendered(bodies, overlap, i + 1)[at])
      && (at == k && at >= |Rendered(bodies, overlap, i)| ==>
            Rendered(more, overlap, i + 1)[at] == v && Rendered(bodies, overlap, i + 1)[at] == bodies[i][j])
      && (at == k && at < |Rendered(bodies, overlap, i)| ==>
            var c := Rendered(bodies, overlap, i)[at];
            Rendered(more, overlap, i + 1)[at] == Clamp(c + v) &&
            Rendered(bodies, overlap, i + 1)[at] == Clamp(c + bodies[i][j]))
  {
    hide Rendered, Clamp, Pending, Start;
    var more := Changed(bodies, i, j, v);
    SameShape(bodies, i, j, v, overlap, i);
    SameShape(bodies, i, j, v, overlap, i + 1);
    SampleStep(bodies, overlap, i + 1, at);
    SampleStep(more, overlap, i + 1, at);
  }

  /** Two values that a clamped sum tells apart. */
  lemma Distinguish(c: real, x: real) returns (v: real)
    ensures v != x && Clamp(c + v) != Clamp(c + x)
  {
    v := if Clamp(c + x) == 0.5 then -c else 0.5 - c;
  }

  /** The sample's final position holds it, alone or in a clamped sum. */
  lemma HeldAlone(bodies: Bodies, overlap: nat, i: nat, j: nat)
    requires Sample(bodies, i, j)
    requires i + 1 == |bodies| || Start(bodies, overlap, i) + j < Start(bodies, overlap, i + 1)
    ensures Heard(bodies, overlap, i, j)
  {
    hide Rendered, Clamp, Pending, Start;
    var k := Start(bodies, overlap, i) + j;
    Lands(bodies, overlap, i, j);
    var c := if k < |Rendered(bodies, overlap, i)| then Rendered(bodies, overlap, i)[k] else 0.0;
    var v := Distinguish(c, bodies[i][j]);
    OwnBody(bodies, overlap, i, j, v, k);
    if i + 1 < |bodies| {
      SameShape(bodies, i, j, v, overlap, i + 1);
      BeforeStart(bodies, overlap, k, i + 1, |bodies|);
      BeforeStart(Changed(bodies, i, j, v), overlap, k, i + 1, |bodies|);
    }
    assert Rendered(Changed(bodies, i, j, v), overlap, |bodies|) != Rendered(bodies, overlap, |bodies|);
  }

  lemma HeldMixed(bodies: Bodies, overlap: nat, i: nat, j: nat)
    requires Sample(bodies, i, j) && i + 1 < |bodies| && !Dropped(bodies, overlap, i, j)
    requires Start(bodies, overlap, i) + j >= Start(bodies, overlap, i + 1)
    ensures Heard(bodies, overlap, i, j)
  {
    hide Rendered, Clamp, Pending, Start, Dropped;
    var k := Start(bodies, overlap, i) + j;
    Lands(bodies, overlap, i, j);
    BeforeStart(bodies, overlap, k, i + 2, |bodies|);
    SampleStep(bodies, overlap, i + 2, k);
    var c := bodies[i + 1][k - Start(bodies, overlap, i + 1)];
    var v := Distinguish(c, bodies[i][j]);
    var more := Changed(bodies, i, j, v);
    OwnBody(bodies, overlap, i, j, v, k);
    SameShape(bodies, i, j, v, overlap, i + 1);
    SameShape(bodies, i, j, v, overlap, i + 2);
    BeforeStart(more, overlap, k, i + 2, |bodies|);
    SampleStep(more, overlap, i + 2, k);
    assert Rendered(bodies, overlap, i + 2)[k] == Clamp(bodies[i][j] + c);
    assert Rendered(more, overlap, i + 2)[k] == Clamp(v + c);
    assert bodies[i][j] + c == c + bodies[i][j] && v + c == c + v;
    assert Rendered(more, overlap, |bodies|) != Rendered(bodies, overlap, |bodies|);
  }

  lemma JustDropped(bodies: Bodies, overlap: nat, i: nat, j: nat, v: real)
    requires Sample(bodies, i, j) && i + 1 < |bodies| && Dropped(bodies, overlap, i, j)
    ensures Rendered(Changed(bodies, i, j, v), overlap, i + 2) == Rendered(bodies, overlap, i + 2)
  {
    hide Rendered, Clamp, Pending, Start, Dropped;
    var more, n := Changed(bodies, i, j, v), i + 2;
    SameShape(bodies, i, j, v, overlap, n - 1);
    SameShape(bodies, i, j, v, overlap, n);
    Lands(bodies, overlap, i, j);
    forall at | 0 <= at < |Rendered(bodies, overlap, n)|
      ensures Rendered(more, overlap, n)[at] == Rendered(bodies, overlap, n)[at]
    {
      SampleStep(bodies, overlap, n, at);
      SampleStep(more, overlap, n, at);
      if at < |Rendered(bodies, overlap, n - 1)| {
        OwnBody(bodies, overlap, i, j, v, at);
      }
    }
  }

  lemma RenderedNext(bodies: Bodies, overlap: nat, n: nat)
    requires 0 < n <= |bodies|
    ensures Rendered(bodies, overlap, n) ==
            Join(Rendered(bodies, overlap, n - 1), Pending(bodies, overlap, n - 1), bodies[n - 1])
  {
    hide Join;
  }

  lemma {:induction false} DroppedIsLost(bodies: Bodies, overlap: nat, i: nat, j: nat, v: real, n: nat)
    requires Sample(bodies, i, j) && Dropped(bodies, overlap, i, j) && i + 2 <= n <= |bodies|
    ensures Rendered(Changed(bodies, i, j, v), overlap, n) == Rendered(bodies, overlap, n)
    decreases n
  {
    hide Dropped, Join, Rendered, Pending, Start;
    if n > i + 2 {
      SameShape(bodies, i, j, v, overlap, n - 1);
      RenderedNext(bodies, overlap, n);
      RenderedNext(Changed(bodies, i, j, v), overlap, n);
      DroppedIsLost(bodies, overlap, i, j, v, n - 1);
    } else {
      JustDropped(bodies, overlap, i, j, v);
    }
  }

  /** One sample is heard exactly unless it lies in a held-back tail beyond the end of
      the next body. */
  lemma SampleHeardIff(bodies: Bodies, overlap: nat, i: nat, j: nat)
    requires Sample(bodies, i, j)
    ensures Heard(bodies, overlap, i, j) <==> !Dropped(bodies, overlap, i, j)
  {
    hide Rendered, Start, Pending, Dropped;
    if Dropped(bodies, overlap, i, j) {
      DroppedInside(bodies, overlap, i, j);
      forall v
        ensures Rendered(Changed(bodies, i, j, v), overlap, |bodies|) == Rendered(bodies, overlap, |bodies|)
      {
        DroppedIsLost(bodies, overlap, i, j, v, |bodies|);
      }
    } else if i + 1 == |bodies| || Start(bodies, overlap, i) + j < Start(bodies, overlap, i + 1) {
      HeldAlone(bodies, overlap, i, j);
    } else {
      HeldMixed(bodies, overlap, i, j);
    }
  }

  lemma DroppedInside(bodies: Bodies, overlap: nat, i: nat, j: nat)
    requires Sample(bodies, i, j) && Dropped(bodies, overlap, i, j)
    ensures i + 1 < |bodies|
  {
  }

  /** The finished stream carries every sample of every body exactly when no body is
      shorter than the tail pending before it. */
  lemma EverySampleHeardIff(bodies: Bodies, overlap: nat)
    ensures (forall i, j :: Sample(bodies, i, j) ==> Heard(bodies, overlap, i, j)) <==>
            TailsCovered(bodies, overlap, |bodies|)
  {
    hide Rendered, Heard;
    forall i, j | Sample(bodies, i, j)
      ensures Heard(bodies, overlap, i, j) <==> !Dropped(bodies, overlap, i, j)
    {
      SampleHeardIff(bodies, overlap, i, j);
    }
    if !TailsCovered(bodies, overlap, |bodies|) {
      var i :| 0 <= i < |bodies| && Pending(bodies, overlap, i) > |bodies[i]|;
      var j := |bodies[i - 1]| - 1;
      assert Sample(bodies, i - 1, j) && Dropped(bodies, overlap, i - 1, j);
    }
  }

  /** A body shorter than the pending tail drops the rest of that tail: the
      sample `lost` never reaches the stream. */
  lemma ShortBodyDropsTail(lost: real)
    ensures !TailsCovered([[0.0, 0.0, lost], [0.0]], 2, 2)
    ensures Rendered([[0.0, 0.0, lost], [0.0]], 2, 2) == [0.0, 0.0]
  {
    var bodies := [[0.0, 0.0, lost], [0.0]];
    assert Rendered(bodies, 2, 1) == [0.0, 0.0, lost] by {
      assert Rendered(bodies, 2, 0) == [] && Pending(bodies, 2, 0) == 0;
    }
    assert Pending(bodies, 2, 1) == 2;
    assert Rendered(bodies, 2, 2) == Join([0.0, 0.0, lost], 2, [0.0]);
  }
}
