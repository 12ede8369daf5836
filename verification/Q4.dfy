/** The Q4 test pattern of the GPU probe: eight signed nibbles per word, and the
    reference result the GPU is compared with. */
module Q4 {
  const WIDTH := 2048
  const ROWS := 1024

  /** A word shifted to make nibble `j` the lowest, and back. */
  function ShiftRight(word: bv32, j: nat): bv32
    requires j < 8
  {
    match j
    case 0 => word case 1 => word >> 4 case 2 => word >> 8 case 3 => word >> 12
    case 4 => word >> 16 case 5 => word >> 20 case 6 => word >> 24 case _ => word >> 28
  }

  function ShiftLeft(word: bv32, j: nat): bv32
    requires j < 8
  {
    match j
    case 0 => word case 1 => word << 4 case 2 => word << 8 case 3 => word << 12
    case 4 => word << 16 case 5 => word << 20 case 6 => word << 24 case _ => word << 28
  }

  function Or(a: bv32, b: bv32): bv32 { a | b }

  predicate IsNibble(bits: bv32) { bits & 15 == bits }

  function Nibble(word: bv32, j: nat): bv32
    requires j < 8
  {
    ShiftRight(word, j) & 15
  }

  /** The low four bits of a weight, as a bit pattern: `weight & 15`. */
  function LowBits(weight: int): bv32
    requires -8 <= weight < 8
  {
    (if weight < 0 then weight + 16 else weight) as bv32
  }

  function SignExtend(nibble: bv32): int
  {
    var value := (nibble & 15) as int;
    if value < 8 then value else value - 16
  }

  lemma LowBitsRoundTrip(weight: int)
    requires -8 <= weight < 8
    ensures IsNibble(LowBits(weight))
    ensures SignExtend(LowBits(weight)) == weight
  {
  }

  lemma OrDistributes(a: bv32, b: bv32, k: nat)
    requires k < 8
    ensures Nibble(Or(a, b), k) == Or(Nibble(a, k), Nibble(b, k))
  {
    assert k == 0 || k == 1 || k == 2 || k == 3 || k == 4 || k == 5 || k == 6 || k == 7;
  }

  lemma ShiftedNibble(nibble: bv32, j: nat, k: nat)
    requires j < 8 && k < 8 && IsNibble(nibble)
    ensures Nibble(ShiftLeft(nibble, j), k) == if k == j then nibble else 0
  {
    match j
    case 0 => assert k == 0 || k == 1 || k == 2 || k == 3 || k == 4 || k == 5 || k == 6 || k == 7;
    case 1 => assert k == 0 || k == 1 || k == 2 || k == 3 || k == 4 || k == 5 || k == 6 || k == 7;
    case 2 => assert k == 0 || k == 1 || k == 2 || k == 3 || k == 4 || k == 5 || k == 6 || k == 7;
    case 3 => assert k == 0 || k == 1 || k == 2 || k == 3 || k == 4 || k == 5 || k == 6 || k == 7;
    case 4 => assert k == 0 || k == 1 || k == 2 || k == 3 || k == 4 || k == 5 || k == 6 || k == 7;
    case 5 => assert k == 0 || k == 1 || k == 2 || k == 3 || k == 4 || k == 5 || k == 6 || k == 7;
    case 6 => assert k == 0 || k == 1 || k == 2 || k == 3 || k == 4 || k == 5 || k == 6 || k == 7;
    case _ => assert k == 0 || k == 1 || k == 2 || k == 3 || k == 4 || k == 5 || k == 6 || k == 7;
  }

  /** Writing one empty nibble sets it and leaves the other seven alone. */
  lemma OrSetsNibble(word: bv32, nibble: bv32, j: nat, k: nat)
    requires j < 8 && k < 8 && IsNibble(nibble)
    requires Nibble(word, j) == 0
    ensures Nibble(Or(word, ShiftLeft(nibble, j)), k) == if k == j then nibble else Nibble(word, k)
  {
    hide Nibble, ShiftLeft, Or, IsNibble;
    OrDistributes(word, ShiftLeft(nibble, j), k);
    ShiftedNibble(nibble, j, k);
    OrZero(Nibble(word, k));
    OrZero(nibble);
  }

  lemma OrZero(a: bv32)
    ensures Or(a, 0) == a && Or(0, a) == a
  {
  }

  function Weight(row: nat, channel: nat): (w: int)
    ensures -8 <= w < 8
  {
    (row * 17 + channel * 5) % 16 - 8
  }

  /** The nibble of `packed` that belongs to a row and channel. */
  function WeightBits(packed: seq<bv32>, row: nat, channel: nat): bv32
    requires |packed| == WIDTH * ROWS / 8 && row < ROWS && channel < WIDTH
  {
    var offset := row * WIDTH + channel;
    Nibble(packed[offset / 8], offset % 8)
  }

  function LinearBits(packed: seq<bv32>, offset: nat): bv32
    requires |packed| == WIDTH * ROWS / 8 && offset < WIDTH * ROWS
  {
    Nibble(packed[offset / 8], offset % 8)
  }

  function LinearWeight(offset: nat): (w: int)
    ensures -8 <= w < 8
  {
    Weight(offset / WIDTH, offset % WIDTH)
  }

  /** The first `done` nibbles hold their weights, the others are still zero. */
  ghost predicate PackedUpTo(packed: seq<bv32>, done: nat)
    requires |packed| == WIDTH * ROWS / 8 && done <= WIDTH * ROWS
  {
    forall offset :: 0 <= offset < WIDTH * ROWS ==>
      LinearBits(packed, offset) == if offset < done then LowBits(LinearWeight(offset)) else 0
  }

  lemma WordOf(offset: nat, other: nat)
    ensures offset / 8 == other / 8 && offset % 8 == other % 8 ==> offset == other
  {
  }

  /** One step of the packing loop. */
  lemma PackStep(packed: seq<bv32>, offset: nat, word: bv32)
    requires |packed| == WIDTH * ROWS / 8 && offset < WIDTH * ROWS
    requires PackedUpTo(packed, offset)
    requires word == Or(packed[offset / 8], ShiftLeft(LowBits(LinearWeight(offset)), offset % 8))
    ensures PackedUpTo(packed[offset / 8 := word], offset + 1)
  {
    hide Nibble, ShiftLeft, Or, IsNibble, LowBits, LinearWeight;
    var next := packed[offset / 8 := word];
    assert LinearBits(packed, offset) == 0;
    LowBitsRoundTrip(LinearWeight(offset));
    forall o | 0 <= o < WIDTH * ROWS
      ensures LinearBits(next, o) == if o < offset + 1 then LowBits(LinearWeight(o)) else 0
    {
      assert LinearBits(packed, o) == if o < offset then LowBits(LinearWeight(o)) else 0;
      if o / 8 == offset / 8 {
        OrSetsNibble(packed[offset / 8], LowBits(LinearWeight(offset)), offset % 8, o % 8);
        WordOf(o, offset);
      }
    }
  }

  lemma OffsetOf(row: nat, channel: nat)
    requires channel < WIDTH
    ensures (row * WIDTH + channel) / WIDTH == row && (row * WIDTH + channel) % WIDTH == channel
  {
  }

  // ------------------------------------------------------- the exact reference

  /** The activation of a channel, in units of 1/16. */
  function Activation(channel: nat): (a: int)
    ensures -15 <= a <= 15
  {
    channel % 31 - 15
  }

  /** One product, in units of 1/512: activation/16 * weight * 1/32. */
  function Product(row: nat, channel: nat): (p: int)
    ensures -120 <= p <= 120
  {
    ProductBound(Activation(channel), Weight(row, channel));
    Activation(channel) * Weight(row, channel)
  }

  lemma ProductBound(a: int, w: int)
    requires -15 <= a <= 15 && -8 <= w < 8
    ensures -120 <= a * w <= 120
  {
    match w
    case -8 => case -7 => case -6 => case -5 => case -4 => case -3 => case -2 => case -1 =>
    case 0 => case 1 => case 2 => case 3 => case 4 => case 5 => case 6 => case _ =>
  }

  /** The exact sum over the first `n` channels, in units of 1/512. */
  function DotUnits(row: nat, n: nat): (d: int)
    ensures -120 * n <= d <= 120 * n
  {
    if n == 0 then 0 else DotUnits(row, n - 1) + Product(row, n - 1)
  }

  function Units(n: int): real { n as real / 512.0 }

  /** A rounding that leaves every multiple of 2^-9 alone whose numerator fits
      into 24 bits, as binary32 does. */
  ghost predicate FixesExactValues(round: real -> real)
  {
    forall n: int :: -0x100_0000 < n < 0x100_0000 ==> round(Units(n)) == Units(n)
  }

  /** `activation[channel] * weight * scales[row]`, rounded after each product. */
  function RoundedProduct(round: real -> real, row: nat, channel: nat): real
  {
    RoundedTerm(round, Activation(channel), Weight(row, channel))
  }

  function RoundedTerm(round: real -> real, a: int, w: int): real
  {
    round(round(a as real * 0.0625 * w as real) * 0.03125)
  }

  lemma RoundFixes(round: real -> real, n: int)
    requires FixesExactValues(round) && -0x100_0000 < n < 0x100_0000
    ensures round(Units(n)) == Units(n)
  {
  }

  lemma Regroup(x: real, y: real)
    ensures x * 0.0625 * y == 0.0625 * (x * y)
  {
  }

  lemma InUnits(a: int, w: int, p: int)
    requires p == a * w
    ensures a as real * 0.0625 * w as real == Units(32 * p) && Units(32 * p) * 0.03125 == Units(p)
  {
    assert p as real == a as real * w as real;
    Regroup(a as real, w as real);
    InUnitsOf(p);
  }

  lemma InUnitsOf(p: int)
    ensures 0.0625 * p as real == Units(32 * p) && Units(32 * p) * 0.03125 == Units(p)
  {
    var y := p as real;
    assert (32 * p) as real == 32.0 * y;
    Scaled(y);
  }

  lemma Scaled(y: real)
    ensures 0.0625 * y == 32.0 * y / 512.0 && 32.0 * y / 512.0 * 0.03125 == y / 512.0
  {
  }

  lemma TermExact(round: real -> real, a: int, w: int, p: int)
    requires FixesExactValues(round) && p == a * w && -120 <= p <= 120
    ensures RoundedTerm(round, a, w) == Units(p)
  {
    hide FixesExactValues, Units;
    InUnits(a, w, p);
    RoundFixes(round, 32 * p);
    RoundFixes(round, p);
  }

  lemma ProductExact(round: real -> real, row: nat, channel: nat)
    requires FixesExactValues(round)
    ensures RoundedProduct(round, row, channel) == Units(Product(row, channel))
  {
    hide FixesExactValues, Units, Activation, Weight, RoundedTerm;
    TermExact(round, Activation(channel), Weight(row, channel), Product(row, channel));
  }

  lemma SumExact(round: real -> real, sum: int, product: int)
    requires FixesExactValues(round)
    requires -120 * WIDTH <= sum <= 120 * WIDTH && -120 * WIDTH <= sum + product <= 120 * WIDTH
    ensures round(Units(sum) + Units(product)) == Units(sum + product)
  {
    hide FixesExactValues;
    assert Units(sum) + Units(product) == Units(sum + product);
    RoundFixes(round, sum + product);
  }

  lemma NothingSummed(row: nat)
    ensures Units(DotUnits(row, 0)) == 0.0
  {
  }

  lemma EmptyWords(packed: seq<bv32>)
    requires |packed| == WIDTH * ROWS / 8 && forall k :: 0 <= k < |packed| ==> packed[k] == 0
    ensures PackedUpTo(packed, 0)
  {
    forall offset | 0 <= offset < WIDTH * ROWS
      ensures LinearBits(packed, offset) == 0
    {
      var j := offset % 8;
      assert j == 0 || j == 1 || j == 2 || j == 3 || j == 4 || j == 5 || j == 6 || j == 7;
    }
  }

  lemma AllWeights(packed: seq<bv32>)
    requires |packed| == WIDTH * ROWS / 8 && PackedUpTo(packed, WIDTH * ROWS)
    ensures forall row, channel :: 0 <= row < ROWS && 0 <= channel < WIDTH ==>
              SignExtend(WeightBits(packed, row, channel)) == Weight(row, channel)
  {
    hide Nibble, LowBits, SignExtend, Weight, IsNibble;
    forall row, channel | 0 <= row < ROWS && 0 <= channel < WIDTH
      ensures SignExtend(WeightBits(packed, row, channel)) == Weight(row, channel)
    {
      var offset := row * WIDTH + channel;
      OffsetOf(row, channel);
      assert LinearBits(packed, offset) == LowBits(LinearWeight(offset));
      LowBitsRoundTrip(Weight(row, channel));
    }
  }

  /** The inner loop of the probe: the weights and the reference of one row. */
  method PackRow(packed: array<bv32>, round: real -> real, row: nat) returns (expected: real)
    requires packed.Length == WIDTH * ROWS / 8 && row < ROWS
    requires PackedUpTo(packed[..], row * WIDTH)
    requires FixesExactValues(round)
    modifies packed
    ensures PackedUpTo(packed[..], (row + 1) * WIDTH)
    ensures expected == Units(DotUnits(row, WIDTH))
  {
    hide Nibble, ShiftLeft, Or, IsNibble, LowBits, RoundedProduct, Units, PackedUpTo, Weight, FixesExactValues;
    expected := 0.0;
    NothingSummed(row);
    for channel := 0 to WIDTH
      invariant PackedUpTo(packed[..], row * WIDTH + channel)
      invariant expected == Units(DotUnits(row, channel))
    {
      var weight := Weight(row, channel);
      var offset := row * WIDTH + channel;
      OffsetOf(row, channel);
      ghost var before := packed[..];
      packed[offset / 8] := Or(packed[offset / 8], ShiftLeft(LowBits(weight), offset % 8));
      PackStep(before, offset, packed[offset / 8]);
      assert packed[..] == before[offset / 8 := packed[offset / 8]];
      expected := round(expected + RoundedProduct(round, row, channel));
      ProductExact(round, row, channel);
      SumExact(round, DotUnits(row, channel), Product(row, channel));
    }
  }

  /** The packing and reference loop of the probe. Every nibble, sign-extended, is
      its weight, and no accumulation rounds. */
  method PackAndReference(packed: array<bv32>, expected: array<real>, round: real -> real)
    requires packed.Length == WIDTH * ROWS / 8 && expected.Length == ROWS
    requires FixesExactValues(round)
    modifies packed, expected
    ensures forall row, channel :: 0 <= row < ROWS && 0 <= channel < WIDTH ==>
              SignExtend(WeightBits(packed[..], row, channel)) == Weight(row, channel)
    ensures forall row :: 0 <= row < ROWS ==> expected[row] == Units(DotUnits(row, WIDTH))
  {
    hide Nibble, Units, PackedUpTo, SignExtend, WeightBits, Weight, DotUnits, FixesExactValues;
    for word := 0 to packed.Length
      invariant forall k :: 0 <= k < word ==> packed[k] == 0
    {
      packed[word] := 0;
    }
    EmptyWords(packed[..]);
    for row := 0 to ROWS
      invariant PackedUpTo(packed[..], row * WIDTH)
      invariant forall r :: 0 <= r < row ==> expected[r] == Units(DotUnits(r, WIDTH))
    {
      var sum := PackRow(packed, round, row);
      ghost var words := packed[..];
      expected[row] := sum;
      assert packed[..] == words;
    }
    AllWeights(packed[..]);
  }

  // ---------------------------------------------------------------- any order

  /** The exact sum of the products of the listed channels. */
  function SumOf(row: nat, order: seq<nat>): (d: int)
    ensures -120 * |order| <= d <= 120 * |order|
  {
    if order == [] then 0 else SumOf(row, order[..|order| - 1]) + Product(row, order[|order| - 1])
  }

  /** One way to order and group the additions of a row: running sums, partial
      sums of partial sums, or any mixture. */
  datatype Addition = Nothing | One(channel: nat) | Plus(left: Addition, right: Addition)

  /** The channels added, from left to right. */
  function Leaves(a: Addition): seq<nat>
  {
    match a
    case Nothing => []
    case One(channel) => [channel]
    case Plus(left, right) => Leaves(left) + Leaves(right)
  }

  /** The value computed, with every product and every addition rounded. */
  function Computed(round: real -> real, row: nat, a: Addition): real
  {
    match a
    case Nothing => 0.0
    case One(channel) => RoundedProduct(round, row, channel)
    case Plus(left, right) => round(Computed(round, row, left) + Computed(round, row, right))
  }

  lemma {:induction false} SumOfAppend(row: nat, a: seq<nat>, b: seq<nat>)
    ensures SumOf(row, a + b) == SumOf(row, a) + SumOf(row, b)
    decreases |b|
  {
    hide Product;
    if b == [] {
      assert a + b == a;
    } else {
      assert (a + b)[..|a + b| - 1] == a + b[..|b| - 1];
      SumOfAppend(row, a, b[..|b| - 1]);
    }
  }

  /** Every partial sum on the way is exact. */
  lemma {:induction false} ComputedExact(round: real -> real, row: nat, a: Addition)
    requires FixesExactValues(round) && |Leaves(a)| <= WIDTH
    ensures Computed(round, row, a) == Units(SumOf(row, Leaves(a)))
  {
    hide FixesExactValues, RoundedProduct, Product;
    match a
    case Nothing =>
    case One(channel) =>
      ProductExact(round, row, channel);
      assert [channel][..0] == [] && SumOf(row, []) == 0;
    case Plus(left, right) =>
      ComputedExact(round, row, left);
      ComputedExact(round, row, right);
      SumOfAppend(row, Leaves(left), Leaves(right));
      SumExact(round, SumOf(row, Leaves(left)), SumOf(row, Leaves(right)));
  }

  lemma {:induction false} TakeOut(row: nat, order: seq<nat>, i: nat)
    requires i < |order|
    ensures SumOf(row, order) == SumOf(row, order[..i] + order[i + 1..]) + Product(row, order[i])
  {
    var front, last := order[..|order| - 1], order[|order| - 1];
    var without := order[..i] + order[i + 1..];
    if i == |order| - 1 {
      assert without == front;
    } else {
      TakeOut(row, front, i);
      assert without[..|without| - 1] == front[..i] + front[i + 1..];
      assert without[|without| - 1] == last;
    }
  }

  function Channels(n: nat): seq<nat>
  {
    if n == 0 then [] else Channels(n - 1) + [n - 1]
  }

  lemma TakeOutMultiset(order: seq<nat>, i: nat)
    requires i < |order|
    ensures multiset(order[..i] + order[i + 1..]) == multiset(order)[order[i] := multiset(order)[order[i]] - 1]
  {
    assert order == order[..i] + [order[i]] + order[i + 1..];
  }

  lemma {:induction false} ChannelsAre(n: nat)
    ensures |Channels(n)| == n
    ensures forall c: nat :: multiset(Channels(n))[c] == if c < n then 1 else 0
  {
    if n > 0 {
      ChannelsAre(n - 1);
    }
  }

  lemma {:induction false} SameChannelsSameSum(row: nat, order: seq<nat>, n: nat)
    requires multiset(order) == multiset(Channels(n))
    ensures |order| == n && SumOf(row, order) == DotUnits(row, n)
  {
    hide Product, Channels;
    ChannelsAre(n);
    assert |order| == |multiset(order)| == |multiset(Channels(n))| == |Channels(n)|;
    if n > 0 {
      ChannelsAre(n - 1);
      var i := IndexOf(order, n - 1);
      var without := order[..i] + order[i + 1..];
      TakeOutMultiset(order, i);
      assert multiset(without) == multiset(Channels(n - 1));
      SameChannelsSameSum(row, without, n - 1);
      TakeOut(row, order, i);
    } else {
      assert order == [];
    }
  }

  lemma IndexOf(order: seq<nat>, c: nat) returns (i: nat)
    requires multiset(order)[c] > 0
    ensures i < |order| && order[i] == c
  {
    assert c in multiset(order);
    assert c in order;
    i :| 0 <= i < |order| && order[i] == c;
  }

  /** However the GPU orders and groups the additions of a row, rounding after each
      one gives exactly the reference value. */
  lemma AnyOrderGivesReference(round: real -> real, row: nat, a: Addition)
    requires FixesExactValues(round)
    requires multiset(Leaves(a)) == multiset(Channels(WIDTH))
    ensures Computed(round, row, a) == Units(DotUnits(row, WIDTH))
  {
    SameChannelsSameSum(row, Leaves(a), WIDTH);
    ComputedExact(round, row, a);
  }
}
