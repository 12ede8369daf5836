/** Conversion between real-valued samples and PCM16. */
module Samples {
  import opened Wire

  /** Round to nearest, ties to even: `std::nearbyint` in the default mode. */
  function RoundHalfEven(x: real): int
  {
    var below := x.Floor;
    var fraction := x - below as real;
    if fraction < 0.5 || (fraction == 0.5 && below % 2 == 0) then below else below + 1
  }

  function Quantise(x: real): int16
  {
    var scaled := RoundHalfEven(x * 32768.0);
    if scaled < -32768 then -32768 else if scaled > 32767 then 32767 else scaled
  }

  function Dequantise(v: int16): real { v as real / 32768.0 }

  function Abs(x: real): real { if x < 0.0 then -x else x }

  function QuantiseAll(samples: seq<real>): (r: seq<int16>)
    ensures |r| == |samples|
  {
    seq(|samples|, i requires 0 <= i < |samples| => Quantise(samples[i]))
  }

  function DequantiseAll(values: seq<int16>): (r: seq<real>)
    ensures |r| == |values|
  {
    seq(|values|, i requires 0 <= i < |values| => Dequantise(values[i]))
  }

  /** No PCM16 level is closer to the sample than the one chosen, and a tie
      between two levels goes to the even one. */
  lemma QuantiseIsNearest(x: real, level: int16)
    ensures Abs(Dequantise(Quantise(x)) - x) <= Abs(Dequantise(level) - x)
    ensures level != Quantise(x) && Abs(Dequantise(level) - x) == Abs(Dequantise(Quantise(x)) - x) ==>
              Quantise(x) % 2 == 0
  {
    var scaled := x * 32768.0;
    var q := Quantise(x);
    assert Abs(q as real - scaled) <= Abs(level as real - scaled);
    assert Dequantise(q) - x == (q as real - scaled) / 32768.0;
    assert Dequantise(level) - x == (level as real - scaled) / 32768.0;
  }

  /** Full-scale input loses at most one step; PCM16 values come back exactly. */
  lemma QuantiseError(x: real)
    requires -1.0 <= x <= 1.0
    ensures Abs(Dequantise(Quantise(x)) - x) <= 1.0 / 32768.0
  {
    var scaled := x * 32768.0;
    assert Abs(Quantise(x) as real - scaled) <= 1.0;
    assert Dequantise(Quantise(x)) - x == (Quantise(x) as real - scaled) / 32768.0;
  }

  lemma QuantiseExact(v: int16)
    ensures Quantise(Dequantise(v)) == v
  {
    assert Dequantise(v) * 32768.0 == v as real;
  }
}
