/** Regrouping bits for bech32 (`convert_bits` in sorting.rs; section "Segwit address format" of BIP-173). */
module BitRegroup {
  import opened Prelude

  function Pow2(n: nat): nat {
    if n == 0 then 1 else 2 * Pow2(n - 1)
  }

  /** `x << n` before truncation, `x >> n`, and `x & (2^n - 1)`, a bit at a time. */
  function Shl(x: nat, n: nat): nat {
    if n == 0 then x else 2 * Shl(x, n - 1)
  }

  function Shr(x: nat, n: nat): nat {
    if n == 0 then x else Shr(x / 2, n - 1)
  }

  function Low(x: nat, n: nat): nat {
    if n == 0 then 0 else 2 * Low(x / 2, n - 1) + x % 2
  }

  /** The low `w` bits of `x`, most significant first. */
  function Bits(x: nat, w: nat): (r: seq<bool>)
    ensures |r| == w
  {
    if w == 0 then [] else Bits(x / 2, w - 1) + [x % 2 == 1]
  }

  /** The concatenated bits of a list of `w`-bit groups. */
  function BitString(data: seq<nat>, w: nat): seq<bool> {
    if data == [] then [] else BitString(data[..|data| - 1], w) + Bits(data[|data| - 1], w)
  }

  lemma {:induction false} BitStringLength(data: seq<nat>, w: nat)
    ensures |BitString(data, w)| == |data| * w
  {
    if data != [] {
      BitStringLength(data[..|data| - 1], w);
      assert |data| * w == (|data| - 1) * w + w;
    }
  }

  predicate Fits(data: seq<nat>, w: nat) {
    forall i :: 0 <= i < |data| ==> data[i] < Pow2(w)
  }

  /** The bits that do not fill a last group. */
  function Leftover(data: seq<nat>, from: nat, to: nat): (rest: seq<bool>)
    requires to > 0
    ensures |rest| < to
  {
    var bits := BitString(data, from);
    bits[|bits| - |bits| % to..]
  }

  /** What regrouping means, without mention of an accumulator: the same bits in groups of `to`, the last one padded
      with zeros or, without padding, its bits required to be fewer than a source group and all zero. */
  ghost predicate Regrouped(data: seq<nat>, from: nat, to: nat, pad: bool, r: Option<seq<nat>>)
    requires from > 0 && to > 0
  {
    var bits, rest := BitString(data, from), Leftover(data, from, to);
    && (r.Some? <==> Fits(data, from) && (pad || (|rest| < from && rest == Falses(|rest|))))
    && (r.Some? ==> Fits(r.value, to))
    && (r.Some? && pad ==> BitString(r.value, to) == bits + Falses(if rest == [] then 0 else to - |rest|))
    && (r.Some? && !pad ==> BitString(r.value, to) + rest == bits)
  }

  // ----- bits and arithmetic -----

  lemma {:induction false} LowFits(x: nat, n: nat)
    ensures Low(x, n) < Pow2(n)
  {
    if n > 0 { LowFits(x / 2, n - 1); }
  }

  lemma SplitStep(x: nat, m: nat, n: nat)
    requires n > 0 && Bits(x / 2, m + n - 1) == Bits(Shr(x / 2, n - 1), m) + Bits(x / 2, n - 1)
    ensures Bits(x, m + n) == Bits(Shr(x, n), m) + Bits(x, n)
  {
    assert Bits(x, m + n) == Bits(x / 2, m + n - 1) + [x % 2 == 1];
    assert Bits(x, n) == Bits(x / 2, n - 1) + [x % 2 == 1];
  }

  lemma {:induction false} SplitBits(x: nat, m: nat, n: nat)
    ensures Bits(x, m + n) == Bits(Shr(x, n), m) + Bits(x, n)
    decreases n
  {
    if n > 0 {
      SplitBits(x / 2, m, n - 1);
      SplitStep(x, m, n);
    }
  }

  lemma {:induction false} BitsOfLow(x: nat, w: nat, k: nat)
    requires w <= k
    ensures Bits(Low(x, k), w) == Bits(x, w)
    decreases w
  {
    if w > 0 { BitsOfLow(x / 2, w - 1, k - 1); }
  }

  lemma {:induction false} ShiftedBits(x: nat, v: nat, m: nat, n: nat)
    requires v < Pow2(n)
    ensures Bits(Shl(x, n) + v, m + n) == Bits(x, m) + Bits(v, n)
    decreases n
  {
    if n > 0 { ShiftedBits(x, v / 2, m, n - 1); }
  }

  lemma {:induction false} ZeroBits(w: nat)
    ensures Bits(0, w) == Falses(w)
  {
    if w > 0 { ZeroBits(w - 1); }
  }

  lemma {:induction false} BitsInjective(x: nat, y: nat, w: nat)
    requires x < Pow2(w) && y < Pow2(w) && Bits(x, w) == Bits(y, w)
    ensures x == y
  {
    if w > 0 {
      var a, b := Bits(x / 2, w - 1), Bits(y / 2, w - 1);
      assert (a + [x % 2 == 1])[..w - 1] == a && (b + [y % 2 == 1])[..w - 1] == b;
      assert Bits(x, w)[w - 1] == (x % 2 == 1) && Bits(y, w)[w - 1] == (y % 2 == 1);
      BitsInjective(x / 2, y / 2, w - 1);
    }
  }

  lemma SplitAt(s: seq<bool>, x: seq<bool>, t: seq<bool>, y: seq<bool>)
    requires |s| == |t| && s + x == t + y
    ensures s == t && x == y
  {
    assert s == (s + x)[..|s|] && t == (t + y)[..|t|];
    assert x == (s + x)[|s|..] && y == (t + y)[|t|..];
  }

  lemma SameLength(a: seq<nat>, b: seq<nat>, w: nat)
    requires |a| == |b|
    ensures |BitString(a, w)| == |BitString(b, w)|
  {
    BitStringLength(a, w);
    BitStringLength(b, w);
  }

  lemma LastBits(a: seq<nat>, w: nat)
    requires a != []
    ensures BitString(a, w) == BitString(a[..|a| - 1], w) + Bits(a[|a| - 1], w)
  {
  }

  lemma {:induction false} BitStringInjective(a: seq<nat>, b: seq<nat>, w: nat)
    requires w > 0 && Fits(a, w) && Fits(b, w) && |a| == |b| && BitString(a, w) == BitString(b, w)
    ensures a == b
  {
    hide Bits, Pow2, BitString;
    if a != [] {
      var n := |a| - 1;
      var s, t := BitString(a[..n], w), BitString(b[..n], w);
      LastBits(a, w);
      LastBits(b, w);
      SameLength(a[..n], b[..n], w);
      SplitAt(s, Bits(a[n], w), t, Bits(b[n], w));
      BitStringInjective(a[..n], b[..n], w);
      BitsInjective(a[n], b[n], w);
      assert a == a[..n] + [a[n]] && b == b[..n] + [b[n]];
    }
  }

  lemma AppendBits(out: seq<nat>, g: nat, w: nat)
    ensures BitString(out + [g], w) == BitString(out, w) + Bits(g, w)
  {
    assert (out + [g])[..|out|] == out;
  }

  // ----- convert_bits -----

  /** `acc << from | value` on a 32-bit accumulator (the operands share no bit, so `|` adds): high bits fall off, the
      low `bits + from` are what they should be. */
  lemma AccumulatorKeeps(acc: nat, value: nat, bits: nat, from: nat)
    requires value < Pow2(from) && bits + from <= 32
    ensures Bits(Low(Shl(acc, from) + value, 32), bits + from) == Bits(acc, bits) + Bits(value, from)
  {
    BitsOfLow(Shl(acc, from) + value, bits + from, 32);
    ShiftedBits(acc, value, bits, from);
  }

  /** One group leaves the accumulator. */
  lemma GroupLeaves(acc: nat, bits: nat, to: nat)
    ensures Bits(acc, to + bits) == Bits(Low(Shr(acc, bits), to), to) + Bits(acc, bits)
    ensures Low(Shr(acc, bits), to) < Pow2(to)
  {
    SplitBits(acc, to, bits);
    BitsOfLow(Shr(acc, bits), to, to);
    LowFits(Shr(acc, bits), to);
  }

  function LastGroup(acc: nat, bits: nat, to: nat): nat
    requires bits <= to
  {
    Low(Low(Shl(acc, to - bits), 32), to)
  }

  /** The last group: the leftover bits and then zeros. */
  lemma LastGroupBits(acc: nat, bits: nat, to: nat)
    requires bits < to <= 32
    ensures var g := LastGroup(acc, bits, to);
            && g < Pow2(to)
            && Bits(g, to) == Bits(acc, bits) + Falses(to - bits)
            && (g == 0 <==> Bits(acc, bits) == Falses(bits))
  {
    var y, g := Shl(acc, to - bits), LastGroup(acc, bits, to);
    BitsOfLow(Low(y, 32), to, to);
    BitsOfLow(y, to, 32);
    LowFits(Low(y, 32), to);
    PowPositive(to - bits);
    PowPositive(to);
    ShiftedBits(acc, 0, bits, to - bits);
    ZeroBits(to - bits);
    ZeroBits(to);
    assert Falses(to) == Falses(bits) + Falses(to - bits);
    assert (Bits(acc, bits) + Falses(to - bits))[..bits] == Bits(acc, bits) && Falses(to)[..bits] == Falses(bits);
    if Bits(acc, bits) == Falses(bits) {
      BitsInjective(g, 0, to);
    }
  }

  lemma {:induction false} PowPositive(n: nat)
    ensures Pow2(n) > 0
  {
    if n > 0 { PowPositive(n - 1); }
  }

  lemma RemainderIs(total: nat, to: nat, k: nat, rest: nat)
    requires to > 0 && rest < to && total == to * k + rest
    ensures total % to == rest
  {
    var d := k - total / to;
    assert to * d == total % to - rest;
    MultipleIsFar(to, d);
  }

  lemma LeftoverIs(data: seq<nat>, from: nat, to: nat, front: seq<nat>, rest: seq<bool>)
    requires to > 0 && BitString(data, from) == BitString(front, to) + rest && |rest| < to
    ensures Leftover(data, from, to) == rest
  {
    BitStringLength(front, to);
    RemainderOfLength(BitString(front, to), rest, to, |front|);
    hide BitString;
    var all := BitString(front, to) + rest;
    assert all[|all| - |rest|..] == rest;
  }

  lemma RemainderOfLength(front: seq<bool>, rest: seq<bool>, to: nat, k: nat)
    requires to > 0 && |front| == k * to && |rest| < to
    ensures |front + rest| % to == |rest|
  {
    RemainderIs(|front + rest|, to, k, |rest|);
  }

  lemma NoBits(from: nat, to: nat)
    ensures BitString([], from) == [] && BitString([], to) == [] && Bits(0, 0) == []
  {
  }

  /** One value enters the accumulator. */
  lemma TakeIn(data: seq<nat>, i: nat, from: nat, out: seq<bool>, acc: nat, bits: nat)
    requires i < |data| && Fits(data[..i], from) && data[i] < Pow2(from) && bits + from <= 32
    requires BitString(data[..i], from) == out + Bits(acc, bits)
    ensures Fits(data[..i + 1], from)
    ensures BitString(data[..i + 1], from) == out + Bits(Low(Shl(acc, from) + data[i], 32), bits + from)
  {
    hide Pow2, Bits, Low, Shl, BitString;
    AccumulatorKeeps(acc, data[i], bits, from);
    assert data[..i + 1] == data[..i] + [data[i]];
    AppendBits(data[..i], data[i], from);
  }

  method Collect(data: seq<nat>, from: nat, to: nat) returns (fits: bool, acc: nat, bits: nat, result: seq<nat>)
    requires 1 <= from && 1 <= to <= 8 && from + to <= 33
    ensures fits <==> Fits(data, from)
    ensures fits ==> bits < to && Fits(result, to) && BitString(data, from) == BitString(result, to) + Bits(acc, bits)
  {
    hide Pow2, Bits, Low, Shl, BitString;
    fits, acc, bits, result := true, 0, 0, [];
    NoBits(from, to);
    for i := 0 to |data|
      invariant bits < to && Fits(data[..i], from) && Fits(result, to)
      invariant BitString(data[..i], from) == BitString(result, to) + Bits(acc, bits)
    {
      if data[i] >= Pow2(from) {
        return false, acc, bits, result;
      }
      TakeIn(data, i, from, BitString(result, to), acc, bits);
      acc := Low(Shl(acc, from) + data[i], 32);
      bits := bits + from;
      acc, bits, result := Drain(acc, bits, to, result);
    }
    assert data[..|data|] == data;
  }

  /** `convert_bits`. */
  method ConvertBits(data: seq<nat>, from: nat, to: nat, pad: bool) returns (r: Option<seq<nat>>)
    requires 1 <= from && 1 <= to <= 8 && from + to <= 33
    ensures Regrouped(data, from, to, pad, r)
  {
    hide Pow2, Bits, Low, Shl;
    var fits, acc, bits, result := Collect(data, from, to);
    if !fits {
      return None;
    }
    LeftoverIs(data, from, to, result, Bits(acc, bits));
    LastGroupBits(acc, bits, to);
    hide BitString, Leftover;
    var last := LastGroup(acc, bits, to);
    if pad {
      if bits > 0 {
        AppendBits(result, last, to);
        result := result + [last];
      }
    } else if bits >= from || last != 0 {
      return None;
    }
    r := Some(result);
  }

  /** The inner loop: move whole groups out of the accumulator. */
  method Drain(acc0: nat, bits0: nat, to: nat, result0: seq<nat>) returns (acc: nat, bits: nat, result: seq<nat>)
    requires to > 0 && Fits(result0, to)
    ensures bits < to && Fits(result, to)
    ensures BitString(result, to) + Bits(acc, bits) == BitString(result0, to) + Bits(acc0, bits0)
  {
    hide Bits, BitString, Low, Shr, Pow2;
    acc, bits, result := acc0, bits0, result0;
    while bits >= to
      invariant Fits(result, to)
      invariant BitString(result, to) + Bits(acc, bits) == BitString(result0, to) + Bits(acc0, bits0)
    {
      MoveGroup(result, acc, bits - to, to);
      GroupLeaves(acc, bits - to, to);
      bits := bits - to;
      result := result + [Low(Shr(acc, bits), to)];
    }
  }

  lemma MoveGroup(result: seq<nat>, acc: nat, bits: nat, to: nat)
    ensures BitString(result + [Low(Shr(acc, bits), to)], to) + Bits(acc, bits)
            == BitString(result, to) + Bits(acc, bits + to)
  {
    hide Bits, BitString, Low, Shr;
    GroupLeaves(acc, bits, to);
    AppendBits(result, Low(Shr(acc, bits), to), to);
  }

  /** For every byte string, regrouping 8 to 5 with padding succeeds, and 5 to 8 without padding gives it back. */
  lemma RoundTrip(data: seq<nat>, mid: Option<seq<nat>>, back: Option<seq<nat>>)
    requires Fits(data, 8) && Regrouped(data, 8, 5, true, mid)
    requires mid.Some? ==> Regrouped(mid.value, 5, 8, false, back)
    ensures mid.Some? && back == Some(data)
  {
    var m := mid.value;
    var rest := Leftover(data, 8, 5);
    var p := if rest == [] then 0 else 5 - |rest|;
    assert BitString(m, 5) == BitString(data, 8) + Falses(p);
    LeftoverIs(m, 5, 8, data, Falses(p));
    BitStringLength(data, 8);
    BitStringLength(back.value, 8);
    assert back.Some?;
    assert (BitString(back.value, 8) + Falses(p))[..|BitString(back.value, 8)|] == BitString(back.value, 8);
    assert (BitString(data, 8) + Falses(p))[..|data| * 8] == BitString(data, 8);
    BitStringInjective(back.value, data, 8);
  }
}
