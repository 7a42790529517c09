/** Base58Check decoding (`base58check_decode` in sorting.rs) with the checksum hash abstract. */
module Base58 {
  import opened Prelude

  const ALPHABET := "1" + "23456789ABCDEFGHJKLMNPQRSTUVWXYZabcdefghijkmnopqrstuvwxyz"

  function Position(s: string, c: char, i: nat): Option<nat>
    requires i <= |s|
    decreases |s| - i
  {
    if i == |s| then None else if s[i] == c then Some(i) else Position(s, c, i + 1)
  }

  function DigitOf(c: char): (r: Option<nat>)
    ensures r.Some? ==> r.value < 58 && ALPHABET[r.value] == c
    ensures r.None? ==> c !in ALPHABET
  {
    PositionFinds(ALPHABET, c, 0);
    Position(ALPHABET, c, 0)
  }

  lemma {:induction false} PositionFinds(s: string, c: char, i: nat)
    requires i <= |s|
    ensures Position(s, c, i).Some? ==> i <= Position(s, c, i).value < |s| && s[Position(s, c, i).value] == c
    ensures Position(s, c, i).None? ==> c !in s[i..]
    decreases |s| - i
  {
    if i < |s| {
      PositionFinds(s, c, i + 1);
      assert s[i..] == [s[i]] + s[i + 1..];
    }
  }

  predicate Valid58(s: string) {
    forall i :: 0 <= i < |s| ==> DigitOf(s[i]).Some?
  }

  function Digits(s: string): seq<nat>
    requires Valid58(s)
  {
    seq(|s|, i requires 0 <= i < |s| => DigitOf(s[i]).value)
  }

  /** The number a list of digits denotes, most significant first. */
  function Number(base: nat, digits: seq<nat>): nat {
    if digits == [] then 0 else Number(base, digits[..|digits| - 1]) * base + digits[|digits| - 1]
  }

  function LeadingZeros(digits: seq<nat>): nat {
    if digits == [] || digits[0] != 0 then 0 else 1 + LeadingZeros(digits[1..])
  }

  predicate Below(base: nat, digits: seq<nat>) {
    forall i :: 0 <= i < |digits| ==> digits[i] < base
  }

  /** What the decoded bytes are: the same number in base 256, with a zero byte for each leading '1'. */
  ghost predicate Decodes(s: string, bytes: seq<nat>) {
    && Valid58(s) && Below(256, bytes)
    && Number(256, bytes) == Number(58, Digits(s))
    && LeadingZeros(bytes) == LeadingZeros(Digits(s))
  }

  // ----- multiply by 58 and add, in place -----

  /** The bytes after the carry has run from right to left, and the carry that is left. */
  function MulAdd(num: seq<nat>, carry: nat): (seq<nat>, nat) {
    if num == [] then ([], carry)
    else
      var val := num[|num| - 1] * 58 + carry;
      var (high, c) := MulAdd(num[..|num| - 1], val / 256);
      (high + [val % 256], c)
  }

  /** The carry stays a base-58 digit, and counted as a leading digit the result is 58 * num + carry. */
  lemma {:induction false} MulAddNumber(num: seq<nat>, carry: nat)
    requires Below(256, num) && carry <= 57
    ensures var (out, c) := MulAdd(num, carry);
            && |out| == |num| && Below(256, out) && c <= 57
            && Number(256, [c] + out) == Number(256, num) * 58 + carry
  {
    if num == [] {
      assert ([carry] + [])[..0] == [];
    } else {
      var n := |num| - 1;
      var val := num[n] * 58 + carry;
      MulAddNumber(num[..n], val / 256);
      var (high, c) := MulAdd(num[..n], val / 256);
      var all := [c] + (high + [val % 256]);
      assert all[..|all| - 1] == [c] + high;
    }
  }

  method MultiplyAdd(num0: seq<nat>, digit: nat) returns (num: seq<nat>, carry: nat)
    ensures num == MulAdd(num0, digit).0 && carry == MulAdd(num0, digit).1
  {
    num, carry := num0, digit;
    assert num0[..|num0|] == num0 && num0[|num0|..] == [];
    for j := |num0| downto 0
      invariant |num| == |num0| && num[..j] == num0[..j]
      invariant MulAdd(num0, digit).0 == MulAdd(num0[..j], carry).0 + num[j..]
      invariant MulAdd(num0, digit).1 == MulAdd(num0[..j], carry).1
    {
      var val := num[j] * 58 + carry;
      assert num[j] == num[..j + 1][j] == num0[j];
      assert num0[..j + 1][..j] == num0[..j];
      ghost var tail := num[j + 1..];
      num := num[j := val % 256];
      carry := val / 256;
      assert num[j..] == [val % 256] + tail;
      assert num[..j] == num0[..j];
    }
    assert num0[..0] == [] && [] + num[0..] == num;
  }

  lemma {:induction false} DropZero(base: nat, digits: seq<nat>)
    ensures Number(base, [0] + digits) == Number(base, digits)
  {
    if digits != [] {
      DropZero(base, digits[..|digits| - 1]);
      assert ([0] + digits)[..|digits|] == [0] + digits[..|digits| - 1];
    }
  }

  lemma MulAddNoLeadingZero(num: seq<nat>, carry: nat)
    requires Below(256, num) && carry <= 57
    requires num != [] ==> num[0] != 0
    ensures var (out, c) := MulAdd(num, carry);
            c == 0 && out != [] ==> out[0] != 0
    decreases |num|
  {
    if |num| == 1 {
      assert num[..0] == [];
    } else if num != [] {
      var n := |num| - 1;
      var val := num[n] * 58 + carry;
      MulAddNoLeadingZero(num[..n], val / 256);
      MulAddNumber(num[..n], val / 256);
    }
  }

  /** One character: lines 205-215. */
  method Absorb(num0: seq<nat>, digit: nat) returns (num: seq<nat>)
    requires Below(256, num0) && digit <= 57 && (num0 != [] ==> num0[0] != 0)
    ensures Below(256, num) && (num != [] ==> num[0] != 0)
    ensures Number(256, num) == Number(256, num0) * 58 + digit
  {
    var carry;
    num, carry := MultiplyAdd(num0, digit);
    MulAddNumber(num0, digit);
    MulAddNoLeadingZero(num0, digit);
    DropZero(256, num);
    ghost var (out, c) := (num, carry);
    while carry > 0
      invariant carry <= 57 && Below(256, num)
      invariant (carry == c && num == out) || (carry == 0 && num == [c] + out && c > 0)
    {
      num := [carry % 256] + num;
      carry := carry / 256;
    }
  }

  // ----- the whole string -----

  method CountOnes(input: string) returns (ones: nat)
    ensures ones <= |input|
    ensures forall i :: 0 <= i < ones ==> input[i] == '1'
    ensures ones < |input| ==> input[ones] != '1'
  {
    ones := 0;
    while ones < |input| && input[ones] == '1'
      invariant ones <= |input|
      invariant forall i :: 0 <= i < ones ==> input[i] == '1'
    {
      ones := ones + 1;
    }
  }

  lemma DigitOne(c: char)
    requires DigitOf(c).Some?
    ensures DigitOf(c).value == 0 <==> c == '1'
  {
    assert ALPHABET[0] == '1';
  }

  lemma {:induction false} ZerosThen(digits: seq<nat>, z: nat)
    requires z <= |digits| && forall i :: 0 <= i < z ==> digits[i] == 0
    requires z < |digits| ==> digits[z] != 0
    ensures LeadingZeros(digits) == z
  {
    if z > 0 {
      ZerosThen(digits[1..], z - 1);
    }
  }

  function ZeroBytes(n: nat): seq<nat> {
    seq(n, _ => 0)
  }

  lemma {:induction false} ZerosWorthNothing(n: nat, num: seq<nat>)
    ensures Number(256, ZeroBytes(n) + num) == Number(256, num)
  {
    if n == 0 {
      assert ZeroBytes(0) + num == num;
    } else {
      ZerosWorthNothing(n - 1, num);
      assert ZeroBytes(n) + num == [0] + (ZeroBytes(n - 1) + num);
      DropZero(256, ZeroBytes(n - 1) + num);
    }
  }

  /** Lines 187-222: fails exactly on a character outside the alphabet, and otherwise preserves the number. */
  method Decode(input: string) returns (r: Option<seq<nat>>)
    ensures r.Some? <==> Valid58(input)
    ensures r.Some? ==> Decodes(input, r.value)
  {
    hide DigitOf;
    var ones := CountOnes(input);
    var num: seq<nat> := [];
    for i := 0 to |input|
      invariant Valid58(input[..i]) && Below(256, num) && (num != [] ==> num[0] != 0)
      invariant Number(256, num) == Number(58, Digits(input[..i]))
    {
      var digit := DigitOf(input[i]);
      if digit.None? {
        return None;
      }
      num := Absorb(num, digit.value);
      assert input[..i + 1] == input[..i] + [input[i]];
      assert Digits(input[..i + 1])[..i] == Digits(input[..i]);
    }
    assert input[..|input|] == input;
    var bytes := ZeroBytes(ones) + num;
    ZerosWorthNothing(ones, num);
    ZerosThen(bytes, ones);
    forall i | 0 <= i < |input| ensures Digits(input)[i] == 0 <==> input[i] == '1' {
      DigitOne(input[i]);
    }
    ZerosThen(Digits(input), ones);
    r := Some(bytes);
  }

  /** `base58check_decode`; `digest` stands for the double SHA-256. */
  method DecodeChecked(input: string, digest: seq<nat> -> seq<nat>) returns (r: Option<seq<nat>>)
    requires forall p :: |digest(p)| == 32
    ensures r.Some? ==> Decodes(input, r.value + digest(r.value)[..4])
    ensures r.None? ==> forall p :: !Decodes(input, p + digest(p)[..4])
  {
    var bytes := Decode(input);
    if bytes.None? {
      return None;
    }
    var all := bytes.value;
    forall p | Decodes(input, p + digest(p)[..4])
      ensures |all| >= 4 && digest(all[..|all| - 4])[..4] == all[|all| - 4..]
    {
      OnlyPayload(input, all, p, digest(p)[..4]);
    }
    if |all| < 4 {
      return None;
    }
    var payload, checksum := all[..|all| - 4], all[|all| - 4..];
    if digest(payload)[..4] != checksum {
      return None;
    }
    assert all == payload + checksum;
    r := Some(payload);
  }

  // ----- the number and the leading zeros determine the digits -----

  lemma LastDigit(base: nat, q: nat, r: nat, q': nat, r': nat)
    requires r < base && r' < base && q * base + r == q' * base + r'
    ensures q == q' && r == r'
  {
    assert base * (q - q') == r' - r;
    MultipleIsFar(base, q - q');
  }

  lemma {:induction false} PositiveNumber(base: nat, digits: seq<nat>)
    requires base > 0 && digits != [] && digits[0] != 0
    ensures Number(base, digits) > 0
  {
    if |digits| > 1 {
      var n := |digits| - 1;
      PositiveNumber(base, digits[..n]);
      MultipleIsFar(base, Number(base, digits[..n]));
    }
  }

  lemma {:induction false} SameDigits(base: nat, a: seq<nat>, b: seq<nat>)
    requires base > 0 && Below(base, a) && Below(base, b) && Number(base, a) == Number(base, b)
    requires (a != [] ==> a[0] != 0) && (b != [] ==> b[0] != 0)
    ensures a == b
    decreases |a|
  {
    if a == [] || b == [] {
      if a != [] { PositiveNumber(base, a); }
      if b != [] { PositiveNumber(base, b); }
    } else {
      var m, n := |a| - 1, |b| - 1;
      LastDigit(base, Number(base, a[..m]), a[m], Number(base, b[..n]), b[n]);
      SameDigits(base, a[..m], b[..n]);
      assert a == a[..m] + [a[m]] && b == b[..n] + [b[n]];
    }
  }

  lemma {:induction false} SameZerosSameDigits(base: nat, a: seq<nat>, b: seq<nat>)
    requires base > 0 && Below(base, a) && Below(base, b) && Number(base, a) == Number(base, b)
    requires LeadingZeros(a) == LeadingZeros(b)
    ensures a == b
    decreases |a|
  {
    if LeadingZeros(a) > 0 {
      assert a == [0] + a[1..] && b == [0] + b[1..];
      DropZero(base, a[1..]);
      DropZero(base, b[1..]);
      SameZerosSameDigits(base, a[1..], b[1..]);
    } else {
      SameDigits(base, a, b);
    }
  }

  lemma SameNumberSameBytes(s: string, a: seq<nat>, b: seq<nat>)
    requires Decodes(s, a) && Decodes(s, b)
    ensures a == b
  {
    hide Number, DigitOf, LeadingZeros;
    SameZerosSameDigits(256, a, b);
  }

  lemma OnlyPayload(s: string, all: seq<nat>, payload: seq<nat>, checksum: seq<nat>)
    requires Decodes(s, all) && Decodes(s, payload + checksum) && |checksum| == 4
    ensures |all| >= 4 && all[..|all| - 4] == payload && all[|all| - 4..] == checksum
  {
    hide Number, DigitOf, LeadingZeros;
    SameNumberSameBytes(s, all, payload + checksum);
  }

  /** No two strings decode to the same bytes. */
  lemma DecodingIsInjective(s: string, t: string, bytes: seq<nat>)
    requires Decodes(s, bytes) && Decodes(t, bytes)
    ensures s == t
  {
    hide Number, LeadingZeros;
    SameZerosSameDigits(58, Digits(s), Digits(t));
    assert |s| == |Digits(s)| == |t|;
    forall i | 0 <= i < |s| ensures s[i] == t[i] {
      assert DigitOf(s[i]).value == Digits(s)[i] == Digits(t)[i] == DigitOf(t[i]).value;
    }
  }
}
