/** Stripping proprietary keys from the global map of a PSBT (`normalizePsbtKeys` in go/bridge.go;
    section "Specification" of BIP-174). */
module Psbt {
  import opened Prelude

  type byte = b: nat | b < 256

  const MAGIC: seq<byte> := [0x70, 0x73, 0x62, 0x74, 0xff]
  const PROPRIETARY: byte := 0xfc

  function LittleEndian(a: nat, b: nat, c: nat, d: nat): nat {
    a + 0x100 * b + 0x10000 * c + 0x1000000 * d
  }

  /** `safeRead`: the length at `p` and the position after it, or `(0, p)` when there is none to read. */
  function ReadLength(data: seq<byte>, p: nat): (nat, nat) {
    if p >= |data| then (0, p)
    else
      var b := data[p];
      if b < 0xfd then (b, p + 1)
      else if b == 0xfd && p + 2 < |data| then (LittleEndian(data[p + 1], data[p + 2], 0, 0), p + 3)
      else if b == 0xfe && p + 4 < |data| then
        (LittleEndian(data[p + 1], data[p + 2], data[p + 3], data[p + 4]), p + 5)
      else (0, p)
  }

  /** A key-value pair, byte for byte: length and key, length and value, and nothing more. */
  predicate IsEntry(e: seq<byte>) {
    var (k, p) := ReadLength(e, 0);
    && k > 0 && p + k <= |e|
    && var (v, q) := ReadLength(e, p + k); q > p + k && q + v == |e|
  }

  function KeyType(e: seq<byte>): byte
    requires IsEntry(e)
  {
    e[ReadLength(e, 0).1]
  }

  function Concat(es: seq<seq<byte>>): seq<byte> {
    if es == [] then [] else es[0] + Concat(es[1..])
  }

  ghost predicate Entries(es: seq<seq<byte>>) {
    forall i :: 0 <= i < |es| ==> IsEntry(es[i])
  }

  /** The entries that are not proprietary, in order. */
  function Standard(es: seq<seq<byte>>): (r: seq<seq<byte>>)
    requires Entries(es)
    ensures Entries(r) && forall i :: 0 <= i < |r| ==> KeyType(r[i]) != PROPRIETARY
  {
    if es == [] then [] else (if KeyType(es[0]) == PROPRIETARY then [] else [es[0]]) + Standard(es[1..])
  }

  /** The loop: what is kept from `rest` on, and where the separator is reached. */
  function Strip(rest: seq<byte>): Option<(seq<byte>, seq<byte>)>
    decreases |rest|
  {
    if rest == [] then None
    else if rest[0] == 0 then Some(([], rest))
    else
      var (k, p) := ReadLength(rest, 0);
      if k == 0 || p + k > |rest| then None
      else
        var (v, q) := ReadLength(rest, p + k);
        if q + v > |rest| then None
        else
          var tail := Strip(rest[q + v..]);
          if tail.None? then None
          else Some(((if rest[p] == PROPRIETARY then [] else rest[..q + v]) + tail.value.0, tail.value.1))
  }

  function Normalized(data: seq<byte>): Option<seq<byte>> {
    if |data| < 6 || data[..5] != MAGIC then None
    else
      var r := Strip(data[5..]);
      if r.None? then None else Some(MAGIC + r.value.0 + r.value.1)
  }

  lemma ReadInSuffix(data: seq<byte>, start: nat, p: nat)
    requires start <= |data|
    ensures ReadLength(data, start + p).0 == ReadLength(data[start..], p).0
    ensures ReadLength(data, start + p).1 == start + ReadLength(data[start..], p).1
  {
  }

  /** What is kept from `rest` on, given what is kept from `more` on after a piece of it. */
  ghost predicate Continues(rest: seq<byte>, piece: seq<byte>, more: seq<byte>) {
    && (Strip(rest).Some? <==> Strip(more).Some?)
    && (Strip(more).Some? ==> Strip(rest).value == (piece + Strip(more).value.0, Strip(more).value.1))
  }

  lemma ContinuesHere(all: seq<byte>)
    ensures Continues(all, [], all)
  {
    hide Strip;
    if Strip(all).Some? {
      assert [] + Strip(all).value.0 == Strip(all).value.0;
    }
  }

  lemma PairAtFront(rest: seq<byte>, k: nat, p: nat, v: nat, q: nat)
    requires rest != [] && rest[0] != 0
    requires ReadLength(rest, 0) == (k, p) && k > 0 && p + k <= |rest|
    requires ReadLength(rest, p + k) == (v, q) && q + v <= |rest|
    ensures Continues(rest, if rest[p] == PROPRIETARY then [] else rest[..q + v], rest[q + v..])
  {
    hide ReadLength;
  }

  lemma NoPairAtFront(rest: seq<byte>)
    requires rest != [] && rest[0] != 0
    ensures var (k, p) := ReadLength(rest, 0);
            (k == 0 || p + k > |rest| || var (v, q) := ReadLength(rest, p + k); q + v > |rest|) ==> Strip(rest).None?
  {
    hide ReadLength;
  }

  lemma ReadAdvances(data: seq<byte>, p: nat)
    ensures ReadLength(data, p).1 >= p && (ReadLength(data, p).0 > 0 ==> ReadLength(data, p).1 > p)
  {
  }

  /** One turn of the loop: lines 608-623. */
  method ReadPair(data: seq<byte>, start: nat) returns (ok: bool, end: nat, keyType: byte)
    requires start < |data| && data[start] != 0
    ensures !ok ==> Strip(data[start..]).None?
    ensures ok ==> start < end <= |data|
                   && Continues(data[start..], if keyType == PROPRIETARY then [] else data[start..end], data[end..])
  {
    hide ReadLength, Strip, Continues;
    ok, end, keyType := false, start, 0;
    ghost var rest := data[start..];
    NoPairAtFront(rest);
    ReadAdvances(data, start);
    ReadInSuffix(data, start, 0);
    var (keyLen, pos) := ReadLength(data, start);
    if keyLen == 0 || pos + keyLen > |data| {
      return;
    }
    keyType := data[pos];
    pos := pos + keyLen;
    ReadAdvances(data, pos);
    ReadInSuffix(data, start, pos - start);
    var (valLen, afterVal) := ReadLength(data, pos);
    if afterVal + valLen > |data| {
      return;
    }
    ok, end := true, afterVal + valLen;
    PairAtFront(rest, keyLen, pos - keyLen - start, valLen, afterVal - start);
    assert rest[end - start..] == data[end..] && rest[..end - start] == data[start..end];
  }

  lemma ContinuesOn(all: seq<byte>, kept: seq<byte>, rest: seq<byte>, piece: seq<byte>, more: seq<byte>)
    requires Continues(all, kept, rest) && Continues(rest, piece, more)
    ensures Continues(all, kept + piece, more)
  {
    hide Strip;
    if Strip(more).Some? {
      assert kept + (piece + Strip(more).value.0) == (kept + piece) + Strip(more).value.0;
    }
  }

  /** `normalizePsbtKeys`: it terminates and reads in bounds on every byte string. */
  method NormalizePsbtKeys(data: seq<byte>) returns (r: Option<seq<byte>>)
    ensures r == Normalized(data)
  {
    if |data| < 6 || data[0] != 0x70 || data[1] != 0x73 || data[2] != 0x62 || data[3] != 0x74 || data[4] != 0xff {
      return None;
    }
    assert data[..5] == MAGIC;
    var pos := 5;
    var kept: seq<byte> := [];
    ContinuesHere(data[5..]);
    while pos < |data| && data[pos] != 0
      invariant 5 <= pos <= |data| && Continues(data[5..], kept, data[pos..])
      decreases |data| - pos
    {
      hide Strip, Normalized;
      var ok, end, keyType := ReadPair(data, pos);
      if !ok {
        return None;
      }
      ContinuesOn(data[5..], kept, data[pos..], if keyType == PROPRIETARY then [] else data[pos..end], data[end..]);
      if keyType != PROPRIETARY {
        kept := kept + data[pos..end];
      } else {
        assert kept + [] == kept;
      }
      pos := end;
    }
    if pos >= |data| || data[pos] != 0 {
      return None;
    }
    assert Strip(data[pos..]) == Some(([], data[pos..])) && kept + [] == kept;
    r := Some(MAGIC + kept + data[pos..]);
  }

  // ----- what it means -----

  lemma ReadIsLocal(e: seq<byte>, tail: seq<byte>, p: nat)
    requires ReadLength(e, p).1 > p
    ensures ReadLength(e + tail, p) == ReadLength(e, p)
  {
  }

  lemma ReadFromPart(data: seq<byte>, p: nat, end: nat)
    requires p <= end <= |data| && p < ReadLength(data, p).1 <= end
    ensures ReadLength(data[..end], p) == ReadLength(data, p)
  {
  }

  /** A value length that cannot be read stops the next turn of the loop. */
  lemma UnreadableStops(rest: seq<byte>, q: nat)
    requires q <= |rest| && ReadLength(rest, q).1 == q
    ensures Strip(rest[q..]).None?
  {
    ReadInSuffix(rest, q, 0);
  }

  /** The value of the first pair can be read. */
  lemma ValueIsReadable(rest: seq<byte>)
    requires Strip(rest).Some? && rest[0] != 0
    ensures var (k, p) := ReadLength(rest, 0);
            && k > 0 && p > 0 && p + k <= |rest|
            && var (v, q) := ReadLength(rest, p + k); q > p + k && q + v <= |rest|
  {
    var (k, p) := ReadLength(rest, 0);
    ReadAdvances(rest, 0);
    NoPairAtFront(rest);
    var (v, q) := ReadLength(rest, p + k);
    ReadAdvances(rest, p + k);
    hide ReadLength;
    if q == p + k {
      UnreadableStops(rest, q);
    }
  }

  lemma EntryAtFront(rest: seq<byte>) returns (e: seq<byte>, more: seq<byte>)
    requires Strip(rest).Some? && rest[0] != 0
    ensures IsEntry(e) && rest == e + more && |more| < |rest| && Strip(more).Some?
    ensures Strip(rest).value
            == ((if KeyType(e) == PROPRIETARY then [] else e) + Strip(more).value.0, Strip(more).value.1)
  {
    assert rest != [];
    hide ReadLength, IsEntry, Strip, KeyType;
    ValueIsReadable(rest);
    var (k, p) := ReadLength(rest, 0);
    var (v, q) := ReadLength(rest, p + k);
    e, more := rest[..q + v], rest[q + v..];
    EntryFromReads(rest, k, p, v, q);
    PairAtFront(rest, k, p, v, q);
  }

  lemma EntryFromReads(rest: seq<byte>, k: nat, p: nat, v: nat, q: nat)
    requires ReadLength(rest, 0) == (k, p) && k > 0 && 0 < p
    requires ReadLength(rest, p + k) == (v, q) && p + k < q && q + v <= |rest|
    ensures var e := rest[..q + v]; IsEntry(e) && KeyType(e) == rest[p]
  {
    ReadFromPart(rest, 0, q + v);
    ReadFromPart(rest, p + k, q + v);
    hide ReadLength;
  }

  /** Soundness: whatever comes through is a list of entries, the standard ones kept byte for byte. */
  lemma {:induction false} StripSound(rest: seq<byte>) returns (es: seq<seq<byte>>)
    requires Strip(rest).Some?
    ensures Entries(es) && rest == Concat(es) + Strip(rest).value.1 && Strip(rest).value.0 == Concat(Standard(es))
    ensures Strip(rest).value.1 != [] && Strip(rest).value.1[0] == 0
    decreases |rest|
  {
    if rest[0] == 0 {
      es := [];
    } else {
      var e, more := EntryAtFront(rest);
      hide Strip, IsEntry, KeyType, Concat, Standard;
      es := StripSound(more);
      JoinEntry(e, es);
      es := [e] + es;
    }
  }

  lemma JoinEntry(e: seq<byte>, es: seq<seq<byte>>)
    requires IsEntry(e) && Entries(es)
    ensures Entries([e] + es) && Concat([e] + es) == e + Concat(es)
    ensures Concat(Standard([e] + es)) == (if KeyType(e) == PROPRIETARY then [] else e) + Concat(Standard(es))
  {
    hide IsEntry, KeyType;
    assert ([e] + es)[1..] == es;
    var r := Standard(es);
    assert ([e] + r)[1..] == r;
    assert Standard([e] + es) == if KeyType(e) == PROPRIETARY then r else [e] + r;
  }

  lemma StripSeparator(tail: seq<byte>)
    requires tail != [] && tail[0] == 0
    ensures Strip(Concat([]) + tail) == Some((Concat(Standard([])), tail))
  {
    assert Concat([]) + tail == tail;
  }

  /** Completeness: every list of entries before a separator comes through. */
  lemma {:induction false} StripComplete(es: seq<seq<byte>>, tail: seq<byte>)
    requires Entries(es) && tail != [] && tail[0] == 0
    ensures Strip(Concat(es) + tail) == Some((Concat(Standard(es)), tail))
    decreases |es|
  {
    hide Strip, IsEntry, KeyType, Concat, Standard;
    if es == [] {
      StripSeparator(tail);
    } else {
      var e, more := es[0], Concat(es[1..]) + tail;
      StripComplete(es[1..], tail);
      StripEntry(e, more);
      assert es == [e] + es[1..];
      JoinEntry(e, es[1..]);
      assert Concat(es) + tail == e + more;
    }
  }

  lemma StripEntry(e: seq<byte>, more: seq<byte>)
    requires IsEntry(e) && Strip(more).Some?
    ensures Strip(e + more)
            == Some(((if KeyType(e) == PROPRIETARY then [] else e) + Strip(more).value.0, Strip(more).value.1))
  {
    var (k, p) := ReadLength(e, 0);
    ReadIsLocal(e, more, 0);
    ReadIsLocal(e, more, p + k);
    assert (e + more)[|e|..] == more && (e + more)[..|e|] == e;
  }

  /** The bytes of a PSBT with these global entries and this remainder. */
  function Laid(es: seq<seq<byte>>, tail: seq<byte>): seq<byte> {
    MAGIC + Concat(es) + tail
  }

  /** Normalising succeeds exactly on the magic, a list of entries, and a separator; the result is the magic, the
      entries that are not proprietary, in order and byte for byte, then the separator and every later byte. */
  lemma NormalizesExactly(data: seq<byte>, out: seq<byte>)
    ensures Normalized(data) == Some(out) <==>
            exists es, tail :: Entries(es) && tail != [] && tail[0] == 0 && data == Laid(es, tail)
                               && out == Laid(Standard(es), tail)
  {
    hide Strip, IsEntry, KeyType, Concat, Standard;
    if Normalized(data) == Some(out) {
      var es := StripSound(data[5..]);
      var tail := Strip(data[5..]).value.1;
      assert data == data[..5] + data[5..];
      assert data == Laid(es, tail) && out == Laid(Standard(es), tail);
    }
    if es, tail :|
      Entries(es) && tail != [] && tail[0] == 0 && data == Laid(es, tail) && out == Laid(Standard(es), tail)
    {
      NormalizeLaid(es, tail);
    }
  }

  lemma NormalizeLaid(es: seq<seq<byte>>, tail: seq<byte>)
    requires Entries(es) && tail != [] && tail[0] == 0
    ensures Normalized(Laid(es, tail)) == Some(Laid(Standard(es), tail))
  {
    hide Strip, IsEntry, KeyType, Concat, Standard;
    StripComplete(es, tail);
    var data := Laid(es, tail);
    assert data[..5] == MAGIC && data[5..] == Concat(es) + tail;
  }

  lemma {:induction false} StandardTwice(es: seq<seq<byte>>)
    requires Entries(es) && forall i :: 0 <= i < |es| ==> KeyType(es[i]) != PROPRIETARY
    ensures Standard(es) == es
  {
    hide IsEntry, KeyType;
    if es != [] {
      StandardTwice(es[1..]);
      assert es == [es[0]] + es[1..];
    }
  }

  /** Normalising again changes nothing. */
  lemma NormalizeIdempotent(data: seq<byte>)
    requires Normalized(data).Some?
    ensures Normalized(Normalized(data).value) == Normalized(data)
  {
    hide Normalized, IsEntry, KeyType, Laid;
    var out := Normalized(data).value;
    NormalizesExactly(data, out);
    var es, tail :|
      Entries(es) && tail != [] && tail[0] == 0 && data == Laid(es, tail) && out == Laid(Standard(es), tail);
    NormalizeLaid(Standard(es), tail);
    StandardTwice(Standard(es));
  }

  // ----- what the bytes mean -----

  /** The `k` lowest bytes of a number, least significant first. */
  function LeBytes(n: nat, k: nat): (r: seq<byte>)
    ensures |r| == k
    decreases k
  {
    if k == 0 then [] else [n % 256] + LeBytes(n / 256, k - 1)
  }

  /** A length as BIP-174 writes it: the compact size unsigned integer. */
  function CompactSize(n: nat): seq<byte>
    requires n < 0x1_0000_0000
  {
    if n < 0xfd then [n] else if n < 0x1_0000 then [0xfd] + LeBytes(n, 2) else [0xfe] + LeBytes(n, 4)
  }

  lemma TwoBytes(n: nat)
    requires n < 0x1_0000
    ensures LeBytes(n, 2) == [n % 256, n / 256] && LittleEndian(n % 256, n / 256, 0, 0) == n
  {
    assert LeBytes(n / 256, 1) == [n / 256] + LeBytes(n / 256 / 256, 0);
  }

  lemma FourBytes(n: nat)
    requires n < 0x1_0000_0000
    ensures var b, c, d := n / 256, n / 0x1_0000, n / 0x100_0000;
            && LeBytes(n, 4) == [n % 256, b % 256, c % 256, d]
            && LittleEndian(n % 256, b % 256, c % 256, d) == n
  {
    var b, c, d := n / 256, n / 256 / 256, n / 256 / 256 / 256;
    assert c == n / 0x1_0000 && d == n / 0x100_0000;
    assert LeBytes(d, 1) == [d] + LeBytes(d / 256, 0);
    assert LeBytes(c, 2) == [c % 256] + LeBytes(d, 1);
    assert LeBytes(b, 3) == [b % 256] + LeBytes(c, 2);
  }

  /** Every length of one, two or four bytes, shortest form or not, is read as the number it spells. */
  lemma LengthRoundTrip(n: nat, rest: seq<byte>)
    ensures n < 0xfd ==> ReadLength([n] + rest, 0) == (n, 1)
    ensures n < 0x1_0000 ==> ReadLength([0xfd] + LeBytes(n, 2) + rest, 0) == (n, 3)
    ensures n < 0x1_0000_0000 ==> ReadLength([0xfe] + LeBytes(n, 4) + rest, 0) == (n, 5)
  {
    hide ReadLength, LeBytes;
    ReadOne(n, rest);
    if n < 0x1_0000 {
      TwoBytes(n);
      ReadTwo(n % 256, n / 256, rest);
    }
    if n < 0x1_0000_0000 {
      FourBytes(n);
      ReadFour(n % 256, n / 256 % 256, n / 0x1_0000 % 256, n / 0x100_0000, rest);
    }
  }

  lemma ReadOne(n: nat, rest: seq<byte>)
    ensures n < 0xfd ==> ReadLength([n] + rest, 0) == (n, 1)
  {
  }

  lemma ReadTwo(a: byte, b: byte, rest: seq<byte>)
    ensures ReadLength([0xfd] + [a, b] + rest, 0) == (LittleEndian(a, b, 0, 0), 3)
  {
    hide LittleEndian;
    var data := [0xfd] + [a, b] + rest;
    assert data[0] == 0xfd && data[1] == a && data[2] == b;
  }

  lemma ReadFour(a: byte, b: byte, c: byte, d: byte, rest: seq<byte>)
    ensures ReadLength([0xfe] + [a, b, c, d] + rest, 0) == (LittleEndian(a, b, c, d), 5)
  {
    hide LittleEndian;
    var data := [0xfe] + [a, b, c, d] + rest;
    assert data[0] == 0xfe && data[1] == a && data[2] == b && data[3] == c && data[4] == d;
  }

  /** Nothing can be read exactly past the end, of an eight-byte length, or of a length that is cut off. */
  lemma LengthFailsExactly(data: seq<byte>, p: nat)
    ensures ReadLength(data, p).1 == p
            <==> p >= |data| || data[p] == 0xff || (data[p] == 0xfd && p + 2 >= |data|)
                 || (data[p] == 0xfe && p + 4 >= |data|)
    ensures ReadLength(data, p).1 == p ==> ReadLength(data, p).0 == 0
  {
  }

  lemma CompactRoundTrip(n: nat, rest: seq<byte>)
    requires n < 0x1_0000_0000
    ensures ReadLength(CompactSize(n) + rest, 0) == (n, |CompactSize(n)|)
  {
    hide ReadLength, LeBytes;
    LengthRoundTrip(n, rest);
  }

  /** A key and a value, each behind its length, are an entry, and its type is the first byte of the key. */
  lemma EntryOfParts(key: seq<byte>, value: seq<byte>)
    requires 0 < |key| < 0x1_0000_0000 && |value| < 0x1_0000_0000
    ensures var e := CompactSize(|key|) + key + CompactSize(|value|) + value; IsEntry(e) && KeyType(e) == key[0]
  {
    var e := CompactSize(|key|) + key + CompactSize(|value|) + value;
    var p := |CompactSize(|key|)|;
    CompactRoundTrip(|key|, key + CompactSize(|value|) + value);
    CompactRoundTrip(|value|, value);
    hide ReadLength, CompactSize;
    assert e == CompactSize(|key|) + (key + CompactSize(|value|) + value);
    assert e[p + |key|..] == CompactSize(|value|) + value;
    ReadInSuffix(e, p + |key|, 0);
    assert p > 0 && |CompactSize(|value|)| > 0 by { SomeBytes(|key|); SomeBytes(|value|); }
    assert e[p] == key[0];
  }

  lemma SomeBytes(n: nat)
    requires n < 0x1_0000_0000
    ensures |CompactSize(n)| > 0
  {
  }

  /** Which entries are kept: none of proprietary type, every other, one by one and in order. */
  lemma {:induction false} StandardExactly(es: seq<seq<byte>>, e: seq<byte>)
    requires Entries(es) && IsEntry(e)
    ensures Standard([]) == []
    ensures Standard([e] + es) == (if KeyType(e) == 0xfc then [] else [e]) + Standard(es)
  {
    hide IsEntry, KeyType;
    assert ([e] + es)[1..] == es && ([e] + es)[0] == e;
  }
}
