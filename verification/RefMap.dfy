/** The sparse map from reference numbers to references (`RefMap` and `Ref` in go/Seq.java): sorted keys in an array,
    removed entries left behind as nulls and squeezed out when the array is full. */
module RefMap {

  /** A Java object that crosses the language boundary; a proxy answers with its own Go reference number. */
  class JavaObject {
    const isProxy: bool
    const proxyRefnum: int

    constructor (isProxy: bool, proxyRefnum: int)
      ensures this.isProxy == isProxy && this.proxyRefnum == proxyRefnum
    {
      this.isProxy, this.proxyRefnum := isProxy, proxyRefnum;
    }
  }

  const INT_MAX: int := 0x7fff_ffff

  class Ref {
    const refnum: int
    const obj: JavaObject?
    var refcnt: int

    constructor (refnum: int, obj: JavaObject?)
      ensures this.refnum == refnum && this.obj == obj && refcnt == 0
    {
      this.refnum, this.obj, this.refcnt := refnum, obj, 0;
    }

    /** `Ref.inc`; `ok` is false where the original throws. */
    method Inc() returns (ok: bool)
      modifies this
      ensures ok <==> old(refcnt) != INT_MAX
      ensures refcnt == old(refcnt) + if ok then 1 else 0
    {
      if refcnt == INT_MAX {
        return false;
      }
      refcnt := refcnt + 1;
      ok := true;
    }
  }

  ghost predicate Increasing(ks: seq<int>) {
    forall i, j :: 0 <= i < j < |ks| ==> ks[i] < ks[j]
  }

  /** The plain map that keys and slots stand for. */
  ghost function Entries(ks: seq<int>, os: seq<Ref?>): map<int, Ref>
    requires |ks| == |os|
  {
    if ks == [] then map[]
    else
      var n := |ks| - 1;
      var m := Entries(ks[..n], os[..n]);
      if os[n] == null then m else m[ks[n] := os[n]]
  }

  /** How many slots are in use. */
  ghost function Count(os: seq<Ref?>): nat {
    if os == [] then 0 else Count(os[..|os| - 1]) + if os[|os| - 1] == null then 0 else 1
  }

  lemma EntriesAppend(ks: seq<int>, os: seq<Ref?>, k: int, o: Ref?)
    requires |ks| == |os|
    ensures Entries(ks + [k], os + [o]) == if o == null then Entries(ks, os) else Entries(ks, os)[k := o]
    ensures Count(os + [o]) == Count(os) + if o == null then 0 else 1
  {
    assert (ks + [k])[..|ks|] == ks && (os + [o])[..|os|] == os;
  }

  lemma {:induction false} OnlyKeys(ks: seq<int>, os: seq<Ref?>, k: int)
    requires |ks| == |os| && k !in ks
    ensures k !in Entries(ks, os)
  {
    if ks != [] {
      OnlyKeys(ks[..|ks| - 1], os[..|ks| - 1], k);
    }
  }

  lemma IncreasingFront(ks: seq<int>)
    requires Increasing(ks) && ks != []
    ensures Increasing(ks[..|ks| - 1]) && ks[|ks| - 1] !in ks[..|ks| - 1]
  {
  }

  lemma {:induction false} EntryAt(ks: seq<int>, os: seq<Ref?>, i: nat)
    requires |ks| == |os| && Increasing(ks) && i < |ks|
    ensures ks[i] in Entries(ks, os) <==> os[i] != null
    ensures os[i] != null ==> Entries(ks, os)[ks[i]] == os[i]
  {
    var n := |ks| - 1;
    IncreasingFront(ks);
    if i == n {
      OnlyKeys(ks[..n], os[..n], ks[n]);
    } else {
      EntryAt(ks[..n], os[..n], i);
      assert ks[i] < ks[n];
    }
  }

  /** Writing one slot changes one entry. */
  lemma {:induction false} EntriesUpdate(ks: seq<int>, os: seq<Ref?>, i: nat, o: Ref?)
    requires |ks| == |os| && Increasing(ks) && i < |ks|
    ensures Entries(ks, os[i := o]) == if o == null then Entries(ks, os) - {ks[i]} else Entries(ks, os)[ks[i] := o]
    ensures Count(os[i := o]) + (if os[i] == null then 0 else 1) == Count(os) + if o == null then 0 else 1
  {
    var n := |ks| - 1;
    IncreasingFront(ks);
    var m := Entries(ks[..n], os[..n]);
    if i == n {
      assert os[i := o][..n] == os[..n];
      OnlyKeys(ks[..n], os[..n], ks[n]);
    } else {
      EntriesUpdate(ks[..n], os[..n], i, o);
      assert os[i := o][..n] == os[..n][i := o];
      assert ks[i] < ks[n];
      Commute(m, ks[i], o, ks[n], os[n]);
    }
  }

  ghost function With(m: map<int, Ref>, k: int, o: Ref?): map<int, Ref> {
    if o == null then m - {k} else m[k := o]
  }

  lemma Commute(m: map<int, Ref>, k: int, o: Ref?, k': int, o': Ref?)
    requires k != k'
    ensures o' != null ==> With(m, k, o)[k' := o'] == With(m[k' := o'], k, o)
  {
  }

  function Inserted<T>(s: seq<T>, i: nat, x: T): seq<T>
    requires i <= |s|
  {
    s[..i] + [x] + s[i..]
  }

  lemma InsertedBeforeLast<T>(s: seq<T>, i: nat, x: T)
    requires i < |s|
    ensures Inserted(s, i, x) == Inserted(s[..|s| - 1], i, x) + [s[|s| - 1]]
  {
  }

  lemma {:induction false} EntriesInsert(ks: seq<int>, os: seq<Ref?>, i: nat, k: int, o: Ref)
    requires |ks| == |os| && i <= |ks| && k !in ks
    ensures Entries(Inserted(ks, i, k), Inserted(os, i, o)) == Entries(ks, os)[k := o]
    ensures Count(Inserted(os, i, o)) == Count(os) + 1
  {
    hide Entries, Count;
    if i == |ks| {
      EntriesAppend(ks, os, k, o);
      assert Inserted(ks, i, k) == ks + [k] && Inserted(os, i, o) == os + [o];
    } else {
      var n := |ks| - 1;
      EntriesInsert(ks[..n], os[..n], i, k, o);
      InsertedBeforeLast(ks, i, k);
      InsertedBeforeLast(os, i, o);
      assert ks == ks[..n] + [ks[n]] && os == os[..n] + [os[n]];
      EntriesAppend(ks[..n], os[..n], ks[n], os[n]);
      hide Inserted;
      EntriesAppend(Inserted(ks[..n], i, k), Inserted(os[..n], i, o), ks[n], os[n]);
      Commute(Entries(ks[..n], os[..n]), k, o, ks[n], os[n]);
    }
  }

  lemma IncreasingInsert(ks: seq<int>, i: nat, k: int)
    requires Increasing(ks) && i <= |ks|
    requires (forall j :: 0 <= j < i ==> ks[j] < k) && (forall j :: i <= j < |ks| ==> k < ks[j])
    ensures Increasing(Inserted(ks, i, k)) && k !in ks
  {
  }

  // ----- compaction -----

  ghost function LiveKeys(ks: seq<int>, os: seq<Ref?>): seq<int>
    requires |ks| == |os|
  {
    if ks == [] then []
    else
      var n := |ks| - 1;
      LiveKeys(ks[..n], os[..n]) + if os[n] == null then [] else [ks[n]]
  }

  ghost function LiveObjs(os: seq<Ref?>): (r: seq<Ref?>)
    ensures |r| == Count(os) && forall i :: 0 <= i < |r| ==> r[i] != null
  {
    if os == [] then []
    else LiveObjs(os[..|os| - 1]) + if os[|os| - 1] == null then [] else [os[|os| - 1]]
  }

  /** Squeezing out the nulls loses nothing. */
  lemma {:induction false} SqueezeKeeps(ks: seq<int>, os: seq<Ref?>)
    requires |ks| == |os|
    ensures |LiveKeys(ks, os)| == Count(os) <= |os|
    ensures Entries(LiveKeys(ks, os), LiveObjs(os)) == Entries(ks, os)
    ensures Count(LiveObjs(os)) == Count(os)
  {
    if ks != [] {
      var n := |ks| - 1;
      SqueezeKeeps(ks[..n], os[..n]);
      var a, b := LiveKeys(ks[..n], os[..n]), LiveObjs(os[..n]);
      assert (a + [ks[n]])[..|a|] == a && (b + [os[n]])[..|b|] == b;
      assert LiveKeys(ks, os) == if os[n] == null then a else a + [ks[n]];
      assert LiveObjs(os) == if os[n] == null then b else b + [os[n]];
    }
  }

  lemma {:induction false} SqueezeIncreases(ks: seq<int>, os: seq<Ref?>)
    requires |ks| == |os| && Increasing(ks)
    ensures Increasing(LiveKeys(ks, os)) && forall k :: k in LiveKeys(ks, os) ==> k in ks
  {
    if ks != [] {
      var n := |ks| - 1;
      SqueezeIncreases(ks[..n], os[..n]);
      var a := LiveKeys(ks[..n], os[..n]);
      forall i | 0 <= i < |a| ensures a[i] < ks[n] {
        assert a[i] in a;
        assert a[i] in ks[..n];
      }
    }
  }

  class Map {
    var next: nat
    var live: nat
    var keys: array<int>
    var objs: array<Ref?>
    /** The plain map this one stands for. */
    ghost var contents: map<int, Ref>

    ghost function Keys(): seq<int>
      reads this, keys
      requires next <= keys.Length
    {
      keys[..next]
    }

    ghost function Slots(): seq<Ref?>
      reads this, objs
      requires next <= objs.Length
    {
      objs[..next]
    }

    ghost predicate Valid()
      reads this, keys, objs
    {
      && keys.Length == objs.Length >= 1 && next <= keys.Length
      && Increasing(Keys())
      && (forall i :: next <= i < objs.Length ==> objs[i] == null)
      && live == Count(Slots())
      && contents == Entries(Keys(), Slots())
    }

    constructor ()
      ensures Valid() && fresh(keys) && fresh(objs) && contents == map[]
    {
      next, live, contents := 0, 0, map[];
      keys := new int[16](_ => 0);
      objs := new Ref?[16](_ => null);
    }

    /** `Arrays.binarySearch(keys, 0, next, key)`: the index, or the complement of the insertion point. */
    method BinarySearch(key: int) returns (r: int)
      requires Valid()
      ensures 0 <= r ==> r < next && Keys()[r] == key
      ensures r < 0 ==> -r - 1 <= next && key !in Keys()
                        && (forall j :: 0 <= j < -r - 1 ==> Keys()[j] < key)
                        && (forall j :: -r - 1 <= j < next ==> key < Keys()[j])
    {
      hide Count;
      var low, high := 0, next;
      ghost var ks := Keys();
      while low < high
        invariant 0 <= low <= high <= next
        invariant forall j :: 0 <= j < low ==> ks[j] < key
        invariant forall j :: high <= j < next ==> key < ks[j]
      {
        var mid := (low + high) / 2;
        assert keys[mid] == ks[mid];
        if keys[mid] < key {
          low := mid + 1;
        } else if keys[mid] > key {
          high := mid;
        } else {
          return mid;
        }
      }
      r := -low - 1;
    }

    method Get(key: int) returns (r: Ref?)
      requires Valid()
      ensures r == if key in contents then contents[key] else null
    {
      hide Entries, Count;
      var i := BinarySearch(key);
      if i >= 0 {
        EntryAt(Keys(), Slots(), i);
        r := objs[i];
      } else {
        OnlyKeys(Keys(), Slots(), key);
        r := null;
      }
    }

    method Remove(key: int)
      requires Valid()
      modifies this, objs
      ensures Valid() && keys == old(keys) && objs == old(objs)
      ensures contents == old(contents) - {key}
    {
      hide Entries, Count;
      var i := BinarySearch(key);
      if i >= 0 {
        EntryAt(Keys(), Slots(), i);
        if objs[i] != null {
          EntriesUpdate(Keys(), Slots(), i, null);
          ghost var os := Slots();
          objs[i] := null;
          live := live - 1;
          assert Slots() == os[i := null];
        }
      } else {
        OnlyKeys(Keys(), Slots(), key);
      }
      contents := contents - {key};
    }

    /** `put`; `ok` is false where the original throws, and then nothing has changed. */
    method Put(key: int, obj: Ref?) returns (ok: bool)
      requires Valid()
      modifies this, keys, objs
      ensures Valid()
      ensures keys == old(keys) || fresh(keys)
      ensures objs == old(objs) || fresh(objs)
      ensures ok <==> obj != null && (key in old(contents) ==> old(contents)[key] == obj)
      ensures contents == if ok then old(contents)[key := obj] else old(contents)
    {
      hide Entries, Count, Increasing;
      if obj == null {
        return false;
      }
      var i := BinarySearch(key);
      if i >= 0 {
        ok := PutExisting(i, obj);
        return;
      }
      OnlyKeys(Keys(), Slots(), key);
      if next >= keys.Length {
        Grow();
        i := BinarySearch(key);
        if i >= 0 {
          EntryAt(Keys(), Slots(), i);
        }
      }
      InsertAt(-i - 1, key, obj);
      ok := true;
    }

    /** Lines 331-340: the key has a slot already. */
    method PutExisting(i: nat, obj: Ref) returns (ok: bool)
      requires Valid() && i < next
      modifies this, objs
      ensures Valid() && keys == old(keys) && objs == old(objs) && Keys() == old(Keys())
      ensures ok <==> (Keys()[i] in old(contents) ==> old(contents)[Keys()[i]] == obj)
      ensures contents == if ok then old(contents)[Keys()[i] := obj] else old(contents)
    {
      hide Entries, Count;
      EntryAt(Keys(), Slots(), i);
      EntriesUpdate(Keys(), Slots(), i, obj);
      ghost var os := Slots();
      if objs[i] == null {
        objs[i] := obj;
        live := live + 1;
        contents := contents[keys[i] := obj];
        assert Slots() == os[i := obj];
      }
      ok := objs[i] == obj;
      assert ok ==> Slots() == os[i := obj];
    }

    /** Lines 346-354: shift everything from `i` on and fill the gap. */
    method InsertAt(i: nat, key: int, obj: Ref)
      requires Valid() && i <= next < keys.Length
      requires (forall j :: 0 <= j < i ==> Keys()[j] < key) && (forall j :: i <= j < next ==> key < Keys()[j])
      modifies this`live, this`next, this`contents, keys, objs
      ensures Valid() && contents == old(contents)[key := obj]
    {
      hide Entries, Count;
      ghost var ks, os := Keys(), Slots();
      IncreasingInsert(ks, i, key);
      EntriesInsert(ks, os, i, key, obj);
      hide Increasing;
      ShiftKeys(i, key);
      ShiftObjs(i, obj);
      live := live + 1;
      next := next + 1;
      contents := contents[key := obj];
      assert Keys() == Inserted(ks, i, key) && Slots() == Inserted(os, i, obj);
    }

    method ShiftKeys(i: nat, key: int)
      requires i <= next < keys.Length
      modifies keys
      ensures keys[..next + 1] == Inserted(old(keys[..next]), i, key)
    {
      forall j | i <= j < next {
        keys[j + 1] := keys[j];
      }
      keys[i] := key;
    }

    method ShiftObjs(i: nat, obj: Ref)
      requires i <= next < objs.Length
      modifies objs
      ensures objs[..next + 1] == Inserted(old(objs[..next]), i, obj)
      ensures forall j :: next < j < objs.Length ==> objs[j] == old(objs[j])
    {
      forall j | i <= j < next {
        objs[j + 1] := objs[j];
      }
      objs[i] := obj;
    }

    static method RoundPow2(x: nat) returns (p: nat)
      ensures p >= x && p >= 1
    {
      p := 1;
      while p < x
        invariant p >= 1
        decreases x - p
      {
        p := p * 2;
      }
    }

    /** `grow`: squeezes out the removed entries, in place or into arrays twice as long.  Nothing is lost, a free slot
        exists afterwards, and `next` equals `live`, so the "bad state" exception cannot be reached. */
    method Grow()
      requires Valid() && next == keys.Length
      modifies this, keys, objs
      ensures Valid() && contents == old(contents) && live == old(live)
      ensures next == live < keys.Length
      ensures forall j :: 0 <= j < next ==> Slots()[j] != null
      ensures keys == old(keys) || fresh(keys)
      ensures objs == old(objs) || fresh(objs)
    {
      hide Entries, Count, LiveKeys, LiveObjs, Increasing;
      ghost var ks, os := Keys(), Slots();
      assert ks == keys[..] && os == objs[..];
      SqueezeKeeps(ks, os);
      SqueezeIncreases(ks, os);
      var len := RoundPow2(live);
      len := 2 * len;
      var newKeys, newObjs := keys, objs;
      if len > keys.Length {
        newKeys := new int[keys.Length * 2](_ => 0);
        newObjs := new Ref?[objs.Length * 2](_ => null);
      }
      var j := Compact(newKeys, newObjs, ks, os);
      Clear(newKeys, newObjs, j);
      keys, objs, next := newKeys, newObjs, j;
    }

    /** The squeezing loop; the new arrays may be the old ones. */
    method Compact(newKeys: array<int>, newObjs: array<Ref?>, ghost ks: seq<int>, ghost os: seq<Ref?>) returns (j: nat)
      requires keys.Length == objs.Length && ks == keys[..] && os == objs[..]
      requires newKeys.Length == newObjs.Length >= keys.Length
      requires newKeys == keys <==> newObjs == objs
      modifies newKeys, newObjs
      ensures j <= keys.Length && newKeys[..j] == LiveKeys(ks, os) && newObjs[..j] == LiveObjs(os)
    {
      j := 0;
      for i := 0 to keys.Length
        invariant j <= i && keys[i..] == ks[i..] && objs[i..] == os[i..]
        invariant newKeys[..j] == LiveKeys(ks[..i], os[..i]) && newObjs[..j] == LiveObjs(os[..i])
      {
        LiveStep(ks, os, i);
        assert keys[i] == keys[i..][0] == ks[i] && objs[i] == objs[i..][0] == os[i];
        hide LiveKeys, LiveObjs;
        j := CopyIfLive(newKeys, newObjs, i, j);
        assert keys[i + 1..] == ks[i..][1..] && objs[i + 1..] == os[i..][1..];
      }
      assert ks[..|ks|] == ks && os[..|os|] == os;
    }

    method CopyIfLive(newKeys: array<int>, newObjs: array<Ref?>, i: nat, j0: nat) returns (j: nat)
      requires j0 <= i < keys.Length == objs.Length <= newKeys.Length == newObjs.Length
      modifies newKeys, newObjs
      ensures keys[i + 1..] == old(keys[i + 1..]) && objs[i + 1..] == old(objs[i + 1..])
      ensures j == j0 + if old(objs[i]) == null then 0 else 1
      ensures newKeys[..j] == old(newKeys[..j0]) + if old(objs[i]) == null then [] else [old(keys[i])]
      ensures newObjs[..j] == old(newObjs[..j0]) + if old(objs[i]) == null then [] else [old(objs[i])]
    {
      j := j0;
      if objs[i] != null {
        newKeys[j] := keys[i];
        newObjs[j] := objs[i];
        j := j + 1;
      }
    }

    /** Lines 378-381. */
    method Clear(newKeys: array<int>, newObjs: array<Ref?>, from: nat)
      requires newKeys.Length == newObjs.Length && from <= newKeys.Length
      modifies newKeys, newObjs
      ensures newKeys[..from] == old(newKeys[..from]) && newObjs[..from] == old(newObjs[..from])
      ensures forall i :: from <= i < newObjs.Length ==> newObjs[i] == null
    {
      for i := from to newKeys.Length
        invariant newKeys[..from] == old(newKeys[..from]) && newObjs[..from] == old(newObjs[..from])
        invariant forall p :: from <= p < i ==> newObjs[p] == null
      {
        newKeys[i] := 0;
        newObjs[i] := null;
      }
    }
  }

  // ----- whole runs -----

  datatype Op = PutOp(key: int, obj: Ref?) | RemoveOp(key: int) | GetOp(key: int)

  /** `Refused` stands for a RuntimeException. */
  datatype Reply = Accepted | Refused | Value(obj: Ref?)

  /** What one operation does to a plain map and replies; a null, or a second object under a live key, is refused. */
  ghost function Applied(m: map<int, Ref>, op: Op): (map<int, Ref>, Reply) {
    match op
    case PutOp(key, obj) =>
      if obj == null || (key in m && m[key] != obj) then (m, Refused) else (m[key := obj], Accepted)
    case RemoveOp(key) => (m - {key}, Accepted)
    case GetOp(key) => (m, Value(if key in m then m[key] else null))
  }

  ghost function AppliedAll(m: map<int, Ref>, ops: seq<Op>): (map<int, Ref>, seq<Reply>) {
    if ops == [] then (m, [])
    else
      var (before, replies) := AppliedAll(m, ops[..|ops| - 1]);
      var (after, reply) := Applied(before, ops[|ops| - 1]);
      (after, replies + [reply])
  }

  method Apply(m: Map, op: Op) returns (reply: Reply)
    requires m.Valid()
    modifies m, m.keys, m.objs
    ensures m.Valid() && (m.contents, reply) == Applied(old(m.contents), op)
    ensures (m.keys == old(m.keys) || fresh(m.keys)) && (m.objs == old(m.objs) || fresh(m.objs))
  {
    hide Map.Valid;
    match op {
      case PutOp(key, obj) =>
        var ok := m.Put(key, obj);
        reply := if ok then Accepted else Refused;
      case RemoveOp(key) =>
        m.Remove(key);
        reply := Accepted;
      case GetOp(key) =>
        var obj := m.Get(key);
        reply := Value(obj);
    }
  }

  /** Over every sequence of operations the array map answers as the plain map does, and ends as the plain map. */
  method RunAll(m: Map, ops: seq<Op>) returns (replies: seq<Reply>)
    requires m.Valid()
    modifies m, m.keys, m.objs
    ensures m.Valid() && (m.contents, replies) == AppliedAll(old(m.contents), ops)
  {
    hide Map.Valid, Applied;
    replies := [];
    for i := 0 to |ops|
      invariant m.Valid() && (m.keys == old(m.keys) || fresh(m.keys)) && (m.objs == old(m.objs) || fresh(m.objs))
      invariant (m.contents, replies) == AppliedAll(old(m.contents), ops[..i])
    {
      assert ops[..i + 1][..i] == ops[..i];
      var reply := Apply(m, ops[i]);
      replies := replies + [reply];
    }
    assert ops[..|ops|] == ops;
  }

  lemma LiveStep(ks: seq<int>, os: seq<Ref?>, i: nat)
    requires |ks| == |os| && i < |ks|
    ensures LiveKeys(ks[..i + 1], os[..i + 1]) == LiveKeys(ks[..i], os[..i]) + if os[i] == null then [] else [ks[i]]
    ensures LiveObjs(os[..i + 1]) == LiveObjs(os[..i]) + if os[i] == null then [] else [os[i]]
  {
    assert ks[..i + 1][..i] == ks[..i] && os[..i + 1][..i] == os[..i];
  }

  /** The number of slots in use is the size of the map. */
  lemma {:induction false} CountIsSize(ks: seq<int>, os: seq<Ref?>)
    requires |ks| == |os| && Increasing(ks)
    ensures |Entries(ks, os)| == Count(os)
  {
    if ks != [] {
      var n := |ks| - 1;
      IncreasingFront(ks);
      CountIsSize(ks[..n], os[..n]);
      OnlyKeys(ks[..n], os[..n], ks[n]);
    }
  }
}
