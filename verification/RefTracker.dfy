/** Reference counting of Java objects held by Go (`RefTracker` in go/Seq.java). */
module RefTracker {
  import opened RefMap

  const NULL_REFNUM: int := 41
  const REF_OFFSET: int := 42

  // ----- the state machine -----

  datatype Pin = Pin(obj: JavaObject?, count: int)

  datatype State = State(next: int, refs: map<JavaObject, int>, pins: map<int, Pin>)

  datatype Op = Inc(o: JavaObject?) | IncRefnum(n: int) | Dec(n: int) | Find(n: int)

  /** `Object` is the object of the reference returned, and `Thrown` stands for a RuntimeException. */
  datatype Reply = Num(n: int) | Done | Object(o: JavaObject?) | Thrown

  const INITIAL := State(REF_OFFSET, map[], map[])

  function Bump(s: State, n: int, reply: Reply): (State, Reply)
    requires n in s.pins
  {
    if s.pins[n].count == INT_MAX then (s, Thrown)
    else (s.(pins := s.pins[n := Pin(s.pins[n].obj, s.pins[n].count + 1)]), reply)
  }

  function Step(s: State, op: Op): (State, Reply) {
    match op
    case Inc(o) =>
      if o == null then (s, Num(NULL_REFNUM))
      else if o.isProxy then (s, Num(o.proxyRefnum))
      else if o !in s.refs then
        if s.next == INT_MAX then (s, Thrown)
        else (State(s.next + 1, s.refs[o := s.next], s.pins[s.next := Pin(o, 1)]), Num(s.next))
      else if s.refs[o] in s.pins then Bump(s, s.refs[o], Num(s.refs[o]))
      else (s, Thrown)
    case IncRefnum(n) => if n in s.pins then Bump(s, n, Done) else (s, Thrown)
    case Dec(n) =>
      if n <= 0 || n == NULL_REFNUM then (s, Done)
      else if n !in s.pins then (s, Thrown)
      else if s.pins[n].count - 1 > 0 then
        (s.(pins := s.pins[n := Pin(s.pins[n].obj, s.pins[n].count - 1)]), Done)
      else if s.pins[n].obj == null then (s, Thrown)
      else (State(s.next, s.refs - {s.pins[n].obj}, s.pins - {n}), Done)
    case Find(n) =>
      if n < 0 then (s, Thrown)
      else if n == NULL_REFNUM then (s, Object(null))
      else if n in s.pins then (s, Object(s.pins[n].obj))
      else (s, Thrown)
  }

  /** The two maps are mutual inverses, every count is positive, and every number was handed out before. */
  ghost predicate Inv(s: State) {
    && REF_OFFSET <= s.next <= INT_MAX
    && (forall o :: o in s.refs ==> s.refs[o] in s.pins && s.pins[s.refs[o]].obj == o)
    && (forall n :: n in s.pins ==>
          && s.pins[n].obj != null && s.pins[n].obj in s.refs && s.refs[s.pins[n].obj] == n
          && 1 <= s.pins[n].count <= INT_MAX && REF_OFFSET <= n < s.next)
  }

  lemma StepKeepsInv(s: State, op: Op)
    requires Inv(s)
    ensures Inv(Step(s, op).0)
  {
  }

  // ----- the cases in which a step changes the state -----

  lemma AddStep(s: State, o: JavaObject)
    requires Inv(s) && !o.isProxy && o !in s.refs && s.next < INT_MAX
    ensures s.next !in s.pins
    ensures var t := State(s.next + 1, s.refs[o := s.next], s.pins[s.next := Pin(o, 1)]);
            Inv(t) && Step(s, Inc(o)) == (t, Num(s.next))
  {
    StepKeepsInv(s, Inc(o));
  }

  lemma BumpStep(s: State, n: int, reply: Reply)
    requires Inv(s) && n in s.pins
    ensures Inv(Bump(s, n, reply).0) && Step(s, IncRefnum(n)) == Bump(s, n, Done)
  {
    StepKeepsInv(s, IncRefnum(n));
  }

  lemma CountDownStep(s: State, n: int)
    requires Inv(s) && n in s.pins && s.pins[n].count > 1
    ensures var t := s.(pins := s.pins[n := Pin(s.pins[n].obj, s.pins[n].count - 1)]);
            Inv(t) && Step(s, Dec(n)) == (t, Done)
  {
    StepKeepsInv(s, Dec(n));
  }

  lemma DropStep(s: State, n: int)
    requires Inv(s) && n in s.pins && s.pins[n].count <= 1
    ensures var t := State(s.next, s.refs - {s.pins[n].obj}, s.pins - {n});
            Inv(t) && Step(s, Dec(n)) == (t, Done)
  {
    StepKeepsInv(s, Dec(n));
  }

  function Run(s: State, ops: seq<Op>): State
    decreases |ops|
  {
    if ops == [] then s else Run(Step(s, ops[0]).0, ops[1..])
  }

  function ReplyOf(s: State, op: Op): Reply {
    Step(s, op).1
  }

  lemma {:induction false} RunKeepsInv(s: State, ops: seq<Op>)
    requires Inv(s)
    ensures Inv(Run(s, ops)) && s.next <= Run(s, ops).next
    decreases |ops|
  {
    if ops != [] {
      StepKeepsInv(s, ops[0]);
      RunKeepsInv(Step(s, ops[0]).0, ops[1..]);
    }
  }

  // ----- counts are increments minus decrements -----

  /** How an operation and its reply change the balance of reference number `n`. */
  function Balance(op: Op, reply: Reply, n: int): int {
    match op
    case Inc(o) => if o != null && !o.isProxy && reply == Num(n) then 1 else 0
    case IncRefnum(m) => if m == n && reply == Done then 1 else 0
    case Dec(m) => if m == n && reply == Done then -1 else 0
    case Find(_) => 0
  }

  function Total(s: State, ops: seq<Op>, n: int): int
    decreases |ops|
  {
    if ops == [] then 0
    else Balance(ops[0], ReplyOf(s, ops[0]), n) + Total(Step(s, ops[0]).0, ops[1..], n)
  }

  function PinCount(s: State, n: int): int {
    if n in s.pins then s.pins[n].count else 0
  }

  lemma StepCounts(s: State, op: Op, n: int)
    requires Inv(s) && n > NULL_REFNUM
    ensures PinCount(Step(s, op).0, n) == PinCount(s, n) + Balance(op, ReplyOf(s, op), n)
  {
  }

  lemma {:induction false} RunCounts(s: State, ops: seq<Op>, n: int)
    requires Inv(s) && n > NULL_REFNUM
    ensures PinCount(Run(s, ops), n) == PinCount(s, n) + Total(s, ops, n)
    decreases |ops|
  {
    if ops != [] {
      StepCounts(s, ops[0], n);
      StepKeepsInv(s, ops[0]);
      RunCounts(Step(s, ops[0]).0, ops[1..], n);
    }
  }

  /** On every run from the start an object is pinned exactly while its increments exceed its decrements, and its count
      is the difference; it is dropped exactly when they are equal. */
  lemma PinnedExactly(ops: seq<Op>, n: int)
    requires n > NULL_REFNUM
    ensures var s := Run(INITIAL, ops);
            && Inv(s)
            && Total(INITIAL, ops, n) >= 0
            && (n in s.pins <==> Total(INITIAL, ops, n) > 0)
            && (n in s.pins ==> s.pins[n].count == Total(INITIAL, ops, n))
  {
    hide Step, Run, Total;
    RunKeepsInv(INITIAL, ops);
    RunCounts(INITIAL, ops, n);
  }

  // ----- numbers are never reused -----

  lemma StepOwner(s: State, op: Op, n: int, o: JavaObject)
    requires Inv(s) && n in s.pins && s.pins[n].obj == o
    ensures var t := Step(s, op).0; n < t.next && (n in t.pins ==> t.pins[n].obj == o)
  {
  }

  lemma StepStaysDead(s: State, op: Op, n: int)
    requires Inv(s) && n < s.next && n !in s.pins
    ensures n < Step(s, op).0.next && n !in Step(s, op).0.pins
  {
  }

  /** A number that was given out and is no longer pinned is not pinned again on any run, and no later increment of any
      object, its last holder included, hands it out. */
  lemma {:induction false} DroppedNumberStaysDead(s: State, ops: seq<Op>, n: int)
    requires Inv(s) && n < s.next && n !in s.pins
    ensures var t := Run(s, ops);
            && n !in t.pins
            && forall o: JavaObject :: !o.isProxy ==> ReplyOf(t, Inc(o)) != Num(n)
    decreases |ops|
  {
    if ops == [] {
      forall o: JavaObject | !o.isProxy ensures ReplyOf(s, Inc(o)) != Num(n) {
        if ReplyOf(s, Inc(o)) == Num(n) {
          HandedOut(s, o, n);
          StepStaysDead(s, Inc(o), n);
        }
      }
    } else {
      hide Inv;
      StepStaysDead(s, ops[0], n);
      StepKeepsInv(s, ops[0]);
      DroppedNumberStaysDead(Step(s, ops[0]).0, ops[1..], n);
    }
  }

  /** A number handed out for an object names it at once. */
  lemma HandedOut(s: State, o: JavaObject, n: int)
    requires Inv(s) && !o.isProxy && ReplyOf(s, Inc(o)) == Num(n)
    ensures var t := Step(s, Inc(o)).0;
            n != NULL_REFNUM && REF_OFFSET <= n < t.next && n in t.pins && t.pins[n].obj == o
  {
  }

  /** The number is pinned for `o` in every state the run passes through. */
  ghost predicate HeldThroughout(s: State, ops: seq<Op>, n: int, o: JavaObject)
    decreases |ops|
  {
    n in s.pins && s.pins[n].obj == o && (ops == [] || HeldThroughout(Step(s, ops[0]).0, ops[1..], n, o))
  }

  /** What is pinned at the end of a run and was given out before it was pinned all along, for the same object. */
  lemma {:induction false} PinnedWasHeld(s: State, ops: seq<Op>, n: int, o: JavaObject)
    requires Inv(s) && n in s.pins && s.pins[n].obj == o && n in Run(s, ops).pins
    ensures HeldThroughout(s, ops, n, o) && Run(s, ops).pins[n].obj == o
    decreases |ops|
  {
    if ops != [] {
      hide Inv;
      var t := Step(s, ops[0]).0;
      StepOwner(s, ops[0], n, o);
      StepKeepsInv(s, ops[0]);
      if n !in t.pins {
        DroppedNumberStaysDead(t, ops[1..], n);
      } else {
        PinnedWasHeld(t, ops[1..], n, o);
      }
    }
  }

  /** If one number is handed out twice on a run, it is for the same object and that was pinned all the time between;
      the number is never that of the null reference. */
  lemma NumbersAreNeverReused(before: seq<Op>, a: JavaObject, between: seq<Op>, b: JavaObject, n: int)
    requires !a.isProxy && !b.isProxy
    requires var s := Run(INITIAL, before);
             var t := Run(Step(s, Inc(a)).0, between);
             ReplyOf(s, Inc(a)) == Num(n) && ReplyOf(t, Inc(b)) == Num(n)
    ensures a == b && n != NULL_REFNUM
    ensures HeldThroughout(Step(Run(INITIAL, before), Inc(a)).0, between, n, a)
  {
    hide Step, Run, HeldThroughout;
    var s := Run(INITIAL, before);
    RunKeepsInv(INITIAL, before);
    HandedOut(s, a, n);
    StepKeepsInv(s, Inc(a));
    var u := Step(s, Inc(a)).0;
    var t := Run(u, between);
    RunKeepsInv(u, between);
    if n !in t.pins {
      StepStaysDead(t, Inc(b), n);
    }
    HandedOut(t, b, n);
    PinnedWasHeld(u, between, n, a);
    StepOwner(t, Inc(b), n, a);
  }

  // ----- what a caller is told -----

  /** Replies in terms of the history alone: looking a number up, counting it up and counting it down succeed exactly
      while its increments exceed its decrements; numbers that are not positive and the null number are never refused by
      `dec`, and looking up the null number gives the null reference. */
  lemma RepliesExactly(ops: seq<Op>, n: int)
    ensures var s, live := Run(INITIAL, ops), n > 41 && Total(INITIAL, ops, n) > 0;
            && ReplyOf(s, Dec(n)) == (if n <= 0 || n == 41 || live then Done else Thrown)
            && ReplyOf(s, IncRefnum(n)) == (if live && Total(INITIAL, ops, n) < 0x7fff_ffff then Done else Thrown)
            && (ReplyOf(s, Find(n)) == Thrown <==> n != 41 && !live)
            && (n == 41 ==> ReplyOf(s, Find(n)) == Object(null))
  {
    hide Run, Total;
    var s := Run(INITIAL, ops);
    RunKeepsInv(INITIAL, ops);
    if n > 41 {
      PinnedExactly(ops, n);
    }
  }

  /** While a number is pinned it stands for the object it was given out for: looking it up gives that object, and
      another increment of the object gives that number again. */
  lemma NumberNamesObject(before: seq<Op>, o: JavaObject, between: seq<Op>, n: int)
    requires !o.isProxy && ReplyOf(Run(INITIAL, before), Inc(o)) == Num(n)
    ensures var t := Run(Step(Run(INITIAL, before), Inc(o)).0, between);
            n in t.pins ==>
              && ReplyOf(t, Find(n)) == Object(o)
              && (t.pins[n].count < 0x7fff_ffff ==> ReplyOf(t, Inc(o)) == Num(n))
  {
    hide Run, HeldThroughout;
    var s := Run(INITIAL, before);
    RunKeepsInv(INITIAL, before);
    HandedOut(s, o, n);
    StepKeepsInv(s, Inc(o));
    var u := Step(s, Inc(o)).0;
    var t := Run(u, between);
    RunKeepsInv(u, between);
    if n in t.pins {
      PinnedWasHeld(u, between, n, o);
    }
  }

  /** Null and proxies of Go objects are not counted: null has the number 41, and a proxy its own. */
  lemma OthersKeepTheirNumber(s: State, o: JavaObject?)
    requires o == null || o.isProxy
    ensures Step(s, Inc(o)) == (s, Num(if o == null then 41 else o.proxyRefnum))
  {
  }

  // ----- the class -----

  datatype Found = FoundRef(ref: Ref) | NullRef | NotFound

  ghost function RefsOf(m: map<int, Ref>): set<Ref> {
    set n | n in m :: m[n]
  }

  /** `p` is what the references hold. */
  ghost predicate Pinned(m: map<int, Ref>, p: map<int, Pin>)
    reads RefsOf(m)
  {
    && m.Keys == p.Keys
    && forall n :: n in m ==> m[n].refnum == n && p[n] == Pin(m[n].obj, m[n].refcnt)
  }

  /** All references but one are in step whatever happens to that one. */
  lemma PinnedElsewhere(m: map<int, Ref>, p: map<int, Pin>, k: int)
    requires Pinned(m, p)
    ensures Pinned(m - {k}, p - {k})
    ensures k in m ==> k in p && p[k] == Pin(m[k].obj, m[k].refcnt) && m[k].refnum == k && m[k] !in RefsOf(m - {k})
  {
  }

  /** A change at one number keeps the references in step if the others are and that one is. */
  lemma StaysPinned(m: map<int, Ref>, p: map<int, Pin>, m': map<int, Ref>, p': map<int, Pin>, k: int)
    requires Pinned(m - {k}, p - {k}) && m' - {k} == m - {k} && p' - {k} == p - {k}
    requires k in m' <==> k in p'
    requires k in m' ==> m'[k].refnum == k && p'[k] == Pin(m'[k].obj, m'[k].refcnt)
    ensures Pinned(m', p')
  {
    forall n | n != k
      ensures n in m' <==> n in p'
      ensures n in m' ==> m'[n].refnum == n && p'[n] == Pin(m'[n].obj, m'[n].refcnt)
    {
      assert n in m' <==> n in m' - {k};
      assert n in p' <==> n in p' - {k};
      if n in m' {
        assert m'[n] == (m' - {k})[n] && p'[n] == (p' - {k})[n];
      }
    }
    assert m'.Keys == p'.Keys by {
      assert forall n :: n in m' <==> n in p';
    }
  }

  class Tracker {
    var next: int
    const javaObjs: Map
    var javaRefs: map<JavaObject, int>
    ghost var pins: map<int, Pin>

    ghost function Refs(): set<Ref>
      reads javaObjs
    {
      RefsOf(javaObjs.contents)
    }

    ghost function Abs(): State
      reads this
    {
      State(next, javaRefs, pins)
    }

    ghost predicate Valid()
      reads this, javaObjs, javaObjs.keys, javaObjs.objs, Refs()
    {
      javaObjs.Valid() && Pinned(javaObjs.contents, pins) && Inv(Abs())
    }

    /** Whatever the tracker holds now and did not hold before is new. */
    twostate predicate NothingOld(refs: set<Ref>, keys: array<int>, objs: array<Ref?>)
      reads this, javaObjs
    {
      && (forall r :: r in Refs() ==> r in refs || fresh(r))
      && (javaObjs.keys == keys || fresh(javaObjs.keys)) && (javaObjs.objs == objs || fresh(javaObjs.objs))
    }

    constructor ()
      ensures Valid() && Abs() == INITIAL && fresh(javaObjs) && fresh(javaObjs.keys) && fresh(javaObjs.objs)
      ensures Refs() == {}
    {
      next, javaRefs, pins := REF_OFFSET, map[], map[];
      javaObjs := new Map();
    }

    /** `inc`. */
    method IncObject(o: JavaObject?) returns (reply: Reply)
      requires Valid()
      modifies this, javaObjs, javaObjs.keys, javaObjs.objs, Refs()
      ensures Valid() && (Abs(), reply) == Step(old(Abs()), Inc(o))
      ensures NothingOld(old(Refs()), old(javaObjs.keys), old(javaObjs.objs))
    {
      hide Map.Valid;
      if o == null {
        return Num(NULL_REFNUM);
      }
      if o.isProxy {
        return Num(o.proxyRefnum);
      }
      if o !in javaRefs {
        if next == INT_MAX {
          return Thrown;
        }
        var refnum := next;
        AddNew(o);
        return Num(refnum);
      }
      var refnum := javaRefs[o];
      var ref := javaObjs.Get(refnum);
      var ok := BumpRef(refnum, ref);
      reply := if ok then Num(refnum) else Thrown;
    }

    /** Lines 184-196 for an object seen for the first time; its number is new, so there is no reference to find. */
    method AddNew(o: JavaObject)
      requires Valid() && o !in javaRefs && next < INT_MAX && !o.isProxy
      modifies this, javaObjs, javaObjs.keys, javaObjs.objs
      ensures Valid() && Abs() == Step(old(Abs()), Inc(o)).0
      ensures NothingOld(old(Refs()), old(javaObjs.keys), old(javaObjs.objs))
    {
      hide Map.Valid, Pinned, Inv, Step;
      ghost var m, p, refnum := javaObjs.contents, pins, next;
      AddStep(Abs(), o);
      PinnedElsewhere(m, p, next);
      var ref := PutNewRef(next, o);
      javaRefs := javaRefs[o := next];
      next := next + 1;
      pins := pins[refnum := Pin(o, 1)];
      StaysPinned(m, p, javaObjs.contents, pins, refnum);
    }

    /** Lines 193-196. */
    method PutNewRef(refnum: int, o: JavaObject) returns (ref: Ref)
      requires javaObjs.Valid() && refnum !in javaObjs.contents
      modifies javaObjs, javaObjs.keys, javaObjs.objs
      ensures javaObjs.Valid() && javaObjs.contents == old(javaObjs.contents)[refnum := ref]
      ensures fresh(ref) && ref.refnum == refnum && ref.obj == o && ref.refcnt == 1
      ensures javaObjs.keys == old(javaObjs.keys) || fresh(javaObjs.keys)
      ensures javaObjs.objs == old(javaObjs.objs) || fresh(javaObjs.objs)
    {
      hide Map.Valid;
      ref := new Ref(refnum, o);
      var ok := javaObjs.Put(refnum, ref);
      var counted := ref.Inc();
    }

    /** `ref.inc()`. */
    method BumpRef(refnum: int, ref: Ref) returns (ok: bool)
      requires Valid() && refnum in javaObjs.contents && javaObjs.contents[refnum] == ref
      modifies this`pins, ref
      ensures Valid() && refnum in old(pins) && (Abs(), if ok then Done else Thrown) == Bump(old(Abs()), refnum, Done)
    {
      hide Map.Valid, Pinned, Inv, Step;
      ghost var m, p := javaObjs.contents, pins;
      PinnedElsewhere(m, p, refnum);
      BumpStep(Abs(), refnum, Done);
      ok := ref.Inc();
      if ok {
        pins := pins[refnum := Pin(ref.obj, ref.refcnt)];
      }
      StaysPinned(m, p, m, pins, refnum);
    }

    /** `incRefnum`. */
    method IncNumber(refnum: int) returns (reply: Reply)
      requires Valid()
      modifies this`pins, Refs()
      ensures Valid() && (Abs(), reply) == Step(old(Abs()), IncRefnum(refnum))
    {
      hide Map.Valid;
      var ref := javaObjs.Get(refnum);
      if ref == null {
        return Thrown;
      }
      var ok := BumpRef(refnum, ref);
      reply := if ok then Done else Thrown;
    }

    /** `dec`; the count falls in either branch. */
    method DecNumber(refnum: int) returns (reply: Reply)
      requires Valid()
      modifies this, javaObjs, javaObjs.objs, Refs()
      ensures Valid() && (Abs(), reply) == Step(old(Abs()), Dec(refnum))
      ensures Refs() <= old(Refs()) && javaObjs.keys == old(javaObjs.keys) && javaObjs.objs == old(javaObjs.objs)
    {
      hide Map.Valid;
      if refnum <= 0 {
        return Done;
      }
      if refnum == NULL_REFNUM {
        return Done;
      }
      var ref := javaObjs.Get(refnum);
      if ref == null {
        return Thrown;
      }
      if ref.refcnt - 1 <= 0 {
        DropRef(refnum, ref);
      } else {
        CountDown(refnum, ref);
      }
      reply := Done;
    }

    /** `ref.refcnt--` for a reference that stays. */
    method CountDown(refnum: int, ref: Ref)
      requires Valid() && refnum in javaObjs.contents && javaObjs.contents[refnum] == ref && ref.refcnt > 1
      modifies this`pins, ref
      ensures Valid() && (Abs(), Done) == Step(old(Abs()), Dec(refnum))
    {
      hide Map.Valid, Pinned, Inv, Step;
      ghost var m, p := javaObjs.contents, pins;
      PinnedElsewhere(m, p, refnum);
      CountDownStep(Abs(), refnum);
      ref.refcnt := ref.refcnt - 1;
      pins := pins[refnum := Pin(ref.obj, ref.refcnt)];
      StaysPinned(m, p, m, pins, refnum);
    }

    /** `ref.refcnt--` and the removal of the reference when the count reaches zero. */
    method DropRef(refnum: int, ref: Ref)
      requires Valid() && refnum in javaObjs.contents && javaObjs.contents[refnum] == ref && ref.refcnt <= 1
      modifies this`pins, this`javaRefs, ref, javaObjs, javaObjs.objs
      ensures Valid() && (Abs(), Done) == Step(old(Abs()), Dec(refnum))
      ensures javaObjs.contents == old(javaObjs.contents) - {refnum}
      ensures javaObjs.keys == old(javaObjs.keys) && javaObjs.objs == old(javaObjs.objs)
    {
      hide Map.Valid, Pinned, Inv, Step;
      ghost var m, p := javaObjs.contents, pins;
      PinnedElsewhere(m, p, refnum);
      DropStep(Abs(), refnum);
      ref.refcnt := ref.refcnt - 1;
      javaObjs.Remove(refnum);
      javaRefs := javaRefs - {ref.obj};
      pins := pins - {refnum};
      StaysPinned(m, p, javaObjs.contents, pins, refnum);
    }

    /** `get`; `NotFound` stands for the exceptions. */
    method Get(refnum: int) returns (r: Found)
      requires Valid()
      ensures refnum == NULL_REFNUM ==> r == NullRef
      ensures refnum != NULL_REFNUM ==>
                if refnum in pins then r.FoundRef? && r.ref.refnum == refnum && r.ref.obj == pins[refnum].obj
                else r == NotFound
    {
      hide Map.Valid;
      if refnum < 0 {
        return NotFound;
      }
      if refnum == NULL_REFNUM {
        return NullRef;
      }
      var ref := javaObjs.Get(refnum);
      r := if ref == null then NotFound else FoundRef(ref);
    }
  }

  /** The replies along a run. */
  function Replies(s: State, ops: seq<Op>): (r: seq<Reply>)
    ensures |r| == |ops|
    decreases |ops|
  {
    if ops == [] then [] else [ReplyOf(s, ops[0])] + Replies(Step(s, ops[0]).0, ops[1..])
  }

  /** Performs one operation on the tracker. */
  method Perform(t: Tracker, op: Op) returns (reply: Reply)
    requires t.Valid()
    modifies t, t.javaObjs, t.javaObjs.keys, t.javaObjs.objs, t.Refs()
    ensures t.Valid() && (t.Abs(), reply) == Step(old(t.Abs()), op)
    ensures t.NothingOld(old(t.Refs()), old(t.javaObjs.keys), old(t.javaObjs.objs))
  {
    hide Map.Valid, Pinned;
    match op {
      case Inc(o) => reply := t.IncObject(o);
      case IncRefnum(n) => reply := t.IncNumber(n);
      case Dec(n) => reply := t.DecNumber(n);
      case Find(n) =>
        var found := t.Get(n);
        reply := match found case FoundRef(ref) => Object(ref.obj) case NullRef => Object(null) case NotFound => Thrown;
    }
  }

  /** The class runs the state machine: on any list of operations it gives the machine's replies and stands where the
      machine stands. */
  method Execute(ops: seq<Op>) returns (t: Tracker, replies: seq<Reply>)
    ensures t.Valid() && t.Abs() == Run(INITIAL, ops)
    ensures replies == Replies(INITIAL, ops)
  {
    hide Step, Inv, Map.Valid, Pinned;
    t := new Tracker();
    replies := [];
    for i := 0 to |ops|
      invariant fresh(t) && fresh(t.javaObjs) && fresh(t.javaObjs.keys) && fresh(t.javaObjs.objs) && fresh(t.Refs())
      invariant t.Valid() && Run(INITIAL, ops) == Run(t.Abs(), ops[i..])
      invariant Replies(INITIAL, ops) == replies + Replies(t.Abs(), ops[i..])
    {
      assert ops[i..][1..] == ops[i + 1..];
      var reply := Perform(t, ops[i]);
      replies := replies + [reply];
    }
  }
}
