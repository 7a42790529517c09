/** BIP-32 path strings (types/path.rs). */
module DerivationPath {
  import opened Prelude

  const HARDENED_OFFSET: nat := 0x8000_0000
  const U32: nat := 0x1_0000_0000

  // ----- string primitives -----

  /** The Unicode White_Space characters, which `str::trim` removes. */
  predicate IsSpace(c: char) {
    var u := c as int;
    || 0x9 <= u <= 0xD || u == 0x20 || u == 0x85 || u == 0xA0 || u == 0x1680 || 0x2000 <= u <= 0x200A
    || u == 0x2028 || u == 0x2029 || u == 0x202F || u == 0x205F || u == 0x3000
  }

  function TrimStart(s: string): string {
    if s != [] && IsSpace(s[0]) then TrimStart(s[1..]) else s
  }

  function TrimEnd(s: string): string {
    if s != [] && IsSpace(s[|s| - 1]) then TrimEnd(s[..|s| - 1]) else s
  }

  function Trim(s: string): string {
    TrimEnd(TrimStart(s))
  }

  /** `str::split('/')`: always at least one piece. */
  function Split(s: string): (r: seq<string>)
    ensures |r| >= 1
  {
    if s == [] then [[]]
    else
      var r := Split(s[1..]);
      if s[0] == '/' then [[]] + r else [[s[0]] + r[0]] + r[1..]
  }

  function Join(pieces: seq<string>): string {
    if pieces == [] then [] else if |pieces| == 1 then pieces[0] else pieces[0] + ['/'] + Join(pieces[1..])
  }

  predicate IsDigit(c: char) {
    '0' <= c <= '9'
  }

  function DigitChar(d: nat): char
    requires d < 10
  {
    '0' + d as char
  }

  function Decimal(n: nat): string {
    if n < 10 then [DigitChar(n)] else Decimal(n / 10) + [DigitChar(n % 10)]
  }

  predicate AllDigits(s: string) {
    forall i :: 0 <= i < |s| ==> IsDigit(s[i])
  }

  function DecimalValue(s: string): nat
    requires AllDigits(s)
  {
    if s == [] then 0 else DecimalValue(s[..|s| - 1]) * 10 + (s[|s| - 1] as int - '0' as int)
  }

  /** `str::parse::<u32>`: an optional '+', at least one digit, no overflow. */
  function ParseU32(s: string): Option<nat> {
    var digits := if s != [] && s[0] == '+' then s[1..] else s;
    if digits == [] || !AllDigits(digits) || DecimalValue(digits) >= U32 then None else Some(DecimalValue(digits))
  }

  // ----- paths -----

  /** `num | HARDENED_OFFSET` on 32-bit numbers. */
  function Harden(n: nat): nat {
    if n >= HARDENED_OFFSET then n else n + HARDENED_OFFSET
  }

  function ParseComponent(c: string): Option<nat>
    requires c != []
  {
    var last := c[|c| - 1];
    if last == '\'' || last == 'h' then
      var n := ParseU32(c[..|c| - 1]);
      if n.None? then None else Some(Harden(n.value))
    else ParseU32(c)
  }

  function ParseComponents(cs: seq<string>): Option<seq<nat>> {
    if cs == [] then Some([])
    else
      var rest := ParseComponents(cs[..|cs| - 1]);
      var c := Trim(cs[|cs| - 1]);
      if rest.None? || c == [] then rest
      else
        var n := ParseComponent(c);
        if n.None? then None else Some(rest.value + [n.value])
  }

  function WithoutRoot(p: string): string {
    if |p| >= 2 && p[0] == 'm' && p[1] == '/' then p[2..] else p
  }

  function Parsed(path: string): Option<seq<nat>> {
    var p := Trim(path);
    if p == "m" || WithoutRoot(p) == [] then Some([]) else ParseComponents(Split(WithoutRoot(p)))
  }

  /** `parse_path`, with its loop and early error. */
  method ParsePath(path: string) returns (r: Option<seq<nat>>)
    ensures r == Parsed(path)
  {
    var p := Trim(path);
    if p == "m" {
      return Some([]);
    }
    p := WithoutRoot(p);
    if p == [] {
      return Some([]);
    }
    var components := Split(p);
    var result: seq<nat> := [];
    for i := 0 to |components|
      invariant ParseComponents(components[..i]) == Some(result)
    {
      assert components[..i + 1][..i] == components[..i];
      var component := Trim(components[i]);
      if component == [] {
        continue;
      }
      var n := ParseComponent(component);
      if n.None? {
        FailureStays(components, i + 1);
        return None;
      }
      result := result + [n.value];
    }
    assert components[..|components|] == components;
    r := Some(result);
  }

  lemma FailureStays(cs: seq<string>, i: nat)
    requires i <= |cs| && ParseComponents(cs[..i]).None?
    ensures ParseComponents(cs).None?
    decreases |cs| - i
  {
    if i == |cs| {
      assert cs[..i] == cs;
    } else {
      assert cs[..i + 1][..i] == cs[..i];
      FailureStays(cs, i + 1);
    }
  }

  function Component(n: nat): string {
    if n >= HARDENED_OFFSET then Decimal(n - HARDENED_OFFSET) + ['\''] else Decimal(n)
  }

  function Components(path: seq<nat>): seq<string> {
    seq(|path|, i requires 0 <= i < |path| => Component(path[i]))
  }

  /** `serialize_path`. */
  function Serialized(path: seq<nat>): string {
    if path == [] then "m" else "m/" + Join(Components(path))
  }

  // ----- round trip -----

  lemma {:induction false} DecimalRoundTrip(n: nat)
    ensures Decimal(n) != [] && AllDigits(Decimal(n)) && DecimalValue(Decimal(n)) == n
  {
    if n < 10 {
      assert [DigitChar(n)][..0] == [];
    } else {
      DecimalRoundTrip(n / 10);
      assert Decimal(n)[..|Decimal(n)| - 1] == Decimal(n / 10);
    }
  }

  /** What a printed component is made of. */
  predicate Plain(s: string) {
    forall i :: 0 <= i < |s| ==> IsDigit(s[i]) || s[i] == '\''
  }

  lemma ComponentRoundTrip(n: nat)
    requires n < U32
    ensures Component(n) != [] && Plain(Component(n)) && ParseComponent(Component(n)) == Some(n)
  {
    var m := if n >= HARDENED_OFFSET then n - HARDENED_OFFSET else n;
    var d := Decimal(m);
    DecimalRoundTrip(m);
    assert d[0] != '+' && IsDigit(d[|d| - 1]);
    assert (d + ['\''])[..|d|] == d;
  }

  lemma {:induction false} NothingToTrim(s: string)
    requires forall i :: 0 <= i < |s| ==> !IsSpace(s[i])
    ensures Trim(s) == s
  {
  }

  lemma {:induction false} SplitPiece(a: string, rest: string)
    requires '/' !in a
    ensures Split(a + ['/'] + rest) == [a] + Split(rest)
  {
    if a == [] {
      assert a + ['/'] + rest == ['/'] + rest;
      assert (['/'] + rest)[1..] == rest;
    } else {
      SplitPiece(a[1..], rest);
      assert (a + ['/'] + rest)[1..] == a[1..] + ['/'] + rest;
      assert a == [a[0]] + a[1..];
    }
  }

  lemma {:induction false} SplitLast(a: string)
    requires '/' !in a
    ensures Split(a) == [a]
  {
    if a != [] {
      SplitLast(a[1..]);
      assert a == [a[0]] + a[1..];
    }
  }

  /** Splitting undoes joining. */
  lemma {:induction false} SplitJoin(pieces: seq<string>)
    requires pieces != [] && forall i :: 0 <= i < |pieces| ==> '/' !in pieces[i]
    ensures Split(Join(pieces)) == pieces
  {
    if |pieces| == 1 {
      SplitLast(pieces[0]);
    } else {
      SplitJoin(pieces[1..]);
      SplitPiece(pieces[0], Join(pieces[1..]));
    }
  }

  lemma {:induction false} JoinedAreVisible(pieces: seq<string>)
    requires forall i :: 0 <= i < |pieces| ==> Plain(pieces[i])
    ensures forall j :: 0 <= j < |Join(pieces)| ==> !IsSpace(Join(pieces)[j])
    ensures pieces != [] && pieces[0] != [] ==> Join(pieces) != []
  {
    if |pieces| > 1 {
      JoinedAreVisible(pieces[1..]);
    }
  }

  lemma ComponentTrims(n: nat)
    requires n < U32
    ensures Trim(Component(n)) == Component(n)
  {
    hide Component, ParseComponent;
    ComponentRoundTrip(n);
    NothingToTrim(Component(n));
  }

  lemma {:induction false} ComponentsRoundTrip(path: seq<nat>)
    requires forall i :: 0 <= i < |path| ==> path[i] < U32
    ensures ParseComponents(Components(path)) == Some(path)
  {
    hide Component, ParseComponent, Trim;
    if path != [] {
      var n := |path| - 1;
      ComponentsRoundTrip(path[..n]);
      assert Components(path)[..n] == Components(path[..n]);
      ComponentRoundTrip(path[n]);
      ComponentTrims(path[n]);
      assert path == path[..n] + [path[n]];
    }
  }

  /** Parsing a printed path gives it back, for every list of 32-bit indices. */
  lemma PathRoundTrip(path: seq<nat>)
    requires forall i :: 0 <= i < |path| ==> path[i] < U32
    ensures Parsed(Serialized(path)) == Some(path)
  {
    hide Component, ParseComponent;
    if path == [] {
      NothingToTrim("m");
    } else {
      var cs := Components(path);
      forall i | 0 <= i < |cs| ensures Plain(cs[i]) && cs[i] != [] && '/' !in cs[i] {
        ComponentRoundTrip(path[i]);
      }
      JoinedAreVisible(cs);
      var s := "m/" + Join(cs);
      NothingToTrim(s);
      assert s[2..] == Join(cs);
      SplitJoin(cs);
      ComponentsRoundTrip(path);
    }
  }

  lemma {:induction false} ParsedFit(cs: seq<string>)
    requires ParseComponents(cs).Some?
    ensures forall i :: 0 <= i < |ParseComponents(cs).value| ==> ParseComponents(cs).value[i] < U32
  {
    if cs != [] {
      ParsedFit(cs[..|cs| - 1]);
    }
  }

  /** Whatever parses, in whatever spelling, prints to a path that parses to the same indices. */
  lemma CanonicalSpelling(s: string)
    requires Parsed(s).Some?
    ensures Parsed(Serialized(Parsed(s).value)) == Parsed(s)
  {
    hide Serialized, ParseComponents;
    if Trim(s) != "m" && WithoutRoot(Trim(s)) != [] {
      ParsedFit(Split(WithoutRoot(Trim(s))));
    }
    PathRoundTrip(Parsed(s).value);
  }

  // ----- what is printed -----

  /** A number as it is printed: its decimal digits, without a zero in front of another digit. */
  ghost predicate IsDecimal(s: string, n: nat) {
    s != [] && AllDigits(s) && DecimalValue(s) == n && (|s| > 1 ==> s[0] != '0')
  }

  lemma {:induction false} DecimalIsShort(n: nat)
    ensures IsDecimal(Decimal(n), n)
    ensures n > 0 ==> Decimal(n)[0] != '0'
  {
    DecimalRoundTrip(n);
    if n >= 10 {
      DecimalIsShort(n / 10);
      assert Decimal(n)[0] == Decimal(n / 10)[0];
    }
  }

  /** A printed path is "m", or "m/" and the components between slashes: the decimal number below the hardening bit, and
      an apostrophe exactly when that bit is set. */
  lemma SerializedShape(path: seq<nat>)
    requires forall i :: 0 <= i < |path| ==> path[i] < U32
    ensures path == [] ==> Serialized(path) == "m"
    ensures path != [] ==>
              && "m/" <= Serialized(path)
              && var pieces := Split(Serialized(path)[2..]);
                 && |pieces| == |path|
                 && forall i :: 0 <= i < |path| ==>
                      if path[i] < 0x8000_0000 then IsDecimal(pieces[i], path[i])
                      else |pieces[i]| > 0 && pieces[i][|pieces[i]| - 1] == '\''
                           && IsDecimal(pieces[i][..|pieces[i]| - 1], path[i] - 0x8000_0000)
  {
    if path != [] {
      hide IsDecimal, Decimal, ParseComponent;
      var cs := Components(path);
      forall i | 0 <= i < |cs| ensures '/' !in cs[i] {
        ComponentRoundTrip(path[i]);
      }
      assert Serialized(path)[2..] == Join(cs);
      SplitJoin(cs);
      forall i | 0 <= i < |path|
        ensures if path[i] < 0x8000_0000 then IsDecimal(cs[i], path[i])
                else |cs[i]| > 0 && cs[i][|cs[i]| - 1] == '\'' && IsDecimal(cs[i][..|cs[i]| - 1], path[i] - 0x8000_0000)
      {
        ComponentShape(path[i]);
      }
    }
  }

  lemma ComponentShape(n: nat)
    ensures if n < 0x8000_0000 then IsDecimal(Component(n), n)
            else var c := Component(n);
                 |c| > 0 && c[|c| - 1] == '\'' && IsDecimal(c[..|c| - 1], n - 0x8000_0000)
  {
    hide IsDecimal, Decimal;
    if n < 0x8000_0000 {
      DecimalIsShort(n);
    } else {
      DecimalIsShort(n - 0x8000_0000);
      var d := Decimal(n - 0x8000_0000);
      assert (d + ['\''])[..|d|] == d;
    }
  }

  // ----- what is parsed -----

  predicate Blank(s: string) {
    forall i :: 0 <= i < |s| ==> IsSpace(s[i])
  }

  lemma {:induction false} TrimStartCuts(s: string) returns (lead: string)
    ensures Blank(lead) && s == lead + TrimStart(s)
    ensures TrimStart(s) != [] ==> !IsSpace(TrimStart(s)[0])
  {
    lead := [];
    if s != [] && IsSpace(s[0]) {
      lead := TrimStartCuts(s[1..]);
      lead := [s[0]] + lead;
      assert s == [s[0]] + s[1..];
    }
  }

  lemma {:induction false} TrimEndCuts(s: string) returns (trail: string)
    ensures Blank(trail) && s == TrimEnd(s) + trail
    ensures TrimEnd(s) != [] ==> !IsSpace(TrimEnd(s)[|TrimEnd(s)| - 1])
  {
    trail := [];
    if s != [] && IsSpace(s[|s| - 1]) {
      var n := |s| - 1;
      trail := TrimEndCuts(s[..n]);
      trail := trail + [s[n]];
      assert s == s[..n] + [s[n]];
    }
  }

  /** Trimming takes away white space at both ends, and all of it. */
  lemma TrimExactly(s: string) returns (lead: string, trail: string)
    ensures Blank(lead) && Blank(trail) && s == lead + Trim(s) + trail
    ensures var t := Trim(s); t != [] ==> !IsSpace(t[0]) && !IsSpace(t[|t| - 1])
  {
    hide IsSpace;
    lead := TrimStartCuts(s);
    trail := TrimEndCuts(TrimStart(s));
    assert lead + (Trim(s) + trail) == lead + Trim(s) + trail;
    if Trim(s) != [] {
      assert Trim(s)[0] == TrimStart(s)[0];
    }
  }

  /** A component as users write it: perhaps a plus, decimal digits below 2^32, perhaps a mark of hardening, which sets
      the highest bit. */
  ghost predicate SpellsAs(c: string, n: nat, plus: bool, digits: string, mark: string) {
    && c == (if plus then "+" else "") + digits + mark
    && digits != [] && AllDigits(digits) && DecimalValue(digits) < 0x1_0000_0000
    && (mark == "" || mark == "'" || mark == "h")
    && n == if mark == "" then DecimalValue(digits) else DecimalValue(digits) % 0x8000_0000 + 0x8000_0000
  }

  ghost predicate Spells(c: string, n: nat) {
    exists plus, digits, mark :: SpellsAs(c, n, plus, digits, mark)
  }

  lemma NumberExactly(c: string, n: nat)
    ensures ParseU32(c) == Some(n)
            <==> exists plus, digits :: SpellsAs(c, n, plus, digits, "")
  {
    hide DecimalValue;
    if ParseU32(c) == Some(n) {
      var plus := c != [] && c[0] == '+';
      var digits := if plus then c[1..] else c;
      WithoutSign(c, plus, digits);
      assert SpellsAs(c, n, plus, digits, "");
    }
    if plus, digits :| SpellsAs(c, n, plus, digits, "") {
      assert IsDigit(digits[0]);
      SignThenDigits(plus, digits);
    }
  }

  lemma WithoutSign(c: string, plus: bool, digits: string)
    requires if plus then c != [] && c[0] == '+' && digits == c[1..] else digits == c
    ensures c == (if plus then "+" else "") + digits + ""
  {
    assert plus ==> c == [c[0]] + c[1..];
  }

  lemma SignThenDigits(plus: bool, digits: string)
    requires digits != [] && IsDigit(digits[0])
    ensures var c := (if plus then "+" else "") + digits + "";
            c != [] && (c[0] == '+' <==> plus) && (if plus then c[1..] == digits else c == digits)
  {
  }

  /** A component is accepted, and as which number, exactly when it is spelt so. */
  lemma ComponentExactly(c: string, n: nat)
    requires c != []
    ensures ParseComponent(c) == Some(n) <==> Spells(c, n)
  {
    hide ParseComponent, SpellsAs;
    if ParseComponent(c) == Some(n) {
      SpelledSo(c, n);
    }
    if plus, digits, mark :| SpellsAs(c, n, plus, digits, mark) {
      if mark == "" {
        UnmarkedIsParsed(c, n, plus, digits);
      } else {
        MarkedIsParsed(c, n, plus, digits, mark);
      }
    }
  }

  lemma UnmarkedIsParsed(c: string, n: nat, plus: bool, digits: string)
    requires SpellsAs(c, n, plus, digits, "")
    ensures c != [] && ParseComponent(c) == Some(n)
  {
    hide DecimalValue, ParseU32;
    NumberExactly(c, n);
    var front := if plus then "+" else "";
    assert c == front + digits;
    assert c[|c| - 1] == digits[|digits| - 1];
    assert IsDigit(digits[|digits| - 1]);
  }

  lemma MarkedIsParsed(c: string, n: nat, plus: bool, digits: string, mark: string)
    requires SpellsAs(c, n, plus, digits, mark) && mark != ""
    ensures c != [] && ParseComponent(c) == Some(n)
  {
    hide DecimalValue, ParseU32, AllDigits;
    var front := (if plus then "+" else "") + digits;
    assert c == front + mark && front + "" == front;
    assert c[..|c| - 1] == front && c[|c| - 1] == mark[0];
    assert SpellsAs(front, DecimalValue(digits), plus, digits, "");
    NumberExactly(front, DecimalValue(digits));
  }

  lemma SpelledSo(c: string, n: nat)
    requires c != [] && ParseComponent(c) == Some(n)
    ensures Spells(c, n)
  {
    hide ParseU32;
    var last := |c| - 1;
    if c[last] == '\'' || c[last] == 'h' {
      var m := ParseU32(c[..last]).value;
      NumberExactly(c[..last], m);
      hide SpellsAs;
      var plus, digits :| SpellsAs(c[..last], m, plus, digits, "");
      assert c == c[..last] + [c[last]];
      MarkedSpells(c[..last], m, plus, digits, c[last]);
    } else {
      NumberExactly(c, n);
      hide SpellsAs;
      var plus, digits :| SpellsAs(c, n, plus, digits, "");
    }
  }

  lemma MarkedSpells(front: string, m: nat, plus: bool, digits: string, mark: char)
    requires SpellsAs(front, m, plus, digits, "") && (mark == '\'' || mark == 'h')
    ensures Spells(front + [mark], Harden(m))
  {
    hide DecimalValue, AllDigits;
    var sign := if plus then "+" else "";
    assert front == sign + digits;
    assert front + [mark] == sign + digits + [mark];
    assert SpellsAs(front + [mark], Harden(m), plus, digits, [mark]);
  }

  /** The pieces, trimmed and without the blank ones, spell the numbers in order. */
  ghost predicate SpellAll(pieces: seq<string>, ns: seq<nat>) {
    if pieces == [] then ns == []
    else
      var c, front := Trim(pieces[|pieces| - 1]), pieces[..|pieces| - 1];
      if c == [] then SpellAll(front, ns)
      else ns != [] && Spells(c, ns[|ns| - 1]) && SpellAll(front, ns[..|ns| - 1])
  }

  lemma {:induction false} ComponentsExactly(pieces: seq<string>, ns: seq<nat>)
    ensures ParseComponents(pieces) == Some(ns) <==> SpellAll(pieces, ns)
  {
    hide Trim, ParseComponent, Spells;
    if pieces != [] {
      var c, front := Trim(pieces[|pieces| - 1]), pieces[..|pieces| - 1];
      if c == [] {
        ComponentsExactly(front, ns);
      } else if ns != [] {
        var m := |ns| - 1;
        ComponentsExactly(front, ns[..m]);
        ComponentExactly(c, ns[m]);
        assert ns == ns[..m] + [ns[m]];
      }
    }
  }

  /** Which strings are accepted, and as which path: "m" alone is the empty path; otherwise the pieces between slashes,
      after an optional "m/", each spell a number or are blank. */
  lemma ParsedExactly(path: string, body: string, ns: seq<nat>)
    ensures Trim(path) == "m" ==> Parsed(path) == Some([])
    ensures Trim(path) == "m/" + body ==> (Parsed(path) == Some(ns) <==> SpellAll(Split(body), ns))
    ensures Trim(path) != "m" && !("m/" <= Trim(path)) ==>
              (Parsed(path) == Some(ns) <==> SpellAll(Split(Trim(path)), ns))
  {
    hide Trim, Split, ParseComponents, SpellAll;
    var p := Trim(path);
    NoPieces(ns);
    if p == "m/" + body {
      assert WithoutRoot(p) == body;
      ComponentsExactly(Split(body), ns);
    }
    if p != "m" && !("m/" <= p) {
      RootIsPrefix(p);
      ComponentsExactly(Split(p), ns);
    }
  }

  lemma RootIsPrefix(p: string)
    ensures !("m/" <= p) ==> WithoutRoot(p) == p
  {
    if |p| >= 2 && p[0] == 'm' && p[1] == '/' {
      assert p[..2] == "m/";
    }
  }

  lemma NoPieces(ns: seq<nat>)
    ensures SpellAll(Split([]), ns) <==> ns == []
  {
    var pieces: seq<string> := [[]];
    assert Split([]) == pieces && Trim([]) == [];
    assert pieces[..0] == [];
  }
}
