/**
 Reverse lookups of src/dns64/proxy.go: an ip6.arpa name is taken apart into an
 address, and the first zone prefix that embeds an IPv4 address there wins.
 */
module ReverseNames {
  import opened Octets
  import opened Buffers
  import opened Prefixes

  // ---------------------------------------------------------------------
  // ASCII text.

  function LowerChar(c: char): char {
    if 'A' <= c <= 'Z' then c - 'A' + 'a' else c
  }

  function Lower(s: string): (r: string)
    ensures |r| == |s|
  {
    seq(|s|, i requires 0 <= i < |s| => LowerChar(s[i]))
  }

  /** strings.Split at dots. */
  function Split(s: string): (r: seq<string>)
    ensures |r| > 0
  {
    if s == [] then [[]]
    else if s[0] == '.' then [[]] + Split(s[1..])
    else [[s[0]] + Split(s[1..])[0]] + Split(s[1..])[1..]
  }

  function Join(parts: seq<string>): string
    requires |parts| > 0
  {
    if |parts| == 1 then parts[0] else parts[0] + ['.'] + Join(parts[1..])
  }

  lemma {:induction false} JoinOfSplit(s: string)
    ensures Join(Split(s)) == s
  {
    if s != [] {
      JoinOfSplit(s[1..]);
      var rest := Split(s[1..]);
      assert Split(s)[1..] == if s[0] == '.' then rest else rest[1..];
      assert s == [s[0]] + s[1..];
    }
  }

  lemma {:induction false} SplitOfPart(part: string, rest: string)
    requires '.' !in part
    ensures Split(part + ['.'] + rest) == [part] + Split(rest)
    ensures Split(part) == [part]
  {
    if part == [] {
      assert part + ['.'] + rest == ['.'] + rest;
    } else {
      SplitOfPart(part[1..], rest);
      assert (part + ['.'] + rest)[1..] == part[1..] + ['.'] + rest;
      assert part == [part[0]] + part[1..];
    }
  }

  lemma {:induction false} SplitOfJoin(parts: seq<string>)
    requires |parts| > 0 && forall i :: 0 <= i < |parts| ==> '.' !in parts[i]
    ensures Split(Join(parts)) == parts
  {
    if |parts| == 1 {
      SplitOfPart(parts[0], []);
    } else {
      SplitOfPart(parts[0], Join(parts[1..]));
      SplitOfJoin(parts[1..]);
      assert parts == [parts[0]] + parts[1..];
    }
  }

  // ---------------------------------------------------------------------
  // The name of an address.

  const SUFFIX := ".ip6.arpa."

  function HexDigit(n: nat): char
    requires n < 16
  {
    if n < 10 then '0' + n as char else 'a' + (n - 10) as char
  }

  function NibbleVal(c: char): int {
    if '0' <= c <= '9' then c as int - '0' as int
    else if 'a' <= c <= 'f' then c as int - 'a' as int + 10
    else -1
  }

  /** The i-th half octet from the least significant end. */
  function Nibble(a: Octets16, i: nat): (n: nat)
    requires i < 32
    ensures n < 16
  {
    var b: int := a[15 - i / 2];
    if i % 2 == 0 then b % 16 else b / 16
  }

  function Nibbles(a: Octets16): (r: seq<string>)
    ensures |r| == 32
  {
    seq(32, i requires 0 <= i < 32 => [HexDigit(Nibble(a, i))])
  }

  /** Section 2.5 of RFC 3596: the 32 nibbles, least significant first, under ip6.arpa. */
  function ArpaName(a: Octets16): string {
    Join(Nibbles(a)) + SUFFIX
  }

  lemma HexDigits(n: nat)
    requires n < 16
    ensures NibbleVal(HexDigit(n)) == n && HexDigit(n) != '.' && LowerChar(HexDigit(n)) == HexDigit(n)
  {
  }

  lemma NibbleValues(c: char)
    requires NibbleVal(c) >= 0
    ensures NibbleVal(c) < 16 && HexDigit(NibbleVal(c)) == c
  {
  }

  lemma PartsOfName(a: Octets16)
    ensures Split(Join(Nibbles(a))) == Nibbles(a)
  {
    forall i | 0 <= i < 32
      ensures '.' !in Nibbles(a)[i]
    {
      HexDigits(Nibble(a, i));
    }
    SplitOfJoin(Nibbles(a));
  }

  lemma {:induction false} LowerOfJoin(parts: seq<string>)
    requires |parts| > 0 && forall i :: 0 <= i < |parts| ==> Lower(parts[i]) == parts[i]
    ensures Lower(Join(parts)) == Join(parts)
  {
    if |parts| > 1 {
      LowerOfJoin(parts[1..]);
      var x, y := parts[0], Join(parts[1..]);
      assert forall i :: 0 <= i < |x| ==> Lower(x)[i] == LowerChar(x[i]) == x[i];
      assert forall i :: 0 <= i < |y| ==> Lower(y)[i] == LowerChar(y[i]) == y[i];
    } else {
      assert Join(parts) == parts[0];
    }
  }

  lemma NamesAreLowerCase(a: Octets16)
    ensures Lower(ArpaName(a)) == ArpaName(a)
  {
    forall i | 0 <= i < 32
      ensures Lower(Nibbles(a)[i]) == Nibbles(a)[i]
    {
      HexDigits(Nibble(a, i));
    }
    LowerOfJoin(Nibbles(a));
    var x := Join(Nibbles(a));
    assert forall i :: 0 <= i < |x| ==> Lower(x)[i] == LowerChar(x[i]) == x[i];
    assert forall i :: 0 <= i < |SUFFIX| ==> LowerChar(SUFFIX[i]) == SUFFIX[i];
  }

  /** Two addresses with the same nibbles are the same. */
  lemma NibblesDetermine(a: Octets16, b: Octets16)
    requires forall i :: 0 <= i < 32 ==> Nibble(a, i) == Nibble(b, i)
    ensures a == b
  {
    forall k | 0 <= k < 16
      ensures a[k] == b[k]
    {
      var i := 2 * (15 - k);
      assert i / 2 == 15 - k && (i + 1) / 2 == 15 - k && i % 2 == 0 && (i + 1) % 2 == 1;
      assert Nibble(a, i) == Nibble(b, i) && Nibble(a, i + 1) == Nibble(b, i + 1);
      var x: int, y: int := a[k], b[k];
      assert x == 16 * (x / 16) + x % 16 && y == 16 * (y / 16) + y % 16;
    }
  }

  // ---------------------------------------------------------------------
  // The code.

  /** A half octet that was zero takes a value; or-ing disjoint bits is adding them. */
  function WithNibble(a: Octets16, i: nat, v: nat): (r: Octets16)
    requires i < 32 && v < 16 && Nibble(a, i) == 0
    ensures forall k :: 0 <= k < 32 ==> Nibble(r, k) == if k == i then v else Nibble(a, k)
  {
    var b: int := a[15 - i / 2];
    assert b == 16 * (b / 16) + b % 16;
    if i % 2 == 0 then a[15 - i / 2 := b + v] else a[15 - i / 2 := b + 16 * v]
  }

  lemma SpellsName(s: string, parts: seq<string>, a: Octets16)
    requires parts == Split(s) && |parts| == 32
    requires forall k :: 0 <= k < 32 ==> |parts[k]| == 1 && NibbleVal(parts[k][0]) == Nibble(a, k)
    ensures s == Join(Nibbles(a))
  {
    JoinOfSplit(s);
    forall k | 0 <= k < 32
      ensures parts[k] == Nibbles(a)[k]
    {
      NibbleValues(parts[k][0]);
      assert parts[k] == [parts[k][0]];
    }
    assert parts == Nibbles(a);
  }

  /** A part that is no single hexadecimal digit makes the text the name of no address. */
  lemma NamesNoAddress(s: string, a: Octets16)
    requires s + SUFFIX == ArpaName(a)
    ensures |Split(s)| == 32
    ensures forall k :: 0 <= k < 32 ==> |Split(s)[k]| == 1 && NibbleVal(Split(s)[k][0]) >= 0
  {
    assert s == (s + SUFFIX)[..|s|] == Join(Nibbles(a));
    PartsOfName(a);
    forall k | 0 <= k < 32
      ensures |Split(s)[k]| == 1 && NibbleVal(Split(s)[k][0]) >= 0
    {
      HexDigits(Nibble(a, k));
    }
  }

  predicate HasSuffix(s: string) {
    |s| >= |SUFFIX| && s[|s| - |SUFFIX|..] == SUFFIX
  }

  /** ptrToIPv6 finds the one address a name stands for, whatever its letter case, and refuses every other text. */
  method PtrToIPv6(ptr: string) returns (r: Option<Octets16>)
    ensures r.Some? ==> Lower(ptr) == ArpaName(r.value)
    ensures r.None? ==> forall a :: Lower(ptr) != ArpaName(a)
  {
    var low := Lower(ptr);
    if !HasSuffix(low) {
      forall a
        ensures low != ArpaName(a)
      {
        assert HasSuffix(ArpaName(a));
      }
      return None;
    }
    var s := low[..|low| - |SUFFIX|];
    assert low == s + SUFFIX;
    var parts := Split(s);
    hide Nibble, ArpaName, Split, Join;
    forall a | low == ArpaName(a)
      ensures |parts| == 32 && forall k :: 0 <= k < 32 ==> |parts[k]| == 1 && NibbleVal(parts[k][0]) >= 0
    {
      NamesNoAddress(s, a);
    }
    if |parts| != 32 {
      return None;
    }
    var raw: Octets16 := Zeros(16);
    ZeroNibbles();
    var i := 0;
    while i < 32
      invariant 0 <= i <= 32
      invariant forall k :: 0 <= k < i ==> |parts[k]| == 1 && NibbleVal(parts[k][0]) == Nibble(raw, k)
      invariant forall k :: i <= k < 32 ==> Nibble(raw, k) == 0
    {
      if |parts[i]| != 1 {
        return None;
      }
      var v := NibbleVal(parts[i][0]);
      if v < 0 {
        return None;
      }
      raw := WithNibble(raw, i, v);
      i := i + 1;
    }
    SpellsName(s, parts, raw);
    NameOf(s, low, raw);
    r := Some(raw);
  }

  lemma NameOf(s: string, low: string, a: Octets16)
    requires low == s + SUFFIX && s == Join(Nibbles(a))
    ensures low == ArpaName(a)
  {
  }

  lemma ZeroNibbles()
    ensures forall k :: 0 <= k < 32 ==> Nibble(Zeros(16), k) == 0
  {
  }

  /** Names tell addresses apart. */
  lemma NameIsInjective(a: Octets16, b: Octets16)
    requires ArpaName(a) == ArpaName(b)
    ensures a == b
  {
    var x, y := Join(Nibbles(a)), Join(Nibbles(b));
    assert x == ArpaName(a)[..|ArpaName(a)| - |SUFFIX|] == y;
    PartsOfName(a);
    PartsOfName(b);
    forall i | 0 <= i < 32
      ensures Nibble(a, i) == Nibble(b, i)
    {
      HexDigits(Nibble(a, i));
      HexDigits(Nibble(b, i));
      assert Nibbles(a)[i] == Nibbles(b)[i];
    }
    NibblesDetermine(a, b);
  }

  // ---------------------------------------------------------------------
  // Zones.

  ghost predicate AllValid(zones: seq<Option<Pref64>>) {
    forall i :: 0 <= i < |zones| && zones[i].Some? ==> Valid(zones[i].value)
  }

  predicate Extracts(zone: Option<Pref64>, a: Octets16)
    requires zone.Some? ==> Supported(zone.value.bits)
  {
    zone.Some? && Extract(zone.value, a).Some?
  }

  /** The first zone whose prefix embeds an IPv4 address there. */
  ghost predicate Answers(zones: seq<Option<Pref64>>, a: Octets16, i: nat)
    requires AllValid(zones) && i < |zones|
  {
    Extracts(zones[i], a) && forall j :: 0 <= j < i ==> !Extracts(zones[j], a)
  }

  /** What a lookup of an address gives: the first answering zone's IPv4 address, or nothing. */
  ghost predicate Found(zones: seq<Option<Pref64>>, a: Octets16, r: Option<Octets4>)
    requires AllValid(zones)
  {
    match r
    case None => forall i :: 0 <= i < |zones| ==> !Extracts(zones[i], a)
    case Some(v) => exists i :: 0 <= i < |zones| && Answers(zones, a, i) && Extract(zones[i].value, a) == Some(v)
  }

  lemma FoundIsUnique(zones: seq<Option<Pref64>>, a: Octets16, q: Option<Octets4>, r: Option<Octets4>)
    requires AllValid(zones) && Found(zones, a, q) && Found(zones, a, r)
    ensures q == r
  {
    hide Extract;
    if q.Some? && r.Some? {
      var i :| 0 <= i < |zones| && Answers(zones, a, i) && Extract(zones[i].value, a) == Some(q.value);
      var j :| 0 <= j < |zones| && Answers(zones, a, j) && Extract(zones[j].value, a) == Some(r.value);
      assert i == j;
    }
  }

  /** reversePTR: for the name of an address, what the first zone that embeds an IPv4 address there says. */
  method ReversePtr(zones: seq<Option<Pref64>>, name: string) returns (r: Option<Octets4>)
    requires AllValid(zones)
    ensures forall a :: Lower(name) == ArpaName(a) ==> Found(zones, a, r)
    ensures (forall a :: Lower(name) != ArpaName(a)) ==> r == None
  {
    var parsed := PtrToIPv6(name);
    if parsed.None? {
      return None;
    }
    var a := parsed.value;
    forall b | Lower(name) == ArpaName(b)
      ensures b == a
    {
      NameIsInjective(a, b);
    }
    hide ArpaName, Embed, V4Mapped, Extract;
    var i := 0;
    while i < |zones|
      invariant 0 <= i <= |zones|
      invariant forall j :: 0 <= j < i ==> !Extracts(zones[j], a)
    {
      if zones[i].Some? {
        var got := ExtractFrom(zones[i].value, a);
        if got.Some? {
          assert Answers(zones, a, i);
          return got;
        }
      }
      i := i + 1;
    }
    r := None;
  }

  /**
   Zone i answers for an address embedded under its prefix if and only if the
   embedding is not hidden and no earlier zone extracts an address there, and
   then the lookup of the name gives the IPv4 address back.
   */
  lemma ReverseFindsEmbeddedIff(zones: seq<Option<Pref64>>, i: nat, v: Octets4)
    requires AllValid(zones) && i < |zones| && zones[i].Some?
    ensures var a := Embed(zones[i].value, v);
            && Lower(ArpaName(a)) == ArpaName(a)
            && (Answers(zones, a, i) <==> !Hidden(zones[i].value, v) && forall j :: 0 <= j < i ==> !Extracts(zones[j], a))
            && (Answers(zones, a, i) ==> Found(zones, a, Some(v)))
  {
    var a := Embed(zones[i].value, v);
    NamesAreLowerCase(a);
    EmbeddedExtracts(zones[i].value, v);
    hide Extract, Embed, ArpaName, Lower, Hidden;
  }

  lemma EmbeddedExtracts(p: Pref64, v: Octets4)
    requires Valid(p)
    ensures Extract(p, Embed(p, v)) == if Hidden(p, v) then None else Some(v)
  {
    RoundTripIff(p, v);
    GatheredOfEmbed(p, v);
    hide Embed, Hidden, Contains;
  }

  lemma HiddenIsNotExtracted(zones: seq<Option<Pref64>>, p: Pref64, v: Octets4)
    requires AllValid(zones) && Hidden(p, v)
    ensures forall j :: 0 <= j < |zones| ==> !Extracts(zones[j], Embed(p, v))
  {
    HiddenIsMapped(p, v);
    hide Embed, Hidden, V4Mapped, Masked, Gathered;
  }

  /** The lookup gives v back if and only if it is not hidden and an earlier zone that answers says v as well. */
  lemma ReverseRoundTripIff(zones: seq<Option<Pref64>>, i: nat, v: Octets4)
    requires AllValid(zones) && i < |zones| && zones[i].Some?
    ensures var a := Embed(zones[i].value, v);
            Found(zones, a, Some(v))
            <==> !Hidden(zones[i].value, v) && forall j :: 0 <= j < i && Answers(zones, a, j) ==> Extract(zones[j].value, a) == Some(v)
  {
    hide Extract, Embed, Hidden, Valid;
    EmbeddedExtracts(zones[i].value, v);
    if Hidden(zones[i].value, v) {
      HiddenIsNotExtracted(zones, zones[i].value, v);
    } else {
      var f := FirstAnswer(zones, Embed(zones[i].value, v), i);
    }
  }

  lemma {:induction false} FirstAnswer(zones: seq<Option<Pref64>>, a: Octets16, i: nat) returns (f: nat)
    requires AllValid(zones) && i < |zones| && Extracts(zones[i], a)
    ensures f <= i && Answers(zones, a, f)
    decreases i
  {
    hide Extracts;
    if j :| 0 <= j < i && Extracts(zones[j], a) {
      f := FirstAnswer(zones, a, j);
    } else {
      f := i;
    }
  }

  const WELL_KNOWN: Octets16 := [0, 0x64, 0xff, 0x9b, 0, 0, 0, 0, 0, 0, 0, 0, 0, 0, 0, 0]

  lemma WellKnownIsValid(bits: nat)
    requires bits == 32 || bits == 96
    ensures Valid(Pref64(WELL_KNOWN, bits))
  {
    assert Masked(WELL_KNOWN, bits) == WELL_KNOWN && WELL_KNOWN[1] != 0;
  }

  lemma WideContainsOnly(a: Octets16)
    requires a == [0, 0x64, 0xff, 0x9b, 0, 0, 0, 0, 0, 0, 0, 0, 1, 2, 3, 4]
    ensures Contains(Pref64(WELL_KNOWN, 32), a) && Extract(Pref64(WELL_KNOWN, 32), a) == None
  {
    assert Masked(a, 32) == WELL_KNOWN && a[1] != 0;
    assert Embed(Pref64(WELL_KNOWN, 32), Gathered(a, 32))[12] == 0;
  }

  /** A zone that contains the address without extracting from it is passed over: 1.2.3.4 under 64:ff9b::/96 behind 64:ff9b::/32. */
  lemma ContainingZoneIsPassedOver()
    ensures var zones, a := [Some(Pref64(WELL_KNOWN, 32)), Some(Pref64(WELL_KNOWN, 96))], Embed(Pref64(WELL_KNOWN, 96), [1, 2, 3, 4]);
            && Contains(zones[0].value, a) && AllValid(zones) && Found(zones, a, Some([1, 2, 3, 4]))
  {
    var zones, a := [Some(Pref64(WELL_KNOWN, 32)), Some(Pref64(WELL_KNOWN, 96))], Embed(Pref64(WELL_KNOWN, 96), [1, 2, 3, 4]);
    WellKnownIsValid(32);
    WellKnownIsValid(96);
    assert a == [0, 0x64, 0xff, 0x9b, 0, 0, 0, 0, 0, 0, 0, 0, 1, 2, 3, 4];
    WideContainsOnly(a);
    assert !Hidden(zones[1].value, [1, 2, 3, 4]);
    hide Embed, Extract, Contains, Valid, Hidden, ArpaName;
    ReverseFindsEmbeddedIff(zones, 1, [1, 2, 3, 4]);
  }
}
