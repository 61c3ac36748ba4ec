/** OBJECT IDENTIFIER contents as dotted text and back (X.690 section 8.19). */
module Oid {
  import opened Types
  import opened Base128
  import opened Base128Writer
  import opened Text

  /** One past the greatest 128-bit number. */
  const U128: nat := 0x1_0000_0000_0000_0000_0000_0000_0000_0000

  // ---------- subidentifiers ----------

  /** What `checked_shl(7)` and the addition make of the accumulator: the shift amount is
      checked, the bits shifted out at the top are lost. */
  function ShiftIn(acc: nat, b: Byte): nat {
    acc * 128 % U128 + b % 128
  }

  /** The subidentifiers in `bytes`, continuing one if `started`; each kept in 128 bits. */
  function ReadArcs(bytes: Octets, acc: nat, started: bool): (r: Option<seq<nat>>)
    ensures r.Some? && bytes != [] ==> r.value != []
    decreases |bytes|
  {
    if bytes == [] then if started then None else Some([])
    else if !started && bytes[0] == 0x80 then None
    else if bytes[0] < 0x80 then ArcsThen([ShiftIn(acc, bytes[0])], ReadArcs(bytes[1..], 0, false))
    else ReadArcs(bytes[1..], ShiftIn(acc, bytes[0]), true)
  }

  function ArcsThen(done: seq<nat>, r: Option<seq<nat>>): Option<seq<nat>> {
    if r.None? then None else Some(done + r.value)
  }

  /** The same reading in unbounded numbers. */
  function ExactArcs(bytes: Octets, acc: nat, started: bool): Option<seq<nat>>
    decreases |bytes|
  {
    if bytes == [] then if started then None else Some([])
    else if !started && bytes[0] == 0x80 then None
    else if bytes[0] < 0x80 then
      ArcsThen([acc * 128 + bytes[0] % 128], ExactArcs(bytes[1..], 0, false))
    else ExactArcs(bytes[1..], acc * 128 + bytes[0] % 128, true)
  }

  /** The subidentifiers written back to back, each in its minimal form. */
  function EncodeArcs(arcs: seq<nat>): Octets {
    if arcs == [] then [] else Minimal(arcs[0]) + EncodeArcs(arcs[1..])
  }

  function Wrapped(arcs: seq<nat>): (r: seq<nat>)
    ensures |r| == |arcs|
    ensures forall i | 0 <= i < |r| :: r[i] == arcs[i] % U128
  {
    if arcs == [] then [] else [arcs[0] % U128] + Wrapped(arcs[1..])
  }

  predicate Below(arcs: seq<nat>, bound: nat) {
    forall i | 0 <= i < |arcs| :: arcs[i] < bound
  }

  lemma ShiftInWraps(acc: nat, b: Byte)
    ensures ShiftIn(acc % U128, b) == (acc * 128 + b % 128) % U128
    ensures ShiftIn(acc, b) < U128
  {
    var m := U128 / 128;
    var q, r := acc / U128, acc % U128;
    var q', r' := r / m, r % m;
    var g := b % 128;
    assert U128 == 128 * m;
    assert r * 128 == q' * U128 + r' * 128;
    assert acc * 128 + g == (128 * q + q') * U128 + (r' * 128 + g);
    ModUnique(r * 128, q', r' * 128);
    ModUnique(acc * 128 + g, 128 * q + q', r' * 128 + g);
    ShiftInFits(acc, b);
  }

  lemma ShiftInFits(acc: nat, b: Byte)
    ensures ShiftIn(acc, b) < U128
  {
    var m := U128 / 128;
    var q, r := acc / m, acc % m;
    assert acc * 128 == q * U128 + r * 128;
    ModUnique(acc * 128, q, r * 128);
  }

  lemma ModUnique(x: nat, q: nat, r: nat)
    requires x == q * U128 + r && r < U128
    ensures x % U128 == r
  {
  }

  lemma {:induction false} ReadArcsWraps(bytes: Octets, acc: nat, started: bool)
    ensures ReadArcs(bytes, acc % U128, started)
            == match ExactArcs(bytes, acc, started)
               case None => None
               case Some(arcs) => Some(Wrapped(arcs))
    decreases |bytes|
  {
    hide ShiftIn;
    if bytes != [] {
      var b := bytes[0];
      ShiftInWraps(acc, b);
      if b < 0x80 {
        ReadArcsWraps(bytes[1..], 0, false);
        var rest := ExactArcs(bytes[1..], 0, false);
        if rest.Some? && (started || b != 0x80) {
          var exact := [acc * 128 + b % 128] + rest.value;
          assert exact[1..] == rest.value;
        }
      } else {
        ReadArcsWraps(bytes[1..], acc * 128 + b % 128, true);
      }
    }
  }

  // ---------- accepted contents are lists of minimal numerals ----------

  lemma {:induction false} ExactSound(pre: Octets, bytes: Octets)
    requires forall i | 0 <= i < |pre| :: pre[i] >= 0x80
    requires pre != [] ==> pre[0] != 0x80
    requires ExactArcs(bytes, Value(pre), pre != []).Some?
    ensures EncodeArcs(ExactArcs(bytes, Value(pre), pre != []).value) == pre + bytes
    decreases |bytes|
  {
    hide Minimal, Value, ValueFrom;
    EmptyValue();
    if bytes != [] {
      var b := bytes[0];
      var s := pre + [b];
      ValueSnoc(pre, b);
      assert s + bytes[1..] == pre + bytes;
      if b < 0x80 {
        NumeralUnique(s);
        ExactSound([], bytes[1..]);
        var rest := ExactArcs(bytes[1..], 0, false).value;
        assert ([Value(s)] + rest)[1..] == rest;
        assert [] + bytes[1..] == bytes[1..];
      } else {
        ExactSound(s, bytes[1..]);
      }
    }
  }

  lemma EmptyValue()
    ensures Value([]) == 0
  {
  }

  lemma ValueSnoc(pre: Octets, b: Byte)
    ensures Value(pre + [b]) == Value(pre) * 128 + b % 128
  {
    ValueAppend(0, pre, b);
  }

  lemma {:induction false} ExactNumeral(pre: Octets, s: Octets, rest: Octets)
    requires s != [] && IsNumeral(pre + s)
    ensures ExactArcs(s + rest, Value(pre), pre != [])
            == ArcsThen([Value(pre + s)], ExactArcs(rest, 0, false))
    decreases |s|
  {
    hide Value, ValueFrom, ReadArcs;
    var b := s[0];
    assert (pre + s)[|pre|] == b && (pre + s)[|pre + s| - 1] == s[|s| - 1];
    ValueSnoc(pre, b);
    assert (s + rest)[1..] == s[1..] + rest;
    assert pre + s == (pre + [b]) + s[1..];
    if |s| == 1 {
      assert s[1..] + rest == rest && pre + s == pre + [b];
    } else {
      ExactNumeral(pre + [b], s[1..], rest);
    }
  }

  lemma {:induction false} ExactComplete(arcs: seq<nat>)
    ensures ExactArcs(EncodeArcs(arcs), 0, false) == Some(arcs)
  {
    hide Minimal, Value, ValueFrom;
    if arcs != [] {
      EmptyValue();
      var s := Minimal(arcs[0]);
      MinimalDenotes(arcs[0]);
      assert [] + s == s;
      ExactNumeral([], s, EncodeArcs(arcs[1..]));
      ExactComplete(arcs[1..]);
      assert [arcs[0]] + arcs[1..] == arcs;
    }
  }

  /** The subidentifiers a content can be cut into, if any, in unbounded numbers. */
  function Subidentifiers(bytes: Octets): Option<seq<nat>> {
    ExactArcs(bytes, 0, false)
  }

  /** Contents with subidentifiers are exactly the lists of minimal numerals. */
  lemma SubidentifiersAreNumerals(bytes: Octets, arcs: seq<nat>)
    ensures Subidentifiers(bytes) == Some(arcs) <==> bytes == EncodeArcs(arcs)
  {
    hide ExactArcs, EncodeArcs;
    EmptyValue();
    if Subidentifiers(bytes) == Some(arcs) {
      ExactSound([], bytes);
      assert [] + bytes == bytes;
    }
    if bytes == EncodeArcs(arcs) {
      ExactComplete(arcs);
    }
  }

  // ---------- dotted text ----------

  /** The first subidentifier joins the first two arcs. */
  function SplitFirst(arcs: seq<nat>): seq<nat>
    requires arcs != []
  {
    var first := arcs[0];
    (if first < 40 then [0, first]
     else if first < 80 then [1, first - 40]
     else [2, first - 80]) + arcs[1..]
  }

  function Decimals(arcs: seq<nat>): (parts: seq<string>)
    ensures |parts| == |arcs|
  {
    if arcs == [] then [] else [Decimal(arcs[0])] + Decimals(arcs[1..])
  }

  function Dotted(arcs: seq<nat>): string
    requires arcs != []
  {
    Join(Decimals(arcs), '.')
  }

  /** `decode_oid`. */
  function DecodedOid(bytes: Octets): Option<string> {
    if bytes == [] then None
    else
      match ReadArcs(bytes, 0, false)
      case None => None
      case Some(arcs) => Some(Dotted(SplitFirst(arcs)))
  }

  function ParseArcs(parts: seq<string>): Option<seq<nat>> {
    if parts == [] then Some([])
    else
      match ParseUnsigned(parts[0], U128 - 1)
      case None => None
      case Some(arc) => ArcsThen([arc], ParseArcs(parts[1..]))
  }

  /** The arcs of a dotted text that the encoder admits. */
  function OidArcs(dotted: string): (r: Option<seq<nat>>)
    ensures r.Some? ==> |r.value| >= 2 && r.value[0] <= 2
  {
    match ParseArcs(Split(dotted, '.'))
    case None => None
    case Some(arcs) =>
      if |arcs| < 2 || arcs[0] > 2 || (arcs[0] < 2 && arcs[1] >= 40) then None else Some(arcs)
  }

  /** The joint first subidentifier, as a 128-bit number. */
  function JointFirst(arcs: seq<nat>): nat
    requires |arcs| >= 2
  {
    (arcs[0] * 40 + arcs[1]) % U128
  }

  /** `encode_oid`. */
  function EncodedOid(dotted: string): Option<Octets> {
    match OidArcs(dotted)
    case None => None
    case Some(arcs) => Some(EncodeArcs([JointFirst(arcs)] + arcs[2..]))
  }

  lemma {:induction false} DecimalsAt(arcs: seq<nat>, i: nat)
    requires i < |arcs|
    ensures Decimals(arcs)[i] == Decimal(arcs[i])
  {
    if i > 0 {
      DecimalsAt(arcs[1..], i - 1);
    }
  }

  lemma {:induction false} DecimalsParse(arcs: seq<nat>)
    ensures ParseArcs(Decimals(arcs)) == if Below(arcs, U128) then Some(arcs) else None
  {
    hide Decimal, ParseUnsigned;
    if arcs != [] {
      DecimalParses(arcs[0], U128 - 1);
      DecimalsParse(arcs[1..]);
      assert Decimals(arcs)[1..] == Decimals(arcs[1..]);
      assert [arcs[0]] + arcs[1..] == arcs;
      assert Below(arcs, U128) <==> arcs[0] < U128 && Below(arcs[1..], U128) by {
        assert forall i | 0 <= i < |arcs| - 1 :: arcs[1..][i] == arcs[i + 1];
      }
    }
  }

  lemma DottedParses(arcs: seq<nat>)
    requires arcs != []
    ensures ParseArcs(Split(Dotted(arcs), '.')) == if Below(arcs, U128) then Some(arcs) else None
  {
    hide Decimal, Split, Join, ParseArcs;
    forall i | 0 <= i < |arcs|
      ensures '.' !in Decimals(arcs)[i]
    {
      DecimalsAt(arcs, i);
      DecimalHasNo(arcs[i], '.');
    }
    SplitJoin(Decimals(arcs), '.');
    DecimalsParse(arcs);
  }

  /** Decoded arcs are ones the encoder admits, and it joins the first two again. */
  lemma DecodedArcsEncode(arcs: seq<nat>)
    requires arcs != [] && Below(arcs, U128)
    ensures EncodedOid(Dotted(SplitFirst(arcs))) == Some(EncodeArcs(arcs))
  {
    hide Dotted, Split, ParseArcs, EncodeArcs;
    var split := SplitFirst(arcs);
    forall i | 0 <= i < |split|
      ensures split[i] < U128
    {
      assert i >= 2 ==> split[i] == arcs[i - 1];
    }
    DottedParses(split);
    assert JointFirst(split) == arcs[0];
    assert [arcs[0]] + split[2..] == arcs;
  }

  /** Octets to text and back: the same octets return exactly when no subidentifier exceeds
      128 bits. */
  lemma OctetsRoundTrip(bytes: Octets, s: string)
    requires DecodedOid(bytes) == Some(s)
    ensures Subidentifiers(bytes).Some?
    ensures EncodedOid(s) == Some(bytes)
            <==> Below(Subidentifiers(bytes).value, 0x1_0000_0000_0000_0000_0000_0000_0000_0000)
  {
    hide ReadArcs, ExactArcs, EncodedOid, Dotted, SplitFirst, EncodeArcs;
    ReadArcsWraps(bytes, 0, false);
    var exact := Subidentifiers(bytes).value;
    var arcs := Wrapped(exact);
    DecodedArcsEncode(arcs);
    SubidentifiersAreNumerals(bytes, exact);
    SubidentifiersAreNumerals(bytes, arcs);
    if EncodedOid(s) == Some(bytes) {
      assert arcs == exact;
      assert forall i | 0 <= i < |exact| :: arcs[i] < U128;
    }
    if Below(exact, U128) {
      assert arcs == exact;
    }
  }

  /** Text to octets and back: the same arcs return exactly when the joint first
      subidentifier fits in 128 bits. */
  lemma TextRoundTrip(dotted: string, bytes: Octets)
    requires EncodedOid(dotted) == Some(bytes)
    ensures var arcs := OidArcs(dotted).value;
            DecodedOid(bytes) == Some(Dotted(arcs))
            <==> arcs[0] * 40 + arcs[1] < 0x1_0000_0000_0000_0000_0000_0000_0000_0000
  {
    hide ReadArcs, ExactArcs, Dotted, EncodeArcs, ParseArcs, Split;
    var arcs := OidArcs(dotted).value;
    var joined := [JointFirst(arcs)] + arcs[2..];
    SubidentifiersAreNumerals(bytes, joined);
    ReadArcsWraps(bytes, 0, false);
    ParsedBelow(Split(dotted, '.'));
    JoinedBelow(arcs);
    WrapFixed(joined);
    EncodeNotEmpty(joined);
    var back := SplitFirst(joined);
    assert DecodedOid(bytes) == Some(Dotted(back));
    if arcs[0] * 40 + arcs[1] < U128 {
      assert back == arcs;
    } else {
      assert arcs[0] == 2 && back[0] != 2;
      if Dotted(back) == Dotted(arcs) {
        DottedInjective(back, arcs);
      }
    }
  }

  /** A content that is accepted and does not return: 2^128 is read as zero. */
  lemma LongSubidentifierIsLost()
    ensures var bytes := EncodeArcs([U128]);
            && DecodedOid(bytes) == Some("0.0")
            && EncodedOid("0.0").Some? && EncodedOid("0.0") != Some(bytes)
  {
    hide EncodeArcs, ExactArcs, ReadArcs, EncodedOid, Decimal, Dotted;
    var bytes := EncodeArcs([U128]);
    SubidentifiersAreNumerals(bytes, [U128]);
    ReadArcsWraps(bytes, 0, false);
    EncodeNotEmpty([U128]);
    assert Wrapped([U128]) == [0];
    assert SplitFirst([0]) == [0, 0];
    DottedPair(0, 0);
    DecimalZero();
    assert "0" + "." + "0" == "0.0";
    assert ReadArcs(bytes, 0, false) == Some([0]);
    OctetsRoundTrip(bytes, "0.0");
    DecodedArcsEncode([0]);
  }

  lemma DottedPair(a: nat, b: nat)
    ensures Dotted([a, b]) == Decimal(a) + "." + Decimal(b)
  {
    hide Decimal;
    assert [a, b][1..] == [b] && [b][1..] == [];
    assert Decimals([b]) == [Decimal(b)] + Decimals([]);
    var parts := [Decimal(a), Decimal(b)];
    assert Decimals([a, b]) == [Decimal(a)] + Decimals([b]) == parts;
    assert parts[1..] == [Decimal(b)];
    assert Join(parts, '.') == Decimal(a) + ['.'] + Join([Decimal(b)], '.');
  }

  lemma DecimalZero()
    ensures Decimal(0) == "0"
  {
  }

  /** A text that is accepted and does not return: the joint first subidentifier wraps and
      comes back below the arc 2. */
  lemma JointArcWraps()
    ensures var text := Dotted([2, U128 - 1]);
            && text == Decimal(2) + "." + Decimal(U128 - 1)
            && EncodedOid(text).Some?
            && DecodedOid(EncodedOid(text).value) == Some(Dotted([1, 39])) != Some(text)
  {
    hide EncodeArcs, ExactArcs, ReadArcs, Decimal, Dotted, ParseArcs, Split;
    var arcs := [2, U128 - 1];
    DottedPair(2, U128 - 1);
    DottedParses(arcs);
    assert JointFirst(arcs) == 79;
    assert [79] + arcs[2..] == [79];
    var bytes := EncodeArcs([79]);
    SubidentifiersAreNumerals(bytes, [79]);
    ReadArcsWraps(bytes, 0, false);
    EncodeNotEmpty([79]);
    assert Wrapped([79]) == [79];
    assert SplitFirst([79]) == [1, 39];
    TextRoundTrip(Dotted(arcs), bytes);
  }

  lemma WrapFixed(arcs: seq<nat>)
    requires Below(arcs, U128)
    ensures Wrapped(arcs) == arcs
  {
  }

  lemma EncodeNotEmpty(arcs: seq<nat>)
    requires arcs != []
    ensures EncodeArcs(arcs) != []
  {
  }

  lemma JoinedBelow(arcs: seq<nat>)
    requires |arcs| >= 2 && Below(arcs, U128)
    ensures Below([JointFirst(arcs)] + arcs[2..], U128)
    ensures Below(SplitFirst([JointFirst(arcs)] + arcs[2..]), U128)
  {
    var joined := [JointFirst(arcs)] + arcs[2..];
    var back := SplitFirst(joined);
    assert forall i | 1 <= i < |joined| :: joined[i] == arcs[i + 1];
    assert forall i | 2 <= i < |back| :: back[i] == joined[i - 1];
  }

  lemma {:induction false} ParsedBelow(parts: seq<string>)
    requires ParseArcs(parts).Some?
    ensures Below(ParseArcs(parts).value, U128)
  {
    hide ParseUnsigned;
    if parts != [] {
      ParsedBelow(parts[1..]);
    }
  }

  lemma DottedInjective(a: seq<nat>, b: seq<nat>)
    requires a != [] && b != [] && Below(a, U128) && Below(b, U128)
    requires Dotted(a) == Dotted(b)
    ensures a == b
  {
    hide Dotted, ParseArcs, Split;
    DottedParses(a);
    DottedParses(b);
  }

  /** A content is decoded exactly when it is a non-empty list of minimal numerals. */
  lemma DecodesNumerals(bytes: Octets)
    ensures DecodedOid(bytes).Some? <==> bytes != [] && exists arcs :: bytes == EncodeArcs(arcs)
  {
    hide ReadArcs, ExactArcs, EncodeArcs, Dotted, SplitFirst;
    ReadArcsWraps(bytes, 0, false);
    if Subidentifiers(bytes).Some? {
      SubidentifiersAreNumerals(bytes, Subidentifiers(bytes).value);
    }
    if arcs :| bytes == EncodeArcs(arcs) {
      SubidentifiersAreNumerals(bytes, arcs);
    }
  }

  // ---------- the first two arcs ----------

  /** X.690 section 8.19.4: the first subidentifier is 40 times the first arc plus the second
      one, where the first arc is 0, 1 or 2, and the second below 40 unless the first is 2. */
  lemma DecodesArcs(x: nat, y: nat, rest: seq<nat>)
    requires x < 2 ==> y < 40
    requires x <= 2 && 40 * x + y < 0x1_0000_0000_0000_0000_0000_0000_0000_0000
    requires Below(rest, 0x1_0000_0000_0000_0000_0000_0000_0000_0000)
    ensures DecodedOid(EncodeArcs([40 * x + y] + rest)) == Some(Dotted([x, y] + rest))
  {
    hide ReadArcs, ExactArcs, EncodeArcs, Dotted;
    var arcs := [40 * x + y] + rest;
    SubidentifiersAreNumerals(EncodeArcs(arcs), arcs);
    ReadArcsWraps(EncodeArcs(arcs), 0, false);
    EncodeNotEmpty(arcs);
    assert Below(arcs, U128);
    WrapFixed(arcs);
    assert arcs[1..] == rest;
    assert SplitFirst(arcs) == [x, y] + rest;
  }

  /** A text of 128-bit arcs is encoded when there are two at least, the first at most 2, and
      the second below 40 unless the first is 2; the first subidentifier is computed in a
      128-bit number. */
  lemma EncodesArcs(arcs: seq<nat>)
    requires arcs != [] && Below(arcs, 0x1_0000_0000_0000_0000_0000_0000_0000_0000)
    ensures EncodedOid(Dotted(arcs)) ==
            if |arcs| < 2 || arcs[0] > 2 || (arcs[0] < 2 && arcs[1] >= 40) then None
            else Some(EncodeArcs([(40 * arcs[0] + arcs[1]) % 0x1_0000_0000_0000_0000_0000_0000_0000_0000] + arcs[2..]))
  {
    hide EncodeArcs, Dotted, ParseArcs, Split;
    DottedParses(arcs);
  }

  // ---------- methods ----------

  /** The accumulator loop of `decode_oid`. */
  method CollectArcs(bytes: Octets) returns (r: Option<seq<nat>>)
    ensures r == ReadArcs(bytes, 0, false)
  {
    hide ShiftIn;
    var arcs: seq<nat>, acc: nat, started := [], 0, false;
    NoArcsThen(ReadArcs(bytes, 0, false));
    assert bytes[0..] == bytes;
    for i := 0 to |bytes|
      invariant ReadArcs(bytes, 0, false) == ArcsThen(arcs, ReadArcs(bytes[i..], acc, started))
    {
      assert bytes[i..][0] == bytes[i] && bytes[i..][1..] == bytes[i + 1..];
      var b := bytes[i];
      if !started && b == 0x80 {
        return None;
      }
      started := true;
      ShiftInFits(acc, b); // so the checked addition never fails
      acc := ShiftIn(acc, b);
      if b < 0x80 {
        ArcsThenOne(arcs, acc, ReadArcs(bytes[i + 1..], 0, false));
        arcs := arcs + [acc];
        acc := 0;
        started := false;
      }
    }
    assert bytes[|bytes|..] == [] && arcs + [] == arcs;
    return if started then None else Some(arcs);
  }

  method DecodeOid(bytes: Octets) returns (r: Option<string>)
    ensures r == DecodedOid(bytes)
  {
    hide ReadArcs, Decimal;
    if |bytes| == 0 {
      return None;
    }
    if bytes[|bytes| - 1] >= 0x80 {
      OpenEnded(bytes, 0, false);
      return None;
    }
    var collected := CollectArcs(bytes);
    if collected.None? {
      return None;
    }
    var arcs := collected.value;
    var split := SplitFirst(arcs);
    var out := Decimal(split[0]) + "." + Decimal(split[1]);
    for i := 1 to |arcs|
      invariant out == Join(Decimals(split[..i + 1]), '.')
    {
      assert split[..i + 2] == split[..i + 1] + [arcs[i]];
      JoinAppend(split[..i + 1], arcs[i]);
      out := out + ['.'] + Decimal(arcs[i]);
    }
    assert split[..|arcs| + 1] == split;
    return Some(out);
  }

  lemma NoArcsThen(r: Option<seq<nat>>)
    ensures ArcsThen([], r) == r
  {
    if r.Some? {
      assert [] + r.value == r.value;
    }
  }

  lemma ArcsThenOne(done: seq<nat>, arc: nat, r: Option<seq<nat>>)
    ensures ArcsThen(done, ArcsThen([arc], r)) == ArcsThen(done + [arc], r)
  {
    if r.Some? {
      assert done + ([arc] + r.value) == done + [arc] + r.value;
    }
  }

  lemma {:induction false} OpenEnded(bytes: Octets, acc: nat, started: bool)
    requires bytes != [] && bytes[|bytes| - 1] >= 0x80
    ensures ReadArcs(bytes, acc, started) == None
    decreases |bytes|
  {
    if |bytes| == 1 {
      assert bytes[1..] == [];
    } else if bytes[0] < 0x80 {
      OpenEnded(bytes[1..], 0, false);
    } else {
      OpenEnded(bytes[1..], ShiftIn(acc, bytes[0]), true);
    }
  }

  lemma {:induction false} JoinAppend(arcs: seq<nat>, arc: nat)
    requires arcs != []
    ensures Join(Decimals(arcs + [arc]), '.') == Join(Decimals(arcs), '.') + ['.'] + Decimal(arc)
    decreases |arcs|
  {
    hide Decimal;
    assert (arcs + [arc])[1..] == arcs[1..] + [arc];
    assert Decimals(arcs + [arc])[1..] == Decimals(arcs[1..] + [arc]);
    assert Decimals(arcs)[1..] == Decimals(arcs[1..]);
    if |arcs| == 1 {
      assert arcs[1..] + [arc] == [arc];
      assert Decimals([arc]) == [Decimal(arc)];
    } else {
      JoinAppend(arcs[1..], arc);
    }
  }

  lemma NineteenOctetsHoldAnArc()
    ensures Pow128(19) > U128
  {
    assert Pow128(3) == 0x20_0000;
    assert Pow128(6) == 0x20_0000 * 0x20_0000;
    assert Pow128(9) == 0x20_0000 * Pow128(6);
    assert Pow128(12) == 0x20_0000 * Pow128(9);
    assert Pow128(15) == 0x20_0000 * Pow128(12);
    assert Pow128(18) == 0x20_0000 * Pow128(15);
  }

  method CollectParsed(parts: seq<string>) returns (r: Option<seq<nat>>)
    ensures r == ParseArcs(parts)
  {
    hide ParseUnsigned;
    var arcs: seq<nat> := [];
    NoArcsThen(ParseArcs(parts));
    assert parts[0..] == parts;
    for i := 0 to |parts|
      invariant ParseArcs(parts) == ArcsThen(arcs, ParseArcs(parts[i..]))
    {
      assert parts[i..][0] == parts[i] && parts[i..][1..] == parts[i + 1..];
      var arc := ParseUnsigned(parts[i], U128 - 1);
      if arc.None? {
        return None;
      }
      ArcsThenOne(arcs, arc.value, ParseArcs(parts[i + 1..]));
      arcs := arcs + [arc.value];
    }
    assert parts[|parts|..] == [] && arcs + [] == arcs;
    return Some(arcs);
  }

  method EncodeOid(dotted: string) returns (r: Option<Octets>)
    ensures r == EncodedOid(dotted)
  {
    hide ParseArcs, Split, Minimal, Pow128;
    var parts := Split(dotted, '.');
    var collected := CollectParsed(parts);
    if collected.None? {
      return None;
    }
    var arcs := collected.value;
    if |arcs| < 2 {
      return None;
    }
    if arcs[0] > 2 {
      return None;
    }
    if arcs[0] < 2 && arcs[1] >= 40 {
      return None;
    }
    ParsedBelow(parts);
    NineteenOctetsHoldAnArc();
    var out := new Vec<Byte>();
    var first := JointFirst(arcs);
    PushBase128(out, first, 19);
    ghost var joined := [first] + arcs[2..];
    assert joined[1..] == arcs[2..];
    assert EncodeArcs(joined) == out.items + EncodeArcs(arcs[2..]);
    for i := 2 to |arcs|
      invariant EncodeArcs(joined) == out.items + EncodeArcs(arcs[i..])
    {
      assert arcs[i..][0] == arcs[i] && arcs[i..][1..] == arcs[i + 1..];
      PushBase128(out, arcs[i], 19);
    }
    assert arcs[|arcs|..] == [] && EncodeArcs([]) == [] && out.items + [] == out.items;
    return Some(out.items);
  }
}
