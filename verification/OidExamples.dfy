/** Object identifiers with known octets. */
module OidExamples {
  import opened Types
  import opened Base128
  import opened Text
  import Oid

  /** 1.2.840.113549.1.7.2 in octets. */
  lemma SignedDataOid()
    ensures Oid.DecodedOid([0x2a, 0x86, 0x48, 0x86, 0xf7, 0x0d, 0x01, 0x07, 0x02]) == Some("1.2.840.113549.1.7.2")
  {
    hide Oid.ExactArcs, Oid.ReadArcs, Oid.EncodeArcs, Oid.Dotted, Minimal;
    var bytes: Octets := [0x2a, 0x86, 0x48, 0x86, 0xf7, 0x0d, 0x01, 0x07, 0x02];
    var arcs := [42, 840, 113549, 1, 7, 2];
    SignedDataNumerals();
    Oid.SubidentifiersAreNumerals(bytes, arcs);
    Oid.ReadArcsWraps(bytes, 0, false);
    assert Oid.Below(arcs, Oid.U128);
    Oid.WrapFixed(arcs);
    assert Oid.SplitFirst(arcs) == [1, 2, 840, 113549, 1, 7, 2];
    SignedDataDots();
  }

  lemma SignedDataNumerals()
    ensures Oid.EncodeArcs([42, 840, 113549, 1, 7, 2]) == [0x2a, 0x86, 0x48, 0x86, 0xf7, 0x0d, 0x01, 0x07, 0x02]
  {
    hide Minimal, Oid.EncodeArcs;
    SmallNumerals();
    EncodeStep(2, []);
    EncodeStep(7, [2]);
    EncodeStep(1, [7, 2]);
    EncodeStep(113549, [1, 7, 2]);
    EncodeStep(840, [113549, 1, 7, 2]);
    EncodeStep(42, [840, 113549, 1, 7, 2]);
    assert [2] + [] == [2] && [7] + [2] == [7, 2] && [1] + [7, 2] == [1, 7, 2];
    assert [113549] + [1, 7, 2] == [113549, 1, 7, 2] && [840] + [113549, 1, 7, 2] == [840, 113549, 1, 7, 2];
    assert [42] + [840, 113549, 1, 7, 2] == [42, 840, 113549, 1, 7, 2];
  }

  lemma EncodeStep(arc: nat, arcs: seq<nat>)
    ensures Oid.EncodeArcs([arc] + arcs) == Minimal(arc) + Oid.EncodeArcs(arcs)
    ensures Oid.EncodeArcs([]) == []
  {
    assert ([arc] + arcs)[1..] == arcs;
  }

  lemma SmallNumerals()
    ensures Minimal(42) == [0x2a] && Minimal(1) == [1] && Minimal(7) == [7] && Minimal(2) == [2]
    ensures Minimal(840) == [0x86, 0x48] && Minimal(113549) == [0x86, 0xf7, 0x0d]
  {
    assert High(6) == High(0) + [0x86];
    assert High(887) == High(6) + [0xf7];
  }

  lemma SignedDataDots()
    ensures Oid.Dotted([1, 2, 840, 113549, 1, 7, 2]) == "1.2.840.113549.1.7.2"
  {
    hide Decimal, Oid.Dotted;
    SmallDecimals();
    LastDots();
    assert [1] + [2, 840, 113549, 1, 7, 2] == [1, 2, 840, 113549, 1, 7, 2];
    DotIs(1, "1", [2, 840, 113549, 1, 7, 2], "2.840.113549.1.7.2", "1.2.840.113549.1.7.2");
  }

  lemma LastDots()
    ensures Oid.Dotted([2, 840, 113549, 1, 7, 2]) == "2.840.113549.1.7.2"
  {
    hide Decimal, Oid.Dotted;
    SmallDecimals();
    PkcsDots();
    assert [840] + [113549, 1, 7, 2] == [840, 113549, 1, 7, 2];
    DotIs(840, "840", [113549, 1, 7, 2], "113549.1.7.2", "840.113549.1.7.2");
    assert [2] + [840, 113549, 1, 7, 2] == [2, 840, 113549, 1, 7, 2];
    DotIs(2, "2", [840, 113549, 1, 7, 2], "840.113549.1.7.2", "2.840.113549.1.7.2");
  }

  lemma PkcsDots()
    ensures Oid.Dotted([113549, 1, 7, 2]) == "113549.1.7.2"
  {
    hide Decimal, Oid.Dotted;
    SmallDecimals();
    DotStep(2, []);
    assert [2] + [] == [2] && [7] + [2] == [7, 2] && [1] + [7, 2] == [1, 7, 2];
    DotIs(7, "7", [2], "2", "7.2");
    DotIs(1, "1", [7, 2], "7.2", "1.7.2");
    assert [113549] + [1, 7, 2] == [113549, 1, 7, 2];
    DotIs(113549, "113549", [1, 7, 2], "1.7.2", "113549.1.7.2");
  }

  lemma DotIs(arc: nat, text: string, arcs: seq<nat>, rest: string, whole: string)
    requires Decimal(arc) == text && arcs != [] && Oid.Dotted(arcs) == rest && whole == text + "." + rest
    ensures Oid.Dotted([arc] + arcs) == whole
  {
    hide Decimal, Oid.Dotted;
    DotStep(arc, arcs);
  }

  lemma DotStep(arc: nat, arcs: seq<nat>)
    ensures Oid.Dotted([arc] + arcs) == if arcs == [] then Decimal(arc) else Decimal(arc) + "." + Oid.Dotted(arcs)
  {
    hide Decimal;
    assert ([arc] + arcs)[1..] == arcs;
    var parts := Oid.Decimals([arc] + arcs);
    assert parts == [Decimal(arc)] + Oid.Decimals(arcs);
    assert parts[1..] == Oid.Decimals(arcs);
    assert parts[0] + ['.'] + Join(parts, '.') == parts[0] + "." + Join(parts, '.');
  }

  lemma SmallDecimals()
    ensures Decimal(1) == "1" && Decimal(2) == "2" && Decimal(7) == "7" && Decimal(840) == "840"
    ensures Decimal(113549) == "113549"
  {
    assert Digits(1) == "1" && Digits(2) == "2" && Digits(7) == "7" && Digits(8) == "8" && Digits(84) == "84";
    assert Digits(11) == "11" && Digits(113) == "113" && Digits(1135) == "1135" && Digits(11354) == "11354";
  }

  /** The example of X.690 section 8.19.5: 2.999.3 is 88 37 03. */
  lemma StandardExample()
    ensures Oid.EncodedOid("2.999.3") == Some([0x88, 0x37, 0x03])
    ensures Oid.DecodedOid([0x88, 0x37, 0x03]) == Some("2.999.3")
  {
    hide Oid.ExactArcs, Oid.ReadArcs, Oid.EncodeArcs, Oid.Dotted, Oid.EncodedOid, Minimal;
    var bytes: Octets := [0x88, 0x37, 0x03];
    StandardNumerals();
    StandardDots();
    Oid.SubidentifiersAreNumerals(bytes, [1079, 3]);
    Oid.ReadArcsWraps(bytes, 0, false);
    assert Oid.Below([1079, 3], Oid.U128);
    Oid.WrapFixed([1079, 3]);
    assert Oid.SplitFirst([1079, 3]) == [2, 999, 3];
    assert Oid.DecodedOid(bytes) == Some("2.999.3");
    Oid.OctetsRoundTrip(bytes, "2.999.3");
  }

  lemma StandardNumerals()
    ensures Oid.EncodeArcs([1079, 3]) == [0x88, 0x37, 0x03]
  {
    hide Oid.EncodeArcs;
    assert High(8) == High(0) + [0x88];
    assert Minimal(1079) == [0x88, 0x37] && Minimal(3) == [0x03];
    EncodeStep(3, []);
    EncodeStep(1079, [3]);
    assert [3] + [] == [3] && [1079] + [3] == [1079, 3];
  }

  lemma StandardDots()
    ensures Oid.Dotted([2, 999, 3]) == "2.999.3"
  {
    hide Decimal, Oid.Dotted;
    StandardDecimals();
    DotStep(3, []);
    assert [3] + [] == [3] && [999] + [3] == [999, 3] && [2] + [999, 3] == [2, 999, 3];
    DotIs(999, "999", [3], "3", "999.3");
    DotIs(2, "2", [999, 3], "999.3", "2.999.3");
  }

  lemma StandardDecimals()
    ensures Decimal(2) == "2" && Decimal(3) == "3" && Decimal(999) == "999"
  {
    assert Digits(9) == "9" && Digits(99) == "99";
  }
}
