/** The octets of an element read one by one, with the numbers of ITU-T X.690 sections 8.1.2
    to 8.1.5: what a tree says about its octets, and what its re-encoding consists of. */
module OctetReading {
  import opened Types
  import opened Grammar
  import opened HeaderReader
  import opened Parser
  import opened ParserGrammar
  import opened Placement
  import opened Reencode
  import Base128
  import Base256

  /** The first `n` of these octets are identifier octets: class in bits 8 and 7, constructed in
      bit 6, and the tag in the other five bits or, when they are all set, in base 128. */
  predicate Identifies(s: Octets, cls: Class, constructed: bool, tag: U32, n: nat) {
    && s != []
    && s[0] / 64 == (match cls case Universal => 0 case Application => 1 case Context => 2 case Private => 3)
    && s[0] / 32 % 2 == (if constructed then 1 else 0)
    && if tag < 31 then s[0] % 32 == tag && n == 1
       else s[0] % 32 == 31 && 2 <= n <= |s| && Base128.IsNumeral(s[1..n]) && Base128.Value(s[1..n]) == tag
  }

  /** The first `n` of these octets are length octets: one of 0x80 for an indefinite length, one
      below that for itself, or one that counts the base-256 digits after it. */
  predicate Measures(s: Octets, indefinite: bool, len: nat, n: nat) {
    && s != []
    && if indefinite then s[0] == 0x80 && n == 1
       else if s[0] < 0x80 then n == 1 && len == s[0]
       else 0x81 <= s[0] <= 0x88 && n == s[0] - 0x7f <= |s| && len == Base256.Value(s[1..n])
  }

  /** The octets `s` are one element: `i` identifier octets, the length octets, the content and
      for an indefinite length two zero octets. */
  predicate Reads(s: Octets, t: Tlv, i: nat) {
    && 0 < i < t.headerLen
    && |s| == t.headerLen + t.contentLen + (if t.indefinite then 2 else 0)
    && Identifies(s, t.cls, t.constructed, t.tag, i)
    && Measures(s[i..], t.indefinite, t.contentLen, t.headerLen - i)
    && (t.indefinite ==> s[|s| - 2..] == [0x00, 0x00])
    && (t.body.Primitive? ==> !t.constructed && s[t.headerLen..] == t.body.octets)
    && (t.body.Constructed? ==> t.constructed)
  }

  ghost predicate IsElement(s: Octets, t: Tlv) { exists i: nat :: Reads(s, t, i) }

  lemma IdentifierReads(cls: Class, constructed: bool, tag: U32, rest: Octets)
    ensures var id := IdentifierOctets(cls, constructed, tag);
            Identifies(id + rest, cls, constructed, tag, |id|)
  {
    hide Base128.Minimal, Base128.IsNumeral, Base128.Value;
    var id := IdentifierOctets(cls, constructed, tag);
    if tag >= 31 {
      Base128.MinimalDenotes(tag);
      assert (id + rest)[1..|id|] == Base128.Minimal(tag);
      NumeralNotEmpty(Base128.Minimal(tag));
    }
  }

  lemma NumeralNotEmpty(s: Octets)
    requires Base128.IsNumeral(s)
    ensures s != []
  {
  }

  lemma LengthReads(rules: Rules, h: Header, rest: Octets)
    requires h.Wf(rules)
    ensures var i := |h.Identifier()|;
            && i < h.headerLen == |h.Encoding()|
            && Measures((h.Encoding() + rest)[i..], h.indefinite, h.contentLen, h.headerLen - i)
  {
    hide IdentifierOctets, Base256.Fixed, Base256.Value, Base256.Significant, MinimalCount;
    var i, s := |h.Identifier()|, h.Encoding() + rest;
    if !h.indefinite && h.LengthCount() > 0 {
      var k := h.LengthCount();
      Base256.FixedValue(h.contentLen, k);
      var first := DefiniteLength(k, h.contentLen)[0];
      assert DefiniteLength(k, h.contentLen) == [first] + Base256.Fixed(h.contentLen, k);
      AfterFirst(h.Identifier(), first, Base256.Fixed(h.contentLen, k), rest);
    }
  }

  lemma AfterFirst(id: Octets, first: Byte, digits: Octets, rest: Octets)
    ensures var s := id + ([first] + digits) + rest;
            s[|id|..] == [first] + digits + rest && s[|id|..][1..|digits| + 1] == digits
  {
  }

  lemma NodeReads(rules: Rules, t: Tlv, depth: nat)
    requires Wf(rules, t, depth)
    ensures Reads(Layout(t), t, |HeaderOf(t).Identifier()|)
  {
    hide Wf, Layout, Content, Header.Wf, Header.Encoding, IdentifierOctets, LayoutAll, Identifies, Measures;
    var h := HeaderOf(t);
    var tail := Content(t.body) + Trailer(t);
    SpanIsLayout(rules, t, depth);
    LayoutParts(t);
    LengthReads(rules, h, tail);
    EncodingStarts(h);
    IdentifierReads(t.cls, t.constructed, t.tag, h.Encoding()[|h.Identifier()|..] + tail);
    assert Layout(t) == h.Identifier() + (h.Encoding()[|h.Identifier()|..] + tail);
    if t.indefinite {
      MeasuresIndefinite(Layout(t)[|h.Identifier()|..], 0, t.contentLen, h.headerLen - |h.Identifier()|);
    }
  }

  lemma LayoutParts(t: Tlv)
    ensures Layout(t) == HeaderOf(t).Encoding() + (Content(t.body) + Trailer(t))
    ensures t.body.Primitive? ==> Content(t.body) == t.body.octets
  {
    hide Header.Encoding, LayoutAll;
    var a, b, c := HeaderOf(t).Encoding(), Content(t.body), Trailer(t);
    assert a + b + c == a + (b + c);
  }

  lemma EncodingStarts(h: Header)
    ensures h.Identifier() <= h.Encoding()
  {
  }

  lemma MeasuresIndefinite(s: Octets, a: nat, b: nat, n: nat)
    ensures Measures(s, true, a, n) == Measures(s, true, b, n)
  {
  }

  /** In every accepted document the octets at the place of each node say what the tree says:
      class, constructed bit, tag, length form, content. */
  lemma NodesReadOctets(rules: Rules, d: Octets, k: nat)
    requires IsValid(d, rules) && k < |Preorder(DocumentOf(d, rules).value)|
    ensures var n := Preorder(DocumentOf(d, rules).value)[k];
            && n.offset + Span(n) <= |d|
            && IsElement(d[n.offset..n.offset + Span(n)], n)
  {
    hide DocumentOf, Wf, Placed, Layout, Preorder, Reads;
    var t := DocumentOf(d, rules).value;
    ParserIsGrammar(rules, d, t);
    SpansTile(rules, d);
    var level := NodeHolds(rules, t, 0, 0, k);
    NodeReads(rules, Preorder(t)[k], level);
  }

  // ---------- re-encoding ----------

  /** These octets are the shortest definite length octets of `len`. */
  predicate ShortestMeasure(s: Octets, len: nat, n: nat) {
    && Measures(s, false, len, n)
    && (n == 1 <==> len < 128)
    && (n > 1 ==> s[1] != 0)
  }

  lemma ShortestReads(len: nat, rest: Octets)
    requires len <= VEC_MAX
    ensures ShortestMeasure(ShortestLength(len) + rest, len, |ShortestLength(len)|)
  {
    hide Base256.Fixed, Base256.Value, Base256.Significant;
    if len >= 0x80 {
      var k := |Base256.Significant(len)|;
      var s := ShortestLength(len) + rest;
      Base256.SignificantFirst(len);
      EightOctets(len);
      Base256.FixedValue(len, k);
      assert s[1..k + 1] == Base256.Fixed(len, k);
      Base256.FixedIsPadded(len, k);
    }
  }

  lemma EightOctets(len: nat)
    requires len <= VEC_MAX
    ensures |Base256.Significant(len)| <= 8
  {
    hide Base256.Significant;
    Base256.SignificantSize(len, 8);
    assert Base256.Pow256(4) == 0x1_0000_0000;
  }

  /** `s` is `i` identifier octets of `t`, `n` shortest length octets, and this content. */
  predicate DerConsists(s: Octets, t: Tlv, content: Octets, i: nat, n: nat) {
    && i + n + |content| == |s|
    && Identifies(s, t.cls, t.constructed, t.tag, i)
    && ShortestMeasure(s[i..], |content|, n)
    && s[i + n..] == content
  }

  /** What `to_der` writes for a node: identifier octets of its class, form and tag, shortest
      length octets, content. */
  lemma DerReadsOctets(t: Tlv)
    requires |ToDer(t)| <= VEC_MAX
    ensures exists i: nat, n: nat :: DerConsists(ToDer(t), t, DerContent(IsSet(t), t.body), i, n)
    ensures t.body.Primitive? ==> DerContent(IsSet(t), t.body) == t.body.octets
    ensures t.body.Constructed? && !(t.cls == Universal && t.tag == 17) ==>
              DerContent(IsSet(t), t.body) == Concat(DerAll(t.body.children))
  {
    hide ToDer, IdentifierOctets, ShortestLength, Identifies, ShortestMeasure, DerAll, Concat;
    var content := DerContent(IsSet(t), t.body);
    var id, len := IdentifierOctets(t.cls, t.constructed, t.tag), ShortestLength(|content|);
    ToDerParts(t);
    assert ToDer(t) == id + (len + content);
    IdentifierReads(t.cls, t.constructed, t.tag, len + content);
    ShortestReads(|content|, content);
    assert ToDer(t)[|id|..] == len + content;
    assert ToDer(t)[|id| + |len|..] == content;
    ContentNotLonger(t);
    assert DerConsists(ToDer(t), t, content, |id|, |len|);
  }
}
