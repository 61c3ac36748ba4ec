/** Consequences of parser = grammar for whole documents and streams. */
module Documents {
  import opened Types
  import opened Grammar
  import opened HeaderReader
  import opened Parser
  import opened ParserGrammar

  // ---------- the consumed octets decide ----------

  /** A successful parse depends only on the octets it consumed. */
  lemma ParseIsLocal(rules: Rules, buf: Octets, other: Octets, abs: nat, depth: nat)
    requires TlvOf(rules, buf, abs, depth).Ok?
    requires buf[..TlvOf(rules, buf, abs, depth).value.1] <= other
    ensures TlvOf(rules, other, abs, depth) == TlvOf(rules, buf, abs, depth)
  {
    hide TlvOf;
    TlvSound(rules, buf, abs, depth);
    var (t, used) := TlvOf(rules, buf, abs, depth).value;
    assert other == buf[..used] + other[used..];
    TlvComplete(rules, t, other[used..], abs, depth);
  }

  predicate CutShort<T>(r: Result<T>) {
    r.Err? && (r.kind.Truncated? || r.kind.LengthOverflow?)
  }

  lemma {:induction false} TlvCutShort(rules: Rules, t: Tlv, k: nat, abs: nat, depth: nat)
    requires Wf(rules, t, depth) && Placed(t, abs)
    requires k < |Layout(t)|
    ensures CutShort(TlvOf(rules, Layout(t)[..k], abs, depth))
    decreases t
  {
    hide ReadHeader, ChildrenOf, UntilEoc, WfAll, PlacedAll, LayoutAll, NoEoc, Header.Wf, Header.Encoding;
    SpanIsLayout(rules, t, depth);
    TlvCompleteHeader(rules, t, [], abs, depth);
    assert Layout(t) + [] == Layout(t);
    var cut := Layout(t)[..k];
    if k < t.headerLen {
      HeaderTruncated(rules, Layout(t), k, abs);
    } else {
      var h, rest := HeaderOf(t), Layout(t)[t.headerLen..k];
      assert cut == h.Encoding() + rest;
      HeaderComplete(rules, h, rest, abs);
      if t.indefinite {
        assert cut[t.headerLen..] == (LayoutAll(t.body.children) + [0x00, 0x00])[..k - t.headerLen];
        UntilEocCutShort(rules, t.body.children, k - t.headerLen, abs + t.headerLen, depth + 1);
      }
    }
  }

  lemma {:induction false} UntilEocCutShort(rules: Rules, ts: seq<Tlv>, k: nat, abs: nat, depth: nat)
    requires WfAll(rules, ts, depth) && PlacedAll(ts, abs) && NoEoc(ts)
    requires k < |LayoutAll(ts)| + 2
    ensures CutShort(UntilEoc(rules, (LayoutAll(ts) + [0x00, 0x00])[..k], abs, depth))
    decreases ts
  {
    hide TlvOf, UntilEoc, Wf, Placed, Layout, WfAll, PlacedAll, LayoutAll, NoEoc, HeaderOf, Header.Identifier;
    NilFacts(rules, abs, depth);
    var all := LayoutAll(ts) + [0x00, 0x00];
    var cut := all[..k];
    UntilEocEnd(rules, cut, abs, depth);
    if ts == [] {
      assert cut == if k == 0 then [] else [0x00];
    } else if k > 0 {
      var t, more := ts[0], LayoutAll(ts[1..]) + [0x00, 0x00];
      assert [t] + ts[1..] == ts;
      ConsFacts(rules, t, ts[1..], abs, depth);
      SpanIsLayout(rules, t, depth);
      assert all == Layout(t) + more;
      UntilEocStep(rules, cut, abs, depth);
      if k < |Layout(t)| {
        assert cut == Layout(t)[..k];
        TlvCutShort(rules, t, k, abs, depth);
      } else {
        assert cut == Layout(t) + more[..k - |Layout(t)|];
        TlvComplete(rules, t, more[..k - |Layout(t)|], abs, depth);
        assert cut[|Layout(t)|..] == more[..k - |Layout(t)|];
        UntilEocCutShort(rules, ts[1..], k - |Layout(t)|, abs + |Layout(t)|, depth);
      }
    }
  }

  /** Every strict prefix of an accepted document fails, as truncated or over-long. */
  lemma StrictPrefixFails(rules: Rules, d: Octets, k: nat)
    requires IsValid(d, rules) && k < |d|
    ensures CutShort(DocumentOf(d[..k], rules))
  {
    hide TlvOf;
    var t := DocumentOf(d, rules).value;
    ParserIsGrammar(rules, d, t);
    TlvCutShort(rules, t, k, 0, 0);
  }

  /** Every strict extension of an accepted document has trailing octets, from its end on. */
  lemma StrictExtensionFails(rules: Rules, d: Octets, x: Octets)
    requires IsValid(d, rules) && x != []
    ensures DocumentOf(d + x, rules) == Err(TrailingBytes, |d|)
  {
    hide TlvOf;
    var t := DocumentOf(d, rules).value;
    ParserIsGrammar(rules, d, t);
    TlvComplete(rules, t, x, 0, 0);
  }

  // ---------- the three rule sets ----------

  lemma {:induction false} CerTlv(buf: Octets, abs: nat, depth: nat)
    ensures TlvOf(Cer, buf, abs, depth) == TlvOf(Ber, buf, abs, depth)
    decreases |buf|, 0
  {
    hide ReadHeader, ChildrenOf, UntilEoc;
    CerHeader(buf, abs);
    if ReadHeader(Ber, buf, abs).Ok? {
      var h := ReadHeader(Ber, buf, abs).value;
      if h.indefinite {
        CerUntilEoc(buf[h.headerLen..], abs + h.headerLen, depth + 1);
      } else if h.headerLen + h.contentLen <= |buf| {
        CerChildren(buf[h.headerLen..h.headerLen + h.contentLen], abs + h.headerLen, depth + 1);
      }
    }
  }

  lemma CerHeader(buf: Octets, abs: nat)
    ensures ReadHeader(Cer, buf, abs) == ReadHeader(Ber, buf, abs)
  {
  }

  lemma {:induction false} CerChildren(buf: Octets, abs: nat, depth: nat)
    ensures ChildrenOf(Cer, buf, abs, depth) == ChildrenOf(Ber, buf, abs, depth)
    decreases |buf|, 1
  {
    hide TlvOf;
    if buf != [] {
      CerTlv(buf, abs, depth);
      if TlvOf(Ber, buf, abs, depth).Ok? {
        var used := TlvOf(Ber, buf, abs, depth).value.1;
        CerChildren(buf[used..], abs + used, depth);
      }
    }
  }

  lemma {:induction false} CerUntilEoc(buf: Octets, abs: nat, depth: nat)
    ensures UntilEoc(Cer, buf, abs, depth) == UntilEoc(Ber, buf, abs, depth)
    decreases |buf|, 1
  {
    hide TlvOf, UntilEoc;
    if buf == [] || buf[0] == 0x00 {
      EocEnd(buf, abs, depth);
    } else {
      UntilEocStep(Cer, buf, abs, depth);
      UntilEocStep(Ber, buf, abs, depth);
      CerTlv(buf, abs, depth);
      if TlvOf(Ber, buf, abs, depth).Ok? {
        var used := TlvOf(Ber, buf, abs, depth).value.1;
        CerUntilEoc(buf[used..], abs + used, depth);
      }
    }
  }

  lemma EocEnd(buf: Octets, abs: nat, depth: nat)
    requires buf == [] || buf[0] == 0x00
    ensures UntilEoc(Cer, buf, abs, depth) == UntilEoc(Ber, buf, abs, depth)
  {
    hide TlvOf;
  }

  /** CER is read exactly as BER: no CER restriction is enforced. */
  lemma CerReadsAsBer(d: Octets)
    ensures DocumentOf(d, Cer) == DocumentOf(d, Ber)
  {
    CerTlv(d, 0, 0);
  }

  /** Two restrictions of DER that CER does not share, as it is enforced: an indefinite
      length, and a length in more octets than needed. */
  lemma CerIsNotDer()
    ensures IsValid([0x30, 0x80, 0x00, 0x00], Cer) && !IsValid([0x30, 0x80, 0x00, 0x00], Der)
    ensures IsValid([0x04, 0x81, 0x01, 0x00], Cer) && !IsValid([0x04, 0x81, 0x01, 0x00], Der)
  {
    hide DocumentOf;
    IndefiniteUnderCer();
    LongLengthUnderCer();
  }

  lemma IndefiniteUnderCer()
    ensures IsValid([0x30, 0x80, 0x00, 0x00], Cer) && !IsValid([0x30, 0x80, 0x00, 0x00], Der)
  {
    var d: Octets := [0x30, 0x80, 0x00, 0x00];
    assert ReadHeader(Cer, d, 0) == Ok(Header(Universal, true, 16, 2, true, 0));
    assert d[2..] == [0x00, 0x00];
    assert ReadHeader(Der, d, 0) == Err(IndefiniteInDer, 0);
  }

  lemma LongLengthUnderCer()
    ensures IsValid([0x04, 0x81, 0x01, 0x00], Cer) && !IsValid([0x04, 0x81, 0x01, 0x00], Der)
  {
    hide Base256.Value;
    var d: Octets := [0x04, 0x81, 0x01, 0x00];
    OneOctetLength();
    assert d[2..3] == [0x01];
    assert ReadHeader(Cer, d, 0) == Ok(Header(Universal, false, 4, 3, false, 1));
    assert ReadHeader(Der, d, 0) == Err(NonCanonical, 0);
  }

  lemma OneOctetLength()
    ensures Base256.Value([0x01]) == 1
  {
    assert [0x01][1..] == [];
  }

  lemma {:induction false} DerWf(t: Tlv, depth: nat)
    requires Wf(Der, t, depth)
    ensures Wf(Ber, t, depth)
    decreases t
  {
    if t.body.Constructed? {
      DerWfAll(t.body.children, depth + 1);
    }
  }

  lemma {:induction false} DerWfAll(ts: seq<Tlv>, depth: nat)
    requires WfAll(Der, ts, depth)
    ensures WfAll(Ber, ts, depth)
    decreases ts
  {
    if ts != [] {
      DerWf(ts[0], depth);
      DerWfAll(ts[1..], depth);
    }
  }

  /** What DER accepts, BER accepts, with the same tree. */
  lemma DerRefinesBer(d: Octets, t: Tlv)
    requires DocumentOf(d, Der) == Ok(t)
    ensures DocumentOf(d, Ber) == Ok(t)
  {
    ParserIsGrammar(Der, d, t);
    DerWf(t, 0);
    ParserIsGrammar(Ber, d, t);
  }

  // ---------- errors ----------

  /** The failures the parser can report on `buf`: which kinds, and where. */
  predicate Classified<T>(rules: Rules, r: Result<T>, buf: Octets, abs: nat) {
    r.Err? ==>
      && abs <= r.offset <= abs + |buf|
      && (r.kind in {Truncated, InvalidTag, LengthOverflow, NonCanonical, NestingLimit}
          || (r.kind == IndefiniteInDer && rules == Der))
  }

  lemma HighTagClassified(rules: Rules, buf: Octets, idx: nat, t: nat, first: bool, abs: nat)
    requires idx <= |buf|
    ensures Classified(rules, ReadHighTag(buf, idx, t, first, abs), buf, abs)
    decreases |buf| - idx
  {
    if idx < |buf| {
      HighTagClassified(rules, buf, idx + 1, t * 128 + buf[idx] % 128, false, abs);
    }
  }

  lemma HeaderClassified(rules: Rules, buf: Octets, abs: nat)
    ensures Classified(rules, ReadHeader(rules, buf, abs), buf, abs)
  {
    if buf != [] {
      HighTagClassified(rules, buf, 1, 0, true, abs);
    }
  }

  lemma {:induction false} TlvClassified(rules: Rules, buf: Octets, abs: nat, depth: nat)
    ensures Classified(rules, TlvOf(rules, buf, abs, depth), buf, abs)
    decreases |buf|, 0
  {
    hide ReadHeader, ChildrenOf, UntilEoc;
    HeaderClassified(rules, buf, abs);
    if ReadHeader(rules, buf, abs).Ok? {
      var h := ReadHeader(rules, buf, abs).value;
      if h.indefinite {
        UntilEocClassified(rules, buf[h.headerLen..], abs + h.headerLen, depth + 1);
      } else if h.headerLen + h.contentLen <= |buf| {
        ChildrenClassified(rules, buf[h.headerLen..h.headerLen + h.contentLen], abs + h.headerLen, depth + 1);
      }
    }
  }

  lemma {:induction false} ChildrenClassified(rules: Rules, buf: Octets, abs: nat, depth: nat)
    ensures Classified(rules, ChildrenOf(rules, buf, abs, depth), buf, abs)
    decreases |buf|, 1
  {
    hide TlvOf;
    if buf != [] {
      TlvClassified(rules, buf, abs, depth);
      if TlvOf(rules, buf, abs, depth).Ok? {
        var used := TlvOf(rules, buf, abs, depth).value.1;
        ChildrenClassified(rules, buf[used..], abs + used, depth);
      }
    }
  }

  lemma {:induction false} UntilEocClassified(rules: Rules, buf: Octets, abs: nat, depth: nat)
    ensures Classified(rules, UntilEoc(rules, buf, abs, depth), buf, abs)
    decreases |buf|, 1
  {
    hide TlvOf;
    if buf != [] && buf[0] != 0x00 {
      TlvClassified(rules, buf, abs, depth);
      if TlvOf(rules, buf, abs, depth).Ok? {
        var used := TlvOf(rules, buf, abs, depth).value.1;
        UntilEocClassified(rules, buf[used..], abs + used, depth);
      }
    }
  }

  /** Every failure is located inside the document. Trailing octets are reported exactly when
      a strict, non-empty prefix is a document on its own; an indefinite length is reported
      only under DER; times, OIDs, UTF-8 and allocation are never reported. */
  lemma FailuresClassified(d: Octets, rules: Rules)
    ensures var r := DocumentOf(d, rules);
            r.Err? ==>
              && r.offset <= |d|
              && r.kind !in {BadTime, BadOid, BadUtf8, AllocLimit}
              && (r.kind == IndefiniteInDer ==> rules == Der)
              && (r.kind == TrailingBytes <==> r.offset < |d| && IsValid(d[..r.offset], rules))
  {
    hide TlvOf;
    TlvClassified(rules, d, 0, 0);
    var r := DocumentOf(d, rules);
    if r.Err? && r.kind == TrailingBytes {
      ParseIsLocal(rules, d, d[..r.offset], 0, 0);
    }
    if r.Err? && r.offset < |d| && IsValid(d[..r.offset], rules) {
      assert d == d[..r.offset] + d[r.offset..];
      StrictExtensionFails(rules, d[..r.offset], d[r.offset..]);
    }
  }
}
