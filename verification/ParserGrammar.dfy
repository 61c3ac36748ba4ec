/** The parser accepts exactly the grammar: soundness, completeness, and what follows. */
module ParserGrammar {
  import opened Types
  import opened Grammar
  import opened HeaderReader
  import opened Parser

  // ---------- layouts ----------

  /** The number of octets a node spans, from its own annotations. */
  function Span(t: Tlv): nat {
    t.headerLen + t.contentLen + if t.indefinite then 2 else 0
  }

  lemma SpanIsLayout(rules: Rules, t: Tlv, depth: nat)
    requires Wf(rules, t, depth)
    ensures |Layout(t)| == Span(t) >= 2
    ensures Layout(t)[0] == HeaderOf(t).Identifier()[0]
    ensures t.constructed <==> t.body.Constructed?
    ensures t.indefinite ==> t.constructed
    ensures HeaderOf(t).Wf(rules) && |HeaderOf(t).Encoding()| == t.headerLen >= 2
    ensures t.contentLen == |Content(t.body)|
  {
  }

  lemma NilFacts(rules: Rules, abs: nat, depth: nat)
    ensures LayoutAll([]) == []
    ensures WfAll(rules, [], depth) && PlacedAll([], abs) && NoEoc([])
  {
  }

  /** Every list predicate and function, one element at a time. */
  lemma ConsFacts(rules: Rules, t: Tlv, ts: seq<Tlv>, abs: nat, depth: nat)
    ensures LayoutAll([t] + ts) == Layout(t) + LayoutAll(ts)
    ensures WfAll(rules, [t] + ts, depth) <==> Wf(rules, t, depth) && WfAll(rules, ts, depth)
    ensures PlacedAll([t] + ts, abs) <==> Placed(t, abs) && PlacedAll(ts, abs + |Layout(t)|)
    ensures NoEoc([t] + ts) <==> HeaderOf(t).Identifier()[0] != 0x00 && NoEoc(ts)
  {
    hide Wf, Placed, Layout, HeaderOf, Header.Identifier;
    assert ([t] + ts)[1..] == ts;
    assert forall i | 0 <= i < |ts| :: ts[i] == ([t] + ts)[i + 1];
  }

  lemma {:induction false} LayoutAllAppend(ts: seq<Tlv>, us: seq<Tlv>)
    ensures LayoutAll(ts + us) == LayoutAll(ts) + LayoutAll(us)
    decreases |ts|
  {
    if ts == [] {
      assert ts + us == us;
    } else {
      assert (ts + us)[1..] == ts[1..] + us;
      LayoutAllAppend(ts[1..], us);
    }
  }

  lemma {:induction false} WfAllAppend(rules: Rules, ts: seq<Tlv>, us: seq<Tlv>, depth: nat)
    ensures WfAll(rules, ts + us, depth) <==> WfAll(rules, ts, depth) && WfAll(rules, us, depth)
    decreases |ts|
  {
    if ts == [] {
      assert ts + us == us;
    } else {
      assert (ts + us)[1..] == ts[1..] + us;
      WfAllAppend(rules, ts[1..], us, depth);
    }
  }

  lemma {:induction false} PlacedAllAppend(ts: seq<Tlv>, us: seq<Tlv>, abs: nat)
    ensures PlacedAll(ts + us, abs) <==> PlacedAll(ts, abs) && PlacedAll(us, abs + |LayoutAll(ts)|)
    decreases |ts|
  {
    if ts == [] {
      assert ts + us == us;
    } else {
      assert (ts + us)[1..] == ts[1..] + us;
      PlacedAllAppend(ts[1..], us, abs + |Layout(ts[0])|);
    }
  }

  // ---------- soundness ----------

  lemma {:induction false} TlvSound(rules: Rules, buf: Octets, abs: nat, depth: nat)
    requires TlvOf(rules, buf, abs, depth).Ok?
    ensures var (t, used) := TlvOf(rules, buf, abs, depth).value;
            Wf(rules, t, depth) && Placed(t, abs) && Layout(t) == buf[..used]
    decreases |buf|, 0
  {
    hide ReadHeader, ChildrenOf, UntilEoc, WfAll, PlacedAll, LayoutAll, NoEoc, Header.Wf, Header.Encoding;
    HeaderSound(rules, buf, abs);
    var h := ReadHeader(rules, buf, abs).value;
    var (t, used) := TlvOf(rules, buf, abs, depth).value;
    assert HeaderOf(t) == h;
    var rest := buf[h.headerLen..];
    if h.indefinite {
      UntilEocSound(rules, rest, abs + h.headerLen, depth + 1);
      var (children, more) := UntilEoc(rules, rest, abs + h.headerLen, depth + 1).value;
      HeadAndRest(buf, h.headerLen, more, LayoutAll(children), [0x00, 0x00]);
    } else {
      var content := buf[h.headerLen..used];
      if h.constructed {
        ChildrenSound(rules, content, abs + h.headerLen, depth + 1);
      }
      HeadAndRest(buf, h.headerLen, h.contentLen, content, []);
    }
  }

  lemma HeadAndRest(buf: Octets, n: nat, m: nat, content: Octets, trailer: Octets)
    requires n + m <= |buf| && content + trailer == buf[n..][..m]
    ensures buf[..n + m] == buf[..n] + content + trailer
  {
  }

  lemma {:induction false} ChildrenSound(rules: Rules, buf: Octets, abs: nat, depth: nat)
    requires ChildrenOf(rules, buf, abs, depth).Ok?
    ensures var ts := ChildrenOf(rules, buf, abs, depth).value;
            WfAll(rules, ts, depth) && PlacedAll(ts, abs) && LayoutAll(ts) == buf
    decreases |buf|, 1
  {
    hide TlvOf, Wf, Placed, Layout, WfAll, PlacedAll, LayoutAll, NoEoc, HeaderOf, Header.Identifier;
    NilFacts(rules, abs, depth);
    if buf != [] {
      TlvSound(rules, buf, abs, depth);
      var (t, used) := TlvOf(rules, buf, abs, depth).value;
      ChildrenSound(rules, buf[used..], abs + used, depth);
      var ts := ChildrenOf(rules, buf[used..], abs + used, depth).value;
      ConsFacts(rules, t, ts, abs, depth);
    }
  }

  lemma {:induction false} UntilEocSound(rules: Rules, buf: Octets, abs: nat, depth: nat)
    requires UntilEoc(rules, buf, abs, depth).Ok?
    ensures var (ts, used) := UntilEoc(rules, buf, abs, depth).value;
            && WfAll(rules, ts, depth) && PlacedAll(ts, abs) && NoEoc(ts)
            && LayoutAll(ts) + [0x00, 0x00] == buf[..used]
    decreases |buf|, 1
  {
    hide TlvOf, UntilEoc, Wf, Placed, Layout, WfAll, PlacedAll, LayoutAll, NoEoc, HeaderOf, Header.Identifier;
    NilFacts(rules, abs, depth);
    UntilEocEnd(rules, buf, abs, depth);
    if buf[0] == 0x00 {
      assert buf[..2] == [] + [0x00, 0x00];
    } else {
      UntilEocStep(rules, buf, abs, depth);
      TlvSound(rules, buf, abs, depth);
      var (t, used) := TlvOf(rules, buf, abs, depth).value;
      UntilEocSound(rules, buf[used..], abs + used, depth);
      var (ts, more) := UntilEoc(rules, buf[used..], abs + used, depth).value;
      ConsFacts(rules, t, ts, abs, depth);
      SpanIsLayout(rules, t, depth);
      assert buf[..used + more] == buf[..used] + buf[used..][..more];
      assert LayoutAll([t] + ts) + [0x00, 0x00] == Layout(t) + (LayoutAll(ts) + [0x00, 0x00]);
      assert UntilEoc(rules, buf, abs, depth).value == ([t] + ts, used + more);
    }
  }

  // ---------- completeness ----------

  lemma {:induction false} TlvComplete(rules: Rules, t: Tlv, rest: Octets, abs: nat, depth: nat)
    requires Wf(rules, t, depth) && Placed(t, abs)
    ensures TlvOf(rules, Layout(t) + rest, abs, depth) == Ok((t, |Layout(t)|))
    decreases t
  {
    hide ReadHeader, ChildrenOf, UntilEoc, WfAll, PlacedAll, LayoutAll, NoEoc, Header.Wf, Header.Encoding;
    var h := HeaderOf(t);
    var buf := Layout(t) + rest;
    SpanIsLayout(rules, t, depth);
    TlvCompleteHeader(rules, t, rest, abs, depth);
    if t.indefinite {
      UntilEocComplete(rules, t.body.children, rest, abs + h.headerLen, depth + 1);
    } else if t.constructed {
      ChildrenComplete(rules, t.body.children, abs + h.headerLen, depth + 1);
    }
  }

  lemma TlvCompleteHeader(rules: Rules, t: Tlv, rest: Octets, abs: nat, depth: nat)
    requires Wf(rules, t, depth)
    ensures var h, buf := HeaderOf(t), Layout(t) + rest;
            && ReadHeader(rules, buf, abs) == Ok(h)
            && h.headerLen + |Content(t.body)| <= |buf|
            && buf[h.headerLen..] == Content(t.body) + Trailer(t) + rest
            && buf[h.headerLen..h.headerLen + |Content(t.body)|] == Content(t.body)
  {
    hide ReadHeader, Header.Wf, Header.Encoding;
    var h, buf := HeaderOf(t), Layout(t) + rest;
    SpanIsLayout(rules, t, depth);
    assert buf == h.Encoding() + (Content(t.body) + Trailer(t) + rest);
    HeaderComplete(rules, h, Content(t.body) + Trailer(t) + rest, abs);
  }

  lemma {:induction false} ChildrenComplete(rules: Rules, ts: seq<Tlv>, abs: nat, depth: nat)
    requires WfAll(rules, ts, depth) && PlacedAll(ts, abs)
    ensures ChildrenOf(rules, LayoutAll(ts), abs, depth) == Ok(ts)
    decreases ts
  {
    hide TlvOf, Wf, Placed, Layout, WfAll, PlacedAll, LayoutAll, NoEoc, HeaderOf, Header.Identifier;
    NilFacts(rules, abs, depth);
    if ts != [] {
      var t, rest := ts[0], LayoutAll(ts[1..]);
      assert [t] + ts[1..] == ts;
      ConsFacts(rules, t, ts[1..], abs, depth);
      SpanIsLayout(rules, t, depth);
      TlvComplete(rules, t, rest, abs, depth);
      ChildrenComplete(rules, ts[1..], abs + |Layout(t)|, depth);
      assert LayoutAll(ts)[|Layout(t)|..] == rest;
    }
  }

  lemma FirstOfMany(first: Octets, others: Octets, rest: Octets)
    requires first != []
    ensures var more := others + [0x00, 0x00] + rest;
            var buf := first + others + [0x00, 0x00] + rest;
            buf == first + more && buf[|first|..] == more && buf[0] == first[0]
  {
  }

  lemma {:induction false} UntilEocComplete(rules: Rules, ts: seq<Tlv>, rest: Octets, abs: nat, depth: nat)
    requires WfAll(rules, ts, depth) && PlacedAll(ts, abs) && NoEoc(ts)
    ensures UntilEoc(rules, LayoutAll(ts) + [0x00, 0x00] + rest, abs, depth)
            == Ok((ts, |LayoutAll(ts)| + 2))
    decreases ts
  {
    hide TlvOf, UntilEoc, Wf, Placed, Layout, WfAll, PlacedAll, LayoutAll, NoEoc, HeaderOf, Header.Identifier;
    var buf := LayoutAll(ts) + [0x00, 0x00] + rest;
    NilFacts(rules, abs, depth);
    if ts == [] {
      assert buf[0] == 0x00 && buf[1] == 0x00;
      UntilEocEnd(rules, buf, abs, depth);
    } else {
      var t, us := ts[0], ts[1..];
      var more := LayoutAll(us) + [0x00, 0x00] + rest;
      assert [t] + us == ts;
      ConsFacts(rules, t, us, abs, depth);
      SpanIsLayout(rules, t, depth);
      FirstOfMany(Layout(t), LayoutAll(us), rest);
      assert buf == Layout(t) + more;
      UntilEocStep(rules, buf, abs, depth);
      TlvComplete(rules, t, more, abs, depth);
      UntilEocComplete(rules, us, rest, abs + |Layout(t)|, depth);
    }
  }

  // ---------- the theorems ----------

  /** `parse_rules` returns `t` exactly when the document is an encoding of `t`. */
  lemma ParserIsGrammar(rules: Rules, d: Octets, t: Tlv)
    ensures DocumentOf(d, rules) == Ok(t) <==> Derives(rules, d, t)
  {
    hide TlvOf;
    if DocumentOf(d, rules) == Ok(t) {
      TlvSound(rules, d, 0, 0);
      assert d[..|d|] == d;
    }
    if Derives(rules, d, t) {
      assert d == Layout(t) + [];
      TlvComplete(rules, t, [], 0, 0);
    }
  }

  /** `parse_all` returns `ts` exactly when the stream is their encodings back to back. */
  lemma StreamIsGrammar(d: Octets, ts: seq<Tlv>)
    ensures StreamOf(d) == Ok(ts) <==>
            LayoutAll(ts) == d && WfAll(Ber, ts, 0) && PlacedAll(ts, 0)
  {
    hide TlvOf;
    if StreamOf(d) == Ok(ts) {
      ChildrenSound(Ber, d, 0, 0);
    }
    if LayoutAll(ts) == d && WfAll(Ber, ts, 0) && PlacedAll(ts, 0) {
      ChildrenComplete(Ber, ts, 0, 0);
    }
  }

  /** A document has at most one reading: its annotated tree is determined by its octets. */
  lemma ReadingUnique(rules: Rules, d: Octets, t: Tlv, u: Tlv)
    requires Derives(rules, d, t) && Derives(rules, d, u)
    ensures t == u
  {
    ParserIsGrammar(rules, d, t);
    ParserIsGrammar(rules, d, u);
  }
}
