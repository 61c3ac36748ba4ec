/** Exactly how well-formed encodings are refused: beyond the nesting limit, and under DER. */
module Refusals {
  import opened Types
  import opened Grammar
  import opened HeaderReader
  import opened Parser
  import opened ParserGrammar
  import opened Placement
  import Base256

  // ---------- DER ----------

  /** The first node, in document order, whose length octets are not those of DER. */
  function FirstNonDer(ns: seq<Tlv>): Option<Tlv> {
    if ns == [] then None
    else if !HeaderOf(ns[0]).Wf(Der) then Some(ns[0])
    else FirstNonDer(ns[1..])
  }

  function DerRefusal(n: Tlv): ErrorKind {
    if n.indefinite then IndefiniteInDer else NonCanonical
  }

  lemma {:induction false} FirstNonDerAppend(ns: seq<Tlv>, ms: seq<Tlv>)
    ensures FirstNonDer(ns + ms) == if FirstNonDer(ns).Some? then FirstNonDer(ns) else FirstNonDer(ms)
    decreases |ns|
  {
    hide Header.Wf;
    if ns == [] {
      assert ns + ms == ms;
    } else {
      assert (ns + ms)[1..] == ns[1..] + ms;
      FirstNonDerAppend(ns[1..], ms);
    }
  }

  /** A header that BER admits and DER does not. */
  lemma HeaderRefused(h: Header, rest: Octets, abs: nat)
    requires h.Wf(Ber) && !h.Wf(Der)
    ensures ReadHeader(Der, h.Encoding() + rest, abs)
            == Err(if h.indefinite then IndefiniteInDer else NonCanonical, abs)
  {
    hide Base256.Significant, Base256.Fixed, Base256.Value, IdentifierOctets, ReadIdentifier;
    var id := h.Identifier();
    var len := h.Encoding()[|id|..];
    var buf := h.Encoding() + rest;
    assert buf == id + (len + rest);
    IdentifierComplete(h.cls, h.constructed, h.tag, len + rest, abs);
    if !h.indefinite {
      var k := h.LengthCount();
      assert buf[|id|] == DefiniteLength(k, h.contentLen)[0];
      if k > 0 {
        var s := buf[|id| + 1..|id| + 1 + k];
        assert s == Base256.Fixed(h.contentLen, k) && s[0] == buf[|id| + 1];
        Base256.FixedValue(h.contentLen, k);
        DerLongFormMinimal(s);
      }
    }
  }

  lemma {:induction false} DerOnTree(t: Tlv, rest: Octets, abs: nat, depth: nat)
    requires Wf(Ber, t, depth) && Placed(t, abs)
    ensures TlvOf(Der, Layout(t) + rest, abs, depth)
            == match FirstNonDer(Preorder(t))
               case None => Ok((t, |Layout(t)|))
               case Some(n) => Err(DerRefusal(n), n.offset)
    decreases t
  {
    hide ReadHeader, ChildrenOf, UntilEoc, WfAll, PlacedAll, LayoutAll, NoEoc, Header.Wf, Header.Encoding, PreorderAll;
    var h := HeaderOf(t);
    var buf := Layout(t) + rest;
    var body := Content(t.body) + Trailer(t) + rest;
    SpanIsLayout(Ber, t, depth);
    assert buf == h.Encoding() + body;
    FirstOfTree(t);
    if !h.Wf(Der) {
      HeaderRefused(h, body, abs);
    } else {
      DerHeaderDefinite(h);
      HeaderComplete(Der, h, body, abs);
      assert buf[h.headerLen..h.headerLen + h.contentLen] == Content(t.body);
      if t.constructed {
        DerOnForest(t.body.children, abs + h.headerLen, depth + 1);
      }
    }
  }

  lemma DerHeaderDefinite(h: Header)
    requires h.Wf(Der)
    ensures !h.indefinite
  {
  }

  lemma FirstOfTree(t: Tlv)
    ensures FirstNonDer(Preorder(t))
            == if !HeaderOf(t).Wf(Der) then Some(t)
               else if t.body.Constructed? then FirstNonDer(PreorderAll(t.body.children)) else None
  {
    hide Header.Wf;
    var ns := if t.body.Constructed? then PreorderAll(t.body.children) else [];
    assert Preorder(t) == [t] + ns;
    assert ([t] + ns)[1..] == ns;
  }

  lemma {:induction false} DerOnForest(ts: seq<Tlv>, abs: nat, depth: nat)
    requires WfAll(Ber, ts, depth) && PlacedAll(ts, abs)
    ensures ChildrenOf(Der, LayoutAll(ts), abs, depth)
            == match FirstNonDer(PreorderAll(ts))
               case None => Ok(ts)
               case Some(n) => Err(DerRefusal(n), n.offset)
    decreases ts
  {
    hide TlvOf, Wf, Placed, Layout, HeaderOf, Preorder, FirstNonDer, DerRefusal;
    if ts == [] {
      NothingNonDer();
    } else {
      var t, rest := ts[0], LayoutAll(ts[1..]);
      SpanIsLayout(Ber, t, depth);
      FirstNonDerAppend(Preorder(t), PreorderAll(ts[1..]));
      DerOnTree(t, rest, abs, depth);
      DerOnForest(ts[1..], abs + |Layout(t)|, depth);
      assert LayoutAll(ts)[|Layout(t)|..] == rest;
      assert [t] + ts[1..] == ts;
    }
  }

  lemma NothingNonDer()
    ensures FirstNonDer([]) == None
  {
  }

  /** DER on a BER document: the same tree when every length is definite and shortest;
      otherwise the first offending element in document order is reported, as indefinite or
      as non-canonical, at its own offset. */
  lemma DerVerdict(d: Octets, t: Tlv)
    requires DocumentOf(d, Ber) == Ok(t)
    ensures DocumentOf(d, Der)
            == match FirstNonDer(Preorder(t))
               case None => Ok(t)
               case Some(n) => Err(DerRefusal(n), n.offset)
  {
    hide TlvOf, Wf, Placed, Layout, Preorder, FirstNonDer, DerRefusal;
    ParserIsGrammar(Ber, d, t);
    DerOnTree(t, [], 0, 0);
    assert d + [] == d;
  }

  // ---------- nesting ----------

  /** `Wf` without the nesting limit. */
  predicate Admissible(rules: Rules, t: Tlv)
    decreases t
  {
    WfNode(rules, t) && (t.body.Constructed? ==> AdmissibleAll(rules, t.body.children))
  }

  predicate AdmissibleAll(rules: Rules, ts: seq<Tlv>)
    decreases ts
  {
    ts != [] ==> Admissible(rules, ts[0]) && AdmissibleAll(rules, ts[1..])
  }

  /** How many levels there are below the root. */
  function Height(t: Tlv): nat
    decreases t
  {
    match t.body
    case Primitive(_) => 0
    case Constructed(children) => HeightAll(children)
  }

  /** One more than the greatest height, zero when there are no trees. */
  function HeightAll(ts: seq<Tlv>): nat
    decreases ts
  {
    if ts == [] then 0
    else
      var a, b := Height(ts[0]) + 1, HeightAll(ts[1..]);
      if a >= b then a else b
  }

  lemma {:induction false} WfIsShallow(rules: Rules, t: Tlv, depth: nat)
    ensures Wf(rules, t, depth) <==> Admissible(rules, t) && depth + Height(t) <= MAX_NESTING
    decreases t
  {
    hide Header.Wf, LayoutAll, NoEoc, WfAll, AdmissibleAll, HeightAll;
    if t.body.Constructed? {
      WfAllIsShallow(rules, t.body.children, depth);
    }
  }

  lemma {:induction false} WfAllIsShallow(rules: Rules, ts: seq<Tlv>, depth: nat)
    ensures WfAll(rules, ts, depth + 1) && depth <= MAX_NESTING
            <==> AdmissibleAll(rules, ts) && depth + HeightAll(ts) <= MAX_NESTING
    decreases ts
  {
    hide Wf, Admissible, Height;
    if ts != [] {
      WfIsShallow(rules, ts[0], depth + 1);
      WfAllIsShallow(rules, ts[1..], depth);
    }
  }

  lemma AdmissibleHeader(rules: Rules, t: Tlv, rest: Octets, abs: nat)
    requires Admissible(rules, t)
    ensures var h, buf := HeaderOf(t), Layout(t) + rest;
            && ReadHeader(rules, buf, abs) == Ok(h)
            && h.headerLen + |Content(t.body)| <= |buf|
            && buf[h.headerLen..] == Content(t.body) + Trailer(t) + rest
            && buf[h.headerLen..h.headerLen + |Content(t.body)|] == Content(t.body)
            && h.headerLen >= 2
            && Layout(t)[0] == h.Identifier()[0]
            && (t.indefinite ==> t.constructed)
  {
    WfIsShallow(rules, t, 0);
    var h := HeaderOf(t);
    assert |h.Encoding()| == h.headerLen;
    assert Layout(t) + rest == h.Encoding() + (Content(t.body) + Trailer(t) + rest);
    HeaderComplete(rules, h, Content(t.body) + Trailer(t) + rest, abs);
  }

  lemma {:induction false} TooDeep(rules: Rules, t: Tlv, rest: Octets, abs: nat, depth: nat)
    requires Admissible(rules, t) && Placed(t, abs)
    requires depth + Height(t) > MAX_NESTING
    ensures var r := TlvOf(rules, Layout(t) + rest, abs, depth);
            r.Err? && r.kind == NestingLimit
    decreases t
  {
    hide ReadHeader, ChildrenOf, UntilEoc, AdmissibleAll, PlacedAll, LayoutAll, NoEoc, Header.Wf,
      Header.Encoding, HeightAll;
    if depth <= MAX_NESTING {
      AdmissibleHeader(rules, t, rest, abs);
      var h := HeaderOf(t);
      if t.indefinite {
        UntilEocTooDeep(rules, t.body.children, rest, abs + h.headerLen, depth);
      } else {
        ChildrenTooDeep(rules, t.body.children, abs + h.headerLen, depth);
      }
    }
  }

  lemma {:induction false} ChildrenTooDeep(rules: Rules, ts: seq<Tlv>, abs: nat, depth: nat)
    requires AdmissibleAll(rules, ts) && PlacedAll(ts, abs)
    requires depth <= MAX_NESTING < depth + HeightAll(ts)
    ensures var r := ChildrenOf(rules, LayoutAll(ts), abs, depth + 1);
            r.Err? && r.kind == NestingLimit
    decreases ts
  {
    hide TlvOf, Admissible, Placed, Layout, Height, HeaderOf, Header.Identifier, Header.Encoding,
      Content, Trailer, ReadHeader;
    var t, rest := ts[0], LayoutAll(ts[1..]);
    LayoutNotEmpty(t);
    if depth + 1 + Height(t) > MAX_NESTING {
      TooDeep(rules, t, rest, abs, depth + 1);
    } else {
      WfIsShallow(rules, t, depth + 1);
      TlvComplete(rules, t, rest, abs, depth + 1);
      ChildrenTooDeep(rules, ts[1..], abs + |Layout(t)|, depth);
      assert LayoutAll(ts)[|Layout(t)|..] == rest;
    }
  }

  lemma LayoutNotEmpty(t: Tlv)
    ensures Layout(t) != []
  {
    hide IdentifierOctets;
  }

  lemma {:induction false} UntilEocTooDeep(rules: Rules, ts: seq<Tlv>, rest: Octets, abs: nat, depth: nat)
    requires AdmissibleAll(rules, ts) && PlacedAll(ts, abs) && NoEoc(ts)
    requires depth <= MAX_NESTING < depth + HeightAll(ts)
    ensures var r := UntilEoc(rules, LayoutAll(ts) + [0x00, 0x00] + rest, abs, depth + 1);
            r.Err? && r.kind == NestingLimit
    decreases ts
  {
    hide TlvOf, UntilEoc, Admissible, Placed, Layout, Height, HeaderOf, Header.Identifier;
    var t, us := ts[0], ts[1..];
    var more := LayoutAll(us) + [0x00, 0x00] + rest;
    var buf := LayoutAll(ts) + [0x00, 0x00] + rest;
    AdmissibleHeader(rules, t, more, abs);
    LayoutNotEmpty(t);
    FirstOfMany(Layout(t), LayoutAll(us), rest);
    UntilEocStep(rules, buf, abs, depth + 1);
    if depth + 1 + Height(t) > MAX_NESTING {
      TooDeep(rules, t, more, abs, depth + 1);
    } else {
      WfIsShallow(rules, t, depth + 1);
      TlvComplete(rules, t, more, abs, depth + 1);
      UntilEocTooDeep(rules, us, rest, abs + |Layout(t)|, depth);
    }
  }

  /** An otherwise admissible encoding is accepted exactly up to 256 levels below the root;
      beyond that it is refused, and for its nesting. */
  lemma NestingLimitIsExact(rules: Rules, t: Tlv)
    requires Admissible(rules, t) && Placed(t, 0)
    ensures Height(t) <= 256 ==> DocumentOf(Layout(t), rules) == Ok(t)
    ensures Height(t) > 256 ==>
              var r := DocumentOf(Layout(t), rules); r.Err? && r.kind == NestingLimit
  {
    hide TlvOf, Wf, Admissible, Placed, Layout, Height;
    WfIsShallow(rules, t, 0);
    if Height(t) <= 256 {
      ParserIsGrammar(rules, Layout(t), t);
    } else {
      TooDeep(rules, t, [], 0, 0);
      assert Layout(t) + [] == Layout(t);
    }
  }
}
