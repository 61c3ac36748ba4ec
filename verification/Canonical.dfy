/** Re-encoding as canonicalisation: the tree that `to_der` writes, and the round trip
    through the parser. */
module Canonical {
  import opened Types
  import opened Grammar
  import opened Parser
  import opened ParserGrammar
  import opened Placement
  import opened Reencode
  import ByteOrder
  import Documents
  import Sizes

  // ---------- the canonical tree ----------

  /** `t` with the given body and the shortest definite length. */
  function Seal(t: Tlv, body: Body): Tlv {
    var n := |Content(body)|;
    Tlv(t.cls, t.constructed, t.tag,
        |IdentifierOctets(t.cls, t.constructed, t.tag)| + 1 + MinimalCount(n), n, false, 0, body)
  }

  /** The tree whose layout is `ToDer(t)`: lengths definite and shortest, SET children in
      ascending order of their encodings. Offsets are left at zero. */
  function Canon(t: Tlv): Tlv
    decreases t
  {
    Seal(t, CanonBody(IsSet(t), t.body))
  }

  function CanonBody(isSet: bool, b: Body): Body
    decreases b
  {
    match b
    case Primitive(octets) => b
    case Constructed(children) =>
      Constructed(if isSet then SortTrees(CanonAll(children)) else CanonAll(children))
  }

  function CanonAll(ts: seq<Tlv>): seq<Tlv>
    decreases ts
  {
    if ts == [] then [] else [Canon(ts[0])] + CanonAll(ts[1..])
  }

  function InsertTree(t: Tlv, ts: seq<Tlv>): seq<Tlv> {
    if ts == [] then [t]
    else if ByteOrder.LexLe(Layout(t), Layout(ts[0])) then [t] + ts
    else [ts[0]] + InsertTree(t, ts[1..])
  }

  function SortTrees(ts: seq<Tlv>): seq<Tlv> {
    if ts == [] then [] else InsertTree(ts[0], SortTrees(ts[1..]))
  }

  function Layouts(ts: seq<Tlv>): (ss: seq<Octets>)
    ensures |ss| == |ts|
    decreases |ts|
  {
    if ts == [] then [] else [Layout(ts[0])] + Layouts(ts[1..])
  }

  lemma {:induction false} LayoutsAt(ts: seq<Tlv>, i: nat)
    requires i < |ts|
    ensures Layouts(ts)[i] == Layout(ts[i])
  {
    hide Layout;
    if i > 0 {
      LayoutsAt(ts[1..], i - 1);
    }
  }

  lemma {:induction false} LayoutsConcat(ts: seq<Tlv>)
    ensures LayoutAll(ts) == Concat(Layouts(ts))
    decreases |ts|
  {
    hide Layout;
    if ts != [] {
      LayoutsConcat(ts[1..]);
      assert Layouts(ts)[1..] == Layouts(ts[1..]);
    }
  }

  lemma {:induction false} InsertTreeLayouts(t: Tlv, ts: seq<Tlv>)
    ensures Layouts(InsertTree(t, ts)) == ByteOrder.Insert(Layout(t), Layouts(ts))
    decreases |ts|
  {
    hide Layout, ByteOrder.LexLe;
    if ts != [] {
      InsertTreeLayouts(t, ts[1..]);
      assert Layouts(ts)[1..] == Layouts(ts[1..]);
      assert ([t] + ts)[1..] == ts;
      assert ([ts[0]] + InsertTree(t, ts[1..]))[1..] == InsertTree(t, ts[1..]);
    }
  }

  lemma {:induction false} SortTreesLayouts(ts: seq<Tlv>)
    ensures Layouts(SortTrees(ts)) == ByteOrder.Sort(Layouts(ts))
    decreases |ts|
  {
    hide Layout;
    if ts != [] {
      SortTreesLayouts(ts[1..]);
      InsertTreeLayouts(ts[0], SortTrees(ts[1..]));
      assert Layouts(ts)[1..] == Layouts(ts[1..]);
    }
  }

  lemma SealLayout(t: Tlv, body: Body)
    ensures var n := |Content(body)|;
            Layout(Seal(t, body))
            == IdentifierOctets(t.cls, t.constructed, t.tag) + ShortestLength(n) + Content(body)
  {
    hide IdentifierOctets, DefiniteLength, MinimalCount;
    var u := Seal(t, body);
    assert HeaderOf(u).LengthCount() == MinimalCount(|Content(body)|);
    assert Layout(u) == HeaderOf(u).Encoding() + Content(body) + [];
  }

  /** `ToDer` writes the canonical tree. */
  lemma {:induction false} CanonLayout(t: Tlv)
    ensures Layout(Canon(t)) == ToDer(t)
    ensures Content(CanonBody(IsSet(t), t.body)) == DerContent(IsSet(t), t.body)
    decreases t
  {
    hide Layout, Seal, SortTrees, LayoutAll;
    match t.body
    case Primitive(_) =>
      SealLayout(t, t.body);
    case Constructed(children) =>
      var us := CanonAll(children);
      CanonAllLayouts(children);
      SortTreesLayouts(us);
      LayoutsConcat(if IsSet(t) then SortTrees(us) else us);
      SealLayout(t, CanonBody(IsSet(t), t.body));
  }

  lemma {:induction false} CanonAllLayouts(ts: seq<Tlv>)
    ensures Layouts(CanonAll(ts)) == DerAll(ts)
    decreases ts
  {
    hide Layout, Canon, ToDer;
    if ts != [] {
      CanonLayout(ts[0]);
      CanonAllLayouts(ts[1..]);
      assert CanonAll(ts)[1..] == CanonAll(ts[1..]);
    }
  }

  // ---------- it is a DER encoding ----------

  lemma {:induction false} InsertTreeWf(rules: Rules, t: Tlv, ts: seq<Tlv>, depth: nat)
    ensures WfAll(rules, InsertTree(t, ts), depth) <==> Wf(rules, t, depth) && WfAll(rules, ts, depth)
    decreases |ts|
  {
    hide Wf, Layout, ByteOrder.LexLe;
    if ts != [] {
      InsertTreeWf(rules, t, ts[1..], depth);
      assert ([t] + ts)[1..] == ts;
      assert ([ts[0]] + InsertTree(t, ts[1..]))[1..] == InsertTree(t, ts[1..]);
    }
  }

  lemma {:induction false} SortTreesWf(rules: Rules, ts: seq<Tlv>, depth: nat)
    ensures WfAll(rules, SortTrees(ts), depth) <==> WfAll(rules, ts, depth)
    decreases |ts|
  {
    hide Wf, InsertTree;
    if ts != [] {
      SortTreesWf(rules, ts[1..], depth);
      InsertTreeWf(rules, ts[0], SortTrees(ts[1..]), depth);
    }
  }

  lemma SealWf(t: Tlv, body: Body)
    requires |Content(body)| <= USIZE_MAX
    ensures HeaderOf(Seal(t, body)).Wf(Der)
  {
    hide IdentifierOctets, Content;
    UsizeInEightOctets(|Content(body)|);
    var h := HeaderOf(Seal(t, body));
    assert h.LengthCount() == MinimalCount(|Content(body)|);
    assert |h.Encoding()| == h.headerLen;
  }

  lemma {:induction false} CanonWf(rules: Rules, t: Tlv, depth: nat)
    requires Wf(rules, t, depth) && |ToDer(t)| <= VEC_MAX
    ensures Wf(Der, Canon(t), depth)
    decreases t
  {
    hide Layout, LayoutAll, ToDer, DerContent, Header.Wf, SortTrees, CanonAll, WfAll;
    var body := CanonBody(IsSet(t), t.body);
    CanonLayout(t);
    ContentNotLonger(t);
    SealWf(t, body);
    SpanIsLayout(rules, t, depth);
    if t.body.Constructed? {
      forall i | 0 <= i < |t.body.children|
        ensures |ToDer(t.body.children[i])| <= VEC_MAX
      {
        ChildNotLonger(t, i);
      }
      CanonAllWf(rules, t.body.children, depth + 1);
      SortTreesWf(Der, CanonAll(t.body.children), depth + 1);
    }
  }

  lemma {:induction false} CanonAllWf(rules: Rules, ts: seq<Tlv>, depth: nat)
    requires WfAll(rules, ts, depth)
    requires forall i | 0 <= i < |ts| :: |ToDer(ts[i])| <= VEC_MAX
    ensures WfAll(Der, CanonAll(ts), depth)
    decreases ts
  {
    hide Wf, Canon, ToDer;
    if ts != [] {
      CanonWf(rules, ts[0], depth);
      CanonAllWf(rules, ts[1..], depth);
      assert CanonAll(ts)[1..] == CanonAll(ts[1..]);
    }
  }

  // ---------- SET order in the tree ----------

  /** The children of every universal SET are in ascending order of their encodings. */
  predicate SetsSorted(t: Tlv)
    decreases t
  {
    SetsSortedBody(IsSet(t), t.body)
  }

  predicate SetsSortedBody(isSet: bool, b: Body)
    decreases b
  {
    b.Constructed? ==>
      && (isSet ==> ByteOrder.Sorted(Layouts(b.children)))
      && SetsSortedAll(b.children)
  }

  predicate SetsSortedAll(ts: seq<Tlv>)
    decreases ts
  {
    ts != [] ==> SetsSorted(ts[0]) && SetsSortedAll(ts[1..])
  }

  lemma {:induction false} InsertTreeSetsSorted(t: Tlv, ts: seq<Tlv>)
    ensures SetsSortedAll(InsertTree(t, ts)) <==> SetsSorted(t) && SetsSortedAll(ts)
    decreases |ts|
  {
    hide SetsSorted, Layout, ByteOrder.LexLe;
    if ts != [] {
      InsertTreeSetsSorted(t, ts[1..]);
      assert ([t] + ts)[1..] == ts;
      assert ([ts[0]] + InsertTree(t, ts[1..]))[1..] == InsertTree(t, ts[1..]);
    }
  }

  lemma {:induction false} SortTreesSetsSorted(ts: seq<Tlv>)
    ensures SetsSortedAll(SortTrees(ts)) <==> SetsSortedAll(ts)
    decreases |ts|
  {
    hide SetsSorted, InsertTree;
    if ts != [] {
      SortTreesSetsSorted(ts[1..]);
      InsertTreeSetsSorted(ts[0], SortTrees(ts[1..]));
    }
  }

  lemma {:induction false} CanonSetsSorted(t: Tlv)
    ensures SetsSorted(Canon(t))
    decreases t
  {
    hide Layouts, SortTrees, CanonAll, ByteOrder.Sorted, SetsSortedAll, Content;
    if t.body.Constructed? {
      var us := CanonAll(t.body.children);
      CanonAllSetsSorted(t.body.children);
      SortTreesSetsSorted(us);
      SortTreesLayouts(us);
      ByteOrder.SortSorts(Layouts(us));
    }
  }

  lemma {:induction false} CanonAllSetsSorted(ts: seq<Tlv>)
    ensures SetsSortedAll(CanonAll(ts))
    decreases ts
  {
    hide Canon, SetsSorted;
    if ts != [] {
      CanonSetsSorted(ts[0]);
      CanonAllSetsSorted(ts[1..]);
      assert CanonAll(ts)[1..] == CanonAll(ts[1..]);
    }
  }

  lemma {:induction false} PlaceSetsSorted(t: Tlv, abs: nat)
    ensures SetsSorted(Place(t, abs)) <==> SetsSorted(t)
    decreases t
  {
    hide Layouts, ByteOrder.Sorted, SetsSortedAll, PlaceAll;
    if t.body.Constructed? {
      PlaceAllSetsSorted(t.body.children, abs + t.headerLen);
    }
  }

  lemma {:induction false} PlaceAllSetsSorted(ts: seq<Tlv>, abs: nat)
    ensures SetsSortedAll(PlaceAll(ts, abs)) <==> SetsSortedAll(ts)
    ensures Layouts(PlaceAll(ts, abs)) == Layouts(ts)
    decreases ts
  {
    hide Place, SetsSorted, Layout;
    if ts != [] {
      PlaceSetsSorted(ts[0], abs);
      PlaceFacts(Ber, ts[0], abs, 0);
      PlaceAllSetsSorted(ts[1..], abs + |Layout(ts[0])|);
      assert PlaceAll(ts, abs)[1..] == PlaceAll(ts[1..], abs + |Layout(ts[0])|);
    }
  }

  // ---------- canonical trees are left alone ----------

  /** A DER tree whose SETs are sorted is written back octet for octet. */
  lemma {:induction false} CanonicalFixed(t: Tlv, depth: nat)
    requires Wf(Der, t, depth) && SetsSorted(t)
    ensures ToDer(t) == Layout(t)
    decreases t
  {
    hide Layouts, ByteOrder.Sorted, SetsSortedAll, LayoutAll, WfAll, DerAll, IdentifierOctets;
    SpanIsLayout(Der, t, depth);
    if t.body.Constructed? {
      var children := t.body.children;
      CanonicalFixedAll(children, depth + 1);
      LayoutsConcat(children);
      if IsSet(t) {
        ByteOrder.SortFixed(Layouts(children));
      }
    }
    assert DerContent(IsSet(t), t.body) == Content(t.body);
    ToDerParts(t);
    assert HeaderOf(t).LengthCount() == MinimalCount(t.contentLen);
    assert Layout(t) == HeaderOf(t).Encoding() + Content(t.body) + [];
  }

  lemma {:induction false} CanonicalFixedAll(ts: seq<Tlv>, depth: nat)
    requires WfAll(Der, ts, depth) && SetsSortedAll(ts)
    ensures DerAll(ts) == Layouts(ts)
    decreases ts
  {
    hide ToDer, Layout, Wf, SetsSorted;
    if ts != [] {
      CanonicalFixed(ts[0], depth);
      CanonicalFixedAll(ts[1..], depth);
    }
  }

  // ---------- the theorems ----------

  /** The octets `to_der` writes are accepted under DER and read back as the canonical tree:
      every length definite and shortest, every SET sorted. */
  lemma RoundTrip(d: Octets, t: Tlv)
    requires DocumentOf(d, Ber) == Ok(t)
    requires |ToDer(t)| <= VEC_MAX
    ensures DocumentOf(ToDer(t), Der) == Ok(Place(Canon(t), 0))
    ensures SetsSorted(Place(Canon(t), 0))
  {
    hide DocumentOf, Wf, Layout, Canon, ToDer, Place, SetsSorted;
    ParserIsGrammar(Ber, d, t);
    CanonWf(Ber, t, 0);
    CanonLayout(t);
    CanonSetsSorted(t);
    PlaceSetsSorted(Canon(t), 0);
    PlaceFacts(Der, Canon(t), 0, 0);
    ParserIsGrammar(Der, ToDer(t), Place(Canon(t), 0));
  }

  /** Parsing and re-encoding once more changes nothing. */
  lemma Idempotent(d: Octets, t: Tlv, u: Tlv)
    requires DocumentOf(d, Ber) == Ok(t)
    requires |ToDer(t)| <= VEC_MAX
    requires DocumentOf(ToDer(t), Ber) == Ok(u)
    ensures ToDer(u) == ToDer(t)
    ensures DocumentOf(ToDer(t), Der) == Ok(u)
  {
    hide DocumentOf, Wf, Layout, Canon, ToDer, Place, SetsSorted;
    RoundTrip(d, t);
    var v := Place(Canon(t), 0);
    Documents.DerRefinesBer(ToDer(t), v);
    ParserIsGrammar(Der, ToDer(t), v);
    CanonicalFixed(v, 0);
  }

  /** Exactly which documents `to_der` leaves alone: those accepted under DER whose universal
      SETs are sorted. Being accepted under DER is not enough. */
  lemma DerIdentity(d: Octets, t: Tlv)
    requires DocumentOf(d, Ber) == Ok(t)
    requires |ToDer(t)| <= VEC_MAX
    ensures ToDer(t) == d <==> IsValid(d, Der) && SetsSorted(t)
  {
    hide DocumentOf, Wf, Layout, Canon, ToDer, Place, SetsSorted;
    if ToDer(t) == d {
      RoundTrip(d, t);
      Documents.DerRefinesBer(d, Place(Canon(t), 0));
    }
    if IsValid(d, Der) && SetsSorted(t) {
      Documents.DerRefinesBer(d, DocumentOf(d, Der).value);
      ParserIsGrammar(Der, d, t);
      CanonicalFixed(t, 0);
    }
  }

  /** A stream of canonical encodings is read back as the canonical trees, in order. */
  lemma StreamRoundTrip(d: Octets, ts: seq<Tlv>)
    requires StreamOf(d) == Ok(ts)
    requires forall i | 0 <= i < |ts| :: |ToDer(ts[i])| <= VEC_MAX
    ensures StreamOf(Concat(DerAll(ts))) == Ok(PlaceAll(CanonAll(ts), 0))
  {
    hide StreamOf, WfAll, PlacedAll, LayoutAll, PlaceAll, CanonAll, DerAll, ToDer;
    var us := CanonAll(ts);
    StreamIsGrammar(d, ts);
    CanonAllWf(Ber, ts, 0);
    Documents.DerWfAll(us, 0);
    CanonAllLayouts(ts);
    LayoutsConcat(us);
    PlaceAllFacts(Ber, us, 0, 0);
    StreamIsGrammar(Concat(DerAll(ts)), PlaceAll(us, 0));
  }

  /** `SET { INTEGER 2, INTEGER 1 }` with shortest lengths: accepted under DER, although its
      children are not in order, and therefore changed by `to_der`. */
  lemma AcceptedUnderDerButChanged(d: Octets)
    requires d == [0x31, 0x06, 0x02, 0x01, 0x02, 0x02, 0x01, 0x01]
    ensures IsValid(d, Der)
    ensures ToDer(DocumentOf(d, Der).value) != d
  {
    var two := SmallInteger(2, 2);
    var one := SmallInteger(1, 5);
    var children := [two, one];
    var t := Tlv(Universal, true, 17, 2, 6, false, 0, Constructed(children));
    SmallIntegerFacts(2, 2);
    SmallIntegerFacts(1, 5);
    ListFacts(two, one);
    assert IdentifierOctets(Universal, true, 17) == [0x31];
    assert DefiniteLength(0, 6) == [0x06];
    assert HeaderOf(t).Encoding() == [0x31, 0x06];
    assert Layout(t) == [0x31, 0x06] + LayoutAll(children) + [] == d;
    assert Derives(Der, d, t);
    ParserIsGrammar(Der, d, t);
    Sizes.DerKeepsSize(d, t);
    assert Layouts(children)[0] == [0x02, 0x01, 0x02] && Layouts(children)[1] == [0x02, 0x01, 0x01];
    NotInOrder();
    assert !SetsSorted(t);
    DerIdentity(d, t);
  }

  function SmallInteger(n: Byte, offset: nat): Tlv {
    Tlv(Universal, false, 2, 2, 1, false, offset, Primitive([n]))
  }

  lemma SmallIntegerFacts(n: Byte, offset: nat)
    ensures var t := SmallInteger(n, offset);
            Layout(t) == [0x02, 0x01, n] && Wf(Der, t, 1) && Placed(t, offset)
  {
    var t := SmallInteger(n, offset);
    assert IdentifierOctets(Universal, false, 2) == [0x02];
    assert DefiniteLength(0, 1) == [0x01];
    assert HeaderOf(t).Encoding() == [0x02, 0x01];
    assert Layout(t) == [0x02, 0x01] + [n] + [];
  }

  lemma ListFacts(two: Tlv, one: Tlv)
    requires Layout(two) == [0x02, 0x01, 0x02] && Wf(Der, two, 1) && Placed(two, 2)
    requires Layout(one) == [0x02, 0x01, 0x01] && Wf(Der, one, 1) && Placed(one, 5)
    ensures var children := [two, one];
            && LayoutAll(children) == [0x02, 0x01, 0x02, 0x02, 0x01, 0x01]
            && Layouts(children) == [[0x02, 0x01, 0x02], [0x02, 0x01, 0x01]]
            && WfAll(Der, children, 1) && PlacedAll(children, 2)
  {
    hide Layout, Wf, Placed, WfAll, PlacedAll, LayoutAll, NoEoc;
    assert [one] + [] == [one] && [two] + [one] == [two, one] && [two, one][1..] == [one];
    NilFacts(Der, 8, 1);
    ConsFacts(Der, one, [], 5, 1);
    ConsFacts(Der, two, [one], 2, 1);
  }

  lemma NotInOrder()
    ensures !ByteOrder.LexLe([0x02, 0x01, 0x02], [0x02, 0x01, 0x01])
  {
    assert [0x02, 0x01, 0x02][1..] == [0x01, 0x02] && [0x02, 0x01, 0x01][1..] == [0x01, 0x01];
    assert [0x01, 0x02][1..] == [0x02] && [0x01, 0x01][1..] == [0x01];
  }
}
