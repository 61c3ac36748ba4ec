/** Offsets: moving trees, streams of documents, and spans that tile a document. */
module Placement {
  import opened Types
  import opened Grammar
  import opened Parser
  import opened ParserGrammar

  // ---------- placing ----------

  /** Placing a tree changes nothing but its offsets. */
  lemma {:induction false} PlaceFacts(rules: Rules, t: Tlv, abs: nat, depth: nat)
    ensures var u := Place(t, abs);
            && Layout(u) == Layout(t)
            && Placed(u, abs)
            && (Wf(rules, u, depth) <==> Wf(rules, t, depth))
            && HeaderOf(u) == HeaderOf(t)
    decreases t
  {
    hide Header.Wf, Header.Encoding, WfAll, PlacedAll, LayoutAll, PlaceAll, NoEoc;
    if t.body.Constructed? {
      PlaceAllFacts(rules, t.body.children, abs + t.headerLen, depth + 1);
    }
  }

  lemma {:induction false} PlaceAllFacts(rules: Rules, ts: seq<Tlv>, abs: nat, depth: nat)
    ensures var us := PlaceAll(ts, abs);
            && LayoutAll(us) == LayoutAll(ts)
            && PlacedAll(us, abs)
            && (WfAll(rules, us, depth) <==> WfAll(rules, ts, depth))
            && (NoEoc(us) <==> NoEoc(ts))
    decreases ts
  {
    hide Wf, Placed, Layout, NoEoc, HeaderOf;
    NilFacts(rules, abs, depth);
    if ts != [] {
      var next := abs + |Layout(ts[0])|;
      PlaceFacts(rules, ts[0], abs, depth);
      PlaceAllFacts(rules, ts[1..], next, depth);
      ConsFacts(rules, ts[0], ts[1..], abs, depth);
      assert [ts[0]] + ts[1..] == ts;
      ConsFacts(rules, Place(ts[0], abs), PlaceAll(ts[1..], next), abs, depth);
    }
  }

  lemma {:induction false} PlacedIsPlace(t: Tlv, abs: nat)
    requires Placed(t, abs)
    ensures Place(t, abs) == t
    decreases t
  {
    if t.body.Constructed? {
      PlacedAllIsPlaceAll(t.body.children, abs + t.headerLen);
    }
  }

  lemma {:induction false} PlacedAllIsPlaceAll(ts: seq<Tlv>, abs: nat)
    requires PlacedAll(ts, abs)
    ensures PlaceAll(ts, abs) == ts
    decreases ts
  {
    if ts != [] {
      PlacedIsPlace(ts[0], abs);
      PlacedAllIsPlaceAll(ts[1..], abs + |Layout(ts[0])|);
      assert [ts[0]] + ts[1..] == ts;
    }
  }

  // ---------- shifting ----------

  /** The tree with `k` added to every offset. */
  function Shift(t: Tlv, k: nat): Tlv
    decreases t
  {
    t.(offset := t.offset + k,
       body := match t.body
               case Primitive(octets) => t.body
               case Constructed(children) => Constructed(ShiftAll(children, k)))
  }

  function ShiftAll(ts: seq<Tlv>, k: nat): (us: seq<Tlv>)
    ensures |us| == |ts|
    decreases ts
  {
    if ts == [] then [] else [Shift(ts[0], k)] + ShiftAll(ts[1..], k)
  }

  lemma {:induction false} ShiftIsPlace(t: Tlv, abs: nat, k: nat)
    requires Placed(t, abs)
    ensures Shift(t, k) == Place(t, abs + k)
    decreases t
  {
    if t.body.Constructed? {
      ShiftAllIsPlaceAll(t.body.children, abs + t.headerLen, k);
      assert abs + k + t.headerLen == abs + t.headerLen + k;
    }
  }

  lemma {:induction false} ShiftAllIsPlaceAll(ts: seq<Tlv>, abs: nat, k: nat)
    requires PlacedAll(ts, abs)
    ensures ShiftAll(ts, k) == PlaceAll(ts, abs + k)
    decreases ts
  {
    if ts != [] {
      ShiftIsPlace(ts[0], abs, k);
      ShiftAllIsPlaceAll(ts[1..], abs + |Layout(ts[0])|, k);
      assert abs + k + |Layout(ts[0])| == abs + |Layout(ts[0])| + k;
    }
  }

  /** Parsing a stream is a homomorphism: the trees of `a ++ b` are those of `a`, then those
      of `b` with `|a|` added to their offsets. */
  lemma StreamConcat(a: Octets, b: Octets)
    requires StreamOf(a).Ok? && StreamOf(b).Ok?
    ensures StreamOf(a + b) == Ok(StreamOf(a).value + ShiftAll(StreamOf(b).value, |a|))
  {
    hide StreamOf, WfAll, PlacedAll, LayoutAll, PlaceAll, ShiftAll;
    var ts, us := StreamOf(a).value, StreamOf(b).value;
    StreamIsGrammar(a, ts);
    StreamIsGrammar(b, us);
    ShiftAllIsPlaceAll(us, 0, |a|);
    PlaceAllFacts(Ber, us, |a|, 0);
    var vs := PlaceAll(us, |a|);
    LayoutAllAppend(ts, vs);
    WfAllAppend(Ber, ts, vs, 0);
    PlacedAllAppend(ts, vs, 0);
    StreamIsGrammar(a + b, ts + vs);
  }

  // ---------- spans tile the document ----------

  /** All nodes, each before its children. */
  function Preorder(t: Tlv): (ns: seq<Tlv>)
    ensures ns != [] && ns[0] == t
    decreases t
  {
    [t] + match t.body
          case Primitive(_) => []
          case Constructed(children) => PreorderAll(children)
  }

  function PreorderAll(ts: seq<Tlv>): seq<Tlv>
    decreases ts
  {
    if ts == [] then [] else Preorder(ts[0]) + PreorderAll(ts[1..])
  }

  /** Every node of `ns` lies in `doc`, which starts at `abs`: its span is non-trivial and
      holds exactly its own encoding. */
  ghost predicate Inside(ns: seq<Tlv>, doc: Octets, abs: nat) {
    forall i | 0 <= i < |ns| :: NodeInside(ns[i], doc, abs)
  }

  ghost predicate NodeInside(n: Tlv, doc: Octets, abs: nat) {
    && Span(n) >= 2
    && abs <= n.offset
    && n.offset - abs + Span(n) <= |doc|
    && doc[n.offset - abs..n.offset - abs + Span(n)] == Layout(n)
  }

  predicate Increasing(ns: seq<Tlv>) {
    forall i, j | 0 <= i < j < |ns| :: ns[i].offset < ns[j].offset
  }

  lemma InsideShift(ns: seq<Tlv>, pre: Octets, doc: Octets, post: Octets, abs: nat)
    requires Inside(ns, doc, abs + |pre|)
    ensures Inside(ns, pre + doc + post, abs)
  {
    hide Layout;
    forall i | 0 <= i < |ns|
      ensures NodeInside(ns[i], pre + doc + post, abs)
    {
      var n := ns[i];
      assert NodeInside(n, doc, abs + |pre|);
      var at := n.offset - abs;
      assert (pre + doc + post)[at..at + Span(n)] == doc[at - |pre|..at - |pre| + Span(n)];
    }
  }

  lemma NothingInside(abs: nat)
    ensures Inside([], [], abs) && Increasing([])
  {
  }

  lemma InsideAppend(ns: seq<Tlv>, ms: seq<Tlv>, doc: Octets, abs: nat)
    requires Inside(ns, doc, abs) && Inside(ms, doc, abs)
    ensures Inside(ns + ms, doc, abs)
  {
    hide NodeInside;
  }

  lemma IncreasingAppend(ns: seq<Tlv>, ms: seq<Tlv>, doc: Octets, abs: nat, doc': Octets)
    requires Increasing(ns) && Increasing(ms)
    requires Inside(ns, doc, abs) && Inside(ms, doc', abs + |doc|)
    ensures Increasing(ns + ms)
  {
    hide Layout;
    assert forall i | 0 <= i < |ns| :: NodeInside(ns[i], doc, abs) && ns[i].offset < abs + |doc|;
    assert forall i | 0 <= i < |ms| :: NodeInside(ms[i], doc', abs + |doc|) && ms[i].offset >= abs + |doc|;
  }

  lemma {:induction false} TreeTiles(rules: Rules, t: Tlv, abs: nat, depth: nat)
    requires Wf(rules, t, depth) && Placed(t, abs)
    ensures Inside(Preorder(t), Layout(t), abs)
    ensures Increasing(Preorder(t))
    decreases t
  {
    hide Header.Wf, Header.Encoding, LayoutAll, WfAll, PlacedAll, PreorderAll, Inside, Increasing;
    SpanIsLayout(rules, t, depth);
    if t.body.Constructed? {
      ForestTiles(rules, t.body.children, abs + t.headerLen, depth + 1);
      NodeTiles(t, HeaderOf(t).Encoding(), PreorderAll(t.body.children), abs);
    } else {
      LeafTiles(t, Layout(t), abs);
      assert Preorder(t) == [t];
    }
  }

  lemma LeafTiles(t: Tlv, doc: Octets, abs: nat)
    requires doc == Layout(t) && |doc| == Span(t) >= 2 && t.offset == abs
    ensures Inside([t], doc, abs) && Increasing([t])
  {
    hide Layout, Span, NodeInside;
    NodeFills(t, doc, abs);
  }

  lemma NodeFills(t: Tlv, doc: Octets, abs: nat)
    requires doc == Layout(t) && |doc| == Span(t) >= 2 && t.offset == abs
    ensures NodeInside(t, doc, abs)
  {
    hide Layout, Span;
    NodeAt(t, doc, abs, 0, Span(t), Layout(t));
  }

  lemma NodeAt(t: Tlv, doc: Octets, abs: nat, a: nat, n: nat, layout: Octets)
    requires n == Span(t) >= 2 && t.offset == abs + a && a + n <= |doc|
    requires doc[a..a + n] == layout == Layout(t)
    ensures NodeInside(t, doc, abs)
  {
    hide Layout, Span;
  }

  lemma NodeTiles(t: Tlv, head: Octets, ns: seq<Tlv>, abs: nat)
    requires |head| == t.headerLen > 0 && t.offset == abs
    requires |Layout(t)| == Span(t) >= 2
    requires Layout(t) == head + Content(t.body) + Trailer(t)
    requires Inside(ns, Content(t.body), abs + t.headerLen)
    requires Increasing(ns)
    ensures Inside([t] + ns, Layout(t), abs) && Increasing([t] + ns)
  {
    hide Layout, Content;
    InsideShift(ns, head, Content(t.body), Trailer(t), abs);
    forall i | 0 <= i < |ns|
      ensures ns[i].offset > abs
    {
      assert NodeInside(ns[i], Content(t.body), abs + t.headerLen);
    }
    LeafTiles(t, Layout(t), abs);
    InsideAppend([t], ns, Layout(t), abs);
  }

  lemma {:induction false} ForestTiles(rules: Rules, ts: seq<Tlv>, abs: nat, depth: nat)
    requires WfAll(rules, ts, depth) && PlacedAll(ts, abs)
    ensures Inside(PreorderAll(ts), LayoutAll(ts), abs)
    ensures Increasing(PreorderAll(ts))
    decreases ts
  {
    hide Wf, Placed, Layout, Preorder, WfAll, PlacedAll, LayoutAll, Inside, Increasing;
    if ts == [] {
      NilFacts(rules, abs, depth);
      assert Inside([], [], abs) && Increasing([]) by { NothingInside(abs); }
    } else {
      var doc, more := Layout(ts[0]), LayoutAll(ts[1..]);
      assert [ts[0]] + ts[1..] == ts;
      ConsFacts(rules, ts[0], ts[1..], abs, depth);
      TreeTiles(rules, ts[0], abs, depth);
      ForestTiles(rules, ts[1..], abs + |doc|, depth);
      InsideShift(Preorder(ts[0]), [], doc, more, abs);
      assert [] + doc + more == doc + more;
      InsideShift(PreorderAll(ts[1..]), doc, more, [], abs);
      assert doc + more + [] == doc + more;
      InsideAppend(Preorder(ts[0]), PreorderAll(ts[1..]), doc + more, abs);
      IncreasingAppend(Preorder(ts[0]), PreorderAll(ts[1..]), doc, abs, more);
    }
  }

  /** In an accepted document every node spans at least two octets, the octets at its span
      are its own encoding, and nodes in pre-order start at strictly increasing offsets. */
  lemma SpansTile(rules: Rules, d: Octets)
    requires IsValid(d, rules)
    ensures var ns := Preorder(DocumentOf(d, rules).value);
            && Increasing(ns)
            && forall i | 0 <= i < |ns| ::
                 && Span(ns[i]) >= 2
                 && ns[i].offset + Span(ns[i]) <= |d|
                 && d[ns[i].offset..ns[i].offset + Span(ns[i])] == Layout(ns[i])
  {
    hide TlvOf, Layout, Preorder;
    var t := DocumentOf(d, rules).value;
    ParserIsGrammar(rules, d, t);
    TreeTiles(rules, t, 0, 0);
    var ns := Preorder(t);
    assert forall i | 0 <= i < |ns| :: NodeInside(ns[i], d, 0);
  }

  /** Where a constructed node's children start and end: one after the other, from the end
      of its header to its end-of-contents octets. */
  lemma {:induction false} ChildrenTile(rules: Rules, ts: seq<Tlv>, abs: nat, depth: nat, i: nat)
    requires WfAll(rules, ts, depth) && PlacedAll(ts, abs) && i < |ts|
    ensures ts[0].offset == abs
    ensures ts[i].offset + Span(ts[i]) == if i + 1 < |ts| then ts[i + 1].offset else abs + |LayoutAll(ts)|
    decreases ts
  {
    hide Header.Wf, Header.Encoding;
    SpanIsLayout(rules, ts[0], depth);
    if |ts| == 1 {
      assert ts[1..] == [];
    } else {
      assert ts[1..][0] == ts[1] && Placed(ts[1], abs + |Layout(ts[0])|);
    }
    if i > 0 {
      assert ts[1..][i - 1] == ts[i];
      ChildrenTile(rules, ts[1..], abs + |Layout(ts[0])|, depth, i - 1);
    }
  }

  /** Every node of a well-formed, placed tree is itself well-formed and placed. */
  lemma {:induction false} NodeHolds(rules: Rules, t: Tlv, abs: nat, depth: nat, k: nat) returns (level: nat)
    requires Wf(rules, t, depth) && Placed(t, abs) && k < |Preorder(t)|
    ensures Wf(rules, Preorder(t)[k], level) && Placed(Preorder(t)[k], Preorder(t)[k].offset)
    decreases t
  {
    hide Header.Wf, LayoutAll, WfAll, PlacedAll, PreorderAll;
    if k == 0 {
      level := depth;
    } else {
      level := NodeHoldsAll(rules, t.body.children, abs + t.headerLen, depth + 1, k - 1);
    }
  }

  lemma {:induction false} NodeHoldsAll(rules: Rules, ts: seq<Tlv>, abs: nat, depth: nat, k: nat) returns (level: nat)
    requires WfAll(rules, ts, depth) && PlacedAll(ts, abs) && k < |PreorderAll(ts)|
    ensures Wf(rules, PreorderAll(ts)[k], level) && Placed(PreorderAll(ts)[k], PreorderAll(ts)[k].offset)
    decreases ts
  {
    hide Wf, Placed, Preorder;
    var n := |Preorder(ts[0])|;
    if k < n {
      level := NodeHolds(rules, ts[0], abs, depth, k);
    } else {
      level := NodeHoldsAll(rules, ts[1..], abs + |Layout(ts[0])|, depth, k - n);
    }
  }

  /** The content of every constructed node of a document is split by its children without
      gap or overlap: the first starts where the header ends, each next one where the one
      before ended, and the last ends where the content does. */
  lemma ContentIsSplit(rules: Rules, d: Octets, k: nat, i: nat)
    requires IsValid(d, rules)
    requires k < |Preorder(DocumentOf(d, rules).value)|
    requires i < |Preorder(DocumentOf(d, rules).value)[k].Kids()|
    ensures var n := Preorder(DocumentOf(d, rules).value)[k];
            var kids := n.Kids();
            && kids[0].offset == n.offset + n.headerLen
            && kids[i].offset + Span(kids[i])
               == if i + 1 < |kids| then kids[i + 1].offset else n.offset + n.headerLen + n.contentLen
  {
    hide DocumentOf, Header.Wf, LayoutAll, WfAll, PlacedAll, Preorder, Layout;
    var t := DocumentOf(d, rules).value;
    ParserIsGrammar(rules, d, t);
    var level := NodeHolds(rules, t, 0, 0, k);
    var n := Preorder(t)[k];
    ChildrenTile(rules, n.body.children, n.offset + n.headerLen, level + 1, i);
    SpanIsLayout(rules, n, level);
  }
}
