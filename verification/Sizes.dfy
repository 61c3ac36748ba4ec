/** How long the canonical encoding is, compared with the document it came from. */
module Sizes {
  import opened Types
  import opened Grammar
  import opened Parser
  import opened ParserGrammar
  import opened Reencode
  import Base256
  import ByteOrder
  import Documents

  /** No node of the tree has the indefinite length form. */
  predicate DefiniteOnly(t: Tlv)
    decreases t
  {
    !t.indefinite && (t.body.Constructed? ==> DefiniteOnlyAll(t.body.children))
  }

  predicate DefiniteOnlyAll(ts: seq<Tlv>)
    decreases ts
  {
    ts != [] ==> DefiniteOnly(ts[0]) && DefiniteOnlyAll(ts[1..])
  }

  /** Every length in the tree has the shortest form. */
  predicate Shortest(t: Tlv)
    decreases t
  {
    && HeaderOf(t).LengthCount() == MinimalCount(t.contentLen)
    && (t.body.Constructed? ==> ShortestAll(t.body.children))
  }

  predicate ShortestAll(ts: seq<Tlv>)
    decreases ts
  {
    ts != [] ==> Shortest(ts[0]) && ShortestAll(ts[1..])
  }

  function ConstructedNodes(t: Tlv): nat
    decreases t
  {
    if t.body.Constructed? then 1 + ConstructedNodesAll(t.body.children) else 0
  }

  function ConstructedNodesAll(ts: seq<Tlv>): nat
    decreases ts
  {
    if ts == [] then 0 else ConstructedNodes(ts[0]) + ConstructedNodesAll(ts[1..])
  }

  // ---------- lengths of concatenations ----------

  lemma {:induction false} InsertLength(x: Octets, ss: seq<Octets>)
    ensures |Concat(ByteOrder.Insert(x, ss))| == |x| + |Concat(ss)|
    decreases |ss|
  {
    hide ByteOrder.LexLe;
    if ss == [] {
      assert [x][1..] == [];
    } else {
      InsertLength(x, ss[1..]);
      assert ([x] + ss)[1..] == ss;
      assert ([ss[0]] + ByteOrder.Insert(x, ss[1..]))[1..] == ByteOrder.Insert(x, ss[1..]);
    }
  }

  lemma {:induction false} SortLength(ss: seq<Octets>)
    ensures |Concat(ByteOrder.Sort(ss))| == |Concat(ss)|
    decreases |ss|
  {
    hide ByteOrder.Insert;
    if ss != [] {
      SortLength(ss[1..]);
      InsertLength(ss[0], ByteOrder.Sort(ss[1..]));
    }
  }

  lemma DerLength(t: Tlv)
    ensures var n := match t.body
                     case Primitive(octets) => |octets|
                     case Constructed(children) => |Concat(DerAll(children))|;
            |ToDer(t)| == |IdentifierOctets(t.cls, t.constructed, t.tag)| + 1 + MinimalCount(n) + n
  {
    hide IdentifierOctets, MinimalCount, ToDer, DerAll, Concat;
    ToDerParts(t);
    if t.body.Constructed? {
      SortLength(DerAll(t.body.children));
    }
  }

  lemma CountMonotone(n: nat, m: nat)
    requires n <= m
    ensures MinimalCount(n) <= MinimalCount(m)
  {
    hide Base256.Significant;
    Base256.SignificantMonotone(n, m);
  }

  /** No form of a length is shorter than the shortest. */
  lemma CountIsLeast(rules: Rules, h: Header)
    requires h.Wf(rules) && !h.indefinite
    ensures MinimalCount(h.contentLen) <= h.LengthCount()
    ensures h.headerLen == |h.Identifier()| + 1 + h.LengthCount()
  {
    hide Base256.Significant, IdentifierOctets;
  }

  // ---------- definite lengths only ----------

  lemma {:induction false} DefiniteBound(rules: Rules, t: Tlv, depth: nat)
    requires Wf(rules, t, depth) && DefiniteOnly(t)
    ensures |ToDer(t)| <= |Layout(t)|
    ensures |ToDer(t)| == |Layout(t)| <==> Shortest(t)
    decreases t
  {
    hide ToDer, Layout, DerAll, Concat, LayoutAll, Header.Wf, IdentifierOctets, MinimalCount,
      WfAll, ShortestAll, DefiniteOnlyAll;
    SpanIsLayout(rules, t, depth);
    CountIsLeast(rules, HeaderOf(t));
    DerLength(t);
    if t.body.Constructed? {
      DefiniteBoundAll(rules, t.body.children, depth + 1);
      CountMonotone(|Concat(DerAll(t.body.children))|, t.contentLen);
    }
  }

  lemma {:induction false} DefiniteBoundAll(rules: Rules, ts: seq<Tlv>, depth: nat)
    requires WfAll(rules, ts, depth) && DefiniteOnlyAll(ts)
    ensures |Concat(DerAll(ts))| <= |LayoutAll(ts)|
    ensures |Concat(DerAll(ts))| == |LayoutAll(ts)| <==> ShortestAll(ts)
    decreases ts
  {
    hide ToDer, Layout, Wf, Shortest, DefiniteOnly;
    if ts != [] {
      DefiniteBound(rules, ts[0], depth);
      DefiniteBoundAll(rules, ts[1..], depth);
      assert DerAll(ts)[1..] == DerAll(ts[1..]);
    }
  }

  // ---------- any lengths ----------

  lemma {:induction false} TwoOctetsEach(rules: Rules, t: Tlv, depth: nat)
    requires Wf(rules, t, depth)
    ensures 2 * ConstructedNodes(t) <= |Layout(t)|
    decreases t
  {
    hide Layout, LayoutAll, Header.Wf, ConstructedNodesAll, WfAll;
    SpanIsLayout(rules, t, depth);
    if t.body.Constructed? {
      TwoOctetsEachAll(rules, t.body.children, depth + 1);
    }
  }

  lemma {:induction false} TwoOctetsEachAll(rules: Rules, ts: seq<Tlv>, depth: nat)
    requires WfAll(rules, ts, depth)
    ensures 2 * ConstructedNodesAll(ts) <= |LayoutAll(ts)|
    decreases ts
  {
    hide Layout, Wf, ConstructedNodes;
    if ts != [] {
      TwoOctetsEach(rules, ts[0], depth);
      TwoOctetsEachAll(rules, ts[1..], depth);
    }
  }

  lemma {:induction false} GrowthBound(rules: Rules, t: Tlv, depth: nat)
    requires Wf(rules, t, depth)
    requires 5 * |Layout(t)| <= USIZE_MAX || |ToDer(t)| <= USIZE_MAX
    ensures |ToDer(t)| <= |Layout(t)| + 8 * ConstructedNodes(t)
    decreases t
  {
    hide ToDer, Layout, DerAll, Concat, LayoutAll, Header.Wf, IdentifierOctets, MinimalCount,
      WfAll, ConstructedNodesAll;
    SpanIsLayout(rules, t, depth);
    DerLength(t);
    if t.body.Constructed? {
      TwoOctetsEachAll(rules, t.body.children, depth + 1);
      GrowthBoundAll(rules, t.body.children, depth + 1);
      UsizeInEightOctets(|Concat(DerAll(t.body.children))|);
      HeaderHasLength(HeaderOf(t));
    } else {
      CountIsLeast(rules, HeaderOf(t));
    }
  }

  lemma HeaderHasLength(h: Header)
    ensures |h.Encoding()| >= |h.Identifier()| + 1
  {
  }

  lemma {:induction false} GrowthBoundAll(rules: Rules, ts: seq<Tlv>, depth: nat)
    requires WfAll(rules, ts, depth)
    requires 5 * |LayoutAll(ts)| <= USIZE_MAX || |Concat(DerAll(ts))| <= USIZE_MAX
    ensures |Concat(DerAll(ts))| <= |LayoutAll(ts)| + 8 * ConstructedNodesAll(ts)
    decreases ts
  {
    hide ToDer, Layout, Wf, ConstructedNodes;
    if ts != [] {
      GrowthBound(rules, ts[0], depth);
      GrowthBoundAll(rules, ts[1..], depth);
      assert DerAll(ts)[1..] == DerAll(ts[1..]);
    }
  }

  // ---------- the theorems ----------

  /** Without indefinite lengths re-encoding never grows a document, and keeps its size
      exactly when every length already had the shortest form. */
  lemma DefiniteNeverGrows(d: Octets, t: Tlv)
    requires DocumentOf(d, Ber) == Ok(t) && DefiniteOnly(t)
    ensures |ToDer(t)| <= |d|
    ensures |ToDer(t)| == |d| <==> Shortest(t)
  {
    hide DocumentOf, Wf, ToDer, Layout;
    ParserIsGrammar(Ber, d, t);
    DefiniteBound(Ber, t, 0);
  }

  /** In general each constructed node adds at most eight octets to an encoding that fits in a
      vector, and the encoding of a document below a fifth of the largest vector always fits. */
  lemma BoundedGrowth(d: Octets, t: Tlv)
    requires DocumentOf(d, Ber) == Ok(t)
    ensures |ToDer(t)| <= VEC_MAX ==> |ToDer(t)| <= |d| + 8 * ConstructedNodes(t)
    ensures 5 * |d| <= VEC_MAX ==> |ToDer(t)| <= VEC_MAX
  {
    hide DocumentOf, Wf, ToDer, Layout;
    ParserIsGrammar(Ber, d, t);
    TwoOctetsEach(Ber, t, 0);
    if 5 * |d| <= VEC_MAX || |ToDer(t)| <= VEC_MAX {
      GrowthBound(Ber, t, 0);
    }
  }

  lemma {:induction false} DerShortest(t: Tlv, depth: nat)
    requires Wf(Der, t, depth)
    ensures DefiniteOnly(t) && Shortest(t)
    decreases t
  {
    hide Layout, Content, WfAll, ShortestAll, DefiniteOnlyAll;
    if t.body.Constructed? {
      DerShortestAll(t.body.children, depth + 1);
    }
  }

  lemma {:induction false} DerShortestAll(ts: seq<Tlv>, depth: nat)
    requires WfAll(Der, ts, depth)
    ensures DefiniteOnlyAll(ts) && ShortestAll(ts)
    decreases ts
  {
    hide Wf, Shortest, DefiniteOnly;
    if ts != [] {
      DerShortest(ts[0], depth);
      DerShortestAll(ts[1..], depth);
    }
  }

  /** A document accepted under DER is read the same under BER, and re-encoding it keeps its
      size, whether or not its SETs are sorted. */
  lemma DerKeepsSize(d: Octets, t: Tlv)
    requires DocumentOf(d, Der) == Ok(t)
    ensures DocumentOf(d, Ber) == Ok(t)
    ensures |ToDer(t)| == |d|
  {
    hide DocumentOf, Wf, ToDer, Layout;
    Documents.DerRefinesBer(d, t);
    ParserIsGrammar(Der, d, t);
    DerShortest(t, 0);
    DefiniteNeverGrows(d, t);
  }
}
