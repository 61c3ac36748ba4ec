/** What canonicalisation keeps: the decoded JSON value and the leaf octets. */
module Meaning {
  import opened Types
  import opened Parser
  import opened Reencode
  import opened Equivalence
  import opened Placement
  import Canonical
  import Views

  /** The clean JSON projection. `V` stands for the JSON values of primitive nodes. */
  datatype Json<V> = Leaf(value: V) | Array(items: seq<Json<V>>)

  /** How a primitive node is shown: a function of its class, tag and octets only. */
  type Primitives<!V> = (Class, U32, Octets) -> V

  /** `decode_value`. */
  function DecodeValue<V>(prim: Primitives<V>, t: Tlv): Json<V>
    decreases t
  {
    match t.body
    case Primitive(octets) => Leaf(prim(t.cls, t.tag, octets))
    case Constructed(children) => Array(DecodeAll(prim, children))
  }

  function DecodeAll<V>(prim: Primitives<V>, ts: seq<Tlv>): (vs: seq<Json<V>>)
    ensures |vs| == |ts|
    decreases ts
  {
    if ts == [] then [] else [DecodeValue(prim, ts[0])] + DecodeAll(prim, ts[1..])
  }

  /** `gather_octets`: the leaf octets in document order. */
  function Gathered(t: Tlv): Octets
    decreases t
  {
    match t.body
    case Primitive(octets) => octets
    case Constructed(children) => GatheredAll(children)
  }

  function GatheredAll(ts: seq<Tlv>): Octets
    decreases ts
  {
    if ts == [] then [] else Gathered(ts[0]) + GatheredAll(ts[1..])
  }

  method GatherInto(t: Tlv, out: Vec<Byte>)
    modifies out
    ensures out.items == old(out.items) + Gathered(t)
    decreases t
  {
    match t.body {
      case Primitive(octets) =>
        out.Extend(octets);
      case Constructed(children) =>
        ghost var start := out.items;
        assert children[0..] == children;
        for i := 0 to |children|
          invariant start + GatheredAll(children) == out.items + GatheredAll(children[i..])
        {
          assert children[i..][0] == children[i] && children[i..][1..] == children[i + 1..];
          GatherInto(children[i], out);
        }
        assert children[|children|..] == [] && out.items + [] == out.items;
    }
  }

  // ---------- values that differ in the order of SET arrays only ----------

  /** `v` and `w` are values of trees shaped like `t`, equal up to the order of the arrays
      that stand for universal SETs. */
  ghost predicate SameValue<V>(t: Tlv, v: Json<V>, w: Json<V>)
    decreases t
  {
    match t.body
    case Primitive(_) => v == w
    case Constructed(children) =>
      v.Array? && w.Array? &&
      if IsSet(t) then Shuffled(children, v.items, w.items) else SameAll(children, v.items, w.items)
  }

  ghost predicate SameAll<V>(ts: seq<Tlv>, vs: seq<Json<V>>, ws: seq<Json<V>>)
    decreases ts
  {
    && |ts| == |vs| == |ws|
    && (ts != [] ==> SameValue(ts[0], vs[0], ws[0]) && SameAll(ts[1..], vs[1..], ws[1..]))
  }

  ghost predicate Shuffled<V>(ts: seq<Tlv>, vs: seq<Json<V>>, ws: seq<Json<V>>)
    decreases ts
  {
    && |ts| == |vs| == |ws|
    && (ts != [] ==>
          exists i | 0 <= i < |ws| ::
            SameValue(ts[0], vs[0], ws[i]) && Shuffled(ts[1..], vs[1..], Without(ws, i)))
  }

  lemma {:induction false} DecodeAllWithout<V>(prim: Primitives<V>, ts: seq<Tlv>, i: nat)
    requires i < |ts|
    ensures DecodeAll(prim, Without(ts, i)) == Without(DecodeAll(prim, ts), i)
    ensures DecodeAll(prim, ts)[i] == DecodeValue(prim, ts[i])
    decreases |ts|
  {
    hide DecodeValue;
    if i == 0 {
      assert Without(ts, 0) == ts[1..];
    } else {
      DecodeAllWithout(prim, ts[1..], i - 1);
      assert Without(ts, i) == [ts[0]] + Without(ts[1..], i - 1);
      assert Without(ts, i)[1..] == Without(ts[1..], i - 1);
      assert DecodeAll(prim, ts)[1..] == DecodeAll(prim, ts[1..]);
    }
  }

  lemma {:induction false} EquivSameValue<V>(prim: Primitives<V>, t: Tlv, u: Tlv)
    requires Equiv(t, u)
    ensures SameValue(t, DecodeValue(prim, t), DecodeValue(prim, u))
    decreases t
  {
    hide EquivAll, Rearranged, SameAll, Shuffled, DecodeAll;
    if t.body.Constructed? {
      if IsSet(t) {
        RearrangedShuffled(prim, t.body.children, u.body.children);
      } else {
        EquivSameAll(prim, t.body.children, u.body.children);
      }
    }
  }

  lemma {:induction false} EquivSameAll<V>(prim: Primitives<V>, ts: seq<Tlv>, us: seq<Tlv>)
    requires EquivAll(ts, us)
    ensures SameAll(ts, DecodeAll(prim, ts), DecodeAll(prim, us))
    decreases ts
  {
    hide Equiv, SameValue, DecodeValue;
    if ts != [] {
      EquivSameValue(prim, ts[0], us[0]);
      EquivSameAll(prim, ts[1..], us[1..]);
      assert DecodeAll(prim, ts)[1..] == DecodeAll(prim, ts[1..]);
      assert DecodeAll(prim, us)[1..] == DecodeAll(prim, us[1..]);
    }
  }

  lemma {:induction false} RearrangedShuffled<V>(prim: Primitives<V>, ts: seq<Tlv>, us: seq<Tlv>)
    requires Rearranged(ts, us)
    ensures Shuffled(ts, DecodeAll(prim, ts), DecodeAll(prim, us))
    decreases ts
  {
    hide Equiv, SameValue, DecodeValue;
    if ts != [] {
      var i :| 0 <= i < |us| && Equiv(ts[0], us[i]) && Rearranged(ts[1..], Without(us, i));
      EquivSameValue(prim, ts[0], us[i]);
      RearrangedShuffled(prim, ts[1..], Without(us, i));
      DecodeAllWithout(prim, us, i);
      assert DecodeAll(prim, ts)[1..] == DecodeAll(prim, ts[1..]);
      assert DecodeAll(prim, us)[i] == DecodeValue(prim, us[i]);
    }
  }

  // ---------- leaf octets ----------

  lemma {:induction false} GatheredWithout(ts: seq<Tlv>, i: nat)
    requires i < |ts|
    ensures multiset(GatheredAll(ts)) == multiset(Gathered(ts[i])) + multiset(GatheredAll(Without(ts, i)))
    decreases |ts|
  {
    hide Gathered;
    if i == 0 {
      assert Without(ts, 0) == ts[1..];
    } else {
      GatheredWithout(ts[1..], i - 1);
      assert Without(ts, i)[1..] == Without(ts[1..], i - 1);
    }
  }

  lemma {:induction false} EquivSameOctets(t: Tlv, u: Tlv)
    requires Equiv(t, u)
    ensures multiset(Gathered(t)) == multiset(Gathered(u))
    decreases t
  {
    hide EquivAll, Rearranged, GatheredAll;
    if t.body.Constructed? {
      if IsSet(t) {
        RearrangedSameOctets(t.body.children, u.body.children);
      } else {
        EquivSameOctetsAll(t.body.children, u.body.children);
      }
    }
  }

  lemma {:induction false} EquivSameOctetsAll(ts: seq<Tlv>, us: seq<Tlv>)
    requires EquivAll(ts, us)
    ensures multiset(GatheredAll(ts)) == multiset(GatheredAll(us))
    decreases ts
  {
    hide Equiv, Gathered;
    if ts != [] {
      EquivSameOctets(ts[0], us[0]);
      EquivSameOctetsAll(ts[1..], us[1..]);
    }
  }

  lemma {:induction false} RearrangedSameOctets(ts: seq<Tlv>, us: seq<Tlv>)
    requires Rearranged(ts, us)
    ensures multiset(GatheredAll(ts)) == multiset(GatheredAll(us))
    decreases ts
  {
    hide Equiv, Gathered;
    if ts != [] {
      var i :| 0 <= i < |us| && Equiv(ts[0], us[i]) && Rearranged(ts[1..], Without(us, i));
      EquivSameOctets(ts[0], us[i]);
      RearrangedSameOctets(ts[1..], Without(us, i));
      GatheredWithout(us, i);
    }
  }

  // ---------- trees without SETs ----------

  predicate NoSets(t: Tlv)
    decreases t
  {
    !IsSet(t) && (t.body.Constructed? ==> NoSetsAll(t.body.children))
  }

  predicate NoSetsAll(ts: seq<Tlv>)
    decreases ts
  {
    ts != [] ==> NoSets(ts[0]) && NoSetsAll(ts[1..])
  }

  lemma {:induction false} NoSetsExact<V>(prim: Primitives<V>, t: Tlv, u: Tlv)
    requires Equiv(t, u) && NoSets(t)
    ensures DecodeValue(prim, t) == DecodeValue(prim, u)
    ensures Gathered(t) == Gathered(u)
    decreases t
  {
    hide EquivAll, Rearranged, DecodeAll, GatheredAll, NoSetsAll;
    if t.body.Constructed? {
      NoSetsExactAll(prim, t.body.children, u.body.children);
    }
  }

  lemma {:induction false} NoSetsExactAll<V>(prim: Primitives<V>, ts: seq<Tlv>, us: seq<Tlv>)
    requires EquivAll(ts, us) && NoSetsAll(ts)
    ensures DecodeAll(prim, ts) == DecodeAll(prim, us)
    ensures GatheredAll(ts) == GatheredAll(us)
    decreases ts
  {
    hide Equiv, NoSets, DecodeValue, Gathered;
    if ts != [] {
      NoSetsExact(prim, ts[0], us[0]);
      NoSetsExactAll(prim, ts[1..], us[1..]);
    }
  }

  // ---------- the theorems ----------

  /** The tree read back from `to_der(t)` is `t` up to layout and SET order. */
  lemma ReparsedIsEquiv(d: Octets, t: Tlv, u: Tlv)
    requires DocumentOf(d, Ber) == Ok(t)
    requires |ToDer(t)| <= VEC_MAX
    requires DocumentOf(ToDer(t), Ber) == Ok(u)
    ensures Equiv(t, u)
  {
    hide DocumentOf, ToDer, Equiv;
    Canonical.Idempotent(d, t, u);
    CanonicalForm(d, t, ToDer(t), u);
  }

  /** Decoding the canonical encoding gives the same value up to the order of arrays that
      come from universal SETs, and exactly the same value when there are none. The leaf
      octets are conserved, and keep their order when there are no SETs. */
  lemma MeaningPreserved<V>(prim: Primitives<V>, d: Octets, t: Tlv, u: Tlv)
    requires DocumentOf(d, Ber) == Ok(t)
    requires |ToDer(t)| <= VEC_MAX
    requires DocumentOf(ToDer(t), Ber) == Ok(u)
    ensures SameValue(t, DecodeValue(prim, t), DecodeValue(prim, u))
    ensures multiset(Gathered(t)) == multiset(Gathered(u))
    ensures NoSets(t) ==> DecodeValue(prim, t) == DecodeValue(prim, u) && Gathered(t) == Gathered(u)
  {
    hide DocumentOf, ToDer, Equiv, SameValue, DecodeValue, Gathered, NoSets;
    ReparsedIsEquiv(d, t, u);
    EquivSameValue(prim, t, u);
    EquivSameOctets(t, u);
    if NoSets(t) {
      NoSetsExact(prim, t, u);
    }
  }

  // ---------- where values and octets come from ----------

  /** The octets of the primitive nodes in a list of nodes, one after the other. */
  function LeafOctets(ns: seq<Tlv>): Octets {
    if ns == [] then []
    else (match ns[0].body case Primitive(octets) => octets case Constructed(_) => []) + LeafOctets(ns[1..])
  }

  lemma {:induction false} LeafOctetsAppend(ns: seq<Tlv>, ms: seq<Tlv>)
    ensures LeafOctets(ns + ms) == LeafOctets(ns) + LeafOctets(ms)
    decreases |ns|
  {
    if ns == [] {
      assert ns + ms == ms;
    } else {
      assert (ns + ms)[1..] == ns[1..] + ms;
      LeafOctetsAppend(ns[1..], ms);
    }
  }

  /** Gathered octets are those of the leaves in document order. */
  lemma {:induction false} GatheredAreLeaves(t: Tlv)
    ensures Gathered(t) == LeafOctets(Preorder(t))
    decreases t
  {
    hide GatheredAll, PreorderAll;
    match t.body
    case Primitive(octets) =>
      assert Preorder(t) == [t] && [t][1..] == [];
      assert LeafOctets([t][1..]) == [];
    case Constructed(children) =>
      GatheredAreLeavesAll(children);
      assert Preorder(t)[0] == t && Preorder(t)[1..] == PreorderAll(children);
  }

  lemma {:induction false} GatheredAreLeavesAll(ts: seq<Tlv>)
    ensures GatheredAll(ts) == LeafOctets(PreorderAll(ts))
    decreases ts
  {
    hide Gathered, Preorder;
    if ts != [] {
      GatheredAreLeaves(ts[0]);
      GatheredAreLeavesAll(ts[1..]);
      LeafOctetsAppend(Preorder(ts[0]), PreorderAll(ts[1..]));
    }
  }

  /** The value inside a value at these positions. */
  function ValueAt<V>(v: Json<V>, a: seq<nat>): Option<Json<V>>
    decreases |a|
  {
    if a == [] then Some(v)
    else if v.Array? && a[0] < |v.items| then ValueAt(v.items[a[0]], a[1..])
    else None
  }

  /** A node is shown as its class, tag and octets are, or as an array of its children. */
  ghost predicate ShowsNode<V>(prim: Primitives<V>, v: Json<V>, n: Tlv) {
    match n.body
    case Primitive(octets) => v == Leaf(prim(n.cls, n.tag, octets))
    case Constructed(children) => v.Array? && |v.items| == |children|
  }

  /** The value has at each address what the tree has there, and nothing else. */
  lemma {:induction false} ValuesAreWhereNodesAre<V>(prim: Primitives<V>, t: Tlv, a: seq<nat>)
    ensures ValueAt(DecodeValue(prim, t), a).Some? <==> Views.Follow(t, a).Some?
    ensures Views.Follow(t, a).Some? ==>
              ShowsNode(prim, ValueAt(DecodeValue(prim, t), a).value, Views.Follow(t, a).value)
    decreases |a|
  {
    hide DecodeAll;
    if a != [] && t.body.Constructed? && a[0] < |t.body.children| {
      ValuesAreWhereNodesAre(prim, t.body.children[a[0]], a[1..]);
      DecodeAllWithout(prim, t.body.children, a[0]);
    }
  }
}
