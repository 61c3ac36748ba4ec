/** Re-encoding a tree with definite minimal lengths and sorted SET children. */
module Reencode {
  import opened Types
  import opened Grammar
  import opened Base128Writer
  import Base128
  import Base256
  import ByteOrder

  function Concat(ss: seq<Octets>): Octets {
    if ss == [] then [] else ss[0] + Concat(ss[1..])
  }

  predicate IsSet(t: Tlv) { t.IsUniversal(17) }

  /** The shortest definite length octets for `n`. */
  function ShortestLength(n: nat): Octets {
    DefiniteLength(MinimalCount(n), n)
  }

  /** The octets `to_der` produces. */
  function ToDer(t: Tlv): Octets
    decreases t
  {
    var content := DerContent(IsSet(t), t.body);
    IdentifierOctets(t.cls, t.constructed, t.tag) + ShortestLength(|content|) + content
  }

  function DerContent(isSet: bool, b: Body): Octets
    decreases b
  {
    match b
    case Primitive(octets) => octets
    case Constructed(children) =>
      Concat(if isSet then ByteOrder.Sort(DerAll(children)) else DerAll(children))
  }

  /** The encodings of the children, in document order. */
  function DerAll(ts: seq<Tlv>): (ss: seq<Octets>)
    ensures |ss| == |ts|
    decreases ts
  {
    if ts == [] then [] else [ToDer(ts[0])] + DerAll(ts[1..])
  }

  lemma {:induction false} DerAllAt(ts: seq<Tlv>, i: nat)
    requires i < |ts|
    ensures DerAll(ts)[i] == ToDer(ts[i])
    decreases ts
  {
    hide ToDer;
    if i > 0 {
      DerAllAt(ts[1..], i - 1);
    }
  }

  lemma {:induction false} ConcatMember(ss: seq<Octets>, s: Octets)
    requires s in ss
    ensures |s| <= |Concat(ss)|
  {
    if s != ss[0] {
      assert ss == [ss[0]] + ss[1..];
      ConcatMember(ss[1..], s);
    }
  }

  /** No child's encoding is longer than its parent's. */
  lemma ChildNotLonger(t: Tlv, i: nat)
    requires t.body.Constructed? && i < |t.body.children|
    ensures |ToDer(t.body.children[i])| <= |DerContent(IsSet(t), t.body)| <= |ToDer(t)|
  {
    hide ToDer;
    var ss := DerAll(t.body.children);
    DerAllAt(t.body.children, i);
    assert ss[i] in ss;
    assert ss[i] in multiset(ss);
    assert ss[i] in multiset(ByteOrder.Sort(ss));
    ConcatMember(if IsSet(t) then ByteOrder.Sort(ss) else ss, ss[i]);
    assert |DerContent(IsSet(t), t.body)| <= |ToDer(t)| by {
      ContentNotLonger(t);
    }
  }

  lemma ContentNotLonger(t: Tlv)
    ensures |DerContent(IsSet(t), t.body)| < |ToDer(t)|
  {
    hide DerContent;
  }

  // ---------- methods ----------

  method EncodeIdentifier(t: Tlv, out: Vec<Byte>)
    modifies out
    ensures out.items == old(out.items) + IdentifierOctets(t.cls, t.constructed, t.tag)
  {
    var classBits := ClassBits(t.cls);
    var cons := if t.constructed then 0x20 else 0x00;
    if t.tag < 0x1f {
      out.Push(classBits + cons + t.tag);
    } else {
      out.Push(classBits + cons + 0x1f);
      FiveOctetsHoldATag();
      PushBase128(out, t.tag, 5);
    }
  }

  lemma FiveOctetsHoldATag()
    ensures Base128.Pow128(5) > U32_MAX
  {
    assert Base128.Pow128(1) == 128;
    assert Base128.Pow128(2) == 0x4000;
    assert Base128.Pow128(3) == 0x20_0000;
    assert Base128.Pow128(4) == 0x1000_0000;
  }

  method EncodeLength(len: nat, out: Vec<Byte>)
    requires len <= USIZE_MAX
    modifies out
    ensures out.items == old(out.items) + ShortestLength(len)
  {
    if len < 0x80 {
      out.Push(len);
    } else {
      var bytes := Base256.Fixed(len, 8);
      ghost var sig := Base256.Significant(len);
      ShortestLengthOctets(len);
      var first := 0;
      while bytes[first] == 0
        invariant 0 <= first <= 8 - |sig| < 8
        decreases 8 - first
      {
        first := first + 1;
      }
      assert first == 8 - |sig|;
      out.Push(0x80 + |bytes[first..]|);
      out.Extend(bytes[first..]);
    }
  }

  /** Beyond the short form: the significant octets of the eight, after their count. */
  lemma ShortestLengthOctets(len: nat)
    requires 0x80 <= len <= USIZE_MAX
    ensures var sig, bytes := Base256.Significant(len), Base256.Fixed(len, 8);
            && 1 <= |sig| <= 8
            && (forall i | 0 <= i < 8 - |sig| :: bytes[i] == 0)
            && bytes[8 - |sig|] != 0
            && bytes[8 - |sig|..] == sig
            && ShortestLength(len) == [0x80 + |sig|] + sig
  {
    hide Base256.Significant, Base256.Fixed;
    var sig := Base256.Significant(len);
    UsizeInEightOctets(len);
    Base256.FixedIsPadded(len, 8);
    Base256.FixedIsPadded(len, |sig|);
    assert Base256.Zeros(0) + sig == sig;
    Base256.SignificantFirst(len);
  }

  lemma UsizeInEightOctets(n: nat)
    requires n <= USIZE_MAX
    ensures |Base256.Significant(n)| <= 8
    ensures MinimalCount(n) <= 8
  {
    assert Base256.Pow256(4) == 0x1_0000_0000;
    assert Base256.Pow256(8) == USIZE_MAX + 1;
    Base256.SignificantSize(n, 8);
  }

  method EncodeNode(t: Tlv, out: Vec<Byte>)
    requires |ToDer(t)| <= VEC_MAX
    modifies out
    ensures out.items == old(out.items) + ToDer(t)
    decreases t
  {
    hide ToDer;
    var content: Octets;
    match t.body {
      case Primitive(octets) =>
        content := octets;
      case Constructed(children) =>
        var encoded: seq<Octets> := [];
        for i := 0 to |children|
          invariant |encoded| == i
          invariant forall j | 0 <= j < i :: encoded[j] == ToDer(children[j])
          invariant out.items == old(out.items)
        {
          ChildNotLonger(t, i);
          var v := new Vec<Byte>();
          EncodeNode(children[i], v);
          encoded := encoded + [v.items];
        }
        DerAllIs(children, encoded);
        if t.cls == Universal && t.tag == 17 {
          encoded := ByteOrder.Sort(encoded);
        }
        content := Concat(encoded);
    }
    assert content == DerContent(IsSet(t), t.body);
    ToDerParts(t);
    EncodeIdentifier(t, out);
    EncodeLength(|content|, out);
    out.Extend(content);
  }

  lemma ToDerParts(t: Tlv)
    ensures var content := DerContent(IsSet(t), t.body);
            ToDer(t) == IdentifierOctets(t.cls, t.constructed, t.tag) + ShortestLength(|content|) + content
  {
  }

  lemma DerAllIs(ts: seq<Tlv>, ss: seq<Octets>)
    requires |ss| == |ts| && forall j | 0 <= j < |ts| :: ss[j] == ToDer(ts[j])
    ensures ss == DerAll(ts)
  {
    hide ToDer;
    forall j | 0 <= j < |ts|
      ensures ss[j] == DerAll(ts)[j]
    {
      DerAllAt(ts, j);
    }
  }

  method ToDerBytes(t: Tlv) returns (out: Octets)
    requires |ToDer(t)| <= VEC_MAX
    ensures out == ToDer(t)
  {
    var v := new Vec<Byte>();
    EncodeNode(t, v);
    out := v.items;
  }
}
