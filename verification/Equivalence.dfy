/** Canonical form: two trees are re-encoded to the same octets exactly when they are equal
    up to layout and up to the order of SET children. */
module Equivalence {
  import opened Types
  import opened Grammar
  import opened HeaderReader
  import opened Parser
  import opened ParserGrammar
  import opened Reencode
  import opened Canonical
  import ByteOrder

  // ---------- equality up to layout and SET order ----------

  /** Offsets, header lengths, content lengths and the indefinite flag are ignored; the
      children of a universal SET may be rearranged. */
  ghost predicate Equiv(t: Tlv, u: Tlv)
    decreases t
  {
    && t.cls == u.cls && t.constructed == u.constructed && t.tag == u.tag
    && EquivBody(IsSet(t), t.body, u.body)
  }

  ghost predicate EquivBody(isSet: bool, b: Body, c: Body)
    decreases b
  {
    match b
    case Primitive(octets) => b == c
    case Constructed(children) =>
      c.Constructed? &&
      if isSet then Rearranged(children, c.children) else EquivAll(children, c.children)
  }

  ghost predicate EquivAll(ts: seq<Tlv>, us: seq<Tlv>)
    decreases ts
  {
    |ts| == |us| && (ts != [] ==> Equiv(ts[0], us[0]) && EquivAll(ts[1..], us[1..]))
  }

  /** A one-to-one matching of `ts` with `us`, in any order, by equivalent trees. */
  ghost predicate Rearranged(ts: seq<Tlv>, us: seq<Tlv>)
    decreases ts
  {
    && |ts| == |us|
    && (ts != [] ==>
          exists i | 0 <= i < |us| :: Equiv(ts[0], us[i]) && Rearranged(ts[1..], Without(us, i)))
  }

  function Without<T>(s: seq<T>, i: nat): (r: seq<T>)
    requires i < |s|
    ensures |r| == |s| - 1
  {
    s[..i] + s[i + 1..]
  }

  /** The constructed flag says which kind of body a node has, throughout the tree. Every
      parsed tree is like that. */
  predicate Shaped(t: Tlv)
    decreases t
  {
    t.constructed == t.body.Constructed? && ShapedBody(t.body)
  }

  predicate ShapedBody(b: Body)
    decreases b
  {
    b.Constructed? ==> ShapedAll(b.children)
  }

  predicate ShapedAll(ts: seq<Tlv>)
    decreases ts
  {
    ts != [] ==> Shaped(ts[0]) && ShapedAll(ts[1..])
  }

  lemma {:induction false} WfShaped(rules: Rules, t: Tlv, depth: nat)
    requires Wf(rules, t, depth)
    ensures Shaped(t)
    decreases t
  {
    hide Header.Wf, LayoutAll;
    if t.body.Constructed? {
      WfAllShaped(rules, t.body.children, depth + 1);
    }
  }

  lemma {:induction false} WfAllShaped(rules: Rules, ts: seq<Tlv>, depth: nat)
    requires WfAll(rules, ts, depth)
    ensures ShapedAll(ts)
    decreases ts
  {
    hide Wf, Shaped;
    if ts != [] {
      WfShaped(rules, ts[0], depth);
      WfAllShaped(rules, ts[1..], depth);
    }
  }

  lemma {:induction false} ShapedAt(ts: seq<Tlv>, i: nat)
    requires ShapedAll(ts) && i < |ts|
    ensures Shaped(ts[i])
    decreases ts
  {
    hide Shaped;
    if i > 0 {
      ShapedAt(ts[1..], i - 1);
    }
  }

  lemma {:induction false} ShapedWithout(ts: seq<Tlv>, i: nat)
    requires ShapedAll(ts) && i < |ts|
    ensures ShapedAll(Without(ts, i))
    decreases ts
  {
    hide Shaped;
    if i == 0 {
      assert Without(ts, 0) == ts[1..];
    } else {
      ShapedWithout(ts[1..], i - 1);
      assert Without(ts, i)[1..] == Without(ts[1..], i - 1);
    }
  }

  // ---------- sequences without one element ----------

  lemma WithoutMultiset<T>(s: seq<T>, i: nat)
    requires i < |s|
    ensures multiset(s) == multiset(Without(s, i)) + multiset{s[i]}
  {
    assert s == s[..i] + [s[i]] + s[i + 1..];
  }

  lemma {:induction false} DerAllWithout(ts: seq<Tlv>, i: nat)
    requires i < |ts|
    ensures DerAll(Without(ts, i)) == Without(DerAll(ts), i)
    decreases |ts|
  {
    hide ToDer;
    if i == 0 {
      assert Without(ts, 0) == ts[1..];
    } else {
      DerAllWithout(ts[1..], i - 1);
      assert Without(ts, i) == [ts[0]] + Without(ts[1..], i - 1);
      assert Without(ts, i)[1..] == Without(ts[1..], i - 1);
      assert DerAll(ts)[1..] == DerAll(ts[1..]);
    }
  }

  // ---------- equivalent trees have the same encoding ----------

  lemma {:induction false} EquivSameDer(t: Tlv, u: Tlv)
    requires Equiv(t, u)
    ensures ToDer(t) == ToDer(u)
    decreases t
  {
    hide EquivAll, Rearranged, DerAll, ByteOrder.Sort, Concat;
    if t.body.Constructed? {
      var ts, us := t.body.children, u.body.children;
      if IsSet(t) {
        RearrangedSameDer(ts, us);
        ByteOrder.SortSorts(DerAll(ts));
        ByteOrder.SortSorts(DerAll(us));
        ByteOrder.SortedUnique(ByteOrder.Sort(DerAll(ts)), ByteOrder.Sort(DerAll(us)));
      } else {
        EquivAllSameDer(ts, us);
      }
    }
    ToDerParts(t);
    ToDerParts(u);
  }

  lemma {:induction false} EquivAllSameDer(ts: seq<Tlv>, us: seq<Tlv>)
    requires EquivAll(ts, us)
    ensures DerAll(ts) == DerAll(us)
    decreases ts
  {
    hide Equiv, ToDer;
    if ts != [] {
      EquivSameDer(ts[0], us[0]);
      EquivAllSameDer(ts[1..], us[1..]);
    }
  }

  lemma {:induction false} RearrangedSameDer(ts: seq<Tlv>, us: seq<Tlv>)
    requires Rearranged(ts, us)
    ensures multiset(DerAll(ts)) == multiset(DerAll(us))
    decreases ts
  {
    hide Equiv, ToDer;
    if ts != [] {
      var i :| 0 <= i < |us| && Equiv(ts[0], us[i]) && Rearranged(ts[1..], Without(us, i));
      EquivSameDer(ts[0], us[i]);
      RearrangedSameDer(ts[1..], Without(us, i));
      DerAllWithout(us, i);
      DerAllAt(us, i);
      WithoutMultiset(DerAll(us), i);
      assert multiset(DerAll(ts)) == multiset{ToDer(ts[0])} + multiset(DerAll(ts[1..]));
    }
  }

  // ---------- encodings are self-delimiting ----------

  /** `s` is one definite-length encoding, nothing more and nothing less. */
  predicate IsCode(s: Octets) {
    var r := ReadHeader(Ber, s, 0);
    r.Ok? && !r.value.indefinite && r.value.headerLen + r.value.contentLen == |s|
  }

  lemma DerHeaderInBer(h: Header)
    requires h.Wf(Der)
    ensures h.Wf(Ber)
  {
  }

  lemma DerHeader(t: Tlv)
    requires |ToDer(t)| <= VEC_MAX
    ensures var content := DerContent(IsSet(t), t.body);
            var head := ToDer(t)[..|ToDer(t)| - |content|];
            && ToDer(t) == head + content
            && ReadHeader(Ber, ToDer(t), 0)
               == Ok(Header(t.cls, t.constructed, t.tag, |head|, false, |content|))
  {
    hide ToDer, DerContent, Header.Wf, IdentifierOctets, ReadHeader, Layout, DefiniteLength, CanonBody;
    var body := CanonBody(IsSet(t), t.body);
    var u := Seal(t, body);
    ToDerParts(t);
    CanonLayout(t);
    ContentNotLonger(t);
    SealWf(t, body);
    var h := HeaderOf(u);
    assert h.LengthCount() == MinimalCount(|Content(body)|);
    assert ToDer(t) == h.Encoding() + Content(body);
    DerHeaderInBer(h);
    HeaderComplete(Ber, h, Content(body), 0);
  }

  lemma DerIsCode(t: Tlv)
    requires |ToDer(t)| <= VEC_MAX
    ensures IsCode(ToDer(t))
  {
    hide ToDer, ReadHeader, DerContent;
    DerHeader(t);
  }

  lemma DerAllCodes(ts: seq<Tlv>)
    requires forall i | 0 <= i < |ts| :: |ToDer(ts[i])| <= VEC_MAX
    ensures forall i | 0 <= i < |ts| :: IsCode(DerAll(ts)[i])
  {
    hide ToDer, IsCode;
    forall i | 0 <= i < |ts|
      ensures IsCode(DerAll(ts)[i])
    {
      DerAllAt(ts, i);
      DerIsCode(ts[i]);
    }
  }

  /** A header does not depend on what follows it. */
  lemma HeaderLocal(s: Octets, x: Octets)
    requires ReadHeader(Ber, s, 0).Ok?
    ensures ReadHeader(Ber, s + x, 0) == ReadHeader(Ber, s, 0)
  {
    hide ReadHeader, Header.Wf, Header.Encoding;
    var h := ReadHeader(Ber, s, 0).value;
    HeaderSound(Ber, s, 0);
    assert s + x == h.Encoding() + (s[h.headerLen..] + x);
    HeaderComplete(Ber, h, s[h.headerLen..] + x, 0);
  }

  /** One encoding in front of anything can be told apart from what follows. */
  lemma CodeInFront(s: Octets, x: Octets, s': Octets, x': Octets)
    requires IsCode(s) && IsCode(s') && s + x == s' + x'
    ensures s == s' && x == x'
  {
    hide ReadHeader;
    HeaderLocal(s, x);
    HeaderLocal(s', x');
    assert (s + x)[..|s|] == s && (s' + x')[..|s'|] == s';
    assert (s + x)[|s|..] == x && (s' + x')[|s'|..] == x';
  }

  /** No encoding is a proper prefix of another. */
  lemma CodePrefixFree(s: Octets, s': Octets)
    requires IsCode(s) && IsCode(s') && s <= s'
    ensures s == s'
  {
    hide IsCode;
    assert s + s'[|s|..] == s' + [];
    CodeInFront(s, s'[|s|..], s', []);
  }

  lemma CodeNotEmpty(s: Octets)
    requires IsCode(s)
    ensures s != []
  {
  }

  /** A list of encodings can be read off their concatenation. */
  lemma {:induction false} ConcatInjective(ss: seq<Octets>, ss': seq<Octets>)
    requires forall i | 0 <= i < |ss| :: IsCode(ss[i])
    requires forall i | 0 <= i < |ss'| :: IsCode(ss'[i])
    requires Concat(ss) == Concat(ss')
    ensures ss == ss'
    decreases |ss|
  {
    hide IsCode;
    if ss == [] {
      if ss' != [] {
        CodeNotEmpty(ss'[0]);
      }
    } else {
      CodeNotEmpty(ss[0]);
      CodeInFront(ss[0], Concat(ss[1..]), ss'[0], Concat(ss'[1..]));
      ConcatInjective(ss[1..], ss'[1..]);
      assert ss == [ss[0]] + ss[1..] && ss' == [ss'[0]] + ss'[1..];
    }
  }

  // ---------- the same encoding comes from equivalent trees only ----------

  /** The list that `DerContent` concatenates. */
  function Encoded(t: Tlv): seq<Octets>
    requires t.body.Constructed?
  {
    if IsSet(t) then ByteOrder.Sort(DerAll(t.body.children)) else DerAll(t.body.children)
  }

  lemma EncodedCodes(t: Tlv)
    requires t.body.Constructed? && |ToDer(t)| <= VEC_MAX
    ensures forall i | 0 <= i < |Encoded(t)| :: IsCode(Encoded(t)[i])
    ensures forall i | 0 <= i < |t.body.children| :: |ToDer(t.body.children[i])| <= VEC_MAX
  {
    hide IsCode, ToDer;
    var ss := DerAll(t.body.children);
    forall i | 0 <= i < |t.body.children|
      ensures |ToDer(t.body.children[i])| <= VEC_MAX
    {
      ChildNotLonger(t, i);
    }
    DerAllCodes(t.body.children);
    forall i | 0 <= i < |Encoded(t)|
      ensures IsCode(Encoded(t)[i])
    {
      assert Encoded(t)[i] in multiset(Encoded(t));
      assert Encoded(t)[i] in ss;
    }
  }

  lemma {:induction false} SameDerEquiv(t: Tlv, u: Tlv)
    requires Shaped(t) && Shaped(u)
    requires |ToDer(t)| <= VEC_MAX
    requires ToDer(t) == ToDer(u)
    ensures Equiv(t, u)
    decreases t
  {
    hide ToDer, ReadHeader, EquivAll, Rearranged, ShapedAll, DerAll, IsCode, ByteOrder.Sort;
    DerHeader(t);
    DerHeader(u);
    assert DerContent(IsSet(t), t.body) == DerContent(IsSet(u), u.body);
    if t.body.Constructed? {
      var ts, us := t.body.children, u.body.children;
      EncodedCodes(t);
      EncodedCodes(u);
      ConcatInjective(Encoded(t), Encoded(u));
      if IsSet(t) {
        assert multiset(DerAll(ts)) == multiset(DerAll(us));
        SameDerRearranged(ts, us);
      } else {
        SameDerEquivAll(ts, us);
      }
    }
  }

  lemma {:induction false} SameDerEquivAll(ts: seq<Tlv>, us: seq<Tlv>)
    requires ShapedAll(ts) && ShapedAll(us)
    requires forall i | 0 <= i < |ts| :: |ToDer(ts[i])| <= VEC_MAX
    requires DerAll(ts) == DerAll(us)
    ensures EquivAll(ts, us)
    decreases ts
  {
    hide ToDer, Equiv, Shaped;
    if ts != [] {
      assert DerAll(ts)[0] == ToDer(ts[0]) && DerAll(us)[0] == ToDer(us[0]);
      assert DerAll(ts)[1..] == DerAll(ts[1..]) && DerAll(us)[1..] == DerAll(us[1..]);
      SameDerEquiv(ts[0], us[0]);
      SameDerEquivAll(ts[1..], us[1..]);
    }
  }

  lemma {:induction false} SameDerRearranged(ts: seq<Tlv>, us: seq<Tlv>)
    requires ShapedAll(ts) && ShapedAll(us)
    requires forall i | 0 <= i < |ts| :: |ToDer(ts[i])| <= VEC_MAX
    requires multiset(DerAll(ts)) == multiset(DerAll(us))
    ensures Rearranged(ts, us)
    decreases ts
  {
    hide ToDer, Equiv, Shaped;
    assert |multiset(DerAll(ts))| == |ts| && |multiset(DerAll(us))| == |us|;
    if ts != [] {
      var i := PartnerOf(DerAll(ts), DerAll(us));
      DerAllAt(us, i);
      ShapedAt(us, i);
      SameDerEquiv(ts[0], us[i]);
      DerAllWithout(us, i);
      ShapedWithout(us, i);
      assert DerAll(ts)[1..] == DerAll(ts[1..]);
      SameDerRearranged(ts[1..], Without(us, i));
    }
  }

  /** An element of `b` equal to the first of `a`; the others still match. */
  lemma PartnerOf<T>(a: seq<T>, b: seq<T>) returns (i: nat)
    requires a != [] && multiset(a) == multiset(b)
    ensures i < |b| && b[i] == a[0]
    ensures multiset(a[1..]) == multiset(Without(b, i))
  {
    assert a[0] in multiset(b);
    i :| 0 <= i < |b| && b[i] == a[0];
    WithoutMultiset(b, i);
    assert a == [a[0]] + a[1..];
    assert multiset(a[1..]) == multiset(a) - multiset{a[0]};
  }

  // ---------- the theorems ----------

  /** Canonical form: same octets if and only if equal up to layout and SET order. */
  lemma CanonicalForm(d: Octets, t: Tlv, e: Octets, u: Tlv)
    requires DocumentOf(d, Ber) == Ok(t) && DocumentOf(e, Ber) == Ok(u)
    requires |ToDer(t)| <= VEC_MAX
    ensures ToDer(t) == ToDer(u) <==> Equiv(t, u)
  {
    hide DocumentOf, Wf, ToDer, Equiv, Shaped, Layout, Placed;
    ParserIsGrammar(Ber, d, t);
    ParserIsGrammar(Ber, e, u);
    WfShaped(Ber, t, 0);
    WfShaped(Ber, u, 0);
    if ToDer(t) == ToDer(u) {
      SameDerEquiv(t, u);
    }
    if Equiv(t, u) {
      EquivSameDer(t, u);
    }
  }

  /** The SET order of the source is the order of X.690 section 11.6: the sorted encodings
      ascend in the zero-padded order, in which only equal encodings tie. */
  lemma SetOrderIsStandard(t: Tlv, i: nat, j: nat)
    requires t.body.Constructed? && IsSet(t) && |ToDer(t)| <= VEC_MAX
    requires i < j < |Encoded(t)|
    ensures ByteOrder.PaddedLe(Encoded(t)[i], Encoded(t)[j])
    ensures ByteOrder.PaddedLe(Encoded(t)[j], Encoded(t)[i]) ==> Encoded(t)[i] == Encoded(t)[j]
  {
    hide IsCode, ToDer, ByteOrder.PaddedLe, ByteOrder.LexLe;
    var ss := Encoded(t);
    EncodedCodes(t);
    ByteOrder.SortSorts(DerAll(t.body.children));
    PrefixFreePair(ss[i], ss[j]);
    ByteOrder.PaddedIsLex(ss[i], ss[j]);
    if ByteOrder.PaddedLe(ss[j], ss[i]) {
      ByteOrder.PaddedTiesEqual(ss[i], ss[j]);
    }
  }

  lemma PrefixFreePair(s: Octets, s': Octets)
    requires IsCode(s) && IsCode(s')
    ensures !(s < s') && !(s' < s)
  {
    hide IsCode;
    if s <= s' {
      CodePrefixFree(s, s');
    }
    if s' <= s {
      CodePrefixFree(s', s);
    }
  }
}
