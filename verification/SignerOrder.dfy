/** Reordering SET children in a blob: when its signers and their certificates stay. */
module SignerOrder {
  import opened Types
  import opened Parser
  import opened Reencode
  import opened Integers
  import opened Text
  import opened Equivalence
  import opened Cms
  import Canonical
  import Documents
  import Grammar
  import Oid

  // ---------- equivalent nodes are read alike ----------

  ghost predicate EquivOption(t: Option<Tlv>, u: Option<Tlv>) {
    match (t, u)
    case (None, None) => true
    case (Some(a), Some(b)) => Equiv(a, b)
    case _ => false
  }

  /** What equivalent nodes both show. */
  lemma EquivShows(t: Tlv, u: Tlv)
    requires Equiv(t, u)
    ensures u.cls == t.cls && u.tag == t.tag
    ensures u.body.Primitive? <==> t.body.Primitive?
    ensures t.body.Primitive? ==> u.body == t.body
    ensures |u.Kids()| == |t.Kids()|
    ensures !IsSet(t) ==> EquivAll(t.Kids(), u.Kids())
    ensures IsSet(t) ==> Rearranged(t.Kids(), u.Kids())
  {
    hide Equiv;
    EquivParts(t, u);
  }

  lemma EquivParts(t: Tlv, u: Tlv)
    requires Equiv(t, u)
    ensures t.cls == u.cls && t.tag == u.tag && EquivBody(IsSet(t), t.body, u.body)
  {
  }

  lemma {:induction false} EquivAllAt(ts: seq<Tlv>, us: seq<Tlv>, i: nat)
    requires EquivAll(ts, us) && i < |ts|
    ensures |us| == |ts| && Equiv(ts[i], us[i])
    decreases |ts|
  {
    hide Equiv;
    if i > 0 {
      EquivAllAt(ts[1..], us[1..], i - 1);
    }
  }

  lemma {:induction false} EquivAllTake(ts: seq<Tlv>, us: seq<Tlv>, i: nat)
    requires EquivAll(ts, us) && i <= |ts|
    ensures |us| == |ts| && EquivAll(ts[..i], us[..i])
    decreases |ts|
  {
    hide Equiv;
    if i > 0 {
      EquivAllTake(ts[1..], us[1..], i - 1);
      assert ts[..i][1..] == ts[1..][..i - 1] && us[..i][1..] == us[1..][..i - 1];
    }
  }

  lemma EquivSignedData(t: Tlv, u: Tlv)
    requires Equiv(t, u) && !IsSet(t)
    ensures EquivOption(SignedData(t), SignedData(u))
  {
    hide Equiv, EquivAll, Rearranged, Oid.DecodedOid;
    EquivShows(t, u);
    var top, top' := t.Kids(), u.Kids();
    if top != [] {
      EquivAllAt(top, top', 0);
      EquivShows(top[0], top'[0]);
    }
    if |top| >= 2 {
      EquivAllAt(top, top', 1);
      EquivShows(top[1], top'[1]);
      if top[1].Kids() != [] && !IsSet(top[1]) {
        EquivAllAt(top[1].Kids(), top'[1].Kids(), 0);
      }
    }
  }

  lemma {:induction false} EquivFirstContext0(ts: seq<Tlv>, us: seq<Tlv>)
    requires EquivAll(ts, us)
    ensures EquivOption(FirstContext0(ts), FirstContext0(us))
    decreases |ts|
  {
    hide Equiv;
    if ts != [] {
      EquivShows(ts[0], us[0]);
      EquivFirstContext0(ts[1..], us[1..]);
    }
  }

  lemma {:induction false} EquivLastSet(ts: seq<Tlv>, us: seq<Tlv>)
    requires EquivAll(ts, us)
    ensures |us| == |ts| && EquivOption(LastSet(ts), LastSet(us))
    decreases |ts|
  {
    hide Equiv, EquivAll;
    EquivAllTake(ts, us, 0);
    if ts != [] {
      var n := |ts| - 1;
      EquivAllAt(ts, us, n);
      EquivShows(ts[n], us[n]);
      EquivAllTake(ts, us, n);
      EquivLastSet(ts[..n], us[..n]);
    }
  }

  lemma EquivTbs(cert: Tlv, cert': Tlv)
    requires Equiv(cert, cert') && cert.IsUniversal(16)
    ensures TbsFields(cert).Some? <==> TbsFields(cert').Some?
    ensures TbsFields(cert).Some? ==> EquivAll(TbsFields(cert).value, TbsFields(cert').value)
  {
    hide Equiv, EquivAll, Rearranged;
    EquivShows(cert, cert');
    if cert.Kids() != [] {
      EquivAllAt(cert.Kids(), cert'.Kids(), 0);
      var tbs, tbs' := cert.Kids()[0], cert'.Kids()[0];
      EquivShows(tbs, tbs');
      if tbs.IsUniversal(16) && tbs.Kids() != [] {
        EquivAllAt(tbs.Kids(), tbs'.Kids(), 0);
        EquivShows(tbs.Kids()[0], tbs'.Kids()[0]);
        EquivAllDrop(tbs.Kids(), tbs'.Kids());
      }
    }
  }

  lemma EquivAllDrop(ts: seq<Tlv>, us: seq<Tlv>)
    requires EquivAll(ts, us) && ts != []
    ensures us != [] && EquivAll(ts[1..], us[1..])
  {
    hide Equiv;
  }

  lemma EquivCertInfo<H>(hash: Octets -> H, cert: Tlv, cert': Tlv)
    requires Equiv(cert, cert') && cert.IsUniversal(16)
    ensures CertInfoOf(hash, cert) == CertInfoOf(hash, cert')
  {
    hide Equiv, EquivAll, Rearranged, ToDer, SignedDecimal, TwosValue, TbsFields;
    EquivSameDer(cert, cert');
    EquivTbs(cert, cert');
    if TbsFields(cert).Some? {
      var c, c' := TbsFields(cert).value, TbsFields(cert').value;
      EquivAllTake(c, c', 0);
      if c != [] {
        EquivAllAt(c, c', 0);
        EquivShows(c[0], c'[0]);
      }
      if |c| > 2 {
        EquivAllAt(c, c', 2);
        EquivShows(c[2], c'[2]);
        EquivSameDer(c[2], c'[2]);
      }
    }
  }

  lemma {:induction false} EquivCertInfos<H>(hash: Octets -> H, ts: seq<Tlv>, us: seq<Tlv>)
    requires EquivAll(ts, us)
    ensures CertInfosOf(hash, Sequences(ts)) == CertInfosOf(hash, Sequences(us))
    decreases |ts|
  {
    hide Equiv, CertInfoOf, CertInfosOf, Sequences;
    if ts != [] {
      EquivShows(ts[0], us[0]);
      EquivCertInfos(hash, ts[1..], us[1..]);
      SequencesStep(hash, ts);
      SequencesStep(hash, us);
      if ts[0].IsUniversal(16) {
        EquivCertInfo(hash, ts[0], us[0]);
      }
    }
  }

  lemma EquivSid(sid: Tlv, sid': Tlv)
    requires Equiv(sid, sid') && sid.IsUniversal(16)
    ensures var sk, sk' := sid.Kids(), sid'.Kids();
            && |sk'| == |sk|
            && (sk != [] ==> (sk'[0].IsUniversal(16) <==> sk[0].IsUniversal(16)) && ToDer(sk'[0]) == ToDer(sk[0]))
            && SecondPrimitive(sk') == SecondPrimitive(sk)
  {
    hide Equiv, EquivAll, Rearranged, ToDer;
    EquivShows(sid, sid');
    var sk, sk' := sid.Kids(), sid'.Kids();
    if sk != [] {
      EquivAllAt(sk, sk', 0);
      EquivShows(sk[0], sk'[0]);
      EquivSameDer(sk[0], sk'[0]);
    }
    if |sk| > 1 {
      EquivAllAt(sk, sk', 1);
      EquivShows(sk[1], sk'[1]);
    }
  }

  lemma EquivI64(t: Tlv, u: Tlv)
    requires Equiv(t, u)
    ensures AsI64(t) == AsI64(u)
  {
    hide Equiv, TwosValue;
    EquivShows(t, u);
  }

  lemma EquivSignerRow<H>(si: Tlv, si': Tlv, certs: seq<CertInfo<H>>)
    requires Equiv(si, si') && si.IsUniversal(16)
    ensures SignerRowOf(si, certs) == SignerRowOf(si', certs)
  {
    hide Equiv, EquivAll, Rearranged, ToDer, FindCert, TwosValue, SignedDecimal, AsI64, SecondPrimitive;
    EquivShows(si, si');
    var c, c' := si.Kids(), si'.Kids();
    if c != [] {
      EquivAllAt(c, c', 0);
      EquivI64(c[0], c'[0]);
      var idx := if AsI64(c[0]).Some? then 1 else 0;
      if idx < |c| {
        EquivAllAt(c, c', idx);
        EquivShows(c[idx], c'[idx]);
        if c[idx].IsUniversal(16) {
          EquivSid(c[idx], c'[idx]);
        }
      }
    }
  }

  function OneRow<H>(si: Tlv, certs: seq<CertInfo<H>>): seq<SignerRow<H>> {
    if si.IsUniversal(16) then [SignerRowOf(si, certs)] else []
  }

  lemma SignerRowsStep<H>(sis: seq<Tlv>, certs: seq<CertInfo<H>>)
    requires sis != []
    ensures SignerRowsOf(sis, certs) == OneRow(sis[0], certs) + SignerRowsOf(sis[1..], certs)
  {
    hide SignerRowOf;
  }

  lemma {:induction false} SignerRowsWithout<H>(sis: seq<Tlv>, i: nat, certs: seq<CertInfo<H>>)
    requires i < |sis|
    ensures multiset(SignerRowsOf(sis, certs))
            == multiset(OneRow(sis[i], certs)) + multiset(SignerRowsOf(Without(sis, i), certs))
    decreases |sis|
  {
    hide SignerRowsOf, OneRow;
    SignerRowsStep(sis, certs);
    if i == 0 {
      assert Without(sis, 0) == sis[1..];
    } else {
      var rest := Without(sis, i);
      assert rest[0] == sis[0] && rest[1..] == Without(sis[1..], i - 1);
      SignerRowsStep(rest, certs);
      SignerRowsWithout(sis[1..], i - 1, certs);
    }
  }

  lemma {:induction false} RearrangedRows<H>(ts: seq<Tlv>, us: seq<Tlv>, certs: seq<CertInfo<H>>)
    requires Rearranged(ts, us)
    ensures multiset(SignerRowsOf(ts, certs)) == multiset(SignerRowsOf(us, certs))
    decreases |ts|
  {
    hide Equiv, SignerRowsOf, OneRow;
    if ts != [] {
      var i :| 0 <= i < |us| && Equiv(ts[0], us[i]) && Rearranged(ts[1..], Without(us, i));
      SignerRowsStep(ts, certs);
      SignerRowsWithout(us, i, certs);
      EquivOneRow(ts[0], us[i], certs);
      RearrangedRows(ts[1..], Without(us, i), certs);
    } else {
      assert us == ts;
    }
  }

  lemma EquivOneRow<H>(t: Tlv, u: Tlv, certs: seq<CertInfo<H>>)
    requires Equiv(t, u)
    ensures OneRow(t, certs) == OneRow(u, certs)
  {
    hide Equiv, SignerRowOf;
    EquivShows(t, u);
    if t.IsUniversal(16) {
      EquivSignerRow(t, u, certs);
    }
  }

  lemma {:induction false} LastSetIsSet(ts: seq<Tlv>)
    requires LastSet(ts).Some?
    ensures LastSet(ts).value.IsUniversal(17)
    decreases |ts|
  {
    if !ts[|ts| - 1].IsUniversal(17) {
      LastSetIsSet(ts[..|ts| - 1]);
    }
  }

  lemma {:induction false} FirstContext0IsContext(ts: seq<Tlv>)
    requires FirstContext0(ts).Some?
    ensures FirstContext0(ts).value.IsContext(0)
    decreases |ts|
  {
    if !ts[0].IsContext(0) {
      FirstContext0IsContext(ts[1..]);
    }
  }

  // ---------- from the two nodes that matter to the rows ----------

  /** The rows when the certificates and the signers are in these two nodes. */
  function RowsFrom<H>(hash: Octets -> H, certs: Option<Tlv>, signers: Tlv): seq<SignerRow<H>> {
    SignerRowsOf(signers.Kids(), CertInfosOf(hash, match certs case None => [] case Some(c) => Sequences(c.Kids())))
  }

  lemma SignersAre<H>(hash: Octets -> H, root: Tlv)
    ensures Signers(hash, root)
            == match SignedData(root)
               case None => []
               case Some(sd) =>
                 match LastSet(sd.Kids())
                 case None => []
                 case Some(signers) => RowsFrom(hash, FirstContext0(sd.Kids()), signers)
  {
    hide SignedData, LastSet, FirstContext0, SignerRowsOf, CertInfosOf, Sequences;
  }

  lemma EquivRowsFrom<H>(hash: Octets -> H, certs: Option<Tlv>, certs': Option<Tlv>, signers: Tlv, signers': Tlv)
    requires EquivOption(certs, certs') && (certs.Some? ==> certs.value.IsContext(0))
    requires Equiv(signers, signers') && signers.IsUniversal(17)
    ensures multiset(RowsFrom(hash, certs, signers)) == multiset(RowsFrom(hash, certs', signers'))
  {
    hide Equiv, EquivAll, Rearranged, Sequences, CertInfosOf, SignerRowsOf;
    EquivShows(signers, signers');
    if certs.Some? {
      EquivShows(certs.value, certs'.value);
      EquivCertInfos(hash, certs.value.Kids(), certs'.value.Kids());
    }
    var infos := CertInfosOf(hash, match certs case None => [] case Some(c) => Sequences(c.Kids()));
    RearrangedRows(signers.Kids(), signers'.Kids(), infos);
  }

  // ---------- rearranging children ----------

  lemma {:induction false} EquivRefl(t: Tlv)
    ensures Equiv(t, t)
    decreases t
  {
    hide EquivAll, Rearranged;
    if t.body.Constructed? {
      EquivAllRefl(t.body.children);
    }
  }

  lemma {:induction false} EquivAllRefl(ts: seq<Tlv>)
    ensures EquivAll(ts, ts) && Rearranged(ts, ts)
    decreases ts
  {
    hide Equiv;
    if ts != [] {
      EquivRefl(ts[0]);
      EquivAllRefl(ts[1..]);
      assert Without(ts, 0) == ts[1..];
    }
  }

  lemma {:induction false} PermutationRearranges(ts: seq<Tlv>, us: seq<Tlv>)
    requires multiset(ts) == multiset(us)
    ensures Rearranged(ts, us)
    decreases |ts|
  {
    hide Equiv;
    assert |multiset(ts)| == |ts| && |multiset(us)| == |us|;
    if ts != [] {
      var i := PartnerOf(ts, us);
      EquivRefl(ts[0]);
      PermutationRearranges(ts[1..], Without(us, i));
    }
  }

  /** The same node with other children. */
  function WithKids(t: Tlv, us: seq<Tlv>): Tlv {
    t.(body := Constructed(us))
  }

  lemma SetRearranged(t: Tlv, us: seq<Tlv>)
    requires IsSet(t) && t.Kids() != [] && multiset(t.Kids()) == multiset(us)
    ensures Equiv(t, WithKids(t, us))
  {
    hide Rearranged;
    PermutationRearranges(t.Kids(), us);
  }

  lemma KidReplaced(t: Tlv, i: nat, x: Tlv)
    requires !IsSet(t) && i < |t.Kids()| && Equiv(t.Kids()[i], x)
    ensures Equiv(t, WithKids(t, t.Kids()[i := x]))
  {
    hide EquivAll, Rearranged;
    AllReplaced(t.Kids(), i, x);
    NodeReplaced(t, t.Kids()[i := x]);
  }

  lemma NodeReplaced(t: Tlv, us: seq<Tlv>)
    requires !IsSet(t) && t.Kids() != [] && EquivAll(t.Kids(), us)
    ensures Equiv(t, WithKids(t, us))
  {
    hide EquivAll, Rearranged;
  }

  lemma {:induction false} AllReplaced(ts: seq<Tlv>, i: nat, x: Tlv)
    requires i < |ts| && Equiv(ts[i], x)
    ensures EquivAll(ts, ts[i := x])
    decreases |ts|
  {
    hide Equiv;
    if i == 0 {
      assert ts[0 := x][1..] == ts[1..];
      EquivAllRefl(ts[1..]);
    } else {
      assert ts[i := x][1..] == ts[1..][i - 1 := x];
      EquivRefl(ts[0]);
      AllReplaced(ts[1..], i - 1, x);
    }
  }

  /** Every child of a rearranged SET comes from an equivalent one, and each comes back. */
  lemma {:induction false} RearrangedBack(ts: seq<Tlv>, us: seq<Tlv>, k: nat) returns (j: nat)
    requires Rearranged(ts, us) && k < |us|
    ensures j < |ts| && Equiv(ts[j], us[k])
    decreases |ts|
  {
    hide Equiv;
    var i :| 0 <= i < |us| && Equiv(ts[0], us[i]) && Rearranged(ts[1..], Without(us, i));
    if k == i {
      j := 0;
    } else {
      var j' := RearrangedBack(ts[1..], Without(us, i), if k < i then k else k - 1);
      j := j' + 1;
    }
  }

  lemma {:induction false} RearrangedForth(ts: seq<Tlv>, us: seq<Tlv>, j: nat) returns (k: nat)
    requires Rearranged(ts, us) && j < |ts|
    ensures k < |us| && Equiv(ts[j], us[k])
    decreases |ts|
  {
    hide Equiv;
    var i :| 0 <= i < |us| && Equiv(ts[0], us[i]) && Rearranged(ts[1..], Without(us, i));
    if j == 0 {
      k := i;
    } else {
      var k' := RearrangedForth(ts[1..], Without(us, i), j - 1);
      k := if k' < i then k' else k' + 1;
    }
  }

  // ---------- finding nodes ----------

  lemma {:induction false} LastSetAt(ts: seq<Tlv>) returns (i: nat)
    requires LastSet(ts).Some?
    ensures i < |ts| && ts[i].IsUniversal(17) && LastSet(ts) == Some(ts[i])
    decreases |ts|
  {
    i := |ts| - 1;
    if !ts[i].IsUniversal(17) {
      i := LastSetAt(ts[..i]);
    }
  }

  lemma {:induction false} LastSetNone(ts: seq<Tlv>, i: nat)
    requires LastSet(ts).None? && i < |ts|
    ensures !ts[i].IsUniversal(17)
    decreases |ts|
  {
    if i < |ts| - 1 {
      LastSetNone(ts[..|ts| - 1], i);
    }
  }

  lemma {:induction false} FirstContext0At(ts: seq<Tlv>) returns (i: nat)
    requires FirstContext0(ts).Some?
    ensures i < |ts| && ts[i].IsContext(0) && FirstContext0(ts) == Some(ts[i])
    decreases |ts|
  {
    i := 0;
    if !ts[0].IsContext(0) {
      var i' := FirstContext0At(ts[1..]);
      i := i' + 1;
    }
  }

  lemma {:induction false} FirstContext0None(ts: seq<Tlv>)
    ensures FirstContext0(ts).None? <==> forall i | 0 <= i < |ts| :: !ts[i].IsContext(0)
    decreases |ts|
  {
    if ts != [] {
      FirstContext0None(ts[1..]);
      assert forall i | 1 <= i < |ts| :: ts[i] == ts[1..][i - 1];
    }
  }

  // ---------- when the order does not matter ----------

  /** Whichever SET is taken for the signers and whichever `[0]`, if there is one, for the
      certificates, the rows are these. */
  ghost predicate AnyChoice<H>(hash: Octets -> H, kids: seq<Tlv>, rows: multiset<SignerRow<H>>) {
    forall i | 0 <= i < |kids| && kids[i].IsUniversal(17) ::
      && (FirstContext0(kids).None? ==> multiset(RowsFrom(hash, None, kids[i])) == rows)
      && (forall j | 0 <= j < |kids| && kids[j].IsContext(0) ::
            multiset(RowsFrom(hash, Some(kids[j]), kids[i])) == rows)
  }

  /** The root is no universal SET; and if its SignedData is one, it does not matter which of
      its children are taken for signers and certificates. */
  ghost predicate OrderIndifferent<H>(hash: Octets -> H, root: Tlv) {
    && !IsSet(root)
    && (SignedData(root).Some? && IsSet(SignedData(root).value) ==>
          AnyChoice(hash, SignedData(root).value.Kids(), multiset(Signers(hash, root))))
  }

  lemma EquivOrdered<H>(hash: Octets -> H, sd: Tlv, sd': Tlv)
    requires Equiv(sd, sd') && !IsSet(sd)
    ensures EquivOption(LastSet(sd.Kids()), LastSet(sd'.Kids()))
    ensures LastSet(sd.Kids()).Some? ==>
              multiset(RowsFrom(hash, FirstContext0(sd.Kids()), LastSet(sd.Kids()).value))
              == multiset(RowsFrom(hash, FirstContext0(sd'.Kids()), LastSet(sd'.Kids()).value))
  {
    hide Equiv, EquivAll, Rearranged, FirstContext0, LastSet, RowsFrom;
    EquivShows(sd, sd');
    EquivLastSet(sd.Kids(), sd'.Kids());
    EquivFirstContext0(sd.Kids(), sd'.Kids());
    if LastSet(sd.Kids()).Some? {
      LastSetIsSet(sd.Kids());
      if FirstContext0(sd.Kids()).Some? {
        FirstContext0IsContext(sd.Kids());
      }
      EquivRowsFrom(hash, FirstContext0(sd.Kids()), FirstContext0(sd'.Kids()),
                    LastSet(sd.Kids()).value, LastSet(sd'.Kids()).value);
    }
  }

  lemma EquivUnordered<H>(hash: Octets -> H, kids: seq<Tlv>, kids': seq<Tlv>, rows: multiset<SignerRow<H>>)
    requires Rearranged(kids, kids') && AnyChoice(hash, kids, rows)
    ensures LastSet(kids).Some? <==> LastSet(kids').Some?
    ensures LastSet(kids').Some? ==>
              multiset(RowsFrom(hash, FirstContext0(kids'), LastSet(kids').value)) == rows
  {
    hide Equiv, Rearranged, FirstContext0, LastSet, RowsFrom;
    if LastSet(kids').Some? {
      var m := LastSetAt(kids');
      var i := RearrangedBack(kids, kids', m);
      EquivShows(kids[i], kids'[m]);
      if LastSet(kids).None? {
        LastSetNone(kids, i);
      }
      FirstContext0None(kids);
      FirstContext0None(kids');
      if FirstContext0(kids').Some? {
        var n := FirstContext0At(kids');
        var j := RearrangedBack(kids, kids', n);
        EquivShows(kids[j], kids'[n]);
        EquivRowsFrom(hash, Some(kids[j]), Some(kids'[n]), kids[i], kids'[m]);
      } else {
        if FirstContext0(kids).Some? {
          var j := FirstContext0At(kids);
          var n := RearrangedForth(kids, kids', j);
          EquivShows(kids[j], kids'[n]);
        }
        EquivRowsFrom(hash, None, None, kids[i], kids'[m]);
      }
    } else if LastSet(kids).Some? {
      var i := LastSetAt(kids);
      var m := RearrangedForth(kids, kids', i);
      EquivShows(kids[i], kids'[m]);
      LastSetNone(kids', m);
    }
  }

  /** Blobs equal up to layout and SET order have the same signers in some order, every row
      with the same matched certificate, when the order of other children does not matter. */
  lemma EquivSigners<H>(hash: Octets -> H, t: Tlv, u: Tlv)
    requires Equiv(t, u) && OrderIndifferent(hash, t)
    ensures multiset(Signers(hash, t)) == multiset(Signers(hash, u))
  {
    hide Equiv, Rearranged, SignedData, FirstContext0, LastSet, RowsFrom, AnyChoice, Signers;
    SignersAre(hash, t);
    SignersAre(hash, u);
    EquivSignedData(t, u);
    if SignedData(t).Some? {
      var sd, sd' := SignedData(t).value, SignedData(u).value;
      if IsSet(sd) {
        EquivShows(sd, sd');
        EquivUnordered(hash, sd.Kids(), sd'.Kids(), multiset(Signers(hash, t)));
      } else {
        EquivOrdered(hash, sd, sd');
      }
    }
  }

  // ---------- otherwise the order matters ----------

  /** A root that is a SET loses its signers when its first two children, or the first one and
      the signers, change places. */
  lemma SetRootLoses<H>(hash: Octets -> H, t: Tlv) returns (u: Tlv)
    requires IsSet(t) && Signers(hash, t) != []
    ensures Equiv(t, u) && Signers(hash, u) == []
  {
    hide Equiv, LastSet, FirstContext0, RowsFrom, Signers, SignedData;
    SignersAre(hash, t);
    var us := FirstMoved(t);
    SetRearranged(t, us);
    u := WithKids(t, us);
    NotSignedData(u);
    SignersAre(hash, u);
  }

  lemma FirstMoved(t: Tlv) returns (us: seq<Tlv>)
    requires SignedData(t).Some? && LastSet(SignedData(t).value.Kids()).Some?
    ensures t.Kids() != [] && us != [] && multiset(t.Kids()) == multiset(us)
    ensures us[0].cls.Context? || us[0].IsUniversal(17)
  {
    hide LastSet, Oid.DecodedOid;
    var top := t.Kids();
    if top[0].IsUniversal(2) {
      var m := LastSetAt(top);
      us := top[0 := top[m]][m := top[0]];
      Swapped(top, m);
    } else {
      us := [top[1], top[0]] + top[2..];
      assert top == [top[0], top[1]] + top[2..];
      assert multiset(us) == multiset{top[1], top[0]} + multiset(top[2..]);
    }
  }

  lemma NotSignedData(t: Tlv)
    requires t.Kids() != []
    requires t.Kids()[0].cls.Context? || t.Kids()[0].IsUniversal(17)
    ensures SignedData(t) == None
  {
    hide Oid.DecodedOid;
  }

  /** So it does not keep them in every order. */
  lemma SetRootUnstable<H>(hash: Octets -> H, t: Tlv)
    requires IsSet(t) && Signers(hash, t) != []
    ensures !(forall u | Equiv(t, u) :: multiset(Signers(hash, u)) == multiset(Signers(hash, t)))
  {
    hide Equiv, Signers;
    var u := SetRootLoses(hash, t);
    assert multiset(Signers(hash, u)) != multiset(Signers(hash, t)) by {
      NotEmpty(Signers(hash, t));
    }
  }

  lemma NotEmpty<T>(s: seq<T>)
    requires s != []
    ensures multiset(s) != multiset([])
  {
    assert |multiset(s)| == |s|;
  }

  lemma Swapped(ts: seq<Tlv>, m: nat)
    requires 0 < m < |ts|
    ensures multiset(ts[0 := ts[m]][m := ts[0]]) == multiset(ts)
  {
  }

  lemma LastSetLast(ts: seq<Tlv>)
    requires ts != [] && ts[|ts| - 1].IsUniversal(17)
    ensures LastSet(ts) == Some(ts[|ts| - 1])
  {
  }

  lemma FirstContext0First(ts: seq<Tlv>)
    requires ts != [] && ts[0].IsContext(0)
    ensures FirstContext0(ts) == Some(ts[0])
  {
  }

  /** The children with the one at `j` first, if any, and the one at `i` last. */
  lemma Chosen(kids: seq<Tlv>, i: nat, j: Option<nat>) returns (us: seq<Tlv>)
    requires i < |kids| && kids[i].IsUniversal(17)
    requires j.None? ==> FirstContext0(kids).None?
    requires j.Some? ==> j.value < |kids| && kids[j.value].IsContext(0)
    ensures multiset(us) == multiset(kids)
    ensures LastSet(us) == Some(kids[i])
    ensures FirstContext0(us) == match j case None => None case Some(n) => Some(kids[n])
  {
    hide LastSet, FirstContext0;
    match j
    case None =>
      us := Without(kids, i) + [kids[i]];
      LastSetLast(us);
      WithoutMultiset(kids, i);
      FirstContext0None(kids);
      FirstContext0None(us);
    case Some(n) =>
      us := FirstAndLast(kids, i, n);
      LastSetLast(us);
      FirstContext0First(us);
  }

  lemma FirstAndLast<T>(s: seq<T>, i: nat, n: nat) returns (r: seq<T>)
    requires i < |s| && n < |s| && i != n
    ensures |r| >= 2 && r[0] == s[n] && r[|r| - 1] == s[i]
    ensures multiset(r) == multiset(s)
  {
    var a := Without(s, n);
    var k := if i < n then i else i - 1;
    var b := Without(a, k);
    WithoutMultiset(s, n);
    WithoutMultiset(a, k);
    r := [s[n]] + b + [s[i]];
    assert multiset(r) == multiset{s[n]} + multiset(b) + multiset{s[i]};
  }

  /** In a SignedData that is a SET any SET may come last and any `[0]` first. */
  lemma ChoiceTaken<H>(hash: Octets -> H, t: Tlv, i: nat, j: Option<nat>) returns (u: Tlv)
    requires !IsSet(t) && SignedData(t).Some? && IsSet(SignedData(t).value)
    requires var kids := SignedData(t).value.Kids();
             && i < |kids| && kids[i].IsUniversal(17)
             && (j.None? ==> FirstContext0(kids).None?)
             && (j.Some? ==> j.value < |kids| && kids[j.value].IsContext(0))
    ensures Equiv(t, u)
    ensures var kids := SignedData(t).value.Kids();
            Signers(hash, u) == RowsFrom(hash, match j case None => None case Some(n) => Some(kids[n]), kids[i])
  {
    hide Equiv, LastSet, FirstContext0, RowsFrom, Signers, Oid.DecodedOid;
    var sd := SignedData(t).value;
    var us := Chosen(sd.Kids(), i, j);
    SetRearranged(sd, us);
    var top := t.Kids();
    var content := top[1];
    var content' := WithKids(content, content.Kids()[0 := WithKids(sd, us)]);
    KidReplaced(content, 0, WithKids(sd, us));
    KidReplaced(t, 1, content');
    u := WithKids(t, top[1 := content']);
    assert u.Kids()[0] == top[0] && u.Kids()[1] == content';
    assert SignedData(u) == Some(WithKids(sd, us));
    SignersAre(hash, u);
  }

  /** A blob with signers keeps them, with their matched certificates, under every change of
      layout and SET order exactly when the order is indifferent. */
  lemma SignersSurviveReordering<H>(hash: Octets -> H, t: Tlv)
    requires Signers(hash, t) != []
    ensures OrderIndifferent(hash, t)
            <==> forall u | Equiv(t, u) :: multiset(Signers(hash, u)) == multiset(Signers(hash, t))
  {
    hide Equiv, SignedData, FirstContext0, LastSet, RowsFrom, Signers;
    if OrderIndifferent(hash, t) {
      forall u | Equiv(t, u)
        ensures multiset(Signers(hash, u)) == multiset(Signers(hash, t))
      {
        EquivSigners(hash, t, u);
      }
    }
    if IsSet(t) {
      SetRootUnstable(hash, t);
    } else if SignedData(t).Some? && IsSet(SignedData(t).value) {
      if forall u | Equiv(t, u) :: multiset(Signers(hash, u)) == multiset(Signers(hash, t)) {
        StableChoices(hash, t);
      }
    }
  }

  lemma StableChoices<H>(hash: Octets -> H, t: Tlv)
    requires !IsSet(t) && SignedData(t).Some? && IsSet(SignedData(t).value)
    requires forall u | Equiv(t, u) :: multiset(Signers(hash, u)) == multiset(Signers(hash, t))
    ensures AnyChoice(hash, SignedData(t).value.Kids(), multiset(Signers(hash, t)))
  {
    hide Equiv, SignedData, FirstContext0, LastSet, RowsFrom, Signers;
    var kids := SignedData(t).value.Kids();
    var rows := multiset(Signers(hash, t));
    forall i | 0 <= i < |kids| && kids[i].IsUniversal(17)
      ensures FirstContext0(kids).None? ==> multiset(RowsFrom(hash, None, kids[i])) == rows
    {
      if FirstContext0(kids).None? {
        var u := ChoiceTaken(hash, t, i, None);
      }
    }
    forall i, j | 0 <= i < |kids| && kids[i].IsUniversal(17) && 0 <= j < |kids| && kids[j].IsContext(0)
      ensures multiset(RowsFrom(hash, Some(kids[j]), kids[i])) == rows
    {
      var u := ChoiceTaken(hash, t, i, Some(j));
    }
  }

  // ---------- a concrete blob ----------

  function Group(tag: U32, children: seq<Tlv>): Tlv {
    Tlv(Universal, true, tag, 2, 0, false, 0, Constructed(children))
  }

  function Item(tag: U32, octet: Byte): Tlv {
    Tlv(Universal, false, tag, 2, 1, false, 0, Primitive([octet]))
  }

  /** A SET of an INTEGER, a BOOLEAN and a SET with one signer is taken for a SignedData; with
      the BOOLEAN first it is not, and the signer is gone. */
  lemma SetRootLosesSigner<H>(hash: Octets -> H)
    ensures var version, flag, signers := Item(2, 1), Item(1, 0), Group(17, [Group(16, [])]);
            var t, u := Group(17, [version, flag, signers]), Group(17, [flag, version, signers]);
            && Equiv(t, u)
            && |Signers(hash, t)| == 1
            && Signers(hash, u) == []
  {
    hide Equiv, Signers, LastSet, FirstContext0, RowsFrom;
    var version, flag, signers := Item(2, 1), Item(1, 0), Group(17, [Group(16, [])]);
    TwoOrders(version, flag, signers);
    OneSigner(hash, Group(17, [version, flag, signers]), signers);
    var u := Group(17, [flag, version, signers]);
    SignersAre(hash, u);
    assert SignedData(u) == None;
  }

  lemma TwoOrders(a: Tlv, b: Tlv, c: Tlv)
    ensures Equiv(Group(17, [a, b, c]), Group(17, [b, a, c]))
  {
    hide Equiv;
    assert multiset([a, b, c]) == multiset{a, b, c} == multiset([b, a, c]);
    SetRearranged(Group(17, [a, b, c]), [b, a, c]);
  }

  lemma OneSigner<H>(hash: Octets -> H, t: Tlv, signers: Tlv)
    requires signers == Group(17, [Group(16, [])])
    requires t.Kids() != [] && t.Kids()[0].IsUniversal(2) && t.Kids()[|t.Kids()| - 1] == signers
    ensures |Signers(hash, t)| == 1
  {
    hide Signers, LastSet, EmbeddedCerts, SignerRowsOf, CertInfosOf, Oid.DecodedOid;
    LastSetLast(t.Kids());
    assert SignedData(t) == Some(t);
    OneRowEach(Group(16, []), CertInfosOf(hash, EmbeddedCerts(t)));
    SignersAreRows(hash, t, signers);
  }

  lemma OneRowEach<H>(si: Tlv, certs: seq<CertInfo<H>>)
    requires si.IsUniversal(16)
    ensures |SignerRowsOf([si], certs)| == 1
  {
    hide SignerRowOf;
    assert [si][1..] == [];
    assert SignerRowsOf([si][1..], certs) == [];
  }

  lemma SignersAreRows<H>(hash: Octets -> H, t: Tlv, signers: Tlv)
    requires SignedData(t) == Some(t) && LastSet(t.Kids()) == Some(signers)
    ensures Signers(hash, t) == SignerRowsOf(signers.Kids(), CertInfosOf(hash, EmbeddedCerts(t)))
  {
    hide SignedData, LastSet, EmbeddedCerts, CertInfosOf, SignerRowsOf;
  }

  /** Re-encoding a blob keeps its signers and their matched certificates, in some order, when
      the order is indifferent. */
  lemma ReencodingKeepsSigners<H>(hash: Octets -> H, d: Octets, t: Tlv)
    requires DocumentOf(d, Ber) == Ok(t) && |ToDer(t)| <= VEC_MAX
    requires OrderIndifferent(hash, t)
    ensures IsValid(ToDer(t), Ber)
    ensures multiset(Signers(hash, DocumentOf(ToDer(t), Ber).value)) == multiset(Signers(hash, t))
  {
    hide DocumentOf, ToDer, Signers, SignedData, Equiv, IsSet, Canonical.Canon, Grammar.Place, Canonical.SetsSorted,
      OrderIndifferent;
    Canonical.RoundTrip(d, t);
    var u := Grammar.Place(Canonical.Canon(t), 0);
    Documents.DerRefinesBer(ToDer(t), u);
    Canonical.Idempotent(d, t, u);
    CanonicalForm(d, t, ToDer(t), u);
    EquivSigners(hash, t, u);
  }
}
