/** CMS SignedData: embedded certificates and the match of a signer to one of them. */
module Cms {
  import opened Types
  import opened Grammar
  import opened Parser
  import opened Reencode
  import opened Integers
  import opened Text
  import opened Views
  import opened Equivalence
  import Oid
  import ParserGrammar
  import Sizes

  /** What is kept of an embedded certificate. `H` stands for SHA-256 digests. */
  datatype CertInfo<H> = CertInfo(sha256: H, issuerDer: Option<Octets>, serial: Option<string>)

  /** The identification part of a signer row. */
  datatype SignerRow<H> = SignerRow(
    version: Option<int>,
    sid: string,
    serial: Option<string>,
    skid: Option<Octets>,
    certSha256: Option<H>)

  const SIGNED_DATA: string := "1.2.840.113549.1.7.2"

  /** `signed_data`: the SignedData inside a ContentInfo, or the root if it is one already. */
  function SignedData(root: Tlv): Option<Tlv> {
    var top := root.Kids();
    if |top| >= 2 && OidString(top[0]) == Some(SIGNED_DATA) && top[1].cls.Context? then
      if top[1].Kids() == [] then None else Some(top[1].Kids()[0])
    else if top != [] && top[0].IsUniversal(2) then Some(root)
    else None
  }

  function FirstContext0(ts: seq<Tlv>): Option<Tlv> {
    if ts == [] then None
    else if ts[0].IsContext(0) then Some(ts[0])
    else FirstContext0(ts[1..])
  }

  function LastSet(ts: seq<Tlv>): Option<Tlv> {
    if ts == [] then None
    else if ts[|ts| - 1].IsUniversal(17) then Some(ts[|ts| - 1])
    else LastSet(ts[..|ts| - 1])
  }

  function Sequences(ts: seq<Tlv>): seq<Tlv> {
    if ts == [] then []
    else (if ts[0].IsUniversal(16) then [ts[0]] else []) + Sequences(ts[1..])
  }

  /** The certificates of a SignedData: the SEQUENCEs in its first `[0]`. */
  function EmbeddedCerts(sd: Tlv): seq<Tlv> {
    match FirstContext0(sd.Kids())
    case None => []
    case Some(certs) => Sequences(certs.Kids())
  }

  // ---------- issuer and serial ----------

  /** The fields of the tbsCertificate from the serial number on. */
  function TbsFields(cert: Tlv): Option<seq<Tlv>> {
    if cert.Kids() == [] || !cert.Kids()[0].IsUniversal(16) then None
    else
      var c := cert.Kids()[0].Kids();
      Some(if c != [] && c[0].IsContext(0) then c[1..] else c)
  }

  function SerialOctets(cert: Tlv): Option<Octets> {
    var c :- TbsFields(cert);
    if c != [] && c[0].IsUniversal(2) && c[0].body.Primitive? then Some(c[0].body.octets) else None
  }

  function IssuerNode(cert: Tlv): Option<Tlv> {
    var c :- TbsFields(cert);
    if |c| > 2 && c[2].IsUniversal(16) then Some(c[2]) else None
  }

  function SerialText(octets: Option<Octets>): Option<string> {
    match octets
    case None => None
    case Some(s) => Some(SignedDecimal(TwosValue(s)))
  }

  function IssuerDer(issuer: Option<Tlv>): Option<Octets> {
    match issuer
    case None => None
    case Some(t) => Some(ToDer(t))
  }

  function CertInfoOf<H>(hash: Octets -> H, cert: Tlv): CertInfo<H> {
    CertInfo(hash(ToDer(cert)), IssuerDer(IssuerNode(cert)), SerialText(SerialOctets(cert)))
  }

  function CertInfosOf<H>(hash: Octets -> H, certs: seq<Tlv>): (r: seq<CertInfo<H>>)
    ensures |r| == |certs|
  {
    if certs == [] then [] else [CertInfoOf(hash, certs[0])] + CertInfosOf(hash, certs[1..])
  }

  /** The digest of the first certificate with this issuer encoding and this serial text. */
  function FindCert<H>(certs: seq<CertInfo<H>>, issuerDer: Octets, serial: Option<string>): Option<H> {
    if certs == [] then None
    else if certs[0].issuerDer == Some(issuerDer) && certs[0].serial == serial then Some(certs[0].sha256)
    else FindCert(certs[1..], issuerDer, serial)
  }

  function AsI64(t: Tlv): Option<int> {
    if (t.IsUniversal(2) || t.IsUniversal(10)) && t.body.Primitive? && 1 <= |t.body.octets| <= 8
    then Some(TwosValue(t.body.octets))
    else None
  }

  function SecondPrimitive(ts: seq<Tlv>): Option<Octets> {
    if |ts| > 1 && ts[1].body.Primitive? then Some(ts[1].body.octets) else None
  }

  /** The identification part of `shred_signer`. */
  function SignerRowOf<H>(si: Tlv, certs: seq<CertInfo<H>>): SignerRow<H> {
    var c := si.Kids();
    var version := if c == [] then None else AsI64(c[0]);
    var idx := if version.Some? then 1 else 0;
    var row := SignerRow(version, "", None, None, None);
    if idx >= |c| then row
    else if c[idx].IsUniversal(16) then
      var sk := c[idx].Kids();
      var named := row.(sid := "issuerAndSerialNumber");
      if sk == [] || !sk[0].IsUniversal(16) then named
      else
        var serial := SerialText(SecondPrimitive(sk));
        named.(serial := serial, certSha256 := FindCert(certs, ToDer(sk[0]), serial))
    else if c[idx].IsContext(0) then
      row.(sid := "subjectKeyIdentifier",
           skid := if c[idx].body.Primitive? then Some(c[idx].body.octets) else None)
    else row
  }

  function SignerRowsOf<H>(sis: seq<Tlv>, certs: seq<CertInfo<H>>): seq<SignerRow<H>> {
    if sis == [] then []
    else
      (if sis[0].IsUniversal(16) then [SignerRowOf(sis[0], certs)] else [])
      + SignerRowsOf(sis[1..], certs)
  }

  /** `cms_signers` on a parsed blob. */
  function Signers<H>(hash: Octets -> H, root: Tlv): seq<SignerRow<H>> {
    match SignedData(root)
    case None => []
    case Some(sd) =>
      match LastSet(sd.Kids())
      case None => []
      case Some(signers) => SignerRowsOf(signers.Kids(), CertInfosOf(hash, EmbeddedCerts(sd)))
  }

  // ---------- methods ----------

  method CertIssuerSerial(cert: Tlv) returns (issuer: Option<Octets>, serial: Option<string>)
    requires |ToDer(cert)| <= VEC_MAX
    ensures issuer == IssuerDer(IssuerNode(cert))
    ensures serial == SerialText(SerialOctets(cert))
  {
    hide ToDer, TwosValue, SignedDecimal;
    issuer, serial := None, None;
    var kids := cert.Kids();
    if |kids| == 0 || !kids[0].IsUniversal(16) {
      return;
    }
    var c := kids[0].Kids();
    var pos := 0;
    if |c| > 0 && c[0].IsContext(0) {
      pos := 1;
    }
    if pos < |c| && c[pos].IsUniversal(2) && c[pos].body.Primitive? {
      var text := IntegerToDecimal(c[pos].body.octets);
      serial := Some(text);
    }
    if pos + 2 < |c| && c[pos + 2].IsUniversal(16) {
      KidNotLonger(cert, 0);
      KidNotLonger(kids[0], pos + 2);
      var der := ToDerBytes(c[pos + 2]);
      issuer := Some(der);
    }
  }

  lemma KidNotLonger(t: Tlv, i: nat)
    requires i < |t.Kids()|
    ensures |ToDer(t.Kids()[i])| <= |ToDer(t)|
  {
    hide ToDer;
    ChildNotLonger(t, i);
  }

  method CollectCerts<H>(hash: Octets -> H, sd: Tlv) returns (out: seq<CertInfo<H>>)
    requires Sound(sd)
    ensures out == CertInfosOf(hash, EmbeddedCerts(sd))
  {
    hide ToDer, Shaped, CertInfoOf, IssuerNode, SerialOctets;
    var infos := new Vec<CertInfo<H>>();
    var found := FirstContext0(sd.Kids());
    if found.Some? {
      SoundKids(sd);
      FirstContext0Sound(sd.Kids());
      var certs := found.value.Kids();
      assert certs[0..] == certs;
      for i := 0 to |certs|
        invariant CertInfosOf(hash, Sequences(certs))
               == infos.items + CertInfosOf(hash, Sequences(certs[i..]))
      {
        assert certs[i..][0] == certs[i] && certs[i..][1..] == certs[i + 1..];
        SequencesStep(hash, certs[i..]);
        if certs[i].IsUniversal(16) {
          KidNotLonger(found.value, i);
          var der := ToDerBytes(certs[i]);
          var issuer, serial := CertIssuerSerial(certs[i]);
          CertInfoParts(hash, certs[i]);
          infos.Push(CertInfo(hash(der), issuer, serial));
        }
      }
      assert certs[|certs|..] == [];
      assert infos.items + [] == infos.items;
    }
    out := infos.items;
  }

  lemma CertInfoParts<H>(hash: Octets -> H, cert: Tlv)
    ensures CertInfoOf(hash, cert)
            == CertInfo(hash(ToDer(cert)), IssuerDer(IssuerNode(cert)), SerialText(SerialOctets(cert)))
  {
  }

  lemma SequencesStep<H>(hash: Octets -> H, ts: seq<Tlv>)
    requires ts != []
    ensures CertInfosOf(hash, Sequences(ts))
            == (if ts[0].IsUniversal(16) then [CertInfoOf(hash, ts[0])] else [])
               + CertInfosOf(hash, Sequences(ts[1..]))
  {
    hide CertInfoOf;
    var rest := Sequences(ts[1..]);
    assert Sequences(ts) == (if ts[0].IsUniversal(16) then [ts[0]] else []) + rest;
    if ts[0].IsUniversal(16) {
      assert ([ts[0]] + rest)[1..] == rest;
    } else {
      assert Sequences(ts) == rest;
    }
  }

  method ShredSigner<H>(si: Tlv, certs: seq<CertInfo<H>>) returns (row: SignerRow<H>)
    requires |ToDer(si)| <= VEC_MAX
    ensures row == SignerRowOf(si, certs)
  {
    hide ToDer, TwosValue, SignedDecimal, FindCert;
    var c := si.Kids();
    row := SignerRow(None, "", None, None, None);
    var idx := 0;
    if |c| > 0 && (c[0].IsUniversal(2) || c[0].IsUniversal(10)) && c[0].body.Primitive? {
      var v := IntegerToI64(c[0].body.octets);
      if v.Some? {
        row := row.(version := v);
        idx := 1;
      }
    }
    if idx < |c| {
      var sid := c[idx];
      if sid.IsUniversal(16) {
        row := row.(sid := "issuerAndSerialNumber");
        var sk := sid.Kids();
        if |sk| > 0 && sk[0].IsUniversal(16) {
          KidNotLonger(si, idx);
          KidNotLonger(sid, 0);
          var issuerDer := ToDerBytes(sk[0]);
          var serial: Option<string> := None;
          if |sk| > 1 && sk[1].body.Primitive? {
            var text := IntegerToDecimal(sk[1].body.octets);
            serial := Some(text);
          }
          row := row.(serial := serial, certSha256 := FindCert(certs, issuerDer, serial));
        }
      } else if sid.IsContext(0) {
        row := row.(sid := "subjectKeyIdentifier");
        if sid.body.Primitive? {
          row := row.(skid := Some(sid.body.octets));
        }
      }
    }
  }

  // ---------- the match means what it should ----------

  /** The same signed number, or both absent. */
  predicate SameSerial(a: Option<Octets>, b: Option<Octets>) {
    match (a, b)
    case (None, None) => true
    case (Some(s), Some(s')) => TwosValue(s) == TwosValue(s')
    case _ => false
  }

  /** The certificate names this issuer, up to layout and SET order, and this serial. */
  ghost predicate Identifies(cert: Tlv, issuer: Tlv, serial: Option<Octets>) {
    && IssuerNode(cert).Some?
    && Equiv(IssuerNode(cert).value, issuer)
    && SameSerial(SerialOctets(cert), serial)
  }

  ghost function FirstIdentified(certs: seq<Tlv>, issuer: Tlv, serial: Option<Octets>): Option<Tlv> {
    if certs == [] then None
    else if Identifies(certs[0], issuer, serial) then Some(certs[0])
    else FirstIdentified(certs[1..], issuer, serial)
  }

  predicate Sound(t: Tlv) { Shaped(t) && |ToDer(t)| <= VEC_MAX }

  lemma SoundKid(t: Tlv, i: nat)
    requires Sound(t) && i < |t.Kids()|
    ensures Sound(t.Kids()[i])
  {
    hide ToDer, Shaped;
    KidNotLonger(t, i);
    ShapedKids(t);
    ShapedAt(t.Kids(), i);
  }

  lemma ShapedKids(t: Tlv)
    requires Shaped(t)
    ensures ShapedAll(t.Kids())
  {
  }

  lemma SoundIssuer(cert: Tlv)
    requires Sound(cert) && IssuerNode(cert).Some?
    ensures Sound(IssuerNode(cert).value)
  {
    hide Sound;
    SoundKid(cert, 0);
    var tbs := cert.Kids()[0];
    var c := tbs.Kids();
    SoundKid(tbs, if c[0].IsContext(0) then 3 else 2);
  }

  lemma SameSerialText(a: Option<Octets>, b: Option<Octets>)
    ensures SerialText(a) == SerialText(b) <==> SameSerial(a, b)
  {
    hide TwosValue, SignedDecimal;
    if a.Some? && b.Some? {
      RenderingIsCanonical(a.value, b.value);
    }
  }

  /** Comparing encodings and decimal texts is comparing trees and numbers. */
  lemma ComparisonIsSemantic(cert: Tlv, issuer: Tlv, serial: Option<Octets>)
    requires Sound(cert) && Shaped(issuer)
    ensures IssuerDer(IssuerNode(cert)) == Some(ToDer(issuer)) && SerialText(SerialOctets(cert)) == SerialText(serial)
            <==> Identifies(cert, issuer, serial)
  {
    hide ToDer, Shaped, Equiv, SameSerial, IssuerNode, SerialOctets, SerialText;
    SameSerialText(SerialOctets(cert), serial);
    if IssuerNode(cert).Some? {
      var node := IssuerNode(cert).value;
      SoundIssuer(cert);
      if ToDer(node) == ToDer(issuer) {
        SameDerEquiv(node, issuer);
      }
      if Equiv(node, issuer) {
        EquivSameDer(node, issuer);
      }
    }
  }

  lemma {:induction false} FindIsSemantic<H>(hash: Octets -> H, certs: seq<Tlv>, issuer: Tlv, serial: Option<Octets>)
    requires forall i | 0 <= i < |certs| :: Sound(certs[i])
    requires Shaped(issuer)
    ensures FindCert(CertInfosOf(hash, certs), ToDer(issuer), SerialText(serial))
            == match FirstIdentified(certs, issuer, serial)
               case None => None
               case Some(cert) => Some(hash(ToDer(cert)))
  {
    hide ToDer, Sound, Shaped, IssuerDer, IssuerNode, SerialOctets, SerialText, Identifies;
    if certs != [] {
      ComparisonIsSemantic(certs[0], issuer, serial);
      FindIsSemantic(hash, certs[1..], issuer, serial);
      assert CertInfosOf(hash, certs)[1..] == CertInfosOf(hash, certs[1..]);
    }
  }

  lemma {:induction false} SequencesSound(ts: seq<Tlv>)
    requires forall i | 0 <= i < |ts| :: Sound(ts[i])
    ensures forall i | 0 <= i < |Sequences(ts)| :: Sound(Sequences(ts)[i])
  {
    hide Sound;
    if ts != [] {
      SequencesSound(ts[1..]);
    }
  }

  lemma {:induction false} FirstContext0Sound(ts: seq<Tlv>)
    requires forall i | 0 <= i < |ts| :: Sound(ts[i])
    requires FirstContext0(ts).Some?
    ensures Sound(FirstContext0(ts).value)
  {
    hide Sound;
    if !ts[0].IsContext(0) {
      FirstContext0Sound(ts[1..]);
    }
  }

  lemma SoundKids(t: Tlv)
    requires Sound(t)
    ensures forall i | 0 <= i < |t.Kids()| :: Sound(t.Kids()[i])
  {
    hide Sound;
    forall i | 0 <= i < |t.Kids()|
      ensures Sound(t.Kids()[i])
    {
      SoundKid(t, i);
    }
  }

  lemma EmbeddedSound(sd: Tlv)
    requires Sound(sd)
    ensures forall i | 0 <= i < |EmbeddedCerts(sd)| :: Sound(EmbeddedCerts(sd)[i])
  {
    hide Sound;
    SoundKids(sd);
    if FirstContext0(sd.Kids()).Some? {
      FirstContext0Sound(sd.Kids());
      var certs := FirstContext0(sd.Kids()).value;
      SoundKids(certs);
      SequencesSound(certs.Kids());
    }
  }

  /** A signer identified by issuer and serial number. */
  predicate NamesIssuer(si: Tlv) {
    var c := si.Kids();
    var idx := if c != [] && AsI64(c[0]).Some? then 1 else 0;
    && idx < |c| && c[idx].IsUniversal(16)
    && c[idx].Kids() != [] && c[idx].Kids()[0].IsUniversal(16)
  }

  function SidKids(si: Tlv): seq<Tlv>
    requires NamesIssuer(si)
  {
    var c := si.Kids();
    c[if AsI64(c[0]).Some? then 1 else 0].Kids()
  }

  /** `signer_cert_sha256` is the digest of the first embedded certificate whose issuer is
      the signer's, up to length form and SET order, and whose serial is the same number. */
  lemma SignerMatchIsSemantic<H>(hash: Octets -> H, sd: Tlv, si: Tlv)
    requires Sound(sd) && Sound(si)
    ensures var row := SignerRowOf(si, CertInfosOf(hash, EmbeddedCerts(sd)));
            row.certSha256 ==
            if !NamesIssuer(si) then None
            else
              match FirstIdentified(EmbeddedCerts(sd), SidKids(si)[0], SecondPrimitive(SidKids(si)))
              case None => None
              case Some(cert) => Some(hash(ToDer(cert)))
  {
    hide ToDer, FindCert, FirstIdentified, CertInfosOf, EmbeddedCerts, SerialText, AsI64, Shaped;
    if NamesIssuer(si) {
      var c := si.Kids();
      var idx := if AsI64(c[0]).Some? then 1 else 0;
      SoundKid(si, idx);
      SoundKid(c[idx], 0);
      EmbeddedSound(sd);
      FindIsSemantic(hash, EmbeddedCerts(sd), SidKids(si)[0], SecondPrimitive(SidKids(si)));
    }
  }

  // ---------- the entry points ----------

  /** The root of an accepted blob below a fifth of the largest vector, and what is found in
      it, have encodings that fit. */
  lemma RootSound(blob: Octets, root: Tlv)
    requires DocumentOf(blob, Ber) == Ok(root) && 5 * |blob| <= VEC_MAX
    ensures Sound(root)
    ensures SignedData(root).Some? ==> Sound(SignedData(root).value)
  {
    hide DocumentOf, Wf, Layout, ToDer, Shaped, Sizes.ConstructedNodes;
    ParserGrammar.ParserIsGrammar(Ber, blob, root);
    WfShaped(Ber, root, 0);
    Sizes.BoundedGrowth(blob, root);
    if SignedData(root).Some? {
      SignedDataSound(root);
    }
  }

  lemma SignedDataSound(root: Tlv)
    requires Sound(root) && SignedData(root).Some?
    ensures Sound(SignedData(root).value)
  {
    hide Sound, OidString;
    if |root.Kids()| >= 2 {
      SoundKid(root, 1);
      if root.Kids()[1].Kids() != [] {
        SoundKid(root.Kids()[1], 0);
      }
    }
  }

  lemma {:induction false} LastSetSound(ts: seq<Tlv>)
    requires forall i | 0 <= i < |ts| :: Sound(ts[i])
    requires LastSet(ts).Some?
    ensures Sound(LastSet(ts).value)
  {
    hide Sound;
    if !ts[|ts| - 1].IsUniversal(17) {
      LastSetSound(ts[..|ts| - 1]);
    }
  }

  method CmsSigners<H>(hash: Octets -> H, blob: Octets) returns (out: seq<SignerRow<H>>)
    requires 5 * |blob| <= VEC_MAX
    ensures out == match DocumentOf(blob, Ber)
                   case Err(_, _) => []
                   case Ok(root) => Signers(hash, root)
  {
    hide DocumentOf, SignedData, Sound, SignerRowOf, EmbeddedCerts, CertInfosOf;
    var parsed := ParseRules(blob, Ber);
    if parsed.Err? {
      return [];
    }
    var sd := SignedData(parsed.value);
    if sd.None? {
      return [];
    }
    RootSound(blob, parsed.value);
    var certs := CollectCerts(hash, sd.value);
    var signers := LastSet(sd.value.Kids());
    if signers.None? {
      return [];
    }
    SoundKids(sd.value);
    LastSetSound(sd.value.Kids());
    var sis := signers.value.Kids();
    SoundKids(signers.value);
    var rows := new Vec<SignerRow<H>>();
    assert sis[0..] == sis;
    for i := 0 to |sis|
      invariant SignerRowsOf(sis, certs) == rows.items + SignerRowsOf(sis[i..], certs)
    {
      assert sis[i..][0] == sis[i] && sis[i..][1..] == sis[i + 1..];
      if sis[i].IsUniversal(16) {
        SoundFits(sis[i]);
        var row := ShredSigner(sis[i], certs);
        rows.Push(row);
      }
    }
    assert sis[|sis|..] == [] && rows.items + [] == rows.items;
    return rows.items;
  }

  lemma SoundFits(t: Tlv)
    requires Sound(t)
    ensures |ToDer(t)| <= VEC_MAX
  {
  }

  // ---------- length forms do not matter ----------

  /** The tree without its layout: what is left when any length form may be chosen. */
  function Strip(t: Tlv): Tlv
    decreases t
  {
    t.(headerLen := 0, contentLen := 0, indefinite := false, offset := 0,
       body := match t.body
               case Primitive(octets) => t.body
               case Constructed(children) => Constructed(StripAll(children)))
  }

  function StripAll(ts: seq<Tlv>): (us: seq<Tlv>)
    ensures |us| == |ts|
    decreases ts
  {
    if ts == [] then [] else [Strip(ts[0])] + StripAll(ts[1..])
  }

  function StripOption(t: Option<Tlv>): Option<Tlv> {
    match t
    case None => None
    case Some(u) => Some(Strip(u))
  }

  lemma {:induction false} StripAt(ts: seq<Tlv>, i: nat)
    requires i < |ts|
    ensures StripAll(ts)[i] == Strip(ts[i])
  {
    hide Strip;
    if i > 0 {
      StripAt(ts[1..], i - 1);
    }
  }

  lemma {:induction false} StripDrop(ts: seq<Tlv>, i: nat)
    requires i <= |ts|
    ensures StripAll(ts)[i..] == StripAll(ts[i..])
    ensures StripAll(ts)[..i] == StripAll(ts[..i])
  {
    forall k | 0 <= k < |ts|
      ensures StripAll(ts)[k] == Strip(ts[k])
    {
      StripAt(ts, k);
    }
    forall k | 0 <= k < |ts[i..]|
      ensures StripAll(ts[i..])[k] == Strip(ts[i..][k])
    {
      StripAt(ts[i..], k);
    }
    forall k | 0 <= k < |ts[..i]|
      ensures StripAll(ts[..i])[k] == Strip(ts[..i][k])
    {
      StripAt(ts[..i], k);
    }
  }

  /** What a stripped node still shows. */
  lemma StripShows(t: Tlv)
    ensures var u := Strip(t);
            && u.cls == t.cls && u.tag == t.tag && u.constructed == t.constructed
            && (u.body.Primitive? <==> t.body.Primitive?)
            && (t.body.Primitive? ==> u.body == t.body)
            && u.Kids() == StripAll(t.Kids())
  {
  }

  lemma {:induction false} StripToDer(t: Tlv)
    ensures ToDer(Strip(t)) == ToDer(t)
    decreases t
  {
    hide ToDer, StripAll, DerAll;
    StripShows(t);
    if t.body.Constructed? {
      StripDerAll(t.body.children);
    }
    ToDerParts(t);
    ToDerParts(Strip(t));
  }

  lemma {:induction false} StripDerAll(ts: seq<Tlv>)
    ensures DerAll(StripAll(ts)) == DerAll(ts)
    decreases ts
  {
    hide ToDer, Strip;
    if ts != [] {
      StripToDer(ts[0]);
      StripDerAll(ts[1..]);
      assert StripAll(ts)[1..] == StripAll(ts[1..]);
    }
  }

  lemma StripSignedData(root: Tlv)
    ensures SignedData(Strip(root)) == StripOption(SignedData(root))
  {
    hide Strip, StripAll, Oid.DecodedOid;
    StripShows(root);
    var top := root.Kids();
    if top != [] {
      StripAt(top, 0);
      StripShows(top[0]);
      if |top| >= 2 {
        StripAt(top, 1);
        StripShows(top[1]);
        if top[1].Kids() != [] {
          StripAt(top[1].Kids(), 0);
        }
      }
    }
  }

  lemma {:induction false} StripFirstContext0(ts: seq<Tlv>)
    ensures FirstContext0(StripAll(ts)) == StripOption(FirstContext0(ts))
  {
    hide Strip, StripAll;
    if ts != [] {
      StripAt(ts, 0);
      StripShows(ts[0]);
      StripDrop(ts, 1);
      StripFirstContext0(ts[1..]);
    }
  }

  lemma {:induction false} StripLastSet(ts: seq<Tlv>)
    ensures LastSet(StripAll(ts)) == StripOption(LastSet(ts))
  {
    hide Strip, StripAll;
    if ts != [] {
      var n := |ts| - 1;
      StripAt(ts, n);
      StripShows(ts[n]);
      StripDrop(ts, n);
      StripLastSet(ts[..n]);
    }
  }

  lemma {:induction false} StripCertInfos<H>(hash: Octets -> H, ts: seq<Tlv>)
    ensures CertInfosOf(hash, Sequences(StripAll(ts))) == CertInfosOf(hash, Sequences(ts))
  {
    hide Strip, StripAll, CertInfoOf, CertInfosOf, Sequences;
    if ts != [] {
      StripAt(ts, 0);
      StripShows(ts[0]);
      StripDrop(ts, 1);
      StripCertInfos(hash, ts[1..]);
      StripCertInfo(hash, ts[0]);
      SequencesStep(hash, ts);
      SequencesStep(hash, StripAll(ts));
    } else {
      StripNothing();
    }
  }

  lemma StripNothing()
    ensures StripAll([]) == []
  {
  }

  lemma StripCertInfo<H>(hash: Octets -> H, cert: Tlv)
    ensures CertInfoOf(hash, Strip(cert)) == CertInfoOf(hash, cert)
  {
    hide Strip, StripAll, ToDer, SignedDecimal, TwosValue;
    StripToDer(cert);
    StripTbs(cert);
    if TbsFields(cert).Some? {
      var c := TbsFields(cert).value;
      if c != [] {
        StripAt(c, 0);
        StripShows(c[0]);
      }
      if |c| > 2 {
        StripAt(c, 2);
        StripShows(c[2]);
        StripToDer(c[2]);
      }
    }
  }

  lemma StripTbs(cert: Tlv)
    ensures TbsFields(Strip(cert))
            == match TbsFields(cert) case None => None case Some(c) => Some(StripAll(c))
  {
    hide Strip, StripAll;
    StripShows(cert);
    if cert.Kids() != [] {
      StripAt(cert.Kids(), 0);
      var tbs := cert.Kids()[0];
      StripShows(tbs);
      if tbs.Kids() != [] {
        StripAt(tbs.Kids(), 0);
        StripShows(tbs.Kids()[0]);
        StripDrop(tbs.Kids(), 1);
      }
    }
  }

  lemma StripSignerRow<H>(si: Tlv, certs: seq<CertInfo<H>>)
    ensures SignerRowOf(Strip(si), certs) == SignerRowOf(si, certs)
  {
    hide Strip, StripAll, ToDer, FindCert, TwosValue, SignedDecimal;
    StripShows(si);
    var c := si.Kids();
    if c != [] {
      StripAt(c, 0);
      StripShows(c[0]);
      StripI64(c[0]);
      var idx := if AsI64(c[0]).Some? then 1 else 0;
      if idx < |c| {
        StripAt(c, idx);
        StripShows(c[idx]);
        StripSid(c[idx]);
      }
    }
  }

  lemma StripI64(t: Tlv)
    ensures AsI64(Strip(t)) == AsI64(t)
  {
    hide Strip, TwosValue;
    StripShows(t);
  }

  lemma StripSid(sid: Tlv)
    ensures var sk, sk' := sid.Kids(), Strip(sid).Kids();
            && |sk'| == |sk|
            && (sk != [] ==> (sk'[0].IsUniversal(16) <==> sk[0].IsUniversal(16)) && ToDer(sk'[0]) == ToDer(sk[0]))
            && SecondPrimitive(sk') == SecondPrimitive(sk)
  {
    hide Strip, StripAll, ToDer;
    StripShows(sid);
    var sk := sid.Kids();
    if sk != [] {
      StripAt(sk, 0);
      StripShows(sk[0]);
      StripToDer(sk[0]);
    }
    if |sk| > 1 {
      StripAt(sk, 1);
      StripShows(sk[1]);
    }
  }

  lemma {:induction false} StripSignerRows<H>(sis: seq<Tlv>, certs: seq<CertInfo<H>>)
    ensures SignerRowsOf(StripAll(sis), certs) == SignerRowsOf(sis, certs)
  {
    hide Strip, StripAll, SignerRowOf;
    if sis != [] {
      StripAt(sis, 0);
      StripShows(sis[0]);
      StripDrop(sis, 1);
      StripSignerRow(sis[0], certs);
      StripSignerRows(sis[1..], certs);
    }
  }

  lemma StripSigners<H>(hash: Octets -> H, root: Tlv)
    ensures Signers(hash, Strip(root)) == Signers(hash, root)
  {
    hide Strip, StripAll, SignedData, FirstContext0, LastSet, Sequences, CertInfosOf, SignerRowsOf;
    StripSignedData(root);
    if SignedData(root).Some? {
      var sd := SignedData(root).value;
      StripShows(sd);
      StripLastSet(sd.Kids());
      StripFirstContext0(sd.Kids());
      if FirstContext0(sd.Kids()).Some? {
        var certs := FirstContext0(sd.Kids()).value;
        StripShows(certs);
        StripCertInfos(hash, certs.Kids());
      }
      if LastSet(sd.Kids()).Some? {
        var signers := LastSet(sd.Kids()).value;
        StripShows(signers);
        StripSignerRows(signers.Kids(), CertInfosOf(hash, EmbeddedCerts(sd)));
      }
    }
  }

  /** Two documents that differ in length forms only have the same signer rows, and so the
      same matched certificates. */
  lemma LengthFormsDoNotMatter<H>(hash: Octets -> H, d: Octets, e: Octets)
    requires IsValid(d, Ber) && IsValid(e, Ber)
    requires Strip(DocumentOf(d, Ber).value) == Strip(DocumentOf(e, Ber).value)
    ensures Signers(hash, DocumentOf(d, Ber).value) == Signers(hash, DocumentOf(e, Ber).value)
  {
    hide DocumentOf, Strip, Signers;
    StripSigners(hash, DocumentOf(d, Ber).value);
    StripSigners(hash, DocumentOf(e, Ber).value);
  }
}
