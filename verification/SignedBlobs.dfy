/** Signed messages written out field by field: which rows they have. */
module SignedBlobs {
  import opened Types
  import opened Reencode
  import opened Integers
  import opened Views
  import opened Equivalence
  import opened Cms
  import opened Text
  import OidExamples
  import Oid

  // ---------- how the parts are written ----------

  predicate IsInteger(t: Tlv, octets: Octets) {
    t.cls == Universal && t.tag == 2 && t.body == Primitive(octets)
  }

  predicate IsSequence(t: Tlv, children: seq<Tlv>) {
    t.cls == Universal && t.tag == 16 && t.body == Constructed(children)
  }

  /** The fields of a certificate by which it is identified. */
  datatype Cert = Cert(version: Option<Tlv>, serial: Octets, issuer: Tlv)

  /** A certificate whose first child is a SEQUENCE of an optional version in `[0]`, the serial
      number, an algorithm, the issuer, and whatever follows. */
  predicate WritesCert(t: Tlv, tbs: seq<Tlv>, c: Cert) {
    && t.cls == Universal && t.tag == 16
    && t.body.Constructed? && t.body.children != [] && IsSequence(t.body.children[0], tbs)
    && c.issuer.cls == Universal && c.issuer.tag == 16
    && match c.version
       case None => |tbs| >= 3 && IsInteger(tbs[0], c.serial) && tbs[2] == c.issuer
       case Some(v) =>
         && v.cls == Context && v.tag == 0
         && |tbs| >= 4 && tbs[0] == v && IsInteger(tbs[1], c.serial) && tbs[3] == c.issuer
  }

  datatype Signer =
    | ByIssuer(version: Option<Octets>, issuer: Tlv, serial: Octets)
    | ByKey(version: Option<Octets>, key: Octets)

  /** The signer identifier: issuer and serial number, or `[0]` and a key identifier. */
  predicate WritesSid(t: Tlv, s: Signer) {
    match s
    case ByIssuer(_, issuer, serial) =>
      && t.cls == Universal && t.tag == 16 && t.body.Constructed? && |t.body.children| >= 2
      && t.body.children[0] == issuer && issuer.cls == Universal && issuer.tag == 16
      && t.body.children[1].body == Primitive(serial)
    case ByKey(_, key) => t.cls == Context && t.tag == 0 && t.body == Primitive(key)
  }

  /** A signer is a SEQUENCE of an optional version (an INTEGER or ENUMERATED of one to eight
      octets), the identifier, and whatever follows. */
  predicate WritesSigner(t: Tlv, s: Signer) {
    && t.cls == Universal && t.tag == 16 && t.body.Constructed?
    && var k := t.body.children;
       match s.version
       case None => |k| >= 1 && WritesSid(k[0], s)
       case Some(v) =>
         && |k| >= 2 && 1 <= |v| <= 8
         && k[0].cls == Universal && (k[0].tag == 2 || k[0].tag == 10) && k[0].body == Primitive(v)
         && WritesSid(k[1], s)
  }

  /** A ContentInfo: the OID of signed data, and in a context tag first a SignedData. */
  predicate WritesContent(top: seq<Tlv>, sd: Tlv) {
    && |top| >= 2
    && top[0].cls == Universal && top[0].tag == 6
    && top[0].body == Primitive([0x2a, 0x86, 0x48, 0x86, 0xf7, 0x0d, 0x01, 0x07, 0x02])
    && top[1].cls == Context && top[1].body.Constructed? && top[1].body.children != []
    && top[1].body.children[0] == sd
  }

  /** Among the children of a SignedData the certificates are the first `[0]`, and the signers
      the last SET. */
  predicate WritesSignedData(k: seq<Tlv>, i: nat, certs: seq<Tlv>, j: nat, sis: seq<Tlv>) {
    && i < |k| && k[i].cls == Context && k[i].tag == 0 && k[i].body == Constructed(certs)
    && (forall n | 0 <= n < i :: !(k[n].cls == Context && k[n].tag == 0))
    && j < |k| && k[j].cls == Universal && k[j].tag == 17 && k[j].body == Constructed(sis)
    && (forall n | j < n < |k| :: !(k[n].cls == Universal && k[n].tag == 17))
  }

  /** A SignedData may also stand alone, when its first child is an INTEGER. */
  predicate WritesBlob(root: Tlv, sd: Tlv, i: nat, certs: seq<Tlv>, j: nat, sis: seq<Tlv>) {
    && root.body.Constructed?
    && (WritesContent(root.body.children, sd)
        || (sd == root && root.body.children != [] && root.body.children[0].cls == Universal
            && root.body.children[0].tag == 2))
    && sd.body.Constructed? && WritesSignedData(sd.body.children, i, certs, j, sis)
  }

  // ---------- the rows they should have ----------

  /** The first certificate of this issuer, up to layout and SET order, with this number. */
  ghost function FirstOf(certs: seq<Tlv>, cs: seq<Cert>, issuer: Tlv, serial: Octets): Option<Tlv>
    requires |certs| == |cs|
  {
    if certs == [] then None
    else if Equiv(cs[0].issuer, issuer) && TwosValue(cs[0].serial) == TwosValue(serial) then Some(certs[0])
    else FirstOf(certs[1..], cs[1..], issuer, serial)
  }

  function VersionOf(s: Signer): Option<int> {
    match s.version
    case None => None
    case Some(v) => Some(TwosValue(v))
  }

  ghost function RowOf<H>(hash: Octets -> H, s: Signer, certs: seq<Tlv>, cs: seq<Cert>): SignerRow<H>
    requires |certs| == |cs|
  {
    match s
    case ByIssuer(_, issuer, serial) =>
      SignerRow(VersionOf(s), "issuerAndSerialNumber", Some(SignedDecimal(TwosValue(serial))), None,
                match FirstOf(certs, cs, issuer, serial)
                case None => None
                case Some(cert) => Some(hash(ToDer(cert))))
    case ByKey(_, key) => SignerRow(VersionOf(s), "subjectKeyIdentifier", None, Some(key), None)
  }

  // ---------- certificates ----------

  lemma CertFields(t: Tlv, tbs: seq<Tlv>, c: Cert)
    requires WritesCert(t, tbs, c)
    ensures t.IsUniversal(16)
    ensures IssuerNode(t) == Some(c.issuer) && SerialOctets(t) == Some(c.serial)
  {
  }

  lemma {:induction false} FirstIsIdentified(certs: seq<Tlv>, tbss: seq<seq<Tlv>>, cs: seq<Cert>, issuer: Tlv,
                                             serial: Octets)
    requires |certs| == |tbss| == |cs|
    requires forall k | 0 <= k < |certs| :: WritesCert(certs[k], tbss[k], cs[k])
    ensures FirstIdentified(certs, issuer, Some(serial)) == FirstOf(certs, cs, issuer, serial)
    ensures Sequences(certs) == certs
    decreases |certs|
  {
    hide Equiv, TwosValue, WritesCert, IssuerNode, SerialOctets;
    if certs != [] {
      CertFields(certs[0], tbss[0], cs[0]);
      FirstIsIdentified(certs[1..], tbss[1..], cs[1..], issuer, serial);
      assert certs == [certs[0]] + certs[1..];
    }
  }

  /** Only SEQUENCEs count, among the certificates and among the signers. */
  lemma {:induction false} OnlySequences<H>(ts: seq<Tlv>, infos: seq<CertInfo<H>>)
    ensures forall x :: x in Sequences(ts) <==> x in ts && x.cls == Universal && x.tag == 16
    ensures SignerRowsOf(ts, infos) == SignerRowsOf(Sequences(ts), infos)
    decreases |ts|
  {
    hide SignerRowOf;
    if ts != [] {
      OnlySequences(ts[1..], infos);
      var rest := Sequences(ts[1..]);
      if ts[0].IsUniversal(16) {
        assert ([ts[0]] + rest)[1..] == rest;
      } else {
        assert Sequences(ts) == rest;
      }
    }
  }

  // ---------- signers ----------

  predicate Shows<H(==)>(row: SignerRow<H>, s: Signer, certs: seq<CertInfo<H>>) {
    && row.version == VersionOf(s)
    && match s
       case ByIssuer(_, issuer, serial) =>
         && row.sid == "issuerAndSerialNumber" && row.skid == None
         && row.serial == Some(SignedDecimal(TwosValue(serial)))
         && row.certSha256 == FindCert(certs, ToDer(issuer), SerialText(Some(serial)))
       case ByKey(_, key) =>
         row.sid == "subjectKeyIdentifier" && row.serial == None && row.skid == Some(key) && row.certSha256 == None
  }

  lemma SidRow<H>(t: Tlv, s: Signer, certs: seq<CertInfo<H>>)
    requires WritesSigner(t, s)
    ensures t.IsUniversal(16) && Shows(SignerRowOf(t, certs), s, certs)
  {
    hide ToDer, TwosValue, SignedDecimal, FindCert;
  }

  lemma WrittenRow<H>(hash: Octets -> H, t: Tlv, s: Signer, certs: seq<Tlv>, tbss: seq<seq<Tlv>>, cs: seq<Cert>)
    requires |certs| == |tbss| == |cs|
    requires forall k | 0 <= k < |certs| :: WritesCert(certs[k], tbss[k], cs[k]) && Sound(certs[k])
    requires WritesSigner(t, s) && Sound(t)
    ensures SignerRowOf(t, CertInfosOf(hash, certs)) == RowOf(hash, s, certs, cs)
  {
    hide ToDer, TwosValue, SignedDecimal, FindCert, WritesCert, WritesSigner, Sound, Shaped, FirstOf, FirstIdentified,
      SignerRowOf, CertInfosOf;
    SidRow(t, s, CertInfosOf(hash, certs));
    if s.ByIssuer? {
      IssuerShaped(t, s);
      FirstIsIdentified(certs, tbss, cs, s.issuer, s.serial);
      FindIsSemantic(hash, certs, s.issuer, Some(s.serial));
    }
  }

  lemma IssuerShaped(t: Tlv, s: Signer)
    requires WritesSigner(t, s) && Sound(t) && s.ByIssuer?
    ensures Shaped(s.issuer)
  {
    hide Sound, Shaped, ToDer;
    var k := if s.version.Some? then 1 else 0;
    SoundKid(t, k);
    SoundKid(t.Kids()[k], 0);
    SoundShaped(s.issuer);
  }

  lemma SoundShaped(t: Tlv)
    requires Sound(t)
    ensures Shaped(t)
  {
  }

  lemma {:induction false} RowsAre<H>(hash: Octets -> H, sis: seq<Tlv>, ss: seq<Signer>, certs: seq<Tlv>,
                                      tbss: seq<seq<Tlv>>, cs: seq<Cert>)
    requires |certs| == |tbss| == |cs| && |sis| == |ss|
    requires forall k | 0 <= k < |certs| :: WritesCert(certs[k], tbss[k], cs[k]) && Sound(certs[k])
    requires forall k | 0 <= k < |sis| :: WritesSigner(sis[k], ss[k]) && Sound(sis[k])
    ensures var rows := SignerRowsOf(sis, CertInfosOf(hash, certs));
            && |rows| == |sis|
            && forall k | 0 <= k < |sis| :: rows[k] == RowOf(hash, ss[k], certs, cs)
    decreases |sis|
  {
    hide WritesCert, WritesSigner, Sound, RowOf, SignerRowOf, CertInfosOf;
    if sis != [] {
      WrittenRow(hash, sis[0], ss[0], certs, tbss, cs);
      SignerIsSequence(sis[0], ss[0]);
      RowsAre(hash, sis[1..], ss[1..], certs, tbss, cs);
    }
  }

  lemma SignerIsSequence(t: Tlv, s: Signer)
    requires WritesSigner(t, s)
    ensures t.IsUniversal(16)
  {
  }

  // ---------- the blob ----------

  lemma {:induction false} FirstCertsAt(ts: seq<Tlv>, i: nat)
    requires i < |ts| && ts[i].IsContext(0)
    requires forall n | 0 <= n < i :: !ts[n].IsContext(0)
    ensures FirstContext0(ts) == Some(ts[i])
    decreases |ts|
  {
    if i > 0 {
      FirstCertsAt(ts[1..], i - 1);
    }
  }

  lemma {:induction false} LastSignersAt(ts: seq<Tlv>, j: nat)
    requires j < |ts| && ts[j].IsUniversal(17)
    requires forall n | j < n < |ts| :: !ts[n].IsUniversal(17)
    ensures LastSet(ts) == Some(ts[j])
    decreases |ts|
  {
    if j < |ts| - 1 {
      LastSignersAt(ts[..|ts| - 1], j);
    }
  }

  lemma BlobParts(root: Tlv, sd: Tlv, i: nat, certs: seq<Tlv>, j: nat, sis: seq<Tlv>)
    requires WritesBlob(root, sd, i, certs, j, sis)
    ensures SignedData(root) == Some(sd)
    ensures i < |sd.Kids()| && j < |sd.Kids()|
    ensures FirstContext0(sd.Kids()) == Some(sd.Kids()[i]) && sd.Kids()[i].Kids() == certs
    ensures LastSet(sd.Kids()) == Some(sd.Kids()[j]) && sd.Kids()[j].Kids() == sis
  {
    hide Oid.DecodedOid, FirstContext0, LastSet;
    OidExamples.SignedDataOid();
    FirstCertsAt(sd.Kids(), i);
    LastSignersAt(sd.Kids(), j);
  }

  /** A signed message written out like this has one row for each signer, in order, with its
      version and identifier; and the certificate matched to a signer is the first one whose
      issuer and serial number are the signer's. */
  lemma RowsOfWrittenBlob<H>(hash: Octets -> H, root: Tlv, sd: Tlv, i: nat, certs: seq<Tlv>, j: nat, sis: seq<Tlv>,
                             tbss: seq<seq<Tlv>>, cs: seq<Cert>, ss: seq<Signer>)
    requires WritesBlob(root, sd, i, certs, j, sis) && Sound(root)
    requires |certs| == |tbss| == |cs| && forall k | 0 <= k < |certs| :: WritesCert(certs[k], tbss[k], cs[k])
    requires |sis| == |ss| && forall k | 0 <= k < |sis| :: WritesSigner(sis[k], ss[k])
    ensures var rows := Signers(hash, root);
            && |rows| == |sis|
            && forall k | 0 <= k < |sis| :: rows[k] == RowOf(hash, ss[k], certs, cs)
  {
    hide WritesBlob, WritesCert, WritesSigner, Sound, RowOf, SignedData, FirstContext0, LastSet, Sequences,
      SignerRowsOf, CertInfosOf, FirstOf, FirstIdentified;
    BlobParts(root, sd, i, certs, j, sis);
    SignedDataSound(root);
    SoundKids(sd);
    SoundKids(sd.Kids()[i]);
    SoundKids(sd.Kids()[j]);
    FirstIsIdentified(certs, tbss, cs, root, []);
    RowsAre(hash, sis, ss, certs, tbss, cs);
  }
}
