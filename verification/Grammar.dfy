/** The encodings of ITU-T X.690 sections 8.1.2 to 8.1.5, read from the tree to the octets:
    `Layout` writes the octets that an annotated tree stands for, `Wf` says which annotated
    trees a set of encoding rules admits, and `Placed` says that offsets tile the document. */
module Grammar {
  import opened Types
  import Base128
  import Base256

  function ClassBits(cls: Class): nat {
    match cls
    case Universal => 0x00
    case Application => 0x40
    case Context => 0x80
    case Private => 0xc0
  }

  /** Identifier octets (X.690 section 8.1.2): low form below 31, else the high-tag-number
      form with a minimal base-128 tag. */
  function IdentifierOctets(cls: Class, constructed: bool, tag: U32): (s: Octets)
    ensures s != []
  {
    var lead := ClassBits(cls) + if constructed then 0x20 else 0x00;
    if tag < 0x1f then [lead + tag] else [lead + 0x1f] + Base128.Minimal(tag)
  }

  /** Length octets of a definite length `n` (section 8.1.3): short form when no octet
      follows the first one, long form with `k` further octets otherwise. */
  function DefiniteLength(k: nat, n: nat): (s: Octets)
    ensures |s| == k + 1
  {
    if k == 0 then [n % 256] else [(0x80 + k) % 256] + Base256.Fixed(n, k)
  }

  /** How many octets follow the first one in the shortest form of `n`. */
  function MinimalCount(n: nat): nat {
    if n < 0x80 then 0 else |Base256.Significant(n)|
  }

  /** The identifier and length octets of one encoding. */
  datatype Header = Header(
    cls: Class,
    constructed: bool,
    tag: U32,
    headerLen: nat,
    indefinite: bool,
    contentLen: nat)
  {
    function Identifier(): (s: Octets)
      ensures s != []
    {
      IdentifierOctets(cls, constructed, tag)
    }

    /** The number of length octets after the first one. */
    function LengthCount(): nat {
      if headerLen > |Identifier()| then headerLen - |Identifier()| - 1 else 0
    }

    function Encoding(): Octets {
      Identifier() + if indefinite then [0x80] else DefiniteLength(LengthCount(), contentLen)
    }

    predicate Wf(rules: Rules) {
      && headerLen == |Encoding()|
      && if indefinite then
           constructed && rules.AllowsIndefinite() && contentLen == 0
         else
           && LengthCount() <= 8
           && (if LengthCount() == 0 then contentLen < 0x80
               else |Base256.Significant(contentLen)| <= LengthCount())
           && (rules.Der? ==> LengthCount() == MinimalCount(contentLen))
    }
  }

  function HeaderOf(t: Tlv): Header {
    Header(t.cls, t.constructed, t.tag, t.headerLen, t.indefinite,
           if t.indefinite then 0 else t.contentLen)
  }

  function Trailer(t: Tlv): Octets {
    if t.indefinite then [0x00, 0x00] else []
  }

  /** The octets that the annotated tree `t` stands for. */
  function Layout(t: Tlv): Octets
    decreases t
  {
    HeaderOf(t).Encoding() + Content(t.body) + Trailer(t)
  }

  function Content(b: Body): Octets
    decreases b
  {
    match b
    case Primitive(octets) => octets
    case Constructed(children) => LayoutAll(children)
  }

  function LayoutAll(ts: seq<Tlv>): Octets
    decreases ts
  {
    if ts == [] then [] else Layout(ts[0]) + LayoutAll(ts[1..])
  }

  /** No child of an indefinite-length node may be taken for the end-of-contents octets. */
  predicate NoEoc(ts: seq<Tlv>) {
    forall i | 0 <= i < |ts| :: HeaderOf(ts[i]).Identifier()[0] != 0x00
  }

  /** What a node itself must satisfy, its depth and its children aside. */
  predicate WfNode(rules: Rules, t: Tlv) {
    && HeaderOf(t).Wf(rules)
    && t.constructed == t.body.Constructed?
    && t.contentLen == |Content(t.body)|
    && (t.indefinite ==> NoEoc(t.Kids()))
  }

  predicate Wf(rules: Rules, t: Tlv, depth: nat)
    decreases t
  {
    depth <= MAX_NESTING && WfNode(rules, t) && WfBody(rules, t.body, depth)
  }

  predicate WfBody(rules: Rules, b: Body, depth: nat)
    decreases b
  {
    b.Constructed? ==> WfAll(rules, b.children, depth + 1)
  }

  predicate WfAll(rules: Rules, ts: seq<Tlv>, depth: nat)
    decreases ts
  {
    ts != [] ==> Wf(rules, ts[0], depth) && WfAll(rules, ts[1..], depth)
  }

  /** `t` starts at `abs`, its children follow its header one after the other. */
  predicate Placed(t: Tlv, abs: nat)
    decreases t
  {
    t.offset == abs && PlacedBody(t.body, abs + t.headerLen)
  }

  predicate PlacedBody(b: Body, abs: nat)
    decreases b
  {
    b.Constructed? ==> PlacedAll(b.children, abs)
  }

  predicate PlacedAll(ts: seq<Tlv>, abs: nat)
    decreases ts
  {
    ts != [] ==> Placed(ts[0], abs) && PlacedAll(ts[1..], abs + |Layout(ts[0])|)
  }

  /** The document `d` is an encoding, under `rules`, of exactly the annotated tree `t`. */
  predicate Derives(rules: Rules, d: Octets, t: Tlv) {
    Layout(t) == d && Wf(rules, t, 0) && Placed(t, 0)
  }

  /** The same tree starting at `abs`. */
  function Place(t: Tlv, abs: nat): Tlv
    decreases t
  {
    t.(offset := abs, body := PlaceBody(t.body, abs + t.headerLen))
  }

  function PlaceBody(b: Body, abs: nat): Body
    decreases b
  {
    match b
    case Primitive(octets) => b
    case Constructed(children) => Constructed(PlaceAll(children, abs))
  }

  function PlaceAll(ts: seq<Tlv>, abs: nat): (us: seq<Tlv>)
    ensures |us| == |ts|
    decreases ts
  {
    if ts == [] then [] else [Place(ts[0], abs)] + PlaceAll(ts[1..], abs + |Layout(ts[0])|)
  }
}
