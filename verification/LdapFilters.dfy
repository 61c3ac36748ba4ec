/** Search filters of RFC 4511 section 4.5.1.7: their encoding, and their text by RFC 4515. */
module LdapFilters {
  import opened Types
  import opened Ldap

  datatype Part = Initial(text: string) | Any(text: string) | Final(text: string)

  datatype Filter =
    | And(filters: seq<Filter>)
    | Or(filters: seq<Filter>)
    | Not(filter: Filter)
    | Equality(attr: string, value: string)
    | Substrings(attr: string, parts: seq<Part>)
    | GreaterOrEqual(attr: string, value: string)
    | LessOrEqual(attr: string, value: string)
    | Present(attr: string)
    | Approx(attr: string, value: string)
    | Extensible(assertion: seq<Tlv>)

  // ---------- which filters ----------

  /** The characters of attribute descriptions. */
  predicate AttrChar(c: char) {
    'a' <= c <= 'z' || 'A' <= c <= 'Z' || '0' <= c <= '9' || c == '-' || c == ';' || c == '.'
  }

  predicate IsAttr(s: string) { forall i | 0 <= i < |s| :: AttrChar(s[i]) }

  /** After the initial component: non-empty ones, a final one only at the end. */
  predicate LaterParts(parts: seq<Part>) {
    parts != [] ==>
      && parts[0].text != ""
      && (parts[0].Any? || (parts[0].Final? && |parts| == 1))
      && LaterParts(parts[1..])
  }

  predicate IsParts(parts: seq<Part>) {
    && parts != []
    && if parts[0].Initial? then parts[0].text != "" && LaterParts(parts[1..]) else LaterParts(parts)
  }

  /** The filters that are rendered as RFC 4515 asks: extensible matches are not. */
  predicate IsFilter(f: Filter)
    decreases f
  {
    match f
    case And(fs) => AreFilters(fs)
    case Or(fs) => AreFilters(fs)
    case Not(g) => IsFilter(g)
    case Equality(attr, _) => IsAttr(attr)
    case Substrings(attr, parts) => IsAttr(attr) && IsParts(parts)
    case GreaterOrEqual(attr, _) => IsAttr(attr)
    case LessOrEqual(attr, _) => IsAttr(attr)
    case Present(attr) => IsAttr(attr)
    case Approx(attr, _) => IsAttr(attr)
    case Extensible(_) => false
  }

  predicate AreFilters(fs: seq<Filter>)
    decreases fs
  {
    fs != [] ==> IsFilter(fs[0]) && AreFilters(fs[1..])
  }

  /** The attribute descriptions are well-formed; nothing is asked of substring components. */
  predicate HasAttrs(f: Filter)
    decreases f
  {
    match f
    case And(fs) => HaveAttrs(fs)
    case Or(fs) => HaveAttrs(fs)
    case Not(g) => HasAttrs(g)
    case Equality(attr, _) => IsAttr(attr)
    case Substrings(attr, _) => IsAttr(attr)
    case GreaterOrEqual(attr, _) => IsAttr(attr)
    case LessOrEqual(attr, _) => IsAttr(attr)
    case Present(attr) => IsAttr(attr)
    case Approx(attr, _) => IsAttr(attr)
    case Extensible(_) => true
  }

  predicate HaveAttrs(fs: seq<Filter>)
    decreases fs
  {
    fs != [] ==> HasAttrs(fs[0]) && HaveAttrs(fs[1..])
  }

  // ---------- their encoding ----------

  /** An OCTET STRING holding UTF-8 text. */
  function OctetText(codec: Codec, t: Tlv): Option<string> {
    if t.IsUniversal(4) && t.body.Primitive? then codec.utf8(t.body.octets) else None
  }

  function PartOf(codec: Codec, t: Tlv): Option<Part> {
    if !t.cls.Context? || t.body.Constructed? then None
    else
      var s :- codec.utf8(t.body.octets);
      match t.tag
      case 0 => Some(Initial(s))
      case 1 => Some(Any(s))
      case 2 => Some(Final(s))
      case _ => None
  }

  function PartsOf(codec: Codec, ts: seq<Tlv>): Option<seq<Part>> {
    if ts == [] then Some([])
    else
      var part :- PartOf(codec, ts[0]);
      var rest :- PartsOf(codec, ts[1..]);
      Some([part] + rest)
  }

  /** Attribute and value of an assertion. */
  function AvaOf(codec: Codec, t: Tlv): Option<(string, string)> {
    var c := t.Kids();
    if |c| != 2 then None
    else
      var attr :- OctetText(codec, c[0]);
      var value :- OctetText(codec, c[1]);
      Some((attr, value))
  }

  /** The filter that a tree encodes, if it encodes one; the assertion of an extensible match
      is left as it is. */
  function FilterOf(codec: Codec, t: Tlv): Option<Filter>
    decreases t
  {
    if !t.cls.Context? then None
    else
      match t.tag
      case 0 => (var fs :- FiltersIn(codec, t.body); Some(And(fs)))
      case 1 => (var fs :- FiltersIn(codec, t.body); Some(Or(fs)))
      case 2 => (var fs :- FiltersIn(codec, t.body); if |fs| == 1 then Some(Not(fs[0])) else None)
      case 3 => (var av :- AvaOf(codec, t); Some(Equality(av.0, av.1)))
      case 4 => SubstringsOf(codec, t)
      case 5 => (var av :- AvaOf(codec, t); Some(GreaterOrEqual(av.0, av.1)))
      case 6 => (var av :- AvaOf(codec, t); Some(LessOrEqual(av.0, av.1)))
      case 7 => if t.body.Constructed? then None
                else (var attr :- codec.utf8(t.body.octets); Some(Present(attr)))
      case 8 => (var av :- AvaOf(codec, t); Some(Approx(av.0, av.1)))
      case 9 => if t.body.Constructed? then Some(Extensible(t.body.children)) else None
      case _ => None
  }

  function SubstringsOf(codec: Codec, t: Tlv): Option<Filter> {
    var c := t.Kids();
    if |c| != 2 then None
    else
      var attr :- OctetText(codec, c[0]);
      var parts :- PartsOf(codec, c[1].Kids());
      if c[1].IsUniversal(16) then Some(Substrings(attr, parts)) else None
  }

  function FiltersIn(codec: Codec, b: Body): Option<seq<Filter>>
    decreases b
  {
    match b
    case Primitive(_) => None
    case Constructed(children) => FiltersOf(codec, children)
  }

  function FiltersOf(codec: Codec, ts: seq<Tlv>): (r: Option<seq<Filter>>)
    ensures r.Some? ==> |r.value| == |ts|
    decreases ts
  {
    if ts == [] then Some([])
    else
      var f :- FilterOf(codec, ts[0]);
      var fs :- FiltersOf(codec, ts[1..]);
      Some([f] + fs)
  }

  // ---------- their text (RFC 4515 section 3) ----------

  function PrintLater(parts: seq<Part>): string {
    if parts == [] then ""
    else Quoted(parts[0].text) + (if parts[0].Final? then "" else "*") + PrintLater(parts[1..])
  }

  function PrintParts(parts: seq<Part>): string
    requires parts != []
  {
    if parts[0].Initial? then Quoted(parts[0].text) + "*" + PrintLater(parts[1..])
    else "*" + PrintLater(parts)
  }

  function Print(f: Filter): string
    requires IsFilter(f)
    decreases f
  {
    match f
    case And(fs) => "(&" + PrintAll(fs) + ")"
    case Or(fs) => "(|" + PrintAll(fs) + ")"
    case Not(g) => "(!" + Print(g) + ")"
    case Equality(attr, value) => "(" + attr + "=" + Quoted(value) + ")"
    case Substrings(attr, parts) => "(" + attr + "=" + PrintParts(parts) + ")"
    case GreaterOrEqual(attr, value) => "(" + attr + ">=" + Quoted(value) + ")"
    case LessOrEqual(attr, value) => "(" + attr + "<=" + Quoted(value) + ")"
    case Present(attr) => "(" + attr + "=*" + ")"
    case Approx(attr, value) => "(" + attr + "~=" + Quoted(value) + ")"
  }

  function PrintAll(fs: seq<Filter>): string
    requires AreFilters(fs)
    decreases fs
  {
    if fs == [] then "" else Print(fs[0]) + PrintAll(fs[1..])
  }
}
