/** The data model of the ASN.1 codec: octets, classes, rule sets, classified errors and
    the decoded TLV tree with its layout annotations. */
module Types {

  /** One octet. Bit operations on octets are written as arithmetic:
      `b & 0x7f` is `b % 128`, `b & 0x80 == 0` is `b < 128`, `id >> 6` is `id / 64`. */
  type Byte = n: nat | n < 0x100
  type U32 = n: nat | n < 0x1_0000_0000
  type Octets = seq<Byte>

  const U32_MAX: nat := 0xFFFF_FFFF
  const USIZE_MAX: nat := 0xFFFF_FFFF_FFFF_FFFF
  /** No Rust vector or slice of octets is longer than `isize::MAX`. */
  const VEC_MAX: nat := 0x7FFF_FFFF_FFFF_FFFF
  const MAX_NESTING: nat := 256

  datatype Option<+T> = None | Some(value: T) {
    predicate IsFailure() { None? }

    function PropagateFailure<U>(): Option<U>
      requires None?
    {
      None
    }

    function Extract(): T
      requires Some?
    {
      value
    }
  }

  datatype Class = Universal | Application | Context | Private

  datatype Rules = Ber | Cer | Der {
    predicate AllowsIndefinite() { !Der? }
  }

  datatype ErrorKind =
    | Truncated | TrailingBytes | InvalidTag | LengthOverflow | IndefiniteInDer
    | NonCanonical | BadTime | BadOid | BadUtf8 | NestingLimit | AllocLimit

  /** A decoding result; a failure carries its kind and its absolute offset. */
  datatype Result<+T> = Ok(value: T) | Err(kind: ErrorKind, offset: nat) {
    predicate IsFailure() { Err? }

    function PropagateFailure<U>(): Result<U>
      requires Err?
    {
      Err(kind, offset)
    }

    function Extract(): T
      requires Ok?
    {
      value
    }
  }

  datatype Body = Primitive(octets: Octets) | Constructed(children: seq<Tlv>)

  /** A node of the decoded tree. `headerLen`, `contentLen`, `indefinite` and `offset`
      record how the node was laid out in the document it was read from. */
  datatype Tlv = Tlv(
    cls: Class,
    constructed: bool,
    tag: U32,
    headerLen: nat,
    contentLen: nat,
    indefinite: bool,
    offset: nat,
    body: Body)
  {
    predicate IsUniversal(n: U32) { cls.Universal? && tag == n }

    predicate IsContext(n: U32) { cls.Context? && tag == n }

    /** The children of a constructed node; none for a primitive one. */
    function Kids(): seq<Tlv> {
      if body.Constructed? then body.children else []
    }
  }

  /** A growable vector that callees append to through a mutable reference. */
  class Vec<T> {
    var items: seq<T>

    constructor ()
      ensures items == []
    {
      items := [];
    }

    method Push(x: T)
      modifies this
      ensures items == old(items) + [x]
    {
      items := items + [x];
    }

    method Extend(xs: seq<T>)
      modifies this
      ensures items == old(items) + xs
    {
      items := items + xs;
    }
  }
}
