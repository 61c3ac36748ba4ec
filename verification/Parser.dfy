/** The TLV parser: the functions that say what it returns, and the methods, in the form of
    the source, proved to return it. */
module Parser {
  import opened Types
  import opened Grammar
  import opened HeaderReader
  import Base256

  /** A parsed element and the number of octets it consumed. */
  type Parsed = (Tlv, nat)

  /** The result of parsing one element at the front of `buf`. `abs` is the document offset
      of `buf[0]`. */
  function TlvOf(rules: Rules, buf: Octets, abs: nat, depth: nat): (r: Result<Parsed>)
    ensures r.Ok? ==> 2 <= r.value.1 <= |buf|
    decreases |buf|, 0
  {
    if depth > MAX_NESTING then Err(NestingLimit, abs)
    else
      var h :- ReadHeader(rules, buf, abs);
      if h.indefinite then
        var (children, used) :- UntilEoc(rules, buf[h.headerLen..], abs + h.headerLen, depth + 1);
        Ok((Node(h, used - 2, abs, Constructed(children)), h.headerLen + used))
      else if h.headerLen + h.contentLen > |buf| then Err(LengthOverflow, abs)
      else
        var end := h.headerLen + h.contentLen;
        var content := buf[h.headerLen..end];
        if h.constructed then
          var children :- ChildrenOf(rules, content, abs + h.headerLen, depth + 1);
          Ok((Node(h, h.contentLen, abs, Constructed(children)), end))
        else
          Ok((Node(h, h.contentLen, abs, Primitive(content)), end))
  }

  function Node(h: Header, contentLen: nat, abs: nat, body: Body): Tlv {
    Tlv(h.cls, h.constructed, h.tag, h.headerLen, contentLen, h.indefinite, abs, body)
  }

  /** Elements back to back, filling `buf`. */
  function ChildrenOf(rules: Rules, buf: Octets, abs: nat, depth: nat): Result<seq<Tlv>>
    decreases |buf|, 1
  {
    if buf == [] then Ok([])
    else
      var (child, used) :- TlvOf(rules, buf, abs, depth);
      var rest :- ChildrenOf(rules, buf[used..], abs + used, depth);
      Ok([child] + rest)
  }

  /** Elements up to and including the end-of-contents octets. */
  function UntilEoc(rules: Rules, buf: Octets, abs: nat, depth: nat): (r: Result<(seq<Tlv>, nat)>)
    ensures r.Ok? ==> 2 <= r.value.1 <= |buf|
    decreases |buf|, 1
  {
    if buf == [] then Err(Truncated, abs)
    else if buf[0] == 0x00 then
      if |buf| < 2 then Err(Truncated, abs)
      else if buf[1] == 0x00 then Ok(([], 2))
      else Err(InvalidTag, abs)
    else
      var (child, used) :- TlvOf(rules, buf, abs, depth);
      var (rest, more) :- UntilEoc(rules, buf[used..], abs + used, depth);
      Ok(([child] + rest, used + more))
  }

  /** A single top-level element spanning all of `data`. */
  function DocumentOf(data: Octets, rules: Rules): Result<Tlv> {
    var (tlv, used) :- TlvOf(rules, data, 0, 0);
    if used != |data| then Err(TrailingBytes, used) else Ok(tlv)
  }

  /** A stream of top-level elements, read under BER. */
  function StreamOf(data: Octets): Result<seq<Tlv>> {
    ChildrenOf(Ber, data, 0, 0)
  }

  /** `validate::is_valid`. */
  predicate IsValid(blob: Octets, rules: Rules) { DocumentOf(blob, rules).Ok? }

  // ---------- methods ----------

  /** The high-tag-number loop. */
  method ParseHighTag(buf: Octets, abs: nat) returns (r: Result<(U32, nat)>)
    requires buf != []
    ensures r == ReadHighTag(buf, 1, 0, true, abs)
  {
    var idx: nat, t: nat, count: nat := 1, 0, 0;
    while true
      invariant 1 <= idx <= |buf| && t <= U32_MAX
      invariant ReadHighTag(buf, idx, t, count == 0, abs) == ReadHighTag(buf, 1, 0, true, abs)
      decreases |buf| - idx
    {
      if idx >= |buf| {
        return Err(Truncated, abs);
      }
      var b := buf[idx];
      idx := idx + 1;
      if count == 0 && b == 0x80 {
        return Err(NonCanonical, abs);
      }
      count := count + 1;
      assert t * 128 + b % 128 <= USIZE_MAX; // the 64-bit accumulator loses no bit
      t := t * 128 + b % 128;
      if t > U32_MAX {
        return Err(InvalidTag, abs);
      }
      if b < 0x80 {
        break;
      }
    }
    if t < 0x1f {
      return Err(NonCanonical, abs);
    }
    return Ok((t, idx));
  }

  /** The big-endian accumulation of the long length form. */
  method ParseLongLength(buf: Octets, idx: nat, n: nat) returns (v: nat)
    requires idx + n <= |buf| && n <= 8
    ensures v == Base256.Value(buf[idx..idx + n])
    ensures v <= USIZE_MAX
  {
    v := 0;
    for k := 0 to n
      invariant v == Base256.Value(buf[idx..idx + k])
    {
      assert buf[idx..idx + k + 1] == buf[idx..idx + k] + [buf[idx + k]];
      Base256.ValueAppend(0, buf[idx..idx + k], buf[idx + k]);
      v := v * 256 + buf[idx + k];
    }
    Base256.FixedUnique(buf[idx..idx + n]);
    Base256.SignificantSize(v, 8);
  }

  method ParseLength(rules: Rules, constructed: bool, buf: Octets, start: nat, abs: nat)
    returns (r: Result<Length>)
    requires start <= |buf|
    ensures r == ReadLength(rules, constructed, buf, start, abs)
  {
    var idx := start;
    if idx >= |buf| {
      return Err(Truncated, abs);
    }
    var l0 := buf[idx];
    idx := idx + 1;
    if l0 < 0x80 {
      return Ok(Length(false, l0, idx));
    } else if l0 == 0x80 {
      if !constructed {
        return Err(InvalidTag, abs);
      }
      if !rules.AllowsIndefinite() {
        return Err(IndefiniteInDer, abs);
      }
      return Ok(Length(true, 0, idx));
    } else if l0 == 0xff {
      return Err(InvalidTag, abs);
    }
    var n := l0 % 128;
    if n > 8 {
      return Err(LengthOverflow, abs);
    }
    if idx + n > |buf| {
      return Err(Truncated, abs);
    }
    if rules.Der? && buf[idx] == 0x00 && n > 1 {
      return Err(NonCanonical, abs);
    }
    var v := ParseLongLength(buf, idx, n);
    idx := idx + n;
    if rules.Der? && v < 0x80 {
      return Err(NonCanonical, abs);
    }
    return Ok(Length(false, v, idx));
  }

  /** Identifier octets, then length octets. */
  method ParseHeader(rules: Rules, buf: Octets, abs: nat) returns (r: Result<Header>)
    ensures r == ReadHeader(rules, buf, abs)
  {
    if |buf| == 0 {
      return Err(Truncated, abs);
    }
    var id := buf[0];
    var cls, constructed := ClassOf(id), IsConstructed(id);
    var tag: U32, idx: nat := id % 32, 1;
    if id % 32 == 0x1f {
      var high := ParseHighTag(buf, abs);
      if high.Err? {
        return Err(high.kind, high.offset);
      }
      tag, idx := high.value.0, high.value.1;
    }
    var len := ParseLength(rules, constructed, buf, idx, abs);
    if len.Err? {
      return Err(len.kind, len.offset);
    }
    return Ok(Header(cls, constructed, tag, len.value.next, len.value.indefinite, len.value.contentLen));
  }

  /** Parse exactly one element at the front of `buf`. */
  method ParseTlv(rules: Rules, buf: Octets, abs: nat, depth: nat) returns (r: Result<Parsed>)
    ensures r == TlvOf(rules, buf, abs, depth)
    decreases |buf|, 0
  {
    hide UntilEoc, ChildrenOf, ReadHeader;
    if depth > MAX_NESTING {
      return Err(NestingLimit, abs);
    }
    var header := ParseHeader(rules, buf, abs);
    if header.Err? {
      return Err(header.kind, header.offset);
    }
    var Header(cls, constructed, tag, headerLen, indefinite, contentLen) := header.value;

    if indefinite {
      var loop := ParseIndefinite(rules, buf, headerLen, abs, depth + 1);
      if loop.Err? {
        return Err(loop.kind, loop.offset);
      }
      var (children, p) := loop.value;
      assert children == UntilEoc(rules, buf[headerLen..], abs + headerLen, depth + 1).value.0;
      var node := Tlv(cls, constructed, tag, headerLen, p - (headerLen + 2), true, abs,
                      Constructed(children));
      return Ok((node, p));
    }

    var end := headerLen + contentLen;
    if end > |buf| {
      return Err(LengthOverflow, abs);
    }
    var content := buf[headerLen..end];
    var body := Primitive(content);
    if constructed {
      var children := ParseChildren(rules, content, abs + headerLen, depth + 1);
      if children.Err? {
        return Err(children.kind, children.offset);
      }
      body := Constructed(children.value);
    }
    return Ok((Tlv(cls, constructed, tag, headerLen, contentLen, false, abs, body), end));
  }

  /** The end-of-contents loop of an indefinite-length element: its children, and the
      position after the end-of-contents octets. */
  method ParseIndefinite(rules: Rules, buf: Octets, headerLen: nat, abs: nat, depth: nat)
    returns (r: Result<(seq<Tlv>, nat)>)
    requires headerLen <= |buf|
    ensures r == Resume([], headerLen, UntilEoc(rules, buf[headerLen..], abs + headerLen, depth))
    decreases |buf| - headerLen, 1
  {
    hide TlvOf, UntilEoc;
    var children: seq<Tlv>, p: nat := [], headerLen;
    while true
      invariant headerLen <= p <= |buf|
      invariant Resume([], headerLen, UntilEoc(rules, buf[headerLen..], abs + headerLen, depth))
             == Resume(children, p, UntilEoc(rules, buf[p..], abs + p, depth))
      decreases |buf| - p
    {
      UntilEocEnd(rules, buf[p..], abs + p, depth);
      if p >= |buf| {
        return Err(Truncated, abs + p);
      }
      if buf[p] == 0x00 {
        if p + 1 >= |buf| {
          return Err(Truncated, abs + p);
        }
        if buf[p + 1] == 0x00 {
          assert children + [] == children;
          return Ok((children, p + 2));
        }
        return Err(InvalidTag, abs + p);
      }
      var child := ParseTlv(rules, buf[p..], abs + p, depth);
      ResumeStep(rules, buf, p, abs, depth, children);
      if child.Err? {
        return Err(child.kind, child.offset);
      }
      children := children + [child.value.0];
      p := p + child.value.1;
    }
  }

  method ParseChildren(rules: Rules, buf: Octets, abs: nat, depth: nat) returns (r: Result<seq<Tlv>>)
    ensures r == ChildrenOf(rules, buf, abs, depth)
    decreases |buf|, 1
  {
    hide TlvOf, ChildrenOf;
    ChildrenOfNothing(rules, abs + |buf|, depth);
    var out: seq<Tlv>, p: nat := [], 0;
    assert buf[0..] == buf;
    PrependNothing(ChildrenOf(rules, buf, abs, depth));
    while p < |buf|
      invariant p <= |buf|
      invariant ChildrenOf(rules, buf, abs, depth)
             == Prepend(out, ChildrenOf(rules, buf[p..], abs + p, depth))
    {
      var child := ParseTlv(rules, buf[p..], abs + p, depth);
      PrependStep(rules, buf, p, abs, depth, out);
      if child.Err? {
        return Err(child.kind, child.offset);
      }
      out := out + [child.value.0];
      p := p + child.value.1;
    }
    assert buf[p..] == [] && out + [] == out;
    return Ok(out);
  }

  /** What the loop of `ParseIndefinite` still has to deliver, given what it has delivered. */
  ghost function Resume(done: seq<Tlv>, used: nat, r: Result<(seq<Tlv>, nat)>): Result<(seq<Tlv>, nat)> {
    if r.Err? then r else Ok((done + r.value.0, used + r.value.1))
  }

  lemma ResumeStep(rules: Rules, buf: Octets, p: nat, abs: nat, depth: nat, done: seq<Tlv>)
    requires p < |buf| && buf[p] != 0x00
    ensures var child := TlvOf(rules, buf[p..], abs + p, depth);
            var now := Resume(done, p, UntilEoc(rules, buf[p..], abs + p, depth));
            if child.Err? then now == Err(child.kind, child.offset)
            else
              var (t, used) := child.value;
              p + used <= |buf| &&
              now == Resume(done + [t], p + used, UntilEoc(rules, buf[p + used..], abs + p + used, depth))
  {
    hide TlvOf, UntilEoc;
    var here := buf[p..];
    UntilEocStep(rules, here, abs + p, depth);
    var child := TlvOf(rules, here, abs + p, depth);
    if child.Ok? {
      var (t, used) := child.value;
      assert here[used..] == buf[p + used..];
      ResumeTwice(done, p, t, used, UntilEoc(rules, buf[p + used..], abs + p + used, depth));
    }
  }

  lemma UntilEocEnd(rules: Rules, buf: Octets, abs: nat, depth: nat)
    ensures buf == [] ==> UntilEoc(rules, buf, abs, depth) == Err(Truncated, abs)
    ensures buf == [0x00] ==> UntilEoc(rules, buf, abs, depth) == Err(Truncated, abs)
    ensures |buf| >= 2 && buf[0] == 0x00 ==>
              UntilEoc(rules, buf, abs, depth) == if buf[1] == 0x00 then Ok(([], 2)) else Err(InvalidTag, abs)
  {
    hide TlvOf;
  }

  lemma UntilEocStep(rules: Rules, buf: Octets, abs: nat, depth: nat)
    requires buf != [] && buf[0] != 0x00
    ensures UntilEoc(rules, buf, abs, depth) ==
            var child := TlvOf(rules, buf, abs, depth);
            if child.Err? then Err(child.kind, child.offset)
            else
              var (t, used) := child.value;
              Resume([t], used, UntilEoc(rules, buf[used..], abs + used, depth))
  {
    hide TlvOf;
  }

  lemma ResumeTwice(done: seq<Tlv>, p: nat, t: Tlv, used: nat, r: Result<(seq<Tlv>, nat)>)
    ensures Resume(done, p, Resume([t], used, r)) == Resume(done + [t], p + used, r)
  {
    if r.Ok? {
      assert done + ([t] + r.value.0) == done + [t] + r.value.0;
    }
  }

  ghost function Prepend(done: seq<Tlv>, r: Result<seq<Tlv>>): Result<seq<Tlv>> {
    if r.Err? then r else Ok(done + r.value)
  }

  lemma PrependNothing(r: Result<seq<Tlv>>)
    ensures Prepend([], r) == r
  {
    if r.Ok? {
      assert [] + r.value == r.value;
    }
  }

  lemma ChildrenOfNothing(rules: Rules, abs: nat, depth: nat)
    ensures ChildrenOf(rules, [], abs, depth) == Ok([])
  {
  }

  lemma PrependStep(rules: Rules, buf: Octets, p: nat, abs: nat, depth: nat, done: seq<Tlv>)
    requires p < |buf|
    ensures var child := TlvOf(rules, buf[p..], abs + p, depth);
            var now := Prepend(done, ChildrenOf(rules, buf[p..], abs + p, depth));
            if child.Err? then now == Err(child.kind, child.offset)
            else
              var (t, used) := child.value;
              p + used <= |buf| &&
              now == Prepend(done + [t], ChildrenOf(rules, buf[p + used..], abs + p + used, depth))
  {
    hide TlvOf;
    var child := TlvOf(rules, buf[p..], abs + p, depth);
    if child.Ok? {
      var (t, used) := child.value;
      assert buf[p..][used..] == buf[p + used..];
      var rest := ChildrenOf(rules, buf[p + used..], abs + p + used, depth);
      if rest.Ok? {
        assert done + ([t] + rest.value) == done + [t] + rest.value;
      }
    }
  }

  method ParseRules(data: Octets, rules: Rules) returns (r: Result<Tlv>)
    ensures r == DocumentOf(data, rules)
  {
    var p := ParseTlv(rules, data, 0, 0);
    if p.Err? {
      return Err(p.kind, p.offset);
    }
    if p.value.1 != |data| {
      return Err(TrailingBytes, p.value.1);
    }
    return Ok(p.value.0);
  }

  method ParseAll(data: Octets) returns (r: Result<seq<Tlv>>)
    ensures r == StreamOf(data)
  {
    r := ParseChildren(Ber, data, 0, 0);
  }
}
