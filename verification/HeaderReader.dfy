/** Reading identifier and length octets, and its agreement with `Grammar.Header`. */
module HeaderReader {
  import opened Types
  import opened Grammar
  import Base128
  import Base256

  /** The tag number in high-tag-number form: continues at `idx` with `t` read so far. */
  function ReadHighTag(buf: Octets, idx: nat, t: nat, first: bool, abs: nat): (r: Result<(U32, nat)>)
    requires idx <= |buf|
    ensures r.Ok? ==> idx < r.value.1 <= |buf|
    decreases |buf| - idx
  {
    if idx >= |buf| then Err(Truncated, abs)
    else if first && buf[idx] == 0x80 then Err(NonCanonical, abs)
    else
      var u := t * 128 + buf[idx] % 128;
      if u > U32_MAX then Err(InvalidTag, abs)
      else if buf[idx] < 0x80 then
        if u < 0x1f then Err(NonCanonical, abs) else Ok((u, idx + 1))
      else ReadHighTag(buf, idx + 1, u, false, abs)
  }

  function ClassOf(id: Byte): Class {
    match id / 64
    case 0 => Universal
    case 1 => Application
    case 2 => Context
    case _ => Private
  }

  function IsConstructed(id: Byte): bool { id / 32 % 2 == 1 }

  datatype Identifier = Identifier(cls: Class, constructed: bool, tag: U32, next: nat)

  function ReadIdentifier(buf: Octets, abs: nat): (r: Result<Identifier>)
    ensures r.Ok? ==> 1 <= r.value.next <= |buf|
  {
    if buf == [] then Err(Truncated, abs)
    else if buf[0] % 32 != 0x1f then
      Ok(Identifier(ClassOf(buf[0]), IsConstructed(buf[0]), buf[0] % 32, 1))
    else
      var (tag, next) :- ReadHighTag(buf, 1, 0, true, abs);
      Ok(Identifier(ClassOf(buf[0]), IsConstructed(buf[0]), tag, next))
  }

  datatype Length = Length(indefinite: bool, contentLen: nat, next: nat)

  function ReadLength(rules: Rules, constructed: bool, buf: Octets, idx: nat, abs: nat): (r: Result<Length>)
    requires idx <= |buf|
    ensures r.Ok? ==> idx < r.value.next <= |buf|
  {
    if idx >= |buf| then Err(Truncated, abs)
    else
      var l0 := buf[idx];
      if l0 < 0x80 then Ok(Length(false, l0, idx + 1))
      else if l0 == 0x80 then
        if !constructed then Err(InvalidTag, abs)
        else if !rules.AllowsIndefinite() then Err(IndefiniteInDer, abs)
        else Ok(Length(true, 0, idx + 1))
      else if l0 == 0xff then Err(InvalidTag, abs)
      else
        var n := l0 % 128;
        if n > 8 then Err(LengthOverflow, abs)
        else if idx + 1 + n > |buf| then Err(Truncated, abs)
        else if rules.Der? && buf[idx + 1] == 0x00 && n > 1 then Err(NonCanonical, abs)
        else
          var v := Base256.Value(buf[idx + 1..idx + 1 + n]);
          if rules.Der? && v < 0x80 then Err(NonCanonical, abs)
          else Ok(Length(false, v, idx + 1 + n))
  }

  function ReadHeader(rules: Rules, buf: Octets, abs: nat): (r: Result<Header>)
    ensures r.Ok? ==> 2 <= r.value.headerLen <= |buf|
  {
    var id :- ReadIdentifier(buf, abs);
    var len :- ReadLength(rules, id.constructed, buf, id.next, abs);
    Ok(Header(id.cls, id.constructed, id.tag, len.next, len.indefinite, len.contentLen))
  }

  // ---------- tag numbers ----------

  lemma {:induction false} HighTagSound(buf: Octets, idx: nat, t: nat, first: bool, abs: nat)
    requires idx <= |buf|
    requires ReadHighTag(buf, idx, t, first, abs).Ok?
    ensures var (u, j) := ReadHighTag(buf, idx, t, first, abs).value;
            var s := buf[idx..j];
            && 0x1f <= u == Base128.ValueFrom(t, s)
            && (first ==> s[0] != 0x80)
            && s[|s| - 1] < 0x80
            && forall i | 0 <= i < |s| - 1 :: s[i] >= 0x80
    decreases |buf| - idx
  {
    var (u, j) := ReadHighTag(buf, idx, t, first, abs).value;
    var s := buf[idx..j];
    assert s[1..] == buf[idx + 1..j];
    if buf[idx] < 0x80 {
      assert s[1..] == [];
    } else {
      HighTagSound(buf, idx + 1, t * 128 + buf[idx] % 128, false, abs);
      var rest := buf[idx + 1..j];
      forall i | 0 <= i < |s| - 1
        ensures s[i] >= 0x80
      {
        assert i > 0 ==> s[i] == rest[i - 1];
      }
    }
  }

  lemma {:induction false} ValueGrows(t: nat, s: Octets)
    ensures t <= Base128.ValueFrom(t, s)
    decreases |s|
  {
    if s != [] {
      ValueGrows(t * 128 + s[0] % 128, s[1..]);
    }
  }

  lemma {:induction false} HighTagComplete(buf: Octets, idx: nat, t: nat, first: bool, s: Octets, abs: nat)
    requires idx + |s| <= |buf| && buf[idx..idx + |s|] == s != []
    requires first ==> s[0] != 0x80
    requires s[|s| - 1] < 0x80
    requires forall i | 0 <= i < |s| - 1 :: s[i] >= 0x80
    requires 0x1f <= Base128.ValueFrom(t, s) <= U32_MAX
    ensures ReadHighTag(buf, idx, t, first, abs) == Ok((Base128.ValueFrom(t, s), idx + |s|))
    decreases |s|
  {
    assert buf[idx] == s[0];
    var u := t * 128 + s[0] % 128;
    ValueGrows(u, s[1..]);
    if |s| == 1 {
      assert s[1..] == [];
    } else {
      assert buf[idx + 1..idx + 1 + |s[1..]|] == s[1..];
      HighTagComplete(buf, idx + 1, u, false, s[1..], abs);
    }
  }

  lemma {:induction false} HighTagTruncated(buf: Octets, idx: nat, t: nat, first: bool, k: nat, abs: nat)
    requires idx <= k <= |buf|
    requires ReadHighTag(buf, idx, t, first, abs).Ok?
    requires k < ReadHighTag(buf, idx, t, first, abs).value.1
    ensures ReadHighTag(buf[..k], idx, t, first, abs) == Err(Truncated, abs)
    decreases |buf| - idx
  {
    if idx < k {
      assert buf[..k][idx] == buf[idx];
      HighTagTruncated(buf, idx + 1, t * 128 + buf[idx] % 128, false, k, abs);
    }
  }

  // ---------- identifier octets ----------

  lemma IdentifierSound(buf: Octets, abs: nat)
    requires ReadIdentifier(buf, abs).Ok?
    ensures var id := ReadIdentifier(buf, abs).value;
            buf[..id.next] == IdentifierOctets(id.cls, id.constructed, id.tag)
  {
    var id := ReadIdentifier(buf, abs).value;
    var lead := ClassBits(id.cls) + if id.constructed then 0x20 else 0x00;
    assert lead + buf[0] % 32 == buf[0];
    if buf[0] % 32 == 0x1f {
      HighTagSound(buf, 1, 0, true, abs);
      Base128.NumeralUnique(buf[1..id.next]);
      assert buf[..id.next] == [buf[0]] + buf[1..id.next];
    }
  }

  lemma IdentifierComplete(cls: Class, constructed: bool, tag: U32, rest: Octets, abs: nat)
    ensures var s := IdentifierOctets(cls, constructed, tag);
            ReadIdentifier(s + rest, abs) == Ok(Identifier(cls, constructed, tag, |s|))
  {
    var s := IdentifierOctets(cls, constructed, tag);
    var buf := s + rest;
    var lead := ClassBits(cls) + if constructed then 0x20 else 0x00;
    var low := if tag < 0x1f then tag else 0x1f;
    assert buf[0] == lead + low;
    LeadOctet(cls, constructed, low);
    if tag >= 0x1f {
      var m := Base128.Minimal(tag);
      Base128.MinimalDenotes(tag);
      assert buf[1..1 + |m|] == m;
      HighTagComplete(buf, 1, 0, true, m, abs);
    }
  }

  /** Class, constructed bit and low tag occupy disjoint bits of the leading octet. */
  lemma LeadOctet(cls: Class, constructed: bool, low: nat)
    requires low < 32
    ensures var id := ClassBits(cls) + (if constructed then 0x20 else 0x00) + low;
            id < 256 && ClassOf(id) == cls && IsConstructed(id) == constructed && id % 32 == low
  {
    match cls
    case Universal =>
    case Application =>
    case Context =>
    case Private =>
  }

  // ---------- length octets ----------

  lemma DerLongFormMinimal(s: Octets)
    requires s != []
    ensures (|s| == 1 || s[0] != 0) && Base256.Value(s) >= 0x80 <==>
            Base256.Value(s) >= 0x80 && |Base256.Significant(Base256.Value(s))| == |s|
  {
    var v := Base256.Value(s);
    Base256.FixedUnique(s);
    if v >= 0x80 {
      Base256.FixedIsPadded(v, |s|);
      Base256.SignificantFirst(v);
    }
  }

  /** The long form with the octets `s` after its first octet. */
  lemma LongForm(rules: Rules, h: Header, s: Octets)
    requires 1 <= |s| <= 8
    requires !h.indefinite && h.headerLen == |h.Identifier()| + 1 + |s|
    requires h.contentLen == Base256.Value(s)
    requires rules.Der? ==> (|s| == 1 || s[0] != 0) && h.contentLen >= 0x80
    ensures h.Wf(rules) && h.Encoding() == h.Identifier() + ([0x80 + |s|] + s)
  {
    hide Base256.Significant, Base256.Fixed, Base256.Value, IdentifierOctets;
    Base256.FixedUnique(s);
    DerLongFormMinimal(s);
    assert h.LengthCount() == |s|;
  }

  lemma LengthSound(rules: Rules, h: Header, buf: Octets, abs: nat)
    requires h.Identifier() <= buf
    requires ReadLength(rules, h.constructed, buf, |h.Identifier()|, abs)
             == Ok(Length(h.indefinite, h.contentLen, h.headerLen))
    ensures h.Wf(rules) && buf[..h.headerLen] == h.Encoding()
  {
    hide Base256.Significant, Base256.Fixed, Base256.Value, IdentifierOctets;
    var idx := |h.Identifier()|;
    var l0 := buf[idx];
    assert buf[..h.headerLen] == h.Identifier() + buf[idx..h.headerLen];
    if l0 > 0x80 {
      var s := buf[idx + 1..h.headerLen];
      assert |s| == l0 % 128;
      assert s[0] == buf[idx + 1];
      assert buf[idx..h.headerLen] == [l0] + s;
      LongForm(rules, h, s);
    } else {
      assert buf[idx..h.headerLen] == [l0];
    }
  }

  lemma LengthComplete(rules: Rules, h: Header, rest: Octets, abs: nat)
    requires h.Wf(rules)
    ensures ReadLength(rules, h.constructed, h.Encoding() + rest, |h.Identifier()|, abs)
            == Ok(Length(h.indefinite, h.contentLen, h.headerLen))
  {
    hide Base256.Significant, Base256.Fixed, Base256.Value, IdentifierOctets;
    var buf := h.Encoding() + rest;
    var idx := |h.Identifier()|;
    if !h.indefinite {
      var k := h.LengthCount();
      assert buf[idx] == DefiniteLength(k, h.contentLen)[0];
      if k > 0 {
        var s := buf[idx + 1..idx + 1 + k];
        assert s == Base256.Fixed(h.contentLen, k);
        Base256.FixedValue(h.contentLen, k);
        DerLongFormMinimal(s);
      }
    }
  }

  // ---------- whole headers ----------

  /** What was read is what the grammar writes for the header that was returned. */
  lemma HeaderSound(rules: Rules, buf: Octets, abs: nat)
    requires ReadHeader(rules, buf, abs).Ok?
    ensures var h := ReadHeader(rules, buf, abs).value;
            h.Wf(rules) && buf[..h.headerLen] == h.Encoding()
  {
    IdentifierSound(buf, abs);
    LengthSound(rules, ReadHeader(rules, buf, abs).value, buf, abs);
  }

  /** Whatever the grammar writes for a header is read back, whatever follows it. */
  lemma HeaderComplete(rules: Rules, h: Header, rest: Octets, abs: nat)
    requires h.Wf(rules)
    ensures ReadHeader(rules, h.Encoding() + rest, abs) == Ok(h)
  {
    var len := h.Encoding()[|h.Identifier()|..];
    assert h.Encoding() + rest == h.Identifier() + (len + rest);
    IdentifierComplete(h.cls, h.constructed, h.tag, len + rest, abs);
    LengthComplete(rules, h, rest, abs);
  }

  /** A header cut short is reported as truncated, at the start of the element. */
  lemma HeaderTruncated(rules: Rules, buf: Octets, k: nat, abs: nat)
    requires ReadHeader(rules, buf, abs).Ok?
    requires k < ReadHeader(rules, buf, abs).value.headerLen
    ensures ReadHeader(rules, buf[..k], abs) == Err(Truncated, abs)
  {
    if k > 0 {
      var cut := buf[..k];
      assert cut[0] == buf[0];
      var id := ReadIdentifier(buf, abs).value;
      if k < id.next {
        HighTagTruncated(buf, 1, 0, true, k, abs);
      } else {
        IdentifierPrefix(buf, k, abs);
      }
    }
  }

  lemma IdentifierPrefix(buf: Octets, k: nat, abs: nat)
    requires ReadIdentifier(buf, abs).Ok?
    requires ReadIdentifier(buf, abs).value.next <= k <= |buf|
    ensures ReadIdentifier(buf[..k], abs) == ReadIdentifier(buf, abs)
  {
    var id := ReadIdentifier(buf, abs).value;
    IdentifierSound(buf, abs);
    var s := IdentifierOctets(id.cls, id.constructed, id.tag);
    assert buf[..k] == s + buf[id.next..k];
    IdentifierComplete(id.cls, id.constructed, id.tag, buf[id.next..k], abs);
  }
}
