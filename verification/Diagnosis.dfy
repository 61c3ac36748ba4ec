/** Why a document is refused: the flaws that octets can have, stated on the octets, and the
    theorem that the parser reports exactly the one it comes to, with its kind and place. */
module Diagnosis {
  import opened Types
  import opened Grammar
  import opened HeaderReader
  import opened Parser
  import opened ParserGrammar
  import Base128
  import Base256
  import Documents

  // ---------- flaws of a header ----------

  predicate Continuing(s: Octets) { forall i | 0 <= i < |s| :: s[i] >= 0x80 }

  /** After `n` continuation octets of a tag number, read on top of `t`: the input ends, the
      number leaves 32 bits, or it ends below 31. */
  predicate TagStops(t: nat, s: Octets, n: nat, k: ErrorKind) {
    && n <= |s| && Continuing(s[..n])
    && Base128.ValueFrom(t, s[..n]) <= 0xFFFF_FFFF
    && match k
       case Truncated => n == |s|
       case InvalidTag => n < |s| && Base128.ValueFrom(t, s[..n + 1]) > 0xFFFF_FFFF
       case NonCanonical => n < |s| && s[n] < 0x80 && Base128.ValueFrom(t, s[..n + 1]) < 31
       case _ => false
  }

  /** Flaws of the octets after a leading octet that announces a high tag number. */
  ghost predicate TagFlaw(s: Octets, k: ErrorKind) {
    if s != [] && s[0] == 0x80 then k == NonCanonical else exists n: nat :: TagStops(0, s, n, k)
  }

  /** Flaws of the octets `s` that should begin with length octets. */
  predicate LengthFlaw(rules: Rules, constructed: bool, s: Octets, k: ErrorKind) {
    if s == [] then k == Truncated
    else if s[0] < 0x80 then false
    else if s[0] == 0x80 then
      if !constructed then k == InvalidTag else rules.Der? && k == IndefiniteInDer
    else if s[0] == 0xff then k == InvalidTag
    else if s[0] > 0x88 then k == LengthOverflow
    else if |s| < s[0] - 0x7f then k == Truncated
    else
      var digits := s[1..s[0] - 0x7f];
      rules.Der? && k == NonCanonical
      && ((|digits| > 1 && digits[0] == 0x00) || Base256.Value(digits) < 0x80)
  }

  ghost predicate HeaderFlaw(rules: Rules, buf: Octets, k: ErrorKind) {
    || (buf == [] && k == Truncated)
    || (buf != [] && buf[0] % 32 == 31 && TagFlaw(buf[1..], k))
    || exists h: Header ::
         h.Identifier() <= buf && LengthFlaw(rules, h.constructed, buf[|h.Identifier()|..], k)
  }

  lemma {:induction false} HighTagFails(buf: Octets, idx: nat, t: nat, abs: nat, k: ErrorKind, o: nat)
    requires idx <= |buf| && t <= 0xFFFF_FFFF
    ensures ReadHighTag(buf, idx, t, false, abs) == Err(k, o)
            <==> o == abs && exists n: nat :: TagStops(t, buf[idx..], n, k)
    decreases |buf| - idx
  {
    var s := buf[idx..];
    if idx == |buf| {
      if o == abs && k == Truncated {
        assert TagStops(t, s, 0, k);
      }
    } else {
      var u := t * 128 + s[0] % 128;
      forall n: nat
        ensures TagStops(t, s, n, k) <==> if n == 0 then StopsAtOnce(u, s[0], k)
                                          else s[0] >= 0x80 && u <= 0xFFFF_FFFF && TagStops(u, s[1..], n - 1, k)
      {
        StopsLater(t, s, n, k);
      }
      if u > 0xFFFF_FFFF || s[0] < 0x80 {
        if StopsAtOnce(u, s[0], k) {
          assert TagStops(t, s, 0, k);
        }
      } else {
        HighTagFails(buf, idx + 1, u, abs, k, o);
        assert s[1..] == buf[idx + 1..];
        if m: nat :| TagStops(u, s[1..], m, k) {
          assert TagStops(t, s, m + 1, k);
        }
      }
    }
  }

  predicate StopsAtOnce(u: nat, b: Byte, k: ErrorKind) {
    match k
    case InvalidTag => u > 0xFFFF_FFFF
    case NonCanonical => b < 0x80 && u < 31
    case _ => false
  }

  lemma StopsLater(t: nat, s: Octets, n: nat, k: ErrorKind)
    requires s != [] && t <= 0xFFFF_FFFF
    ensures var u := t * 128 + s[0] % 128;
            TagStops(t, s, n, k) <==>
            if n == 0 then StopsAtOnce(u, s[0], k)
            else s[0] >= 0x80 && u <= 0xFFFF_FFFF && TagStops(u, s[1..], n - 1, k)
  {
    var u, r := t * 128 + s[0] % 128, s[1..];
    if n == 0 {
      assert s[..0] == [] && s[..1] == [s[0]];
      OneGroup(t, s[0]);
    } else if n <= |s| {
      assert s[..n][1..] == r[..n - 1];
      ValueGrows(u, r[..n - 1]);
      assert s[..n] == [s[0]] + r[..n - 1];
      ContinuingStep(s[0], r[..n - 1]);
      if n < |s| {
        assert s[..n + 1][1..] == r[..n];
      }
    }
  }

  lemma OneGroup(t: nat, b: Byte)
    ensures Base128.ValueFrom(t, []) == t && Base128.ValueFrom(t, [b]) == t * 128 + b % 128
  {
    assert [b][1..] == [];
  }

  lemma ContinuingStep(b: Byte, s: Octets)
    ensures Continuing([b] + s) <==> b >= 0x80 && Continuing(s)
  {
    var u := [b] + s;
    assert u[0] == b;
    if Continuing(u) {
      forall i | 0 <= i < |s|
        ensures s[i] >= 0x80
      {
        assert u[i + 1] == s[i];
      }
    }
  }

  lemma TagFails(buf: Octets, abs: nat, k: ErrorKind, o: nat)
    requires buf != []
    ensures ReadHighTag(buf, 1, 0, true, abs) == Err(k, o) <==> o == abs && TagFlaw(buf[1..], k)
  {
    var s := buf[1..];
    if s != [] && s[0] == 0x80 {
    } else {
      assert ReadHighTag(buf, 1, 0, true, abs) == ReadHighTag(buf, 1, 0, false, abs) by {
        assert s != [] ==> s[0] == buf[1];
      }
      HighTagFails(buf, 1, 0, abs, k, o);
    }
  }

  lemma LengthFails(rules: Rules, constructed: bool, buf: Octets, idx: nat, abs: nat, k: ErrorKind, o: nat)
    requires idx <= |buf|
    ensures ReadLength(rules, constructed, buf, idx, abs) == Err(k, o)
            <==> o == abs && LengthFlaw(rules, constructed, buf[idx..], k)
  {
    hide Base256.Value;
    var s := buf[idx..];
    if s != [] && 0x80 < s[0] < 0xff {
      var n := s[0] - 0x80;
      assert s[0] % 128 == n;
      if n <= 8 && n < |s| {
        assert s[1..n + 1] == buf[idx + 1..idx + 1 + n];
        assert s[1..n + 1][0] == buf[idx + 1];
      }
    }
  }

  /** A header is refused for exactly these flaws, at its own offset. */
  lemma HeaderFails(rules: Rules, buf: Octets, abs: nat, k: ErrorKind, o: nat)
    ensures ReadHeader(rules, buf, abs) == Err(k, o) <==> o == abs && HeaderFlaw(rules, buf, k)
  {
    hide ReadHighTag, ReadLength, TagFlaw, LengthFlaw, IdentifierOctets, IsConstructed, ClassOf;
    if buf != [] {
      TagFails(buf, abs, k, o);
      if ReadIdentifier(buf, abs).Ok? {
        var id := ReadIdentifier(buf, abs).value;
        IdentifierSound(buf, abs);
        LengthFails(rules, id.constructed, buf, id.next, abs, k, o);
        var g := Header(id.cls, id.constructed, id.tag, 0, false, 0);
        assert g.Identifier() == buf[..id.next];
      }
    }
    if h: Header :| h.Identifier() <= buf && LengthFlaw(rules, h.constructed, buf[|h.Identifier()|..], k) {
      var rest := buf[|h.Identifier()|..];
      assert buf == h.Identifier() + rest;
      IdentifierComplete(h.cls, h.constructed, h.tag, rest, abs);
    }
    assert forall h: Header | h.Identifier() <= buf :: ReadIdentifier(buf, abs).Ok? by {
      forall h: Header | h.Identifier() <= buf
        ensures ReadIdentifier(buf, abs).Ok?
      {
        assert buf == h.Identifier() + buf[|h.Identifier()|..];
        IdentifierComplete(h.cls, h.constructed, h.tag, buf[|h.Identifier()|..], abs);
      }
    }
  }

  // ---------- flaws of an element ----------

  /** Flaws that show before anything inside the element is read: it is nested too deeply, its
      header is flawed, or its content is longer than what is there. */
  ghost predicate ElementFlaw(rules: Rules, buf: Octets, depth: nat, k: ErrorKind) {
    if depth > 256 then k == NestingLimit
    else
      || HeaderFlaw(rules, buf, k)
      || (k == LengthOverflow && exists h: Header :: TooLong(rules, h, buf))
  }

  predicate TooLong(rules: Rules, h: Header, buf: Octets) {
    h.Wf(rules) && !h.indefinite && h.Encoding() <= buf && |buf| < h.headerLen + h.contentLen
  }

  /** Flaws where the end of an indefinite content is due. */
  predicate EndFlaw(s: Octets, k: ErrorKind) {
    if s == [] || s == [0x00] then k == Truncated
    else s[0] == 0x00 && s[1] != 0x00 && k == InvalidTag
  }

  /** A constructed element that has been entered, and its children that are complete. */
  datatype Frame = Frame(header: Header, before: seq<Tlv>)

  function FrontLength(fs: seq<Frame>): nat {
    if fs == [] then 0
    else fs[0].header.headerLen + |LayoutAll(fs[0].before)| + FrontLength(fs[1..])
  }

  /** The octets among which the children of an element lie. */
  function Inside(h: Header, buf: Octets): Octets
    requires h.headerLen <= |buf| && (!h.indefinite ==> h.headerLen + h.contentLen <= |buf|)
  {
    if h.indefinite then buf[h.headerLen..] else buf[h.headerLen..h.headerLen + h.contentLen]
  }

  predicate Enters(rules: Rules, buf: Octets, abs: nat, depth: nat, f: Frame) {
    && depth <= 256
    && f.header.Wf(rules) && f.header.constructed && f.header.Encoding() <= buf
    && (!f.header.indefinite ==> f.header.headerLen + f.header.contentLen <= |buf|)
    && LayoutAll(f.before) <= Inside(f.header, buf)
    && WfAll(rules, f.before, depth + 1)
    && PlacedAll(f.before, abs + f.header.headerLen)
    && (f.header.indefinite ==> NoEoc(f.before))
  }

  /** What follows the complete children. */
  function Ahead(buf: Octets, f: Frame): Octets
    requires f.header.headerLen <= |buf|
    requires !f.header.indefinite ==> f.header.headerLen + f.header.contentLen <= |buf|
    requires LayoutAll(f.before) <= Inside(f.header, buf)
  {
    Inside(f.header, buf)[|LayoutAll(f.before)|..]
  }

  /** Going into these elements in turn, a reader comes to a flaw of this kind: in the next
      element, or where the innermost one should end. */
  ghost predicate Flawed(rules: Rules, buf: Octets, abs: nat, depth: nat, fs: seq<Frame>, k: ErrorKind)
    decreases |fs|
  {
    if fs == [] then ElementFlaw(rules, buf, depth, k)
    else
      && Enters(rules, buf, abs, depth, fs[0])
      && var ahead := Ahead(buf, fs[0]);
         || (|fs| == 1 && fs[0].header.indefinite && EndFlaw(ahead, k))
         || (ahead != [] && (fs[0].header.indefinite ==> ahead[0] != 0x00)
             && Flawed(rules, ahead, abs + FrontLength(fs[..1]), depth + 1, fs[1..], k))
  }

  // ---------- a flaw is reported ----------

  lemma FrontFirst(a: Octets, b: Octets, c: Octets)
    requires a != []
    ensures var buf := a + b + c;
            buf == a + (b + c) && buf[|a|..] == b + c && buf[0] == a[0]
  {
  }

  lemma {:induction false} ChildrenFail(rules: Rules, ts: seq<Tlv>, rest: Octets, abs: nat, depth: nat, k: ErrorKind,
                                        o: nat)
    requires WfAll(rules, ts, depth) && PlacedAll(ts, abs) && rest != []
    requires TlvOf(rules, rest, abs + |LayoutAll(ts)|, depth) == Err(k, o)
    ensures ChildrenOf(rules, LayoutAll(ts) + rest, abs, depth) == Err(k, o)
    decreases |ts|
  {
    hide TlvOf, Wf, Placed, Layout, WfAll, PlacedAll, LayoutAll, NoEoc, HeaderOf, Header.Identifier;
    NilFacts(rules, abs, depth);
    if ts == [] {
      assert LayoutAll(ts) + rest == rest;
    } else {
      var t, us := ts[0], ts[1..];
      assert [t] + us == ts;
      ConsFacts(rules, t, us, abs, depth);
      SpanIsLayout(rules, t, depth);
      FrontFirst(Layout(t), LayoutAll(us), rest);
      TlvComplete(rules, t, LayoutAll(us) + rest, abs, depth);
      ChildrenFail(rules, us, rest, abs + |Layout(t)|, depth, k, o);
    }
  }

  lemma {:induction false} UntilEocFails(rules: Rules, ts: seq<Tlv>, rest: Octets, abs: nat, depth: nat, k: ErrorKind,
                                         o: nat)
    requires WfAll(rules, ts, depth) && PlacedAll(ts, abs) && NoEoc(ts)
    requires UntilEoc(rules, rest, abs + |LayoutAll(ts)|, depth) == Err(k, o)
    ensures UntilEoc(rules, LayoutAll(ts) + rest, abs, depth) == Err(k, o)
    decreases |ts|
  {
    hide TlvOf, UntilEoc, Wf, Placed, Layout, WfAll, PlacedAll, LayoutAll, NoEoc, HeaderOf, Header.Identifier;
    NilFacts(rules, abs, depth);
    if ts == [] {
      assert LayoutAll(ts) + rest == rest;
    } else {
      var t, us := ts[0], ts[1..];
      assert [t] + us == ts;
      ConsFacts(rules, t, us, abs, depth);
      SpanIsLayout(rules, t, depth);
      FrontFirst(Layout(t), LayoutAll(us), rest);
      TlvComplete(rules, t, LayoutAll(us) + rest, abs, depth);
      UntilEocStep(rules, LayoutAll(ts) + rest, abs, depth);
      UntilEocFails(rules, us, rest, abs + |Layout(t)|, depth, k, o);
    }
  }

  lemma ElementFails(rules: Rules, buf: Octets, abs: nat, depth: nat, k: ErrorKind)
    requires ElementFlaw(rules, buf, depth, k)
    ensures TlvOf(rules, buf, abs, depth) == Err(k, abs)
  {
    hide ReadHeader, UntilEoc, ChildrenOf, HeaderFlaw, Header.Wf, Header.Encoding;
    HeaderFails(rules, buf, abs, k, abs);
    if depth <= 256 && !HeaderFlaw(rules, buf, k) {
      var h: Header :| TooLong(rules, h, buf);
      HeaderAgain(rules, h, buf, abs);
    }
  }

  lemma HeaderAgain(rules: Rules, h: Header, buf: Octets, abs: nat)
    requires h.Wf(rules) && h.Encoding() <= buf
    ensures ReadHeader(rules, buf, abs) == Ok(h) && h.headerLen == |h.Encoding()| <= |buf|
  {
    hide ReadHeader, Header.Encoding;
    assert buf == h.Encoding() + buf[|h.Encoding()|..];
    HeaderComplete(rules, h, buf[|h.Encoding()|..], abs);
    HeaderLength(rules, h);
  }

  lemma HeaderLength(rules: Rules, h: Header)
    requires h.Wf(rules)
    ensures h.headerLen == |h.Encoding()|
  {
  }

  lemma EndFails(rules: Rules, s: Octets, abs: nat, depth: nat, k: ErrorKind)
    requires EndFlaw(s, k)
    ensures UntilEoc(rules, s, abs, depth) == Err(k, abs)
  {
    hide TlvOf, UntilEoc;
    UntilEocEnd(rules, s, abs, depth);
  }

  lemma Entered(rules: Rules, buf: Octets, abs: nat, depth: nat, f: Frame)
    requires Enters(rules, buf, abs, depth, f)
    ensures f.header.headerLen <= |buf| && ReadHeader(rules, buf, abs) == Ok(f.header)
    ensures Inside(f.header, buf) == LayoutAll(f.before) + Ahead(buf, f)
    ensures FrontLength([f]) == f.header.headerLen + |LayoutAll(f.before)|
  {
    hide ReadHeader, WfAll, PlacedAll, LayoutAll, NoEoc, Header.Wf, Header.Encoding;
    HeaderAgain(rules, f.header, buf, abs);
    assert [f][1..] == [];
  }

  lemma FlawAhead(rules: Rules, buf: Octets, abs: nat, depth: nat, f: Frame, inner: seq<Frame>, k: ErrorKind)
    requires Enters(rules, buf, abs, depth, f)
    ensures f.header.headerLen <= |buf|
    ensures var ahead := Ahead(buf, f);
            Flawed(rules, buf, abs, depth, [f] + inner, k)
            <==> || (inner == [] && f.header.indefinite && EndFlaw(ahead, k))
                 || (ahead != [] && (f.header.indefinite ==> ahead[0] != 0x00)
                     && Flawed(rules, ahead, abs + FrontLength([f]), depth + 1, inner, k))
  {
    hide Enters, EndFlaw, ElementFlaw;
    Entered(rules, buf, abs, depth, f);
    var fs := [f] + inner;
    assert fs[0] == f && fs[1..] == inner && fs[..1] == [f];
  }

  lemma {:induction false} FlawIsReported(rules: Rules, buf: Octets, abs: nat, depth: nat, fs: seq<Frame>, k: ErrorKind)
    requires Flawed(rules, buf, abs, depth, fs, k)
    ensures TlvOf(rules, buf, abs, depth) == Err(k, abs + FrontLength(fs))
    decreases |fs|
  {
    hide Flawed, TlvOf, Inside, Ahead;
    if fs == [] {
      NoFrames(rules, buf, abs, depth, k);
      ElementFails(rules, buf, abs, depth, k);
    } else {
      var f, inner := fs[0], fs[1..];
      assert fs == [f] + inner;
      Framed(fs, f, inner);
      FlawEnters(rules, buf, abs, depth, fs, k);
      FlawAhead(rules, buf, abs, depth, f, inner, k);
      var ahead, at := Ahead(buf, f), abs + FrontLength([f]);
      if inner == [] && f.header.indefinite && EndFlaw(ahead, k) {
        EndFails(rules, ahead, at, depth + 1, k);
        IndefiniteFails(rules, buf, abs, depth, f, k, at);
      } else {
        FlawIsReported(rules, ahead, at, depth + 1, inner, k);
        if f.header.indefinite {
          FirstFails(rules, ahead, at, depth + 1);
          IndefiniteFails(rules, buf, abs, depth, f, k, abs + FrontLength(fs));
        } else {
          DefiniteFails(rules, buf, abs, depth, f, k, abs + FrontLength(fs));
        }
      }
    }
  }

  lemma NoFrames(rules: Rules, buf: Octets, abs: nat, depth: nat, k: ErrorKind)
    ensures Flawed(rules, buf, abs, depth, [], k) <==> ElementFlaw(rules, buf, depth, k)
    ensures FrontLength([]) == 0
  {
    hide ElementFlaw;
  }

  lemma FlawEnters(rules: Rules, buf: Octets, abs: nat, depth: nat, fs: seq<Frame>, k: ErrorKind)
    requires Flawed(rules, buf, abs, depth, fs, k) && fs != []
    ensures Enters(rules, buf, abs, depth, fs[0])
  {
    hide Enters, EndFlaw;
  }

  lemma FirstFails(rules: Rules, buf: Octets, abs: nat, depth: nat)
    requires buf != [] && buf[0] != 0x00 && TlvOf(rules, buf, abs, depth).Err?
    ensures UntilEoc(rules, buf, abs, depth).Err?
    ensures UntilEoc(rules, buf, abs, depth).kind == TlvOf(rules, buf, abs, depth).kind
    ensures UntilEoc(rules, buf, abs, depth).offset == TlvOf(rules, buf, abs, depth).offset
  {
    hide TlvOf, UntilEoc;
    UntilEocStep(rules, buf, abs, depth);
  }

  lemma IndefiniteFails(rules: Rules, buf: Octets, abs: nat, depth: nat, f: Frame, k: ErrorKind, o: nat)
    requires Enters(rules, buf, abs, depth, f) && f.header.indefinite && f.header.headerLen <= |buf|
    requires UntilEoc(rules, Ahead(buf, f), abs + FrontLength([f]), depth + 1) == Err(k, o)
    ensures TlvOf(rules, buf, abs, depth) == Err(k, o)
  {
    hide ReadHeader, ChildrenOf, UntilEoc, WfAll, PlacedAll, LayoutAll, NoEoc, Header.Wf, Header.Encoding, FrontLength;
    Entered(rules, buf, abs, depth, f);
    UntilEocFails(rules, f.before, Ahead(buf, f), abs + f.header.headerLen, depth + 1, k, o);
  }

  lemma DefiniteFails(rules: Rules, buf: Octets, abs: nat, depth: nat, f: Frame, k: ErrorKind, o: nat)
    requires Enters(rules, buf, abs, depth, f) && !f.header.indefinite && f.header.headerLen <= |buf|
    requires Ahead(buf, f) != []
    requires TlvOf(rules, Ahead(buf, f), abs + FrontLength([f]), depth + 1) == Err(k, o)
    ensures TlvOf(rules, buf, abs, depth) == Err(k, o)
  {
    hide ReadHeader, ChildrenOf, UntilEoc, WfAll, PlacedAll, LayoutAll, NoEoc, Header.Wf, Header.Encoding, FrontLength;
    Entered(rules, buf, abs, depth, f);
    ChildrenFail(rules, f.before, Ahead(buf, f), abs + f.header.headerLen, depth + 1, k, o);
  }

  // ---------- what is reported is a flaw ----------

  lemma {:induction false} ReportIsFlaw(rules: Rules, buf: Octets, abs: nat, depth: nat) returns (fs: seq<Frame>)
    requires TlvOf(rules, buf, abs, depth).Err?
    ensures var r := TlvOf(rules, buf, abs, depth);
            Flawed(rules, buf, abs, depth, fs, r.kind) && r.offset == abs + FrontLength(fs)
    decreases |buf|, 0
  {
    hide ReadHeader, ChildrenOf, UntilEoc, HeaderFlaw, WfAll, PlacedAll, LayoutAll, NoEoc, Header.Wf, Header.Encoding,
      EndFlaw, Flawed, FrontLength;
    var r := TlvOf(rules, buf, abs, depth);
    HeaderFails(rules, buf, abs, r.kind, r.offset);
    NoFrames(rules, buf, abs, depth, r.kind);
    fs := [];
    if depth <= 256 && ReadHeader(rules, buf, abs).Ok? {
      HeaderSound(rules, buf, abs);
      var h := ReadHeader(rules, buf, abs).value;
      HeaderLength(rules, h);
      if h.indefinite {
        var before, inner, ends := UntilEocFlaw(rules, buf[h.headerLen..], abs + h.headerLen, depth + 1);
        IndefiniteIsConstructed(rules, h);
        var f := Frame(h, before);
        fs := [f] + inner;
        Framed(fs, f, inner);
        FlawAhead(rules, buf, abs, depth, f, inner, r.kind);
      } else if h.headerLen + h.contentLen > |buf| {
        assert TooLong(rules, h, buf);
      } else {
        var before, inner := ChildrenFlaw(rules, Inside(h, buf), abs + h.headerLen, depth + 1);
        var f := Frame(h, before);
        fs := [f] + inner;
        Framed(fs, f, inner);
        FlawAhead(rules, buf, abs, depth, f, inner, r.kind);
      }
    }
  }

  lemma IndefiniteIsConstructed(rules: Rules, h: Header)
    requires h.Wf(rules) && h.indefinite
    ensures h.constructed
  {
  }

  lemma Framed(fs: seq<Frame>, f: Frame, inner: seq<Frame>)
    requires fs == [f] + inner
    ensures fs[0] == f && fs[1..] == inner && fs[..1] == [f]
    ensures FrontLength(fs[..1]) == f.header.headerLen + |LayoutAll(f.before)|
    ensures FrontLength(fs) == f.header.headerLen + |LayoutAll(f.before)| + FrontLength(inner)
  {
    assert [f][1..] == [];
  }

  lemma {:induction false} ChildrenFlaw(rules: Rules, buf: Octets, abs: nat, depth: nat)
    returns (before: seq<Tlv>, fs: seq<Frame>)
    requires ChildrenOf(rules, buf, abs, depth).Err?
    ensures WfAll(rules, before, depth) && PlacedAll(before, abs)
    ensures LayoutAll(before) < buf
    ensures var r, n := ChildrenOf(rules, buf, abs, depth), |LayoutAll(before)|;
            Flawed(rules, buf[n..], abs + n, depth, fs, r.kind) && r.offset == abs + n + FrontLength(fs)
    decreases |buf|, 1
  {
    hide TlvOf, Wf, Placed, Layout, WfAll, PlacedAll, LayoutAll, NoEoc, HeaderOf, Header.Identifier, Flawed;
    NilFacts(rules, abs, depth);
    if TlvOf(rules, buf, abs, depth).Err? {
      before := [];
      fs := ReportIsFlaw(rules, buf, abs, depth);
      assert buf[0..] == buf;
    } else {
      TlvSound(rules, buf, abs, depth);
      var (t, used) := TlvOf(rules, buf, abs, depth).value;
      var more;
      more, fs := ChildrenFlaw(rules, buf[used..], abs + used, depth);
      before := [t] + more;
      ConsFacts(rules, t, more, abs, depth);
      Further(buf, Layout(t), LayoutAll(more));
    }
  }

  /** Octets at the front, then octets at the front of what follows. */
  lemma Further(buf: Octets, a: Octets, b: Octets)
    requires a <= buf && b <= buf[|a|..]
    ensures a + b <= buf && buf[|a|..][|b|..] == buf[|a + b|..]
    ensures b < buf[|a|..] ==> a + b < buf
  {
    assert buf == a + buf[|a|..];
    assert buf[|a|..] == b + buf[|a|..][|b|..];
  }

  lemma {:induction false} UntilEocFlaw(rules: Rules, buf: Octets, abs: nat, depth: nat)
    returns (before: seq<Tlv>, fs: seq<Frame>, ends: bool)
    requires UntilEoc(rules, buf, abs, depth).Err?
    ensures WfAll(rules, before, depth) && PlacedAll(before, abs) && NoEoc(before)
    ensures LayoutAll(before) <= buf
    ensures var r, n := UntilEoc(rules, buf, abs, depth), |LayoutAll(before)|;
            && r.offset == abs + n + FrontLength(fs)
            && if ends then fs == [] && EndFlaw(buf[n..], r.kind)
               else buf[n..] != [] && buf[n..][0] != 0x00 && Flawed(rules, buf[n..], abs + n, depth, fs, r.kind)
    decreases |buf|, 1
  {
    hide TlvOf, UntilEoc, Wf, Placed, Layout, WfAll, PlacedAll, LayoutAll, NoEoc, HeaderOf, Header.Identifier, Flawed;
    NilFacts(rules, abs, depth);
    before, fs, ends := [], [], true;
    assert buf[0..] == buf;
    UntilEocEnd(rules, buf, abs, depth);
    if buf != [] && buf[0] != 0x00 {
      UntilEocStep(rules, buf, abs, depth);
      if TlvOf(rules, buf, abs, depth).Err? {
        ends := false;
        fs := ReportIsFlaw(rules, buf, abs, depth);
      } else {
        TlvSound(rules, buf, abs, depth);
        var (t, used) := TlvOf(rules, buf, abs, depth).value;
        var more;
        more, fs, ends := UntilEocFlaw(rules, buf[used..], abs + used, depth);
        before := [t] + more;
        ConsFacts(rules, t, more, abs, depth);
        SpanIsLayout(rules, t, depth);
        Further(buf, Layout(t), LayoutAll(more));
      }
    } else if buf != [] && |buf| == 1 {
      assert buf == [0x00];
    }
  }

  // ---------- the theorems ----------

  /** An element is refused with this kind at this offset exactly when a reader who goes into
      some elements in turn comes to a flaw of this kind there. */
  lemma FailureIsFlaw(rules: Rules, buf: Octets, abs: nat, depth: nat, k: ErrorKind, o: nat)
    ensures TlvOf(rules, buf, abs, depth) == Err(k, o)
            <==> exists fs :: Flawed(rules, buf, abs, depth, fs, k) && o == abs + FrontLength(fs)
  {
    hide TlvOf, Flawed;
    if TlvOf(rules, buf, abs, depth) == Err(k, o) {
      var fs := ReportIsFlaw(rules, buf, abs, depth);
    }
    if fs :| Flawed(rules, buf, abs, depth, fs, k) && o == abs + FrontLength(fs) {
      FlawIsReported(rules, buf, abs, depth, fs, k);
    }
  }

  /** A document is refused with this kind at this offset exactly when it has such a flaw, or
      when a shorter document ends there. */
  lemma RefusalIsDiagnosed(rules: Rules, d: Octets, k: ErrorKind, o: nat)
    ensures DocumentOf(d, rules) == Err(k, o)
            <==> || (k == TrailingBytes && o < |d| && IsValid(d[..o], rules))
                 || (exists fs :: Flawed(rules, d, 0, 0, fs, k) && o == FrontLength(fs))
  {
    hide TlvOf, Flawed;
    FailureIsFlaw(rules, d, 0, 0, k, o);
    Documents.FailuresClassified(d, rules);
    Documents.TlvClassified(rules, d, 0, 0);
    if k == TrailingBytes && o < |d| && IsValid(d[..o], rules) {
      assert d == d[..o] + d[o..];
      Documents.StrictExtensionFails(rules, d[..o], d[o..]);
    }
  }

  /** A stream is refused exactly when some elements are complete and the next one is flawed. */
  lemma StreamRefusalIsDiagnosed(d: Octets, k: ErrorKind, o: nat)
    ensures StreamOf(d) == Err(k, o)
            <==> exists ts, fs :: StreamFlaw(d, ts, fs, k) && o == |LayoutAll(ts)| + FrontLength(fs)
  {
    hide TlvOf, ChildrenOf, Flawed, WfAll, PlacedAll, LayoutAll;
    if StreamOf(d) == Err(k, o) {
      var ts, fs := ChildrenFlaw(Ber, d, 0, 0);
      assert StreamFlaw(d, ts, fs, k);
    }
    if ts, fs :| StreamFlaw(d, ts, fs, k) && o == |LayoutAll(ts)| + FrontLength(fs) {
      var rest := d[|LayoutAll(ts)|..];
      FlawIsReported(Ber, rest, |LayoutAll(ts)|, 0, fs, k);
      assert LayoutAll(ts) + rest == d;
      ChildrenFail(Ber, ts, rest, 0, 0, k, o);
    }
  }

  ghost predicate StreamFlaw(d: Octets, ts: seq<Tlv>, fs: seq<Frame>, k: ErrorKind) {
    && WfAll(Ber, ts, 0) && PlacedAll(ts, 0) && LayoutAll(ts) < d
    && Flawed(Ber, d[|LayoutAll(ts)|..], |LayoutAll(ts)|, 0, fs, k)
  }

  /** An element whose declared length is longer than what is there is refused for that. */
  lemma DeclaredTooLong(rules: Rules, h: Header, rest: Octets)
    requires h.Wf(rules) && !h.indefinite && |rest| < h.contentLen
    ensures DocumentOf(h.Encoding() + rest, rules) == Err(LengthOverflow, 0)
  {
    hide Header.Wf, Header.Encoding, HeaderFlaw;
    var d := h.Encoding() + rest;
    HeaderLength(rules, h);
    assert TooLong(rules, h, d);
    assert Flawed(rules, d, 0, 0, [], LengthOverflow);
    RefusalIsDiagnosed(rules, d, LengthOverflow, 0);
  }
}
