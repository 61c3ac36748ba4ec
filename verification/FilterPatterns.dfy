/** Patterns: the text of substring components as segments with stars between them. */
module FilterPatterns {
  import opened Types
  import opened Ldap
  import opened LdapFilters

  // ---------- segments ----------

  /** What stands between the stars of a pattern. */
  type Segs = s: seq<string> | s != [] witness [""]

  /** The last segment goes on with `s`. */
  function Grow(segs: Segs, s: string): (r: Segs)
  {
    segs[..|segs| - 1] + [segs[|segs| - 1] + s]
  }

  predicate AfterStar(segs: Segs) { |segs| > 1 && segs[|segs| - 1] == "" }

  function AddSegment(segs: Segs, part: Part, first: bool): (r: Segs)
  {
    match part
    case Initial(s) => Grow(segs, s) + [""]
    case Any(s) => (if first then segs + [s] else Grow(segs, s)) + [""]
    case Final(s) => if AfterStar(segs) then Grow(segs, s) else segs + [s]
  }

  function SegmentsFrom(parts: seq<Part>, segs: Segs, first: bool): (r: Segs)
    decreases |parts|
  {
    if parts == [] then segs else SegmentsFrom(parts[1..], AddSegment(segs, parts[0], first), false)
  }

  /** The segments of a substring filter: two empty ones when it has no component. */
  function Segments(parts: seq<Part>): (r: Segs)
  {
    if parts == [] then ["", ""] else SegmentsFrom(parts, [""], true)
  }

  /** Escaped segments with stars between them. */
  function StarText(segs: Segs): string
  {
    if |segs| == 1 then Escape(segs[0]) else Escape(segs[0]) + "*" + StarText(segs[1..])
  }

  // ---------- escaping ----------

  lemma {:induction false} EscapeAttr(s: string)
    requires IsAttr(s)
    ensures Escape(s) == s
  {
    if s != "" {
      EscapeCharShape(s[0]);
      EscapeAttr(s[1..]);
      assert [s[0]] + s[1..] == s;
    }
  }

  lemma OctetTextIsText(codec: Codec, t: Tlv)
    requires OctetText(codec, t).Some?
    ensures AsText(codec, t) == OctetText(codec, t).value
  {
  }

  lemma {:induction false} EscapeAppend(a: string, b: string)
    ensures Escape(a + b) == Escape(a) + Escape(b)
    decreases |a|
  {
    hide EscapeChar;
    if a == "" {
      assert a + b == b;
    } else {
      assert (a + b)[0] == a[0] && (a + b)[1..] == a[1..] + b;
      EscapeAppend(a[1..], b);
    }
  }

  lemma EscapeNothing()
    ensures Escape("") == ""
  {
  }

  // ---------- the source renders segments ----------

  lemma {:induction false} StarTextSnoc(segs: seq<string>, s: string)
    requires segs != []
    ensures StarText(segs + [s]) == StarText(segs) + "*" + Escape(s)
    decreases |segs|
  {
    hide Escape;
    var all := segs + [s];
    if |segs| == 1 {
      assert all[1..] == [s];
    } else {
      StarTextSnoc(segs[1..], s);
      assert all[1..] == segs[1..] + [s];
    }
  }

  lemma StarTextGrow(segs: seq<string>, s: string)
    requires segs != []
    ensures StarText(Grow(segs, s)) == StarText(segs) + Escape(s)
  {
    hide Escape, StarText;
    var n := |segs| - 1;
    EscapeAppend(segs[n], s);
    if n == 0 {
      assert Grow(segs, s) == [segs[0] + s] && segs == [segs[0]];
      StarTextOne(segs[0]);
      StarTextOne(segs[0] + s);
    } else {
      assert segs == segs[..n] + [segs[n]];
      StarTextSnoc(segs[..n], segs[n]);
      StarTextSnoc(segs[..n], segs[n] + s);
      var t := StarText(segs[..n]) + "*";
      assert t + (Escape(segs[n]) + Escape(s)) == t + Escape(segs[n]) + Escape(s);
    }
  }

  lemma StarTextOne(s: string)
    ensures StarText([s]) == Escape(s)
  {
  }

  lemma EscapeEmpty(s: string)
    ensures Escape(s) == "" <==> s == ""
  {
    if s != "" {
      EscapeCharShape(s[0]);
    }
  }

  lemma StarTextEnd(segs: seq<string>)
    requires segs != []
    ensures EndsWithStar(StarText(segs)) <==> AfterStar(segs)
    ensures StarText(segs) == "" <==> segs == [""]
  {
    hide Escape, StarText;
    var n := |segs| - 1;
    var last := Escape(segs[n]);
    EscapeNoParens(segs[n]);
    EscapeEmpty(segs[n]);
    if n == 0 {
      assert segs == [segs[0]];
      StarTextOne(segs[0]);
      assert last != "" ==> last[|last| - 1] in last;
    } else {
      assert segs == segs[..n] + [segs[n]];
      StarTextSnoc(segs[..n], segs[n]);
      var text := StarText(segs);
      if last != "" {
        assert text[|text| - 1] == last[|last| - 1] && last[|last| - 1] in last;
      } else {
        assert text == StarText(segs[..n]) + "*";
      }
    }
  }

  lemma AddPartIsSegment(codec: Codec, t: Tlv, segs: seq<string>, first: bool)
    requires PartOf(codec, t).Some? && segs != []
    ensures AddPart(codec, t, StarText(segs), first)
            == StarText(AddSegment(segs, PartOf(codec, t).value, first))
  {
    hide Escape, StarText;
    var pat := StarText(segs);
    EscapeNothing();
    StarTextEnd(segs);
    match PartOf(codec, t).value
    case Initial(s) =>
      StarTextGrow(segs, s);
      StarTextSnoc(Grow(segs, s), "");
      assert pat + Escape(s) + "*" + "" == pat + Escape(s) + "*";
    case Any(s) =>
      StarTextGrow(segs, s);
      StarTextSnoc(segs, s);
      StarTextSnoc(if first then segs + [s] else Grow(segs, s), "");
    case Final(s) =>
      StarTextGrow(segs, s);
      StarTextSnoc(segs, s);
  }

  lemma {:induction false} PatternIsSegments(codec: Codec, ts: seq<Tlv>, segs: seq<string>, first: bool)
    requires PartsOf(codec, ts).Some? && segs != []
    ensures Pattern(codec, ts, StarText(segs), first)
            == StarText(SegmentsFrom(PartsOf(codec, ts).value, segs, first))
    decreases |ts|
  {
    hide Escape, PartOf, AddPart, PartsOf, StarText, AddSegment;
    if ts == [] {
      NoParts(codec);
    } else {
      PartsStep(codec, ts);
      var parts := PartsOf(codec, ts).value;
      assert parts[1..] == PartsOf(codec, ts[1..]).value;
      AddPartIsSegment(codec, ts[0], segs, first);
      PatternIsSegments(codec, ts[1..], AddSegment(segs, parts[0], first), false);
    }
  }

  lemma NoParts(codec: Codec)
    ensures PartsOf(codec, []) == Some([])
  {
  }

  lemma PartsStep(codec: Codec, ts: seq<Tlv>)
    requires PartsOf(codec, ts).Some? && ts != []
    ensures PartOf(codec, ts[0]).Some? && PartsOf(codec, ts[1..]).Some?
    ensures PartsOf(codec, ts).value == [PartOf(codec, ts[0]).value] + PartsOf(codec, ts[1..]).value
  {
    hide PartOf;
  }

  /** Every component adds a star. */
  lemma {:induction false} SegmentsGrow(parts: seq<Part>, segs: seq<string>, first: bool)
    requires segs != [] && (parts != [] || |segs| > 1)
    ensures |SegmentsFrom(parts, segs, first)| > 1
    decreases |parts|
  {
    if parts != [] {
      SegmentsGrow(parts[1..], AddSegment(segs, parts[0], first), false);
    }
  }

  lemma WholePattern(codec: Codec, ts: seq<Tlv>)
    requires PartsOf(codec, ts).Some?
    ensures var pat := Pattern(codec, ts, "", true);
            (if pat == "" then "*" else pat) == StarText(Segments(PartsOf(codec, ts).value))
  {
    hide Escape, PartOf, AddPart, PartsOf, StarText, SegmentsFrom;
    var parts := PartsOf(codec, ts).value;
    EscapeNothing();
    StarTextOne("");
    PatternIsSegments(codec, ts, [""], true);
    if ts == [] {
      NoParts(codec);
      assert [""] + [""] == ["", ""];
      StarTextSnoc([""], "");
    } else {
      PartsStep(codec, ts);
      SegmentsGrow(parts, [""], true);
      StarTextEnd(SegmentsFrom(parts, [""], true));
    }
  }

  lemma PresenceText()
    ensures StarText(["", ""]) == "*"
  {
    EscapeNothing();
    StarTextOne("");
    assert ["", ""][1..] == [""];
  }

  // ---------- reading segments in one way only ----------

  /** Two splits of one text at its first character outside `p` are the same split. */
  lemma {:induction false} FirstOutside(p: char -> bool, a: string, c: char, x: string, b: string, d: char, y: string)
    requires forall i | 0 <= i < |a| :: p(a[i])
    requires forall i | 0 <= i < |b| :: p(b[i])
    requires !p(c) && !p(d)
    requires a + [c] + x == b + [d] + y
    ensures a == b && c == d && x == y
    decreases |a|
  {
    var s, s' := a + [c] + x, b + [d] + y;
    if a == "" || b == "" {
      assert s[0] == s'[0];
      assert a == "" && b == "";
      assert x == s[1..] && y == s'[1..];
    } else {
      assert s[0] == a[0] && s'[0] == b[0];
      assert s[1..] == a[1..] + [c] + x && s'[1..] == b[1..] + [d] + y;
      FirstOutside(p, a[1..], c, x, b[1..], d, y);
      assert a == [a[0]] + a[1..] && b == [b[0]] + b[1..];
    }
  }

  lemma EscapeCharUnique(c: char, x: string, d: char, y: string)
    requires EscapeChar(c) + x == EscapeChar(d) + y
    ensures c == d && x == y
  {
    var s, s' := EscapeChar(c) + x, EscapeChar(d) + y;
    EscapeCharShape(c);
    EscapeCharShape(d);
    assert s[0] == EscapeChar(c)[0] && s'[0] == EscapeChar(d)[0];
    assert |EscapeChar(c)| == |EscapeChar(d)|;
    var n := |EscapeChar(c)|;
    assert s[..n] == EscapeChar(c) && s'[..n] == EscapeChar(d);
    SameEscape(c, d);
    assert s[n..] == x && s'[n..] == y;
  }

  lemma SameEscape(c: char, d: char)
    requires EscapeChar(c) == EscapeChar(d)
    ensures c == d
  {
    EscapeCharShape(c);
    EscapeCharShape(d);
    assert EscapeChar(c)[0] == EscapeChar(d)[0];
    if |EscapeChar(c)| == 3 {
      assert EscapeChar(c)[1] == EscapeChar(d)[1] && EscapeChar(c)[2] == EscapeChar(d)[2];
    }
  }

  /** Escaping loses nothing. */
  lemma {:induction false} EscapeInjective(a: string, b: string)
    requires Escape(a) == Escape(b)
    ensures a == b
    decreases |a|
  {
    hide EscapeChar;
    if a == "" || b == "" {
      if a != "" {
        EscapeCharShape(a[0]);
      }
      if b != "" {
        EscapeCharShape(b[0]);
      }
    } else {
      EscapeCharUnique(a[0], Escape(a[1..]), b[0], Escape(b[1..]));
      EscapeInjective(a[1..], b[1..]);
      assert a == [a[0]] + a[1..] && b == [b[0]] + b[1..];
    }
  }

  predicate ValueChar(c: char) { c != '*' && c != ')' }

  /** An escaped text is followed by a star or a closing parenthesis: its end is certain. */
  lemma EscapeEnds(a: string, c: char, x: string, b: string, d: char, y: string)
    requires c in {'*', ')'} && d in {'*', ')'}
    requires Escape(a) + [c] + x == Escape(b) + [d] + y
    ensures a == b && c == d && x == y
  {
    hide Escape;
    EscapeNoParens(a);
    EscapeNoParens(b);
    AllValueChars(Escape(a));
    AllValueChars(Escape(b));
    FirstOutside(ValueChar, Escape(a), c, x, Escape(b), d, y);
    EscapeInjective(a, b);
  }

  lemma AllValueChars(s: string)
    requires NoParens(s) && '*' !in s
    ensures forall i | 0 <= i < |s| :: ValueChar(s[i])
  {
    assert forall i | 0 <= i < |s| :: s[i] in s;
  }

  lemma {:induction false} StarTextUnique(a: seq<string>, x: string, b: seq<string>, y: string)
    requires a != [] && b != []
    requires StarText(a) + ")" + x == StarText(b) + ")" + y
    ensures a == b && x == y
    decreases |a|
  {
    hide Escape, StarText;
    var c, v := StarTextHead(a, x);
    var d, w := StarTextHead(b, y);
    EscapeEnds(a[0], c, v, b[0], d, w);
    if c == '*' {
      StarTextUnique(a[1..], x, b[1..], y);
    }
    assert a == [a[0]] + a[1..] && b == [b[0]] + b[1..];
  }

  /** The first delimiter of a pattern and what follows it. */
  lemma StarTextHead(a: seq<string>, x: string) returns (c: char, v: string)
    requires a != []
    ensures c in {'*', ')'}
    ensures StarText(a) + ")" + x == Escape(a[0]) + [c] + v
    ensures c == ')' ==> a[1..] == [] && v == x
    ensures c == '*' ==> a[1..] != [] && v == StarText(a[1..]) + ")" + x
  {
    hide Escape;
    if |a| == 1 {
      c, v := ')', x;
      assert Escape(a[0]) + ")" + x == Escape(a[0]) + [')'] + x;
    } else {
      var rest := StarText(a[1..]);
      c, v := '*', rest + ")" + x;
      assert Escape(a[0]) + "*" + rest + ")" + x == Escape(a[0]) + ['*'] + (rest + ")" + x);
    }
  }

  // ---------- well-formed components ----------

  /** The segments after the first star of well-formed later components. */
  function LaterSegments(parts: seq<Part>): (r: seq<string>)
    requires LaterParts(parts)
    ensures r != []
  {
    if parts == [] then [""]
    else if parts[0].Any? then [parts[0].text] + LaterSegments(parts[1..])
    else [parts[0].text]
  }

  lemma {:induction false} SegmentsOfLater(parts: seq<Part>, pre: seq<string>)
    requires LaterParts(parts) && pre != []
    ensures SegmentsFrom(parts, pre + [""], false) == pre + LaterSegments(parts)
    decreases |parts|
  {
    if parts != [] {
      var s := parts[0].text;
      var segs := pre + [""];
      assert "" + s == s;
      assert Grow(segs, s) == pre + [s];
      if parts[0].Any? {
        SegmentsOfLater(parts[1..], pre + [s]);
        assert pre + [s] + LaterSegments(parts[1..]) == pre + ([s] + LaterSegments(parts[1..]));
      } else {
        assert parts[1..] == [];
      }
    }
  }

  /** Of well-formed components the segments are the texts, with an empty one at either end
      that has no component. */
  lemma SegmentsOfParts(parts: seq<Part>)
    requires IsParts(parts)
    ensures Segments(parts)
            == if parts[0].Initial? then [parts[0].text] + LaterSegments(parts[1..])
               else [""] + LaterSegments(parts)
  {
    hide LaterParts, LaterSegments, SegmentsFrom;
    var s := parts[0].text;
    SegmentsFirst(parts);
    assert "" + s == s && [""] + [s] == ["", s];
    if parts[0].Initial? {
      SegmentsOfLater(parts[1..], [s]);
      assert Grow([""], s) == [s];
    } else {
      LaterFirst(parts);
      if parts[0].Any? {
        SegmentsOfLater(parts[1..], ["", s]);
        assert ["", s] + LaterSegments(parts[1..]) == [""] + ([s] + LaterSegments(parts[1..]));
      } else {
        SegmentsEnd(["", s]);
      }
    }
  }

  lemma SegmentsFirst(parts: seq<Part>)
    requires parts != []
    ensures Segments(parts) == SegmentsFrom(parts[1..], AddSegment([""], parts[0], true), false)
  {
  }

  lemma SegmentsEnd(segs: seq<string>)
    requires segs != []
    ensures SegmentsFrom([], segs, false) == segs
  {
  }

  lemma LaterFirst(parts: seq<Part>)
    requires LaterParts(parts) && parts != []
    ensures LaterParts(parts[1..]) && !parts[0].Initial? && parts[0].text != ""
    ensures parts[0].Final? ==> parts[1..] == [] && LaterSegments(parts) == [parts[0].text]
    ensures parts[0].Any? ==> LaterSegments(parts) == [parts[0].text] + LaterSegments(parts[1..])
  {
  }

  lemma {:induction false} LaterText(parts: seq<Part>)
    requires LaterParts(parts)
    ensures PrintLater(parts) == StarText(LaterSegments(parts))
    decreases |parts|
  {
    hide Escape, Quoted;
    EscapeNothing();
    if parts != [] {
      LaterText(parts[1..]);
      var s := parts[0].text;
      EscapeIsQuoted(s);
      if parts[0].Any? {
        var segs := [s] + LaterSegments(parts[1..]);
        assert segs[1..] == LaterSegments(parts[1..]);
      } else {
        assert parts[1..] == [];
        assert Escape(s) + "" + "" == Escape(s);
      }
    }
  }

  lemma PartsText(parts: seq<Part>)
    requires IsParts(parts)
    ensures PrintParts(parts) == StarText(Segments(parts))
  {
    hide Escape, Quoted, LaterParts, LaterSegments, PrintLater, Segments;
    EscapeNothing();
    EscapeIsQuoted(parts[0].text);
    SegmentsOfParts(parts);
    var segs := Segments(parts);
    var later := if parts[0].Initial? then parts[1..] else parts;
    LaterText(later);
    assert segs[1..] == LaterSegments(later);
    assert "" + "*" == "*";
  }

  lemma {:induction false} LaterSegmentsUnique(ps: seq<Part>, qs: seq<Part>)
    requires LaterParts(ps) && LaterParts(qs) && LaterSegments(ps) == LaterSegments(qs)
    ensures ps == qs
    decreases |ps|
  {
    if ps != [] && qs != [] && ps[0].Any? && qs[0].Any? {
      var a, b := LaterSegments(ps), LaterSegments(qs);
      assert a[1..] == LaterSegments(ps[1..]) && b[1..] == LaterSegments(qs[1..]);
      LaterSegmentsUnique(ps[1..], qs[1..]);
      assert ps == [ps[0]] + ps[1..] && qs == [qs[0]] + qs[1..];
    } else if ps != [] && qs != [] {
      assert LaterSegments(ps)[0] == LaterSegments(qs)[0];
      assert |LaterSegments(ps)| == 1 && |LaterSegments(qs)| == 1;
      assert ps == [ps[0]] && qs == [qs[0]];
    } else {
      assert LaterSegments(ps)[0] == LaterSegments(qs)[0];
    }
  }

  lemma PartsUnique(ps: seq<Part>, qs: seq<Part>)
    requires IsParts(ps) && IsParts(qs) && Segments(ps) == Segments(qs)
    ensures ps == qs
  {
    hide LaterParts, LaterSegments, Segments;
    SegmentsOfParts(ps);
    SegmentsOfParts(qs);
    var a, b := if ps[0].Initial? then ps[1..] else ps, if qs[0].Initial? then qs[1..] else qs;
    assert Segments(ps)[0] == Segments(qs)[0];
    assert Segments(ps)[1..] == LaterSegments(a) && Segments(qs)[1..] == LaterSegments(b);
    LaterSegmentsUnique(a, b);
    if ps[0].Initial? {
      assert ps == [ps[0]] + ps[1..] && qs == [qs[0]] + qs[1..];
    }
  }

  /** A well-formed pattern is neither a plain value nor the presence of an attribute. */
  lemma PartsAreSubstrings(ps: seq<Part>)
    requires IsParts(ps)
    ensures |Segments(ps)| > 1 && Segments(ps) != ["", ""]
  {
    hide Segments;
    SegmentsOfParts(ps);
    if !ps[0].Initial? {
      assert Segments(ps)[1] == LaterSegments(ps)[0] == ps[0].text;
    } else {
      assert Segments(ps)[0] == ps[0].text;
    }
  }
}
