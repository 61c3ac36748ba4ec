/** LDAP search filters: rendering a Filter node as RFC 4515 text. */
module Ldap {
  import opened Types

  /** The conversions of octets to text that the standard library does: UTF-8 decoding, and
      decoding of the two- and four-octet string types. */
  datatype Codec = Codec(utf8: Octets -> Option<string>, wide: (U32, Octets) -> Option<string>)

  function Latin1(bytes: Octets): string {
    if bytes == [] then "" else [bytes[0] as char] + Latin1(bytes[1..])
  }

  function TextOf(codec: Codec, bytes: Octets): string {
    match codec.utf8(bytes)
    case Some(s) => s
    case None => Latin1(bytes)
  }

  /** Octets that are no UTF-8 are shown one character each. */
  lemma {:induction false} Latin1IsOctets(bytes: Octets)
    ensures |Latin1(bytes)| == |bytes|
    ensures forall i | 0 <= i < |bytes| :: Latin1(bytes)[i] as int == bytes[i]
  {
    if bytes != [] {
      Latin1IsOctets(bytes[1..]);
    }
  }

  /** `as_str(t).unwrap_or_default()`. */
  function AsText(codec: Codec, t: Tlv): string {
    if t.body.Constructed? then ""
    else if t.cls.Universal? && t.tag in {28, 30} && codec.wide(t.tag, t.body.octets).Some? then
      codec.wide(t.tag, t.body.octets).value
    else TextOf(codec, t.body.octets)
  }

  /** The text of a primitive node that is valid UTF-8, empty otherwise. */
  function PrimitiveText(codec: Codec, t: Tlv): string {
    if t.body.Constructed? then ""
    else
      match codec.utf8(t.body.octets)
      case Some(s) => s
      case None => ""
  }

  // ---------- rendering ----------

  function EscapeChar(c: char): string {
    match c
    case '*' => "\\2a"
    case '(' => "\\28"
    case ')' => "\\29"
    case '\\' => "\\5c"
    case '\0' => "\\00"
    case _ => [c]
  }

  /** `esc`. */
  function Escape(s: string): string {
    if s == "" then "" else EscapeChar(s[0]) + Escape(s[1..])
  }

  method Esc(s: string) returns (out: string)
    ensures out == Escape(s)
  {
    hide EscapeChar;
    out := "";
    assert s[0..] == s;
    for i := 0 to |s|
      invariant Escape(s) == out + Escape(s[i..])
    {
      assert s[i..][0] == s[i] && s[i..][1..] == s[i + 1..];
      out := out + EscapeChar(s[i]);
    }
    assert s[|s|..] == "" && out + "" == out;
  }

  // ---------- what escaping means ----------

  function HexDigit(n: nat): char
    requires n < 16
  {
    if n < 10 then ('0' as int + n) as char else ('a' as int + (n - 10)) as char
  }

  function HexValue(c: char): Option<nat> {
    if '0' <= c <= '9' then Some(c as int - '0' as int)
    else if 'a' <= c <= 'f' then Some(c as int - 'a' as int + 10)
    else None
  }

  /** The text of a value by RFC 4515 section 3: NUL, `(`, `)`, `*` and the backslash are
      written as a backslash and the two hexadecimal digits of their numbers. */
  function Quoted(s: string): string {
    if s == "" then ""
    else
      var n := s[0] as int;
      (if n == 0x00 || n == 0x28 || n == 0x29 || n == 0x2a || n == 0x5c
       then ['\\', HexDigit(n / 16), HexDigit(n % 16)] else [s[0]])
      + Quoted(s[1..])
  }

  /** Reading such a text: a backslash and two hexadecimal digits are the character with that
      number. */
  function Unquoted(s: string): string {
    if s == "" then ""
    else if s[0] == '\\' && |s| >= 3 && HexValue(s[1]).Some? && HexValue(s[2]).Some? then
      [(16 * HexValue(s[1]).value + HexValue(s[2]).value) as char] + Unquoted(s[3..])
    else [s[0]] + Unquoted(s[1..])
  }

  lemma EscapeCharIs(c: char)
    ensures EscapeChar(c) ==
            var n := c as int;
            if n == 0x00 || n == 0x28 || n == 0x29 || n == 0x2a || n == 0x5c
            then ['\\', HexDigit(n / 16), HexDigit(n % 16)] else [c]
  {
    assert '*' as int == 0x2a && '(' as int == 0x28 && ')' as int == 0x29 && '\\' as int == 0x5c;
  }

  /** The source escapes as RFC 4515 asks. */
  lemma {:induction false} EscapeIsQuoted(s: string)
    ensures Escape(s) == Quoted(s)
  {
    hide EscapeChar, HexDigit;
    if s != "" {
      EscapeCharIs(s[0]);
      EscapeIsQuoted(s[1..]);
    }
  }

  /** Escaping is undone by reading. */
  lemma {:induction false} EscapeReadsBack(s: string)
    ensures Unquoted(Escape(s)) == s
  {
    hide Escape, EscapeChar;
    EscapeIsQuoted(s);
    if s != "" {
      var n, rest, q := s[0] as int, Quoted(s[1..]), Quoted(s);
      EscapeIsQuoted(s[1..]);
      EscapeReadsBack(s[1..]);
      if n == 0x00 || n == 0x28 || n == 0x29 || n == 0x2a || n == 0x5c {
        assert q[0] == '\\' && q[1] == HexDigit(n / 16) && q[2] == HexDigit(n % 16) && q[3..] == rest;
      } else {
        assert q[0] == s[0] && q[1..] == rest;
      }
    }
  }

  predicate EndsWithStar(s: string) { s != "" && s[|s| - 1] == '*' }

  /** The pattern after one more substring component. */
  function AddPart(codec: Codec, sub: Tlv, pat: string, first: bool): string {
    var s := Escape(PrimitiveText(codec, sub));
    match sub.tag
    case 0 => pat + s + "*"
    case 1 => (if first then pat + "*" else pat) + s + "*"
    case 2 => (if EndsWithStar(pat) then pat else pat + "*") + s
    case _ => pat
  }

  function Pattern(codec: Codec, subs: seq<Tlv>, pat: string, first: bool): string
    decreases |subs|
  {
    if subs == [] then pat else Pattern(codec, subs[1..], AddPart(codec, subs[0], pat, first), false)
  }

  function SubstringsText(codec: Codec, t: Tlv): string {
    var c := t.Kids();
    if |c| < 2 then "(?)"
    else
      var pat := Pattern(codec, c[1].Kids(), "", true);
      "(" + Escape(AsText(codec, c[0])) + "=" + (if pat == "" then "*" else pat) + ")"
  }

  method RenderSubstrings(codec: Codec, t: Tlv) returns (r: string)
    ensures r == SubstringsText(codec, t)
  {
    hide Escape, PrimitiveText;
    var c := t.Kids();
    if |c| < 2 {
      return "(?)";
    }
    var attr := Esc(AsText(codec, c[0]));
    var pat, first := "", true;
    var subs := c[1].Kids();
    assert subs[0..] == subs;
    for i := 0 to |subs|
      invariant Pattern(codec, subs, "", true) == Pattern(codec, subs[i..], pat, first)
    {
      assert subs[i..][0] == subs[i] && subs[i..][1..] == subs[i + 1..];
      var s := Esc(PrimitiveText(codec, subs[i]));
      if subs[i].tag == 0 {
        pat := pat + s + "*";
      } else if subs[i].tag == 1 {
        if first {
          pat := pat + "*";
        }
        pat := pat + s + "*";
      } else if subs[i].tag == 2 {
        if !EndsWithStar(pat) {
          pat := pat + "*";
        }
        pat := pat + s;
      }
      first := false;
    }
    assert subs[|subs|..] == [];
    if pat == "" {
      pat := "*";
    }
    return "(" + attr + "=" + pat + ")";
  }

  /** An attribute and a value with `op` between them. */
  function AvaText(codec: Codec, t: Tlv, op: string): string {
    var c := t.Kids();
    if |c| < 2 then "(?)"
    else "(" + Escape(AsText(codec, c[0])) + op + Escape(AsText(codec, c[1])) + ")"
  }

  /** `render_filter`. */
  function RenderFilter(codec: Codec, t: Tlv): string
    decreases t
  {
    if !t.cls.Context? then "(?)"
    else
      match t.tag
      case 0 => "(&" + RenderKids(codec, t.body) + ")"
      case 1 => "(|" + RenderKids(codec, t.body) + ")"
      case 2 => "(!" + RenderFirst(codec, t.body) + ")"
      case 3 => AvaText(codec, t, "=")
      case 4 => SubstringsText(codec, t)
      case 5 => AvaText(codec, t, ">=")
      case 6 => AvaText(codec, t, "<=")
      case 7 => "(" + Escape(PrimitiveText(codec, t)) + "=*)"
      case 8 => AvaText(codec, t, "~=")
      case _ => "(?)"
  }

  function RenderKids(codec: Codec, b: Body): string
    decreases b
  {
    match b
    case Primitive(_) => ""
    case Constructed(children) => RenderAll(codec, children)
  }

  function RenderFirst(codec: Codec, b: Body): string
    decreases b
  {
    match b
    case Primitive(_) => ""
    case Constructed(children) => if children == [] then "" else RenderFilter(codec, children[0])
  }

  function RenderAll(codec: Codec, ts: seq<Tlv>): string
    decreases ts
  {
    if ts == [] then "" else RenderFilter(codec, ts[0]) + RenderAll(codec, ts[1..])
  }

  // ---------- parentheses ----------

  /** The nesting depth after `s`, when it starts at `depth` and never drops below zero. */
  function Nest(s: string, depth: nat): Option<nat>
    decreases |s|
  {
    if s == "" then Some(depth)
    else if s[0] == '(' then Nest(s[1..], depth + 1)
    else if s[0] == ')' then if depth == 0 then None else Nest(s[1..], depth - 1)
    else Nest(s[1..], depth)
  }

  ghost predicate Balanced(s: string) { forall n: nat :: Nest(s, n) == Some(n) }

  /** One balanced group in parentheses of its own. */
  ghost predicate IsGroup(s: string) {
    && |s| >= 2 && s[0] == '(' && s[|s| - 1] == ')'
    && Balanced(s[1..|s| - 1])
  }

  lemma {:induction false} NestAppend(a: string, b: string, n: nat)
    ensures Nest(a + b, n) == match Nest(a, n) case None => None case Some(m) => Nest(b, m)
    decreases |a|
  {
    if a == "" {
      assert a + b == b;
    } else {
      assert (a + b)[1..] == a[1..] + b;
      if a[0] == '(' {
        NestAppend(a[1..], b, n + 1);
      } else if a[0] == ')' {
        if n > 0 {
          NestAppend(a[1..], b, n - 1);
        }
      } else {
        NestAppend(a[1..], b, n);
      }
    }
  }

  lemma BalancedAppend(a: string, b: string)
    requires Balanced(a) && Balanced(b)
    ensures Balanced(a + b)
  {
    hide Nest;
    forall n: nat
      ensures Nest(a + b, n) == Some(n)
    {
      NestAppend(a, b, n);
    }
  }

  predicate NoParens(s: string) { '(' !in s && ')' !in s }

  lemma {:induction false} NoParensNest(s: string, n: nat)
    requires NoParens(s)
    ensures Nest(s, n) == Some(n)
    decreases |s|
  {
    if s != "" {
      assert s[0] in s;
      NoParensNest(s[1..], n);
    }
  }

  lemma NoParensBalanced(s: string)
    requires NoParens(s)
    ensures Balanced(s)
  {
    hide Nest;
    forall n: nat
      ensures Nest(s, n) == Some(n)
    {
      NoParensNest(s, n);
    }
  }

  /** A group stays balanced inside anything. */
  lemma GroupIsBalanced(body: string)
    requires Balanced(body)
    ensures IsGroup("(" + body + ")") && Balanced("(" + body + ")")
  {
    var s := "(" + body + ")";
    assert s[1..|s| - 1] == body;
    forall n: nat
      ensures Nest(s, n) == Some(n)
    {
      assert s[1..] == body + ")";
      NestAppend(body, ")", n + 1);
      assert ")"[1..] == "";
    }
  }

  lemma {:induction false} EscapeNoParens(s: string)
    ensures NoParens(Escape(s)) && '*' !in Escape(s)
  {
    if s != "" {
      EscapeNoParens(s[1..]);
      EscapeCharShape(s[0]);
    }
  }

  /** An escaped character is either itself or a backslash and two hex digits. */
  lemma EscapeCharShape(c: char)
    ensures var e := EscapeChar(c);
            && '(' !in e && ')' !in e && '*' !in e && e != ""
            && (c in {'*', '(', ')', '\\', '\0'} ==> |e| == 3 && e[0] == '\\')
            && (c !in {'*', '(', ')', '\\', '\0'} ==> e == [c])
  {
  }

  lemma {:induction false} PatternNoParens(codec: Codec, subs: seq<Tlv>, pat: string, first: bool)
    requires NoParens(pat)
    ensures NoParens(Pattern(codec, subs, pat, first))
    decreases |subs|
  {
    hide Escape, PrimitiveText;
    if subs != [] {
      EscapeNoParens(PrimitiveText(codec, subs[0]));
      PatternNoParens(codec, subs[1..], AddPart(codec, subs[0], pat, first), false);
    }
  }

  lemma PlainGroup(body: string)
    requires NoParens(body)
    ensures IsGroup("(" + body + ")") && Balanced("(" + body + ")")
  {
    hide Balanced, IsGroup;
    NoParensBalanced(body);
    GroupIsBalanced(body);
  }

  lemma AvaGroup(codec: Codec, t: Tlv, op: string)
    requires NoParens(op)
    ensures IsGroup(AvaText(codec, t, op)) && Balanced(AvaText(codec, t, op))
  {
    hide IsGroup, Balanced, Escape, AsText;
    var c := t.Kids();
    if |c| < 2 {
      PlainGroup("?");
      assert "(" + "?" + ")" == "(?)";
    } else {
      var a, v := AsText(codec, c[0]), AsText(codec, c[1]);
      EscapeNoParens(a);
      EscapeNoParens(v);
      var body := Escape(a) + op + Escape(v);
      PlainGroup(body);
      assert "(" + body + ")" == "(" + Escape(a) + op + Escape(v) + ")";
    }
  }

  lemma SubstringsGroup(codec: Codec, t: Tlv)
    ensures IsGroup(SubstringsText(codec, t)) && Balanced(SubstringsText(codec, t))
  {
    hide IsGroup, Balanced, Escape, AsText, Pattern;
    var c := t.Kids();
    if |c| < 2 {
      PlainGroup("?");
      assert "(" + "?" + ")" == "(?)";
    } else {
      var a := AsText(codec, c[0]);
      EscapeNoParens(a);
      PatternNoParens(codec, c[1].Kids(), "", true);
      var pat := Pattern(codec, c[1].Kids(), "", true);
      var shown := if pat == "" then "*" else pat;
      var body := Escape(a) + "=" + shown;
      PlainGroup(body);
      assert "(" + body + ")" == "(" + Escape(a) + "=" + shown + ")";
    }
  }

  lemma OperatorGroup(op: string, body: string)
    requires NoParens(op) && Balanced(body)
    ensures IsGroup("(" + op + body + ")") && Balanced("(" + op + body + ")")
  {
    hide Balanced, IsGroup;
    NoParensBalanced(op);
    BalancedAppend(op, body);
    GroupIsBalanced(op + body);
    assert "(" + (op + body) + ")" == "(" + op + body + ")";
  }

  /** Whatever the tree, its rendering is one balanced group: no parenthesis in it comes from
      a value. */
  lemma {:induction false} RenderingIsGroup(codec: Codec, t: Tlv)
    ensures IsGroup(RenderFilter(codec, t)) && Balanced(RenderFilter(codec, t))
    decreases t
  {
    hide IsGroup, Balanced, Escape, PrimitiveText, AvaText, SubstringsText, RenderAll;
    PlainGroup("?");
    assert "(" + "?" + ")" == "(?)";
    if t.cls.Context? {
      if t.tag == 0 || t.tag == 1 {
        var op := if t.tag == 0 then "&" else "|";
        NoParensBalanced("");
        if t.body.Constructed? {
          RenderAllBalanced(codec, t.body.children);
        }
        OperatorGroup(op, RenderKids(codec, t.body));
        assert "(" + op == if t.tag == 0 then "(&" else "(|";
      } else if t.tag == 2 {
        NoParensBalanced("");
        if t.body.Constructed? && t.body.children != [] {
          RenderingIsGroup(codec, t.body.children[0]);
        }
        OperatorGroup("!", RenderFirst(codec, t.body));
        assert "(" + "!" == "(!";
      } else if t.tag == 4 {
        SubstringsGroup(codec, t);
      } else if t.tag == 7 {
        var a := Escape(PrimitiveText(codec, t));
        EscapeNoParens(PrimitiveText(codec, t));
        PlainGroup(a + "=*");
        assert "(" + (a + "=*") + ")" == "(" + a + "=*)";
      } else if t.tag in {3, 5, 6, 8} {
        AvaGroup(codec, t, "=");
        AvaGroup(codec, t, ">=");
        AvaGroup(codec, t, "<=");
        AvaGroup(codec, t, "~=");
      }
    }
  }

  lemma {:induction false} RenderAllBalanced(codec: Codec, ts: seq<Tlv>)
    ensures Balanced(RenderAll(codec, ts))
    decreases ts
  {
    hide Balanced, RenderFilter;
    if ts == [] {
      NoParensBalanced("");
    } else {
      RenderingIsGroup(codec, ts[0]);
      RenderAllBalanced(codec, ts[1..]);
      BalancedAppend(RenderFilter(codec, ts[0]), RenderAll(codec, ts[1..]));
    }
  }
}
