/** What of a search filter can be told from its rendering: exactly when two filters look alike. */
module FilterLooks {
  import opened Types
  import opened Ldap
  import opened LdapFilters
  import opened FilterPatterns

  // ---------- forms and looks ----------

  /** The parts of a filter that rendering keeps: the nesting, and of an assertion its
      attribute, its operator and the segments between its stars. */
  datatype Form =
    | Group(op: char, forms: seq<Form>)
    | Negated(form: Form)
    | Assertion(attr: string, op: char, segs: Segs)
    | Unreadable

  function FormOf(f: Filter): Form
    decreases f
  {
    match f
    case And(fs) => Group('&', FormsOf(fs))
    case Or(fs) => Group('|', FormsOf(fs))
    case Not(g) => Negated(FormOf(g))
    case Equality(attr, value) => Assertion(attr, '=', [value])
    case Substrings(attr, parts) => Assertion(attr, '=', Segments(parts))
    case GreaterOrEqual(attr, value) => Assertion(attr, '>', [value])
    case LessOrEqual(attr, value) => Assertion(attr, '<', [value])
    case Present(attr) => Assertion(attr, '=', ["", ""])
    case Approx(attr, value) => Assertion(attr, '~', [value])
    case Extensible(_) => Unreadable
  }

  function FormsOf(fs: seq<Filter>): (r: seq<Form>)
    ensures |r| == |fs|
    decreases fs
  {
    if fs == [] then [] else [FormOf(fs[0])] + FormsOf(fs[1..])
  }

  /** What a reader sees of it: the text of an attribute, its operator and the first segment
      run together. */
  datatype Look = Nested(op: char, looks: seq<Look>) | Bang(look: Look) | Line(segs: Segs)

  function Sign(op: char): string {
    if op == '=' then "=" else [op] + "="
  }

  function Prefixed(s: string, segs: Segs): Segs {
    [s + segs[0]] + segs[1..]
  }

  function Seen(f: Form): Look
    decreases f
  {
    match f
    case Group(op, fs) => Nested(op, SeenAll(fs))
    case Negated(g) => Bang(Seen(g))
    case Assertion(attr, op, segs) => Line(Prefixed(attr + Sign(op), segs))
    case Unreadable => Line(["?"])
  }

  function SeenAll(fs: seq<Form>): (r: seq<Look>)
    ensures |r| == |fs|
    decreases fs
  {
    if fs == [] then [] else [Seen(fs[0])] + SeenAll(fs[1..])
  }

  function LookOf(f: Filter): Look { Seen(FormOf(f)) }

  function LookText(l: Look): string
    decreases l
  {
    match l
    case Nested(op, ls) => "(" + [op] + LookTexts(ls) + ")"
    case Bang(m) => "(" + ['!'] + LookText(m) + ")"
    case Line(segs) => "(" + StarText(segs) + ")"
  }

  function LookTexts(ls: seq<Look>): string
    decreases ls
  {
    if ls == [] then "" else LookText(ls[0]) + LookTexts(ls[1..])
  }

  predicate IsOperator(op: char) { op in {'=', '>', '<', '~'} }

  /** No line is mistaken for the operator of an empty group. */
  predicate IsLook(l: Look)
    decreases l
  {
    match l
    case Nested(op, ls) => op in {'&', '|'} && AreLooks(ls)
    case Bang(m) => IsLook(m)
    case Line(segs) => segs != ["&"] && segs != ["|"]
  }

  predicate AreLooks(ls: seq<Look>)
    decreases ls
  {
    ls != [] ==> IsLook(ls[0]) && AreLooks(ls[1..])
  }

  lemma EqualsInPrefix(attr: string, op: char, s: string)
    requires IsOperator(op)
    ensures '=' in attr + Sign(op) + s
  {
    assert Sign(op)[|Sign(op)| - 1] == '=';
    assert (attr + Sign(op) + s)[|attr| + |Sign(op)| - 1] == '=';
  }

  /** An assertion is not mistaken for a group or for something unreadable. */
  lemma AssertionIsLine(attr: string, op: char, segs: Segs)
    requires IsOperator(op)
    ensures var line := Prefixed(attr + Sign(op), segs);
            line != ["&"] && line != ["|"] && line != ["?"]
  {
    hide Sign;
    EqualsInPrefix(attr, op, segs[0]);
    var first := Prefixed(attr + Sign(op), segs)[0];
    assert '=' in first;
    assert first != "&" && first != "|" && first != "?";
  }

  lemma {:induction false} LookOfIsLook(f: Filter)
    ensures IsLook(LookOf(f))
    decreases f
  {
    hide Segments, Sign, FormsOf, SeenAll, AreLooks;
    match f
    case And(fs) => LooksAreLooks(fs);
    case Or(fs) => LooksAreLooks(fs);
    case Not(g) => LookOfIsLook(g);
    case Extensible(_) =>
    case _ =>
      var form := FormOf(f);
      AssertionIsLine(form.attr, form.op, form.segs);
  }

  lemma {:induction false} LooksAreLooks(fs: seq<Filter>)
    ensures AreLooks(SeenAll(FormsOf(fs)))
    decreases fs
  {
    hide FormOf, Seen, IsLook;
    if fs != [] {
      LookOfIsLook(fs[0]);
      LooksAreLooks(fs[1..]);
      SeenFirst(fs);
    }
  }

  lemma SeenFirst(fs: seq<Filter>)
    requires fs != []
    ensures var ls := SeenAll(FormsOf(fs));
            ls[0] == LookOf(fs[0]) && ls[1..] == SeenAll(FormsOf(fs[1..]))
  {
    hide FormOf, Seen;
    assert FormsOf(fs)[1..] == FormsOf(fs[1..]);
  }

  // ---------- the source renders this text ----------

  lemma EscapeSign(op: char)
    requires IsOperator(op)
    ensures Escape(Sign(op)) == Sign(op)
  {
    EscapeAppend([op], "=");
    assert [op][1..] == "" && "="[1..] == "";
  }

  lemma LineText(attr: string, op: char, segs: Segs)
    requires IsOperator(op)
    ensures StarText(Prefixed(attr + Sign(op), segs)) == Escape(attr) + Sign(op) + StarText(segs)
  {
    hide Escape, Sign, EscapeChar;
    EscapeSign(op);
    EscapeAppend(attr, Sign(op));
    EscapeAppend(attr + Sign(op), segs[0]);
    var line := Prefixed(attr + Sign(op), segs);
    assert line[1..] == segs[1..];
  }

  /** On any tree that encodes a filter the rendering is the text of the filter's look. */
  lemma {:induction false} RendersLook(codec: Codec, t: Tlv)
    requires FilterOf(codec, t).Some?
    ensures RenderFilter(codec, t) == LookText(LookOf(FilterOf(codec, t).value))
    decreases t
  {
    hide Escape, AsText, OctetText, Pattern, RenderAll, FiltersOf, LookTexts, StarText, FormsOf, SeenAll, Segments,
      Prefixed, Sign;
    Signs();
    var f := FilterOf(codec, t).value;
    match t.tag
    case 0 =>
      RendersLooks(codec, t.body.children);
      assert "(" + ['&'] == "(&";
    case 1 =>
      RendersLooks(codec, t.body.children);
      assert "(" + ['|'] == "(|";
    case 2 =>
      RendersOnly(codec, t.body.children);
      assert "(" + ['!'] == "(!";
    case 4 =>
      var c := t.Kids();
      OctetTextIsText(codec, c[0]);
      WholePattern(codec, c[1].Kids());
      LineText(f.attr, '=', Segments(f.parts));
      Around(f.attr, "=", StarText(Segments(f.parts)));
    case 7 =>
      PresenceText();
      LineText(f.attr, '=', ["", ""]);
      assert "(" + Escape(f.attr) + "=*)" == "(" + (Escape(f.attr) + "=" + "*") + ")";
    case 9 =>
      QuestionMark();
    case _ =>
      var c := t.Kids();
      OctetTextIsText(codec, c[0]);
      OctetTextIsText(codec, c[1]);
      StarTextOne(f.value);
      var op := FormOf(f).op;
      LineText(f.attr, op, [f.value]);
      Around(f.attr, Sign(op), Escape(f.value));
  }

  lemma Around(attr: string, sign: string, s: string)
    ensures "(" + Escape(attr) + sign + s + ")" == "(" + (Escape(attr) + sign + s) + ")"
  {
    hide Escape;
  }

  lemma QuestionMark()
    ensures "(" + StarText(["?"]) + ")" == "(?)"
  {
    StarTextOne("?");
    assert "?"[1..] == "";
  }

  lemma {:induction false} RendersLooks(codec: Codec, ts: seq<Tlv>)
    requires FiltersOf(codec, ts).Some?
    ensures RenderAll(codec, ts) == LookTexts(SeenAll(FormsOf(FiltersOf(codec, ts).value)))
    decreases ts
  {
    hide RenderFilter, LookText, FormOf, Seen, FilterOf;
    if ts != [] {
      var fs := FiltersOf(codec, ts).value;
      assert fs[1..] == FiltersOf(codec, ts[1..]).value;
      RendersLook(codec, ts[0]);
      RendersLooks(codec, ts[1..]);
      SeenFirst(fs);
    }
  }

  lemma {:induction false} RendersOnly(codec: Codec, ts: seq<Tlv>)
    requires FiltersOf(codec, ts).Some? && |ts| == 1
    ensures RenderFilter(codec, ts[0]) == LookText(LookOf(FiltersOf(codec, ts).value[0]))
    decreases ts
  {
    hide RenderFilter, LookText, FormOf, Seen, FilterOf;
    RendersLook(codec, ts[0]);
  }

  // ---------- reading a text in one way only ----------

  predicate NotParen(c: char) { c != '(' && c != ')' }

  /** The first parenthesis in a text after the one it starts with, and what comes before and
      after it. */
  function Head(l: Look): (string, char, string) {
    match l
    case Nested(op, ls) =>
      if ls == [] then ([op], ')', "") else ([op], '(', (LookTexts(ls) + ")")[1..])
    case Bang(m) => (['!'], '(', (LookText(m) + ")")[1..])
    case Line(segs) => (StarText(segs), ')', "")
  }

  lemma {:induction false} StarTextNoParens(segs: Segs)
    ensures forall i | 0 <= i < |StarText(segs)| :: NotParen(StarText(segs)[i])
    decreases |segs|
  {
    hide Escape;
    EscapeNoParens(segs[0]);
    assert forall i | 0 <= i < |Escape(segs[0])| :: Escape(segs[0])[i] in Escape(segs[0]);
    if |segs| > 1 {
      StarTextNoParens(segs[1..]);
    }
  }

  lemma LookTextStarts(l: Look)
    ensures LookText(l) != "" && LookText(l)[0] == '('
  {
    hide StarText, LookTexts;
  }

  lemma LookTextsStart(ls: seq<Look>, x: string)
    ensures (LookTexts(ls) + ")" + x)[0] == if ls == [] then ')' else '('
  {
    hide LookText;
    if ls != [] {
      LookTextStarts(ls[0]);
    }
  }

  lemma HeadOfText(l: Look, x: string)
    requires IsLook(l)
    ensures var (a, c, p) := Head(l);
            && LookText(l) + x == "(" + (a + [c] + (p + x))
            && (forall i | 0 <= i < |a| :: NotParen(a[i])) && !NotParen(c)
  {
    hide StarText, LookTexts, AreLooks;
    match l
    case Nested(op, ls) =>
      LookTextsStart(ls, "");
      var t := LookTexts(ls) + ")";
      assert t + "" == t && t == [t[0]] + t[1..];
      Regroup([op], LookTexts(ls), x);
      if ls == [] {
        NoTexts();
        assert t[1..] == "";
      }
      assert [op] + (t + x) == [op] + [t[0]] + (t[1..] + x);
    case Bang(m) =>
      LookTextStarts(m);
      var t := LookText(m) + ")";
      assert t == [t[0]] + t[1..];
      Regroup(['!'], LookText(m), x);
      assert ['!'] + (t + x) == ['!'] + [t[0]] + (t[1..] + x);
    case Line(segs) =>
      StarTextNoParens(segs);
      assert "(" + StarText(segs) + ")" + x == "(" + (StarText(segs) + [')'] + ("" + x));
  }

  lemma NoTexts()
    ensures LookTexts([]) == ""
  {
  }

  lemma Regroup(op: string, p: string, x: string)
    ensures "(" + op + p + ")" + x == "(" + (op + (p + ")" + x))
  {
  }

  lemma HeadsAgree(l: Look, x: string, m: Look, y: string)
    requires IsLook(l) && IsLook(m)
    requires LookText(l) + x == LookText(m) + y
    ensures Head(l).0 == Head(m).0 && Head(l).1 == Head(m).1 && Head(l).2 + x == Head(m).2 + y
  {
    hide LookText, Head, NotParen;
    HeadOfText(l, x);
    HeadOfText(m, y);
    var (a, c, p) := Head(l);
    var (b, d, q) := Head(m);
    assert (LookText(l) + x)[1..] == a + [c] + (p + x);
    assert (LookText(m) + y)[1..] == b + [d] + (q + y);
    FirstOutside(NotParen, a, c, p + x, b, d, q + y);
  }

  lemma SameStarText(a: Segs, b: Segs)
    requires StarText(a) == StarText(b)
    ensures a == b
  {
    hide StarText;
    assert StarText(a) + ")" + "" == StarText(b) + ")" + "";
    StarTextUnique(a, "", b, "");
  }

  /** A line that reads `&` or `|` is that character. */
  lemma OperatorLine(segs: Segs, op: char)
    requires StarText(segs) == [op] && op in {'&', '|'}
    ensures segs == [[op]]
  {
    hide StarText;
    StarTextOne([op]);
    assert Escape([op]) == [op] + Escape([op][1..]);
    assert [op][1..] == "";
    SameStarText(segs, [[op]]);
  }

  /** A text begins with the text of one look at most, which ends in one place. */
  lemma {:induction false} LookTextUnique(l: Look, x: string, m: Look, y: string)
    requires IsLook(l) && IsLook(m)
    requires LookText(l) + x == LookText(m) + y
    ensures l == m && x == y
    decreases l
  {
    hide LookText, LookTexts, StarText, AreLooks;
    HeadsAgree(l, x, m, y);
    if Head(l).1 == ')' {
      assert "" + x == x && "" + y == y;
      ClosedUnique(l, m);
    } else if l.Bang? {
      assert m.Bang?;
      LookTextStarts(l.look);
      LookTextStarts(m.look);
      var t, u := LookText(l.look) + ")", LookText(m.look) + ")";
      assert t == [t[0]] + t[1..] && u == [u[0]] + u[1..];
      assert t + x == LookText(l.look) + (")" + x) && u + y == LookText(m.look) + (")" + y);
      assert t + x == [t[0]] + (t[1..] + x) && u + y == [u[0]] + (u[1..] + y);
      LookTextUnique(l.look, ")" + x, m.look, ")" + y);
      assert x == (")" + x)[1..] && y == (")" + y)[1..];
    } else {
      assert m.Nested?;
      LookTextsStart(l.looks, "");
      LookTextsStart(m.looks, "");
      var t, u := LookTexts(l.looks) + ")", LookTexts(m.looks) + ")";
      assert t + "" == t && u + "" == u;
      assert t == [t[0]] + t[1..] && u == [u[0]] + u[1..];
      assert t + x == [t[0]] + (t[1..] + x) && u + y == [u[0]] + (u[1..] + y);
      LookTextsUnique(l.looks, x, m.looks, y);
    }
  }

  lemma ClosedUnique(l: Look, m: Look)
    requires IsLook(l) && IsLook(m)
    requires Head(l).0 == Head(m).0 && Head(l).1 == ')' && Head(m).1 == ')'
    ensures l == m
  {
    hide StarText, LookText, LookTexts;
    if l.Line? && m.Line? {
      SameStarText(l.segs, m.segs);
    } else if l.Line? {
      OperatorLine(l.segs, m.op);
    } else if m.Line? {
      OperatorLine(m.segs, l.op);
    }
  }

  lemma {:induction false} LookTextsUnique(ls: seq<Look>, x: string, ms: seq<Look>, y: string)
    requires AreLooks(ls) && AreLooks(ms)
    requires LookTexts(ls) + ")" + x == LookTexts(ms) + ")" + y
    ensures ls == ms && x == y
    decreases ls
  {
    hide LookText, LookTexts, IsLook;
    LookTextsStart(ls, x);
    LookTextsStart(ms, y);
    if ls == [] {
      NoTexts();
      assert x == ("" + ")" + x)[1..] && y == ("" + ")" + y)[1..];
    } else {
      LookTextsStep(ls, x);
      LookTextsStep(ms, y);
      LookTextUnique(ls[0], LookTexts(ls[1..]) + ")" + x, ms[0], LookTexts(ms[1..]) + ")" + y);
      LookTextsUnique(ls[1..], x, ms[1..], y);
      assert ls == [ls[0]] + ls[1..] && ms == [ms[0]] + ms[1..];
    }
  }

  lemma LookTextsStep(ls: seq<Look>, x: string)
    requires ls != []
    ensures LookTexts(ls) + ")" + x == LookText(ls[0]) + (LookTexts(ls[1..]) + ")" + x)
  {
    hide LookText;
    var a, b := LookText(ls[0]), LookTexts(ls[1..]);
    assert a + b + ")" + x == a + (b + ")" + x);
  }

  // ---------- attributes show where the operator begins ----------

  predicate IsForm(f: Form)
    decreases f
  {
    match f
    case Group(op, fs) => AreForms(fs)
    case Negated(g) => IsForm(g)
    case Assertion(attr, op, segs) => IsAttr(attr) && IsOperator(op)
    case Unreadable => true
  }

  predicate AreForms(fs: seq<Form>)
    decreases fs
  {
    fs != [] ==> IsForm(fs[0]) && AreForms(fs[1..])
  }

  lemma {:induction false} FormOfIsForm(f: Filter)
    requires HasAttrs(f)
    ensures IsForm(FormOf(f))
    decreases f
  {
    hide Segments, IsAttr, FormsOf, AreForms, HaveAttrs;
    match f
    case And(fs) => FormsOfAreForms(fs);
    case Or(fs) => FormsOfAreForms(fs);
    case Not(g) => FormOfIsForm(g);
    case _ =>
  }

  lemma {:induction false} FormsOfAreForms(fs: seq<Filter>)
    requires HaveAttrs(fs)
    ensures AreForms(FormsOf(fs))
    decreases fs
  {
    hide FormOf, IsForm, HasAttrs;
    if fs != [] {
      FormOfIsForm(fs[0]);
      FormsOfAreForms(fs[1..]);
      assert FormsOf(fs)[1..] == FormsOf(fs[1..]);
    }
  }

  lemma AssertionsSeen(attr: string, op: char, segs: Segs, attr': string, op': char, segs': Segs)
    requires IsAttr(attr) && IsOperator(op) && IsAttr(attr') && IsOperator(op')
    requires Prefixed(attr + Sign(op), segs) == Prefixed(attr' + Sign(op'), segs')
    ensures attr == attr' && op == op' && segs == segs'
  {
    hide Sign;
    var a, b := Prefixed(attr + Sign(op), segs), Prefixed(attr' + Sign(op'), segs');
    assert a[0] == b[0] && a[1..] == segs[1..] && b[1..] == segs'[1..];
    SignStarts(op);
    SignStarts(op');
    var p, q := Sign(op)[1..], Sign(op')[1..];
    assert a[0] == attr + [op] + (p + segs[0]) && b[0] == attr' + [op'] + (q + segs'[0]);
    FirstOutside(AttrChar, attr, op, p + segs[0], attr', op', q + segs'[0]);
    assert segs[0] == (p + segs[0])[|p|..] && segs'[0] == (q + segs'[0])[|q|..];
    assert segs == [segs[0]] + segs[1..] && segs' == [segs'[0]] + segs'[1..];
  }

  lemma SignStarts(op: char)
    ensures Sign(op) != "" && Sign(op) == [op] + Sign(op)[1..]
  {
  }

  lemma {:induction false} SeenUnique(f: Form, g: Form)
    requires IsForm(f) && IsForm(g) && Seen(f) == Seen(g)
    ensures f == g
    decreases f
  {
    hide IsAttr, IsOperator, Prefixed, Sign, AreForms, SeenAll;
    if f.Assertion? {
      AssertionIsLine(f.attr, f.op, f.segs);
    }
    if g.Assertion? {
      AssertionIsLine(g.attr, g.op, g.segs);
    }
    if f.Assertion? && g.Assertion? {
      AssertionsSeen(f.attr, f.op, f.segs, g.attr, g.op, g.segs);
    } else if f.Group? {
      SeenAllUnique(f.forms, g.forms);
    } else if f.Negated? {
      SeenUnique(f.form, g.form);
    }
  }

  lemma {:induction false} SeenAllUnique(fs: seq<Form>, gs: seq<Form>)
    requires AreForms(fs) && AreForms(gs) && SeenAll(fs) == SeenAll(gs)
    ensures fs == gs
    decreases fs
  {
    hide Seen, IsForm;
    if fs != [] {
      assert SeenAll(fs)[0] == SeenAll(gs)[0];
      assert SeenAll(fs)[1..] == SeenAll(fs[1..]) && SeenAll(gs)[1..] == SeenAll(gs[1..]);
      SeenUnique(fs[0], gs[0]);
      SeenAllUnique(fs[1..], gs[1..]);
      assert fs == [fs[0]] + fs[1..] && gs == [gs[0]] + gs[1..];
    }
  }

  /** With well-formed attributes a look shows the form. */
  lemma SameLookSameForm(f: Filter, g: Filter)
    requires HasAttrs(f) && HasAttrs(g)
    ensures LookOf(f) == LookOf(g) <==> FormOf(f) == FormOf(g)
  {
    hide FormOf, Seen, IsForm, HasAttrs;
    FormOfIsForm(f);
    FormOfIsForm(g);
    if LookOf(f) == LookOf(g) {
      SeenUnique(FormOf(f), FormOf(g));
    }
  }

  // ---------- the text of RFC 4515 is that of the look ----------

  lemma {:induction false} FilterHasAttrs(f: Filter)
    requires IsFilter(f)
    ensures HasAttrs(f)
    decreases f
  {
    hide IsAttr, IsParts, AreFilters, HaveAttrs;
    match f
    case And(fs) => FiltersHaveAttrs(fs);
    case Or(fs) => FiltersHaveAttrs(fs);
    case Not(g) => FilterHasAttrs(g);
    case _ =>
  }

  lemma {:induction false} FiltersHaveAttrs(fs: seq<Filter>)
    requires AreFilters(fs)
    ensures HaveAttrs(fs)
    decreases fs
  {
    hide IsFilter, HasAttrs;
    if fs != [] {
      FilterHasAttrs(fs[0]);
      FiltersHaveAttrs(fs[1..]);
    }
  }

  lemma {:induction false} PrintIsLook(f: Filter)
    requires IsFilter(f)
    ensures Print(f) == LookText(LookOf(f))
    decreases f
  {
    hide Escape, Quoted, PrintAll, PrintParts, StarText, LookTexts, FormsOf, SeenAll, AreFilters, IsParts, IsAttr,
      Segments, Prefixed, Sign;
    Signs();
    match f
    case And(fs) =>
      PrintsAreLooks(fs);
      assert "(" + ['&'] == "(&";
    case Or(fs) =>
      PrintsAreLooks(fs);
      assert "(" + ['|'] == "(|";
    case Not(g) =>
      PrintIsLook(g);
      assert "(" + ['!'] == "(!";
    case Substrings(attr, parts) =>
      PartsText(parts);
      EscapeAttr(attr);
      LineText(attr, '=', Segments(parts));
      Around(attr, "=", StarText(Segments(parts)));
    case Present(attr) =>
      PresenceText();
      EscapeAttr(attr);
      LineText(attr, '=', ["", ""]);
      assert "(" + attr + "=*" + ")" == "(" + (attr + "=" + "*") + ")";
    case Equality(attr, value) => ComparisonText(attr, '=', value);
    case GreaterOrEqual(attr, value) => ComparisonText(attr, '>', value);
    case LessOrEqual(attr, value) => ComparisonText(attr, '<', value);
    case Approx(attr, value) => ComparisonText(attr, '~', value);
  }

  lemma Signs()
    ensures Sign('=') == "=" && Sign('>') == ">=" && Sign('<') == "<=" && Sign('~') == "~="
  {
  }

  lemma ComparisonText(attr: string, op: char, value: string)
    requires IsAttr(attr) && IsOperator(op)
    ensures "(" + attr + Sign(op) + Quoted(value) + ")" == LookText(Line(Prefixed(attr + Sign(op), [value])))
  {
    hide Escape, Quoted, StarText, Prefixed;
    EscapeIsQuoted(value);
    StarTextOne(value);
    EscapeAttr(attr);
    LineText(attr, op, [value]);
    Around(attr, Sign(op), Escape(value));
  }

  lemma {:induction false} PrintsAreLooks(fs: seq<Filter>)
    requires AreFilters(fs)
    ensures PrintAll(fs) == LookTexts(SeenAll(FormsOf(fs)))
    decreases fs
  {
    hide Print, LookText, FormOf, Seen, IsFilter;
    if fs != [] {
      PrintIsLook(fs[0]);
      PrintsAreLooks(fs[1..]);
      SeenFirst(fs);
    }
  }

  // ---------- well-formed filters have different forms ----------

  lemma {:induction false} FormUnique(f: Filter, g: Filter)
    requires IsFilter(f) && IsFilter(g) && FormOf(f) == FormOf(g)
    ensures f == g
    decreases f
  {
    hide Segments, IsParts, IsAttr, AreFilters, FormsOf;
    match f
    case And(fs) => FormsUnique(fs, g.filters);
    case Or(fs) => FormsUnique(fs, g.filters);
    case Not(f') => FormUnique(f', g.filter);
    case _ => AssertionUnique(f, g);
  }

  lemma AssertionUnique(f: Filter, g: Filter)
    requires IsFilter(f) && IsFilter(g) && FormOf(f) == FormOf(g) && FormOf(f).Assertion?
    ensures f == g
  {
    hide Segments, IsParts, IsAttr, AreFilters, FormsOf;
    if f.Substrings? {
      PartsAreSubstrings(f.parts);
    }
    if g.Substrings? {
      PartsAreSubstrings(g.parts);
    }
    if f.Substrings? && g.Substrings? {
      PartsUnique(f.parts, g.parts);
    }
  }

  lemma {:induction false} FormsUnique(fs: seq<Filter>, gs: seq<Filter>)
    requires AreFilters(fs) && AreFilters(gs) && FormsOf(fs) == FormsOf(gs)
    ensures fs == gs
    decreases fs
  {
    hide FormOf, IsFilter;
    if fs != [] {
      assert FormsOf(fs)[0] == FormsOf(gs)[0];
      assert FormsOf(fs)[1..] == FormsOf(fs[1..]) && FormsOf(gs)[1..] == FormsOf(gs[1..]);
      FormUnique(fs[0], gs[0]);
      FormsUnique(fs[1..], gs[1..]);
      assert fs == [fs[0]] + fs[1..] && gs == [gs[0]] + gs[1..];
    }
  }

  // ---------- the theorems ----------

  /** Exactly when two filters look alike, whatever their attributes and components: when the
      nesting is the same and so are, in each assertion, the segments between the stars, the
      attribute and the operator being taken as the beginning of the first segment. */
  lemma RenderedAlike(codec: Codec, t: Tlv, u: Tlv)
    requires FilterOf(codec, t).Some? && FilterOf(codec, u).Some?
    ensures RenderFilter(codec, t) == RenderFilter(codec, u)
            <==> LookOf(FilterOf(codec, t).value) == LookOf(FilterOf(codec, u).value)
  {
    hide RenderFilter, FilterOf, LookOf, LookText, IsLook;
    var l, m := LookOf(FilterOf(codec, t).value), LookOf(FilterOf(codec, u).value);
    RendersLook(codec, t);
    RendersLook(codec, u);
    LookOfIsLook(FilterOf(codec, t).value);
    LookOfIsLook(FilterOf(codec, u).value);
    if RenderFilter(codec, t) == RenderFilter(codec, u) {
      assert LookText(l) + "" == LookText(m) + "";
      LookTextUnique(l, "", m, "");
    }
  }

  /** With well-formed attributes: when nesting, attributes, operators and the segments between
      the stars are the same. */
  lemma RenderedAlikeByForm(codec: Codec, t: Tlv, u: Tlv)
    requires FilterOf(codec, t).Some? && HasAttrs(FilterOf(codec, t).value)
    requires FilterOf(codec, u).Some? && HasAttrs(FilterOf(codec, u).value)
    ensures RenderFilter(codec, t) == RenderFilter(codec, u)
            <==> FormOf(FilterOf(codec, t).value) == FormOf(FilterOf(codec, u).value)
  {
    hide RenderFilter, FilterOf, FormOf, LookOf, HasAttrs;
    RenderedAlike(codec, t, u);
    SameLookSameForm(FilterOf(codec, t).value, FilterOf(codec, u).value);
  }

  /** On a tree that encodes a filter, the rendering is the filter's text. */
  lemma RendersFilter(codec: Codec, t: Tlv)
    requires FilterOf(codec, t).Some? && IsFilter(FilterOf(codec, t).value)
    ensures RenderFilter(codec, t) == Print(FilterOf(codec, t).value)
  {
    hide RenderFilter, FilterOf, LookOf, LookText, IsFilter, Print;
    RendersLook(codec, t);
    PrintIsLook(FilterOf(codec, t).value);
  }

  /** A text begins with one filter at most, and that filter's text ends in one place. */
  lemma PrintUnique(f: Filter, x: string, g: Filter, y: string)
    requires IsFilter(f) && IsFilter(g)
    requires Print(f) + x == Print(g) + y
    ensures f == g && x == y
  {
    hide FormOf, LookOf, LookText, IsLook, IsFilter, HasAttrs, Print;
    PrintIsLook(f);
    PrintIsLook(g);
    LookOfIsLook(f);
    LookOfIsLook(g);
    LookTextUnique(LookOf(f), x, LookOf(g), y);
    FilterHasAttrs(f);
    FilterHasAttrs(g);
    SameLookSameForm(f, g);
    FormUnique(f, g);
  }

  /** Trees that encode different filters are rendered as different texts. */
  lemma RenderingIsUnambiguous(codec: Codec, t: Tlv, u: Tlv)
    requires FilterOf(codec, t).Some? && IsFilter(FilterOf(codec, t).value)
    requires FilterOf(codec, u).Some? && IsFilter(FilterOf(codec, u).value)
    ensures RenderFilter(codec, t) == RenderFilter(codec, u)
            <==> FilterOf(codec, t) == FilterOf(codec, u)
  {
    hide RenderFilter, FilterOf, FormOf, HasAttrs, IsFilter;
    var f, g := FilterOf(codec, t).value, FilterOf(codec, u).value;
    FilterHasAttrs(f);
    FilterHasAttrs(g);
    RenderedAlikeByForm(codec, t, u);
    if FormOf(f) == FormOf(g) {
      FormUnique(f, g);
    }
  }

  // ---------- filters that look alike ----------

  function Leaf(cls: Class, tag: U32, octets: Octets): Tlv {
    Tlv(cls, false, tag, 2, |octets|, false, 0, Primitive(octets))
  }

  function Node(cls: Class, tag: U32, children: seq<Tlv>): Tlv {
    Tlv(cls, true, tag, 2, 0, false, 0, Constructed(children))
  }

  /** Each kind of filter with its tag number and its text: attribute `a`, value `v`, and the
      values of initial, any and final substrings. */
  lemma EachKind(codec: Codec, attr: Octets, value: Octets, a: string, v: string, f: Tlv, g: Tlv)
    requires codec.utf8(attr) == Some(a) && codec.utf8(value) == Some(v)
    ensures var x, y := Leaf(Universal, 4, attr), Leaf(Universal, 4, value);
            var p, q := RenderFilter(codec, f), RenderFilter(codec, g);
            && RenderFilter(codec, Node(Context, 0, [f, g])) == "(&" + (p + q) + ")"
            && RenderFilter(codec, Node(Context, 1, [f, g])) == "(|" + (p + q) + ")"
            && RenderFilter(codec, Node(Context, 2, [f])) == "(!" + p + ")"
            && RenderFilter(codec, Node(Context, 3, [x, y])) == "(" + Quoted(a) + "=" + Quoted(v) + ")"
            && RenderFilter(codec, Node(Context, 5, [x, y])) == "(" + Quoted(a) + ">=" + Quoted(v) + ")"
            && RenderFilter(codec, Node(Context, 6, [x, y])) == "(" + Quoted(a) + "<=" + Quoted(v) + ")"
            && RenderFilter(codec, Leaf(Context, 7, attr)) == "(" + Quoted(a) + "=*)"
            && RenderFilter(codec, Node(Context, 8, [x, y])) == "(" + Quoted(a) + "~=" + Quoted(v) + ")"
  {
    hide Escape, Quoted;
    EscapeIsQuoted(a);
    EscapeIsQuoted(v);
    TwoRendered(codec, f, g);
  }

  lemma TwoRendered(codec: Codec, f: Tlv, g: Tlv)
    ensures RenderAll(codec, [f, g]) == RenderFilter(codec, f) + RenderFilter(codec, g)
  {
    hide RenderFilter;
    assert [f, g][1..] == [g] && [g][1..] == [];
    var x, y := RenderFilter(codec, f), RenderFilter(codec, g);
    assert RenderAll(codec, [g]) == y + RenderAll(codec, []);
    assert RenderAll(codec, []) == "";
    assert x + (y + "") == x + y;
  }

  lemma EachSubstring(codec: Codec, attr: Octets, first: Octets, middle: Octets, last: Octets)
    requires codec.utf8(attr).Some? && codec.utf8(first).Some? && codec.utf8(middle).Some? && codec.utf8(last).Some?
    ensures var list := [Leaf(Context, 0, first), Leaf(Context, 1, middle), Leaf(Context, 2, last)];
            RenderFilter(codec, Node(Context, 4, [Leaf(Universal, 4, attr), Node(Universal, 16, list)]))
            == "(" + Quoted(codec.utf8(attr).value) + "="
               + (Quoted(codec.utf8(first).value) + "*" + Quoted(codec.utf8(middle).value) + "*"
                  + Quoted(codec.utf8(last).value)) + ")"
  {
    hide Escape, Quoted, Pattern;
    EscapeIsQuoted(codec.utf8(attr).value);
    ThreeParts(codec, first, middle, last);
  }

  lemma ThreeParts(codec: Codec, first: Octets, middle: Octets, last: Octets)
    requires codec.utf8(first).Some? && codec.utf8(middle).Some? && codec.utf8(last).Some?
    ensures var list := [Leaf(Context, 0, first), Leaf(Context, 1, middle), Leaf(Context, 2, last)];
            Pattern(codec, list, "", true)
            == Quoted(codec.utf8(first).value) + "*" + Quoted(codec.utf8(middle).value) + "*"
               + Quoted(codec.utf8(last).value)
  {
    hide Quoted, AddPart;
    var p, q, r := Leaf(Context, 0, first), Leaf(Context, 1, middle), Leaf(Context, 2, last);
    var i, m, f := Quoted(codec.utf8(first).value), Quoted(codec.utf8(middle).value), Quoted(codec.utf8(last).value);
    assert [p, q, r][1..] == [q, r] && [q, r][1..] == [r] && [r][1..] == [];
    PartsAdded(codec, first, "", true);
    assert "" + i + "*" == i + "*";
    PartsAdded(codec, middle, i + "*", false);
    PartsAdded(codec, last, i + "*" + m + "*", false);
    assert Pattern(codec, [r], i + "*" + m + "*", false) == i + "*" + m + "*" + f;
    assert Pattern(codec, [q, r], i + "*", false) == i + "*" + m + "*" + f;
  }

  lemma PartsAdded(codec: Codec, octets: Octets, pat: string, first: bool)
    requires codec.utf8(octets).Some?
    ensures var s := Quoted(codec.utf8(octets).value);
            && AddPart(codec, Leaf(Context, 0, octets), pat, first) == pat + s + "*"
            && (!first ==> AddPart(codec, Leaf(Context, 1, octets), pat, first) == pat + s + "*")
            && (EndsWithStar(pat) ==> AddPart(codec, Leaf(Context, 2, octets), pat, first) == pat + s)
            && forall tag: U32 | tag > 2 :: AddPart(codec, Leaf(Context, tag, octets), pat, first) == pat
  {
    hide Quoted, Escape;
    EscapeIsQuoted(codec.utf8(octets).value);
  }

  /** Universal strings of the tags 28 and 30 are read in four and two octets each, if they can
      be; all others as UTF-8 or else octet by octet. */
  lemma WideText(codec: Codec, cls: Class, tag: U32, octets: Octets)
    ensures AsText(codec, Leaf(cls, tag, octets)) ==
            if cls == Universal && (tag == 28 || tag == 30) && codec.wide(tag, octets).Some? then
              codec.wide(tag, octets).value
            else if codec.utf8(octets).Some? then codec.utf8(octets).value
            else Latin1(octets)
  {
  }

  /** Exactly what is not rendered: other classes, other tags, and assertions of less than two
      parts. */
  lemma NotRendered(codec: Codec, t: Tlv)
    ensures RenderFilter(codec, t) == "(?)"
            <==> t.cls != Context || t.tag > 8 || (t.tag in {3, 4, 5, 6, 8} && |t.Kids()| < 2)
  {
    hide Escape, AsText, PrimitiveText, Pattern, RenderAll;
    if t.cls == Context && t.tag <= 8 && !(t.tag in {3, 4, 5, 6, 8} && |t.Kids()| < 2) {
      var r := RenderFilter(codec, t);
      if t.tag <= 2 {
        assert r[1] != '?';
      } else {
        assert '=' in r by {
          HasEquals(codec, t);
        }
        assert '=' !in "(?)";
      }
    }
  }

  lemma HasEquals(codec: Codec, t: Tlv)
    requires t.cls == Context && 3 <= t.tag <= 8 && (t.tag == 7 || |t.Kids()| >= 2)
    ensures '=' in RenderFilter(codec, t)
  {
    hide Escape, AsText, PrimitiveText, Pattern;
    var r := RenderFilter(codec, t);
    var a := Escape(if t.tag == 7 then PrimitiveText(codec, t) else AsText(codec, t.Kids()[0]));
    var k := 1 + |a| + if t.tag in {5, 6, 8} then 1 else 0;
    assert r[k] == '=';
  }

  /** An empty initial substring of `a` looks like the presence of `a`. */
  lemma EmptyInitialLooksPresent(codec: Codec)
    requires codec.utf8([]) == Some("") && codec.utf8([0x61]) == Some("a")
    ensures var t := Node(Context, 4, [Leaf(Universal, 4, [0x61]), Node(Universal, 16, [Leaf(Context, 0, [])])]);
            var u := Leaf(Context, 7, [0x61]);
            && FilterOf(codec, t) == Some(Substrings("a", [Initial("")]))
            && FilterOf(codec, u) == Some(Present("a"))
            && RenderFilter(codec, t) == RenderFilter(codec, u)
  {
    hide RenderFilter, FilterOf, Segments;
    var list := Node(Universal, 16, [Leaf(Context, 0, [])]);
    var t, u := Node(Context, 4, [Leaf(Universal, 4, [0x61]), list]), Leaf(Context, 7, [0x61]);
    OnePart(codec, Leaf(Context, 0, []));
    SubstringsAre(codec, Leaf(Universal, 4, [0x61]), list, "a", [Initial("")]);
    PresenceIs(codec, [0x61]);
    EmptyInitialSegments();
    RenderedAlike(codec, t, u);
  }

  lemma SubstringsAre(codec: Codec, attr: Tlv, list: Tlv, a: string, parts: seq<Part>)
    requires OctetText(codec, attr) == Some(a)
    requires list.IsUniversal(16) && PartsOf(codec, list.Kids()) == Some(parts)
    ensures FilterOf(codec, Node(Context, 4, [attr, list])) == Some(Substrings(a, parts))
  {
    hide OctetText, PartsOf;
  }

  lemma PresenceIs(codec: Codec, octets: Octets)
    requires codec.utf8(octets).Some?
    ensures FilterOf(codec, Leaf(Context, 7, octets)) == Some(Present(codec.utf8(octets).value))
  {
  }

  lemma OnePart(codec: Codec, t: Tlv)
    requires PartOf(codec, t).Some?
    ensures PartsOf(codec, [t]) == Some([PartOf(codec, t).value])
  {
    hide PartOf;
    NoParts(codec);
    assert [t][1..] == [];
    assert PartsOf(codec, [t][1..]) == Some([]);
    assert [PartOf(codec, t).value] + [] == [PartOf(codec, t).value];
  }

  lemma EmptyInitialSegments()
    ensures Segments([Initial("")]) == ["", ""]
  {
    hide SegmentsFrom;
    SegmentsFirst([Initial("")]);
    assert [Initial("")][1..] == [];
    assert Grow([""], "") == [""] && [""] + [""] == ["", ""];
    SegmentsEnd(["", ""]);
  }

  /** The equality of the stray attribute `a>` with `x` looks like `a` being greater than or
      equal to `x`. */
  lemma StrayAttributeLooksGreater(codec: Codec)
    requires codec.utf8([0x61]) == Some("a") && codec.utf8([0x78]) == Some("x")
    requires codec.utf8([0x61, 0x3e]) == Some("a>")
    ensures var t := Node(Context, 3, [Leaf(Universal, 4, [0x61, 0x3e]), Leaf(Universal, 4, [0x78])]);
            var u := Node(Context, 5, [Leaf(Universal, 4, [0x61]), Leaf(Universal, 4, [0x78])]);
            && FilterOf(codec, t) == Some(Equality("a>", "x"))
            && FilterOf(codec, u) == Some(GreaterOrEqual("a", "x"))
            && RenderFilter(codec, t) == RenderFilter(codec, u)
  {
    hide RenderFilter;
    var t := Node(Context, 3, [Leaf(Universal, 4, [0x61, 0x3e]), Leaf(Universal, 4, [0x78])]);
    var u := Node(Context, 5, [Leaf(Universal, 4, [0x61]), Leaf(Universal, 4, [0x78])]);
    assert FilterOf(codec, t) == Some(Equality("a>", "x"));
    assert FilterOf(codec, u) == Some(GreaterOrEqual("a", "x"));
    assert "a>" + "=" + "x" == "a" + (['>'] + "=") + "x";
    RenderedAlike(codec, t, u);
  }

  /** All extensible matches look alike, whatever they assert. */
  lemma ExtensibleLooksAlike(codec: Codec, p: seq<Tlv>, q: seq<Tlv>)
    ensures var t, u := Node(Context, 9, p), Node(Context, 9, q);
            && FilterOf(codec, t) == Some(Extensible(p))
            && FilterOf(codec, u) == Some(Extensible(q))
            && RenderFilter(codec, t) == RenderFilter(codec, u)
  {
    hide RenderFilter;
    RenderedAlike(codec, Node(Context, 9, p), Node(Context, 9, q));
  }
}
