/** Flat views of the tree: rows with paths, the OID inventory, and navigation by path. */
module Views {
  import opened Types
  import opened Text
  import opened Grammar
  import opened Parser
  import opened ParserGrammar
  import opened Placement
  import Oid

  // ---------- rows ----------

  /** What rows show and other files hold: the table of universal tag names, the JSON text of
      primitive values, and the OID registry. */
  datatype Display = Display(
    tagName: U32 -> Option<string>,
    value: (Class, U32, Octets) -> string,
    oidName: string -> Option<string>)

  /** One row of the flat list. */
  datatype Row = Row(
    path: string,
    cls: Class,
    tag: U32,
    tagName: string,
    constructed: bool,
    headerLen: nat,
    len: nat,
    value: string)

  /** `tag_label`. */
  function TagLabel(show: Display, t: Tlv): string {
    match t.cls
    case Universal =>
      (match show.tagName(t.tag)
       case Some(name) => name
       case None => "[UNIVERSAL " + Decimal(t.tag) + "]")
    case Application => "[APPLICATION " + Decimal(t.tag) + "]"
    case Context => "[CONTEXT " + Decimal(t.tag) + "]"
    case Private => "[PRIVATE " + Decimal(t.tag) + "]"
  }

  /** `node_value_json`. */
  function ValueText(show: Display, t: Tlv): string {
    match t.body
    case Primitive(octets) => show.value(t.cls, t.tag, octets)
    case Constructed(_) => "null"
  }

  function RowFor(show: Display, t: Tlv, path: string): Row {
    Row(path, t.cls, t.tag, TagLabel(show, t), t.constructed, t.headerLen % 0x1_0000_0000,
        t.contentLen % (USIZE_MAX + 1), ValueText(show, t))
  }

  function ChildPath(path: string, i: nat): string { path + "." + Decimal(i) }

  function RowsOf(show: Display, t: Tlv, path: string): seq<Row>
    decreases t
  {
    [RowFor(show, t, path)] + match t.body
                        case Primitive(_) => []
                        case Constructed(children) => RowsOfAll(show, children, path, 0)
  }

  function RowsOfAll(show: Display, ts: seq<Tlv>, path: string, i: nat): seq<Row>
    decreases ts
  {
    if ts == [] then [] else RowsOf(show, ts[0], ChildPath(path, i)) + RowsOfAll(show, ts[1..], path, i + 1)
  }

  method Walk(show: Display, t: Tlv, path: string, rows: Vec<Row>)
    modifies rows
    ensures rows.items == old(rows.items) + RowsOf(show, t, path)
    decreases t
  {
    hide ChildPath, RowsOfAll, RowFor;
    rows.Push(RowFor(show, t, path));
    if t.body.Constructed? {
      var children := t.body.children;
      ghost var start := rows.items;
      assert children[0..] == children;
      for i := 0 to |children|
        invariant start + RowsOfAll(show, children, path, 0) == rows.items + RowsOfAll(show, children[i..], path, i)
      {
        RowsStep(show, children, path, i);
        Walk(show, children[i], ChildPath(path, i), rows);
      }
      RowsEnd(show, children, path);
      assert rows.items + [] == rows.items;
    }
  }

  lemma RowsStep(show: Display, ts: seq<Tlv>, path: string, i: nat)
    requires i < |ts|
    ensures RowsOfAll(show, ts[i..], path, i)
            == RowsOf(show, ts[i], ChildPath(path, i)) + RowsOfAll(show, ts[i + 1..], path, i + 1)
  {
    hide RowsOf, ChildPath;
    assert ts[i..][0] == ts[i] && ts[i..][1..] == ts[i + 1..];
  }

  lemma RowsEnd(show: Display, ts: seq<Tlv>, path: string)
    ensures RowsOfAll(show, ts[|ts|..], path, |ts|) == []
  {
  }

  method Flatten(show: Display, root: Tlv) returns (rows: seq<Row>)
    ensures rows == RowsOf(show, root, "$")
  {
    var v := new Vec<Row>();
    Walk(show, root, "$", v);
    rows := v.items;
  }

  // ---------- navigation ----------

  function LeadingDigits(s: string): string {
    if s != "" && IsDigit(s[0]) then [s[0]] + LeadingDigits(s[1..]) else ""
  }

  /** Follow the segments of a path; empty ones are skipped. */
  function FollowSegments(t: Tlv, segs: seq<string>): Option<Tlv>
    decreases |segs|
  {
    if segs == [] then Some(t)
    else if segs[0] == "" then FollowSegments(t, segs[1..])
    else
      match ParseUnsigned(LeadingDigits(segs[0]), USIZE_MAX)
      case None => None
      case Some(i) =>
        if i < |t.Kids()| then FollowSegments(t.Kids()[i], segs[1..]) else None
  }

  function StripDollar(s: string): string {
    if s != "" && s[0] == '$' then s[1..] else s
  }

  /** `navigate`. */
  function Navigated(root: Tlv, path: string): Option<Tlv> {
    FollowSegments(root, Split(StripDollar(Trim(path)), '.'))
  }

  method Navigate(root: Tlv, path: string) returns (r: Option<Tlv>)
    ensures r == Navigated(root, path)
  {
    hide Split, Trim, ParseUnsigned, LeadingDigits;
    var segs := Split(StripDollar(Trim(path)), '.');
    var node := root;
    assert segs[0..] == segs;
    for k := 0 to |segs|
      invariant FollowSegments(root, segs) == FollowSegments(node, segs[k..])
    {
      var seg := segs[k];
      assert segs[k..][0] == seg && segs[k..][1..] == segs[k + 1..];
      if seg == "" {
        continue;
      }
      var idx := ParseUnsigned(LeadingDigits(seg), USIZE_MAX);
      if idx.None? {
        return None;
      }
      if idx.value >= |node.Kids()| {
        return None;
      }
      node := node.Kids()[idx.value];
    }
    return Some(node);
  }

  // ---------- addresses ----------

  /** The child numbers that lead from the root to each node, in pre-order. */
  function Addresses(t: Tlv): seq<seq<nat>>
    decreases t
  {
    [[]] + match t.body
           case Primitive(_) => []
           case Constructed(children) => AddressesAll(children, 0)
  }

  function AddressesAll(ts: seq<Tlv>, i: nat): seq<seq<nat>>
    decreases ts
  {
    if ts == [] then [] else Under(i, Addresses(ts[0])) + AddressesAll(ts[1..], i + 1)
  }

  function Under(i: nat, addrs: seq<seq<nat>>): (r: seq<seq<nat>>)
    ensures |r| == |addrs|
    ensures forall k | 0 <= k < |addrs| :: r[k] == [i] + addrs[k]
  {
    if addrs == [] then [] else [[i] + addrs[0]] + Under(i, addrs[1..])
  }

  function Follow(t: Tlv, a: seq<nat>): Option<Tlv>
    decreases |a|
  {
    if a == [] then Some(t)
    else if a[0] < |t.Kids()| then Follow(t.Kids()[a[0]], a[1..])
    else None
  }

  /** The text of an address after the path of its root. */
  function PathText(a: seq<nat>): string {
    if a == [] then "" else "." + Decimal(a[0]) + PathText(a[1..])
  }

  // ---------- every row describes the node at its address ----------

  ghost predicate Described(show: Display, rows: seq<Row>, ns: seq<Tlv>, addrs: seq<seq<nat>>, path: string) {
    && |rows| == |ns| == |addrs|
    && forall k | 0 <= k < |ns| :: rows[k] == RowFor(show, ns[k], path + PathText(addrs[k]))
  }

  lemma {:induction false} RowsDescribe(show: Display, t: Tlv, path: string)
    ensures Described(show, RowsOf(show, t, path), Preorder(t), Addresses(t), path)
    decreases t
  {
    hide RowsOfAll, PreorderAll, AddressesAll;
    assert path + "" == path;
    if t.body.Constructed? {
      RowsDescribeAll(show, t.body.children, path, 0);
    }
  }

  lemma {:induction false} RowsDescribeAll(show: Display, ts: seq<Tlv>, path: string, i: nat)
    ensures Described(show, RowsOfAll(show, ts, path, i), PreorderAll(ts), AddressesAll(ts, i), path)
    decreases ts
  {
    hide RowsOf, Preorder, Addresses, RowFor, Described, Under;
    if ts == [] {
      NothingDescribed(show, path);
    } else {
      var here := ChildPath(path, i);
      RowsDescribe(show, ts[0], here);
      RowsDescribeAll(show, ts[1..], path, i + 1);
      DescribedUnder(show, RowsOf(show, ts[0], here), Preorder(ts[0]), Addresses(ts[0]), path, i);
      DescribedAppend(show, RowsOf(show, ts[0], here), Preorder(ts[0]), Under(i, Addresses(ts[0])),
                      RowsOfAll(show, ts[1..], path, i + 1), PreorderAll(ts[1..]), AddressesAll(ts[1..], i + 1), path);
    }
  }

  lemma NothingDescribed(show: Display, path: string)
    ensures Described(show, [], [], [], path)
  {
  }

  lemma DescribedAppend(show: Display, rows: seq<Row>, ns: seq<Tlv>, addrs: seq<seq<nat>>,
                        rows': seq<Row>, ns': seq<Tlv>, addrs': seq<seq<nat>>, path: string)
    requires Described(show, rows, ns, addrs, path) && Described(show, rows', ns', addrs', path)
    ensures Described(show, rows + rows', ns + ns', addrs + addrs', path)
  {
    hide RowFor, PathText;
  }

  /** A child's path is its parent's path and one more number. */
  lemma DescribedUnder(show: Display, rows: seq<Row>, ns: seq<Tlv>, addrs: seq<seq<nat>>, path: string, i: nat)
    requires Described(show, rows, ns, addrs, ChildPath(path, i))
    ensures Described(show, rows, ns, Under(i, addrs), path)
  {
    hide RowFor, Decimal;
    forall k | 0 <= k < |ns|
      ensures rows[k] == RowFor(show, ns[k], path + PathText(Under(i, addrs)[k]))
    {
      assert ([i] + addrs[k])[1..] == addrs[k];
      assert path + ("." + Decimal(i) + PathText(addrs[k])) == ChildPath(path, i) + PathText(addrs[k]);
    }
  }

  // ---------- addresses lead to their nodes ----------

  lemma {:induction false} AddressLeads(t: Tlv, k: nat)
    requires k < |Addresses(t)|
    ensures |Addresses(t)| == |Preorder(t)|
    ensures Follow(t, Addresses(t)[k]) == Some(Preorder(t)[k])
    decreases t
  {
    hide PreorderAll, AddressesAll;
    if k == 0 {
      if t.body.Constructed? {
        CountsAgreeAll(t.body.children, 0);
      }
    } else {
      var ts := t.body.children;
      AddressLeadsAll(ts, 0, k - 1);
      var a := Addresses(t)[k];
      assert t.Kids()[a[0]] == ts[a[0]];
    }
  }

  lemma {:induction false} AddressLeadsAll(ts: seq<Tlv>, i: nat, k: nat)
    requires k < |AddressesAll(ts, i)|
    ensures |AddressesAll(ts, i)| == |PreorderAll(ts)|
    ensures var a := AddressesAll(ts, i)[k];
            && a != [] && i <= a[0] < i + |ts|
            && Follow(ts[a[0] - i], a[1..]) == Some(PreorderAll(ts)[k])
    decreases ts
  {
    hide Addresses, Preorder, Follow;
    CountsAgreeAll(ts, i);
    CountsAgree(ts[0]);
    var first := Addresses(ts[0]);
    if k < |first| {
      AddressLeads(ts[0], k);
      assert ([i] + first[k])[1..] == first[k];
    } else {
      AddressLeadsAll(ts[1..], i + 1, k - |first|);
      var a := AddressesAll(ts, i)[k];
      assert ts[1..][a[0] - (i + 1)] == ts[a[0] - i];
    }
  }

  lemma {:induction false} CountsAgree(t: Tlv)
    ensures |Addresses(t)| == |Preorder(t)|
    decreases t
  {
    if t.body.Constructed? {
      CountsAgreeAll(t.body.children, 0);
    }
  }

  lemma {:induction false} CountsAgreeAll(ts: seq<Tlv>, i: nat)
    ensures |AddressesAll(ts, i)| == |PreorderAll(ts)|
    decreases ts
  {
    hide Addresses, Preorder;
    if ts != [] {
      CountsAgree(ts[0]);
      CountsAgreeAll(ts[1..], i + 1);
    }
  }

  // ---------- addresses differ ----------

  lemma {:induction false} AddressesDiffer(t: Tlv, j: nat, k: nat)
    requires j < k < |Addresses(t)|
    ensures Addresses(t)[j] != Addresses(t)[k]
    decreases t
  {
    hide AddressesAll;
    var ts := t.body.children;
    CountsAgreeAll(ts, 0);
    AddressLeadsAll(ts, 0, k - 1);
    if j > 0 {
      AddressesDifferAll(ts, 0, j - 1, k - 1);
    }
  }

  lemma {:induction false} AddressesDifferAll(ts: seq<Tlv>, i: nat, j: nat, k: nat)
    requires j < k < |AddressesAll(ts, i)|
    ensures AddressesAll(ts, i)[j] != AddressesAll(ts, i)[k]
    decreases ts
  {
    hide Addresses, Preorder, Follow;
    var first := Addresses(ts[0]);
    if k < |first| {
      AddressesDiffer(ts[0], j, k);
      assert ([i] + first[j])[1..] == first[j] && ([i] + first[k])[1..] == first[k];
    } else {
      AddressLeadsAll(ts[1..], i + 1, k - |first|);
      if j >= |first| {
        AddressesDifferAll(ts[1..], i + 1, j - |first|, k - |first|);
      }
    }
  }

  // ---------- printed paths are read back ----------

  predicate Small(a: seq<nat>) { forall i | 0 <= i < |a| :: a[i] <= USIZE_MAX }

  /** The segments of a printed path after the leading `$`. */
  function Segments(a: seq<nat>): seq<string> {
    if a == [] then [] else [Decimal(a[0])] + Segments(a[1..])
  }

  lemma {:induction false} SegmentsAre(a: seq<nat>)
    ensures Split(PathText(a), '.') == [""] + Segments(a)
  {
    hide Decimal, Split;
    if a == [] {
      SplitNone("", '.');
      assert [""] + [] == [""];
    } else {
      var rest := PathText(a[1..]);
      SegmentsAre(a[1..]);
      DecimalHasNo(a[0], '.');
      SplitNone("", '.');
      if a[1..] == [] {
        assert PathText(a) == "" + ['.'] + Decimal(a[0]);
        SplitAt("", Decimal(a[0]), '.');
        SplitNone(Decimal(a[0]), '.');
        assert [""] + [Decimal(a[0])] == [""] + ([Decimal(a[0])] + []);
      } else {
        var after := rest[1..];
        assert rest == "" + ['.'] + after;
        SplitAt("", after, '.');
        assert Split(after, '.') == (Split("", '.') + Split(after, '.'))[1..];
        assert PathText(a) == "" + ['.'] + (Decimal(a[0]) + ['.'] + after);
        SplitAt("", Decimal(a[0]) + ['.'] + after, '.');
        SplitAt(Decimal(a[0]), after, '.');
        SplitNone(Decimal(a[0]), '.');
        assert [""] + ([Decimal(a[0])] + Segments(a[1..])) == [""] + Segments(a);
      }
    }
  }

  lemma {:induction false} LeadingDigitsAll(s: string)
    requires AllDigits(s)
    ensures LeadingDigits(s) == s
  {
    if s != "" {
      LeadingDigitsAll(s[1..]);
    }
  }

  lemma {:induction false} SegmentsFollow(t: Tlv, a: seq<nat>)
    requires Small(a)
    ensures FollowSegments(t, Segments(a)) == Follow(t, a)
    decreases |a|
  {
    hide Decimal, ParseUnsigned, LeadingDigits;
    if a != [] {
      DecimalRead(a[0]);
      LeadingDigitsAll(Decimal(a[0]));
      DecimalParses(a[0], USIZE_MAX);
      assert Segments(a)[1..] == Segments(a[1..]);
      if a[0] < |t.Kids()| {
        SegmentsFollow(t.Kids()[a[0]], a[1..]);
      }
    }
  }

  lemma {:induction false} PathEndsInDigit(a: seq<nat>)
    requires a != []
    ensures PathText(a) != "" && IsDigit(PathText(a)[|PathText(a)| - 1])
  {
    hide Decimal;
    DecimalRead(a[0]);
    if |a| > 1 {
      PathEndsInDigit(a[1..]);
    }
  }

  lemma DollarPathIsTrimmed(a: seq<nat>)
    ensures Trim("$" + PathText(a)) == "$" + PathText(a)
  {
    hide PathText;
    if a == [] {
      assert PathText(a) == "" by { EmptyPath(); }
    } else {
      PathEndsInDigit(a);
    }
  }

  lemma EmptyPath()
    ensures PathText([]) == ""
  {
  }

  lemma PathNavigates(t: Tlv, a: seq<nat>)
    requires Small(a)
    ensures Navigated(t, "$" + PathText(a)) == Follow(t, a)
  {
    hide Split, Trim, PathText, Segments, Follow;
    DollarPathIsTrimmed(a);
    SegmentsAre(a);
    SegmentsFollow(t, a);
    var path := "$" + PathText(a);
    assert StripDollar(path) == PathText(a);
    assert ([""] + Segments(a))[1..] == Segments(a);
  }

  lemma PathsDiffer(a: seq<nat>, b: seq<nat>)
    requires PathText(a) == PathText(b)
    ensures a == b
  {
    hide PathText, Segments;
    SegmentsAre(a);
    SegmentsAre(b);
    assert Segments(a) == ([""] + Segments(a))[1..];
    assert Segments(b) == ([""] + Segments(b))[1..];
    SegmentsInjective(a, b);
  }

  lemma {:induction false} SegmentsInjective(a: seq<nat>, b: seq<nat>)
    requires Segments(a) == Segments(b)
    ensures a == b
    decreases |a|
  {
    hide Decimal;
    if a != [] {
      assert Segments(a)[0] == Decimal(a[0]) && Segments(b)[0] == Decimal(b[0]);
      DecimalInjective(a[0], b[0]);
      assert Segments(a)[1..] == Segments(a[1..]) && Segments(b)[1..] == Segments(b[1..]);
      SegmentsInjective(a[1..], b[1..]);
      assert a == [a[0]] + a[1..] && b == [b[0]] + b[1..];
    }
  }

  // ---------- sloppy paths ----------

  /** A segment of a path: nothing, or a child number and anything that is no digit. */
  datatype Segment = Nothing | Child(i: nat, more: string)

  predicate IsSegment(g: Segment) {
    g.Child? ==>
      && g.i <= 0xFFFF_FFFF_FFFF_FFFF
      && (g.more != "" ==> !IsDigit(g.more[0]))
      && forall k | 0 <= k < |g.more| :: g.more[k] != '.' && !IsWhitespace(g.more[k])
  }

  function SegmentText(g: Segment): string {
    match g
    case Nothing => ""
    case Child(i, more) => Decimal(i) + more
  }

  function SegmentTexts(gs: seq<Segment>): (r: seq<string>)
    ensures |r| == |gs|
  {
    if gs == [] then [] else [SegmentText(gs[0])] + SegmentTexts(gs[1..])
  }

  function ChildNumbers(gs: seq<Segment>): seq<nat> {
    if gs == [] then []
    else (match gs[0] case Nothing => [] case Child(i, _) => [i]) + ChildNumbers(gs[1..])
  }

  lemma {:induction false} DigitsThenMore(s: string, more: string)
    requires AllDigits(s) && (more != "" ==> !IsDigit(more[0]))
    ensures LeadingDigits(s + more) == s
  {
    if s == "" {
      assert s + more == more;
    } else {
      assert (s + more)[1..] == s[1..] + more;
      DigitsThenMore(s[1..], more);
    }
  }

  lemma {:induction false} SegmentTextsFollow(t: Tlv, gs: seq<Segment>)
    requires forall k | 0 <= k < |gs| :: IsSegment(gs[k])
    ensures FollowSegments(t, SegmentTexts(gs)) == Follow(t, ChildNumbers(gs))
    decreases |gs|
  {
    hide Decimal, ParseUnsigned, LeadingDigits;
    if gs != [] {
      var texts, a := SegmentTexts(gs), ChildNumbers(gs[1..]);
      assert texts[1..] == SegmentTexts(gs[1..]);
      match gs[0]
      case Nothing =>
        assert ChildNumbers(gs) == a;
        SegmentTextsFollow(t, gs[1..]);
      case Child(i, more) =>
        DecimalRead(i);
        DigitsThenMore(Decimal(i), more);
        DecimalParses(i, USIZE_MAX);
        assert ChildNumbers(gs)[1..] == a;
        if i < |t.Kids()| {
          SegmentTextsFollow(t.Kids()[i], gs[1..]);
        }
    }
  }

  lemma SegmentPlain(g: Segment)
    requires IsSegment(g)
    ensures '.' !in SegmentText(g)
    ensures forall k | 0 <= k < |SegmentText(g)| :: !IsWhitespace(SegmentText(g)[k]) && SegmentText(g)[k] != '.'
    ensures SegmentText(g) != "" ==> IsDigit(SegmentText(g)[0])
  {
    hide Decimal, IsWhitespace;
    if g.Child? {
      DecimalRead(g.i);
      DigitsAreNoSpace();
      assert forall k | 0 <= k < |Decimal(g.i)| :: IsDigit(Decimal(g.i)[k]);
    }
  }

  lemma DigitsAreNoSpace()
    ensures forall c | IsDigit(c) :: !IsWhitespace(c) && c != '.'
    ensures !IsWhitespace('.') && !IsWhitespace('$')
  {
  }

  lemma {:induction false} JoinedPlain(gs: seq<Segment>)
    requires gs != [] && forall k | 0 <= k < |gs| :: IsSegment(gs[k])
    ensures var s := Join(SegmentTexts(gs), '.');
            && (forall k | 0 <= k < |s| :: !IsWhitespace(s[k]))
            && (s != "" ==> s[0] != '$')
  {
    hide IsWhitespace, SegmentText;
    SegmentPlain(gs[0]);
    DigitsAreNoSpace();
    if |gs| > 1 {
      JoinedPlain(gs[1..]);
      assert SegmentTexts(gs)[1..] == SegmentTexts(gs[1..]);
    } else {
      assert SegmentTexts(gs) == [SegmentText(gs[0])];
    }
  }

  lemma {:induction false} SegmentTextAt(gs: seq<Segment>, k: nat)
    requires k < |gs|
    ensures SegmentTexts(gs)[k] == SegmentText(gs[k])
  {
    hide SegmentText;
    if k > 0 {
      SegmentTextAt(gs[1..], k - 1);
    }
  }

  /** A path is read with white space around it, with or without the dollar sign, with empty
      segments, and with anything after a child number up to the next full stop: it names the
      node at these child numbers. */
  lemma SloppyPath(t: Tlv, before: string, dollar: bool, gs: seq<Segment>, after: string)
    requires forall k | 0 <= k < |before| :: IsWhitespace(before[k])
    requires forall k | 0 <= k < |after| :: IsWhitespace(after[k])
    requires gs != [] && forall k | 0 <= k < |gs| :: IsSegment(gs[k])
    ensures Navigated(t, before + ((if dollar then "$" else "") + Join(SegmentTexts(gs), '.')) + after)
            == Follow(t, ChildNumbers(gs))
  {
    hide Split, Trim, SegmentText, Join, Follow, IsWhitespace, IsSegment;
    var path := Join(SegmentTexts(gs), '.');
    var core := (if dollar then "$" else "") + path;
    JoinedPlain(gs);
    DigitsAreNoSpace();
    TrimIs(before, core, after);
    assert StripDollar(core) == path;
    forall k | 0 <= k < |gs|
      ensures '.' !in SegmentTexts(gs)[k]
    {
      SegmentTextAt(gs, k);
      SegmentPlain(gs[k]);
    }
    SplitJoin(SegmentTexts(gs), '.');
    SegmentTextsFollow(t, gs);
  }

  /** A segment that is not empty and does not begin with a digit is refused. */
  lemma {:induction false} BadSegment(t: Tlv, segs: seq<string>, k: nat)
    requires k < |segs| && segs[k] != "" && !IsDigit(segs[k][0])
    ensures FollowSegments(t, segs) == None
    decreases |segs|
  {
    hide LeadingDigits, ParseUnsigned;
    if k == 0 {
      NoNumber(segs[0]);
    } else {
      if segs[0] == "" {
        BadSegment(t, segs[1..], k - 1);
      } else {
        var i := ParseUnsigned(LeadingDigits(segs[0]), USIZE_MAX);
        if i.Some? && i.value < |t.Kids()| {
          BadSegment(t.Kids()[i.value], segs[1..], k - 1);
        }
      }
    }
  }

  lemma NoNumber(s: string)
    requires s != "" && !IsDigit(s[0])
    ensures ParseUnsigned(LeadingDigits(s), USIZE_MAX) == None
  {
  }

  // ---------- child numbers of a parsed tree are small ----------

  lemma {:induction false} AddressesSmall(rules: Rules, t: Tlv, depth: nat, k: nat)
    requires Wf(rules, t, depth) && |Layout(t)| <= VEC_MAX
    requires k < |Addresses(t)|
    ensures Small(Addresses(t)[k])
    decreases t
  {
    hide Layout, LayoutAll, WfAll, Header.Wf, AddressesAll;
    SpanIsLayout(rules, t, depth);
    if k > 0 {
      AddressesSmallAll(rules, t.body.children, depth + 1, 0, k - 1);
    }
  }

  lemma {:induction false} AddressesSmallAll(rules: Rules, ts: seq<Tlv>, depth: nat, i: nat, k: nat)
    requires WfAll(rules, ts, depth) && i + |LayoutAll(ts)| <= VEC_MAX
    requires k < |AddressesAll(ts, i)|
    ensures Small(AddressesAll(ts, i)[k])
    decreases ts
  {
    hide Layout, Wf, Addresses, AddressesAll, Under, Small;
    NoAddresses(i);
    AddressesStep(ts, i);
    SpanIsLayout(rules, ts[0], depth);
    var first := Addresses(ts[0]);
    if k < |first| {
      AddressesSmall(rules, ts[0], depth, k);
      SmallUnder(i, first[k]);
      assert AddressesAll(ts, i)[k] == [i] + first[k];
    } else {
      AddressesSmallAll(rules, ts[1..], depth, i + 1, k - |first|);
    }
  }

  lemma NoAddresses(i: nat)
    ensures AddressesAll([], i) == []
  {
  }

  lemma AddressesStep(ts: seq<Tlv>, i: nat)
    requires ts != []
    ensures AddressesAll(ts, i) == Under(i, Addresses(ts[0])) + AddressesAll(ts[1..], i + 1)
  {
    hide Addresses, Under;
  }

  lemma SmallUnder(i: nat, a: seq<nat>)
    requires i <= USIZE_MAX && Small(a)
    ensures Small([i] + a)
  {
  }

  // ---------- the theorems ----------

  /** The columns of the row of a node. */
  predicate Describes(show: Display, row: Row, n: Tlv) {
    && row.cls == n.cls && row.tag == n.tag && row.constructed == n.constructed
    && row.headerLen == n.headerLen % 0x1_0000_0000
    && row.len == n.contentLen % 0x1_0000_0000_0000_0000
    && row.value == (if n.body.Constructed? then "null" else show.value(n.cls, n.tag, n.body.octets))
    && row.tagName == match n.cls
                      case Universal =>
                        if show.tagName(n.tag).Some? then show.tagName(n.tag).value
                        else "[UNIVERSAL " + Decimal(n.tag) + "]"
                      case Application => "[APPLICATION " + Decimal(n.tag) + "]"
                      case Context => "[CONTEXT " + Decimal(n.tag) + "]"
                      case Private => "[PRIVATE " + Decimal(n.tag) + "]"
  }

  lemma RowDescribes(show: Display, n: Tlv, path: string)
    ensures Describes(show, RowFor(show, n, path), n)
  {
    hide Decimal;
  }

  /** Rows are the nodes in document order, one each; the path of a row leads back to the
      very node it describes; no two rows have the same path. */
  lemma PathsLeadBack(show: Display, d: Octets, rules: Rules, k: nat)
    requires IsValid(d, rules) && |d| <= VEC_MAX
    ensures var t := DocumentOf(d, rules).value;
            var rows := RowsOf(show, t, "$");
            && |rows| == |Preorder(t)| == |Addresses(t)|
            && (k < |rows| ==>
                  && Describes(show, rows[k], Preorder(t)[k])
                  && rows[k].path == "$" + PathText(Addresses(t)[k])
                  && Navigated(t, rows[k].path) == Some(Preorder(t)[k])
                  && forall j | 0 <= j < k :: rows[j].path != rows[k].path)
  {
    hide DocumentOf, Wf, Layout, RowsOf, Addresses, Preorder, Navigated, Follow, Placed, PathText, RowFor, Describes;
    var t := DocumentOf(d, rules).value;
    ParserIsGrammar(rules, d, t);
    RowsDescribe(show, t, "$");
    var rows, addrs := RowsOf(show, t, "$"), Addresses(t);
    RowPaths(show, rows, Preorder(t), addrs);
    if k < |rows| {
      RowDescribes(show, Preorder(t)[k], rows[k].path);
      AddressesSmall(rules, t, 0, k);
      AddressLeads(t, k);
      PathNavigates(t, addrs[k]);
      forall j | 0 <= j < k
        ensures rows[j].path != rows[k].path
      {
        AddressesDiffer(t, j, k);
        if rows[j].path == rows[k].path {
          assert PathText(addrs[j]) == rows[j].path[1..] && PathText(addrs[k]) == rows[k].path[1..];
          PathsDiffer(addrs[j], addrs[k]);
        }
      }
    }
  }

  lemma RowPaths(show: Display, rows: seq<Row>, ns: seq<Tlv>, addrs: seq<seq<nat>>)
    requires Described(show, rows, ns, addrs, "$")
    ensures forall k | 0 <= k < |rows| ::
              rows[k].path == "$" + PathText(addrs[k]) && rows[k] == RowFor(show, ns[k], rows[k].path)
  {
    hide PathText;
  }

  // ---------- the OID inventory ----------

  datatype OidRow = OidRow(oid: string, name: Option<string>, path: string)

  /** `value::oid_string`. */
  function OidString(t: Tlv): Option<string> {
    if t.IsUniversal(6) && t.body.Primitive? then Oid.DecodedOid(t.body.octets) else None
  }

  function OidRowFor(show: Display, t: Tlv, path: string): seq<OidRow> {
    match OidString(t)
    case None => []
    case Some(dotted) => [OidRow(dotted, show.oidName(dotted), path)]
  }

  function OidsOf(show: Display, t: Tlv, path: string): seq<OidRow>
    decreases t
  {
    OidRowFor(show, t, path) + match t.body
                         case Primitive(_) => []
                         case Constructed(children) => OidsOfAll(show, children, path, 0)
  }

  function OidsOfAll(show: Display, ts: seq<Tlv>, path: string, i: nat): seq<OidRow>
    decreases ts
  {
    if ts == [] then [] else OidsOf(show, ts[0], ChildPath(path, i)) + OidsOfAll(show, ts[1..], path, i + 1)
  }

  method CollectOids(show: Display, t: Tlv, path: string, out: Vec<OidRow>)
    modifies out
    ensures out.items == old(out.items) + OidsOf(show, t, path)
    decreases t
  {
    hide ChildPath, Oid.DecodedOid, OidsOfAll;
    var dotted: Option<string> := None;
    if t.IsUniversal(6) && t.body.Primitive? {
      dotted := Oid.DecodeOid(t.body.octets);
    }
    if dotted.Some? {
      out.Push(OidRow(dotted.value, show.oidName(dotted.value), path));
    }
    if t.body.Constructed? {
      var children := t.body.children;
      ghost var start := out.items;
      assert children[0..] == children;
      assert start == old(out.items) + OidRowFor(show, t, path);
      for i := 0 to |children|
        invariant start + OidsOfAll(show, children, path, 0) == out.items + OidsOfAll(show, children[i..], path, i)
      {
        OidsStep(show, children, path, i);
        CollectOids(show, children[i], ChildPath(path, i), out);
      }
      OidsEnd(show, children, path);
      assert out.items + [] == out.items;
    }
  }

  lemma OidsStep(show: Display, ts: seq<Tlv>, path: string, i: nat)
    requires i < |ts|
    ensures OidsOfAll(show, ts[i..], path, i)
            == OidsOf(show, ts[i], ChildPath(path, i)) + OidsOfAll(show, ts[i + 1..], path, i + 1)
  {
    hide OidsOf, ChildPath;
    assert ts[i..][0] == ts[i] && ts[i..][1..] == ts[i + 1..];
  }

  lemma OidsEnd(show: Display, ts: seq<Tlv>, path: string)
    ensures OidsOfAll(show, ts[|ts|..], path, |ts|) == []
  {
  }

  /** The rows of the nodes that are decodable OBJECT IDENTIFIERs (universal class, tag 6), in
      order. */
  function OidSublist(show: Display, rows: seq<Row>, ns: seq<Tlv>): seq<OidRow>
    requires |rows| == |ns|
  {
    if rows == [] then []
    else
      var n := ns[0];
      var oid := if n.cls == Universal && n.tag == 6 && n.body.Primitive? then Oid.DecodedOid(n.body.octets) else None;
      (if oid.Some? then [OidRow(oid.value, show.oidName(oid.value), rows[0].path)] else [])
      + OidSublist(show, rows[1..], ns[1..])
  }

  lemma OidRowIs(show: Display, n: Tlv, path: string)
    ensures OidRowFor(show, n, path) ==
            var oid := if n.cls == Universal && n.tag == 6 && n.body.Primitive? then Oid.DecodedOid(n.body.octets)
                       else None;
            if oid.Some? then [OidRow(oid.value, show.oidName(oid.value), path)] else []
  {
    hide Oid.DecodedOid;
  }

  lemma {:induction false} OidSublistAppend(show: Display, rows: seq<Row>, ns: seq<Tlv>, rows': seq<Row>, ns': seq<Tlv>)
    requires |rows| == |ns| && |rows'| == |ns'|
    ensures OidSublist(show, rows + rows', ns + ns') == OidSublist(show, rows, ns) + OidSublist(show, rows', ns')
    decreases |rows|
  {
    hide Oid.DecodedOid;
    if rows == [] {
      assert rows + rows' == rows' && ns + ns' == ns';
    } else {
      assert (rows + rows')[1..] == rows[1..] + rows' && (ns + ns')[1..] == ns[1..] + ns';
      OidSublistAppend(show, rows[1..], ns[1..], rows', ns');
    }
  }

  /** The inventory is exactly the in-order sub-list of rows of decodable OIDs. */
  lemma {:induction false} InventoryIsSublist(show: Display, t: Tlv, path: string)
    ensures |RowsOf(show, t, path)| == |Preorder(t)|
    ensures OidsOf(show, t, path) == OidSublist(show, RowsOf(show, t, path), Preorder(t))
    decreases t
  {
    hide OidRowFor, RowsOfAll, PreorderAll, OidsOfAll, Oid.DecodedOid;
    var row := [RowFor(show, t, path)];
    assert row[1..] == [] && [t][1..] == [];
    OidRowIs(show, t, path);
    assert OidSublist(show, row, [t]) == OidRowFor(show, t, path) + [];
    if t.body.Constructed? {
      var ts := t.body.children;
      InventoryIsSublistAll(show, ts, path, 0);
      OidSublistAppend(show, row, [t], RowsOfAll(show, ts, path, 0), PreorderAll(ts));
    } else {
      assert RowsOf(show, t, path) == row && Preorder(t) == [t];
    }
  }

  lemma {:induction false} InventoryIsSublistAll(show: Display, ts: seq<Tlv>, path: string, i: nat)
    ensures |RowsOfAll(show, ts, path, i)| == |PreorderAll(ts)|
    ensures OidsOfAll(show, ts, path, i) == OidSublist(show, RowsOfAll(show, ts, path, i), PreorderAll(ts))
    decreases ts
  {
    hide OidRowFor, RowsOf, Preorder, OidsOf, ChildPath;
    if ts != [] {
      var here := ChildPath(path, i);
      InventoryIsSublist(show, ts[0], here);
      InventoryIsSublistAll(show, ts[1..], path, i + 1);
      OidSublistAppend(show, RowsOf(show, ts[0], here), Preorder(ts[0]),
                       RowsOfAll(show, ts[1..], path, i + 1), PreorderAll(ts[1..]));
    }
  }
}
