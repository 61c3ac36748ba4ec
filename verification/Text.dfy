/** Decimal numerals and separated lists, as the standard library prints and parses them. */
module Text {
  import opened Types

  predicate IsDigit(c: char) { '0' <= c <= '9' }

  predicate AllDigits(s: string) { forall i | 0 <= i < |s| :: IsDigit(s[i]) }

  function DigitChar(d: nat): (c: char)
    requires d < 10
    ensures IsDigit(c)
  {
    (48 + d) as char
  }

  function DigitValue(c: char): (d: nat)
    requires IsDigit(c)
    ensures d < 10
  {
    c as int - 48
  }

  /** The digits of `n` without leading zeros: none for zero. */
  function Digits(n: nat): string {
    if n == 0 then "" else Digits(n / 10) + [DigitChar(n % 10)]
  }

  /** `n.to_string()`. */
  function Decimal(n: nat): string {
    if n == 0 then "0" else Digits(n)
  }

  /** `n.to_string()` of a signed number. */
  function SignedDecimal(n: int): string {
    if n < 0 then "-" + Decimal(-n) else Decimal(n)
  }

  function ReadDigits(acc: nat, s: string): nat
    requires AllDigits(s)
    decreases |s|
  {
    if s == "" then acc else ReadDigits(acc * 10 + DigitValue(s[0]), s[1..])
  }

  /** `s.parse()` to an unsigned type whose greatest value is `max`: an optional plus sign,
      at least one digit, nothing else, and no overflow. */
  function ParseUnsigned(s: string, max: nat): (r: Option<nat>)
    ensures r.Some? ==> r.value <= max
  {
    var body := if |s| > 1 && s[0] == '+' then s[1..] else s;
    if body == "" || !AllDigits(body) || ReadDigits(0, body) > max then None
    else Some(ReadDigits(0, body))
  }

  lemma {:induction false} ReadDigitsAppend(acc: nat, s: string, c: char)
    requires AllDigits(s) && IsDigit(c)
    ensures AllDigits(s + [c])
    ensures ReadDigits(acc, s + [c]) == ReadDigits(acc, s) * 10 + DigitValue(c)
    decreases |s|
  {
    if s == "" {
      assert (s + [c])[1..] == "";
    } else {
      assert (s + [c])[1..] == s[1..] + [c];
      ReadDigitsAppend(acc * 10 + DigitValue(s[0]), s[1..], c);
    }
  }

  lemma {:induction false} DigitsRead(n: nat)
    ensures AllDigits(Digits(n)) && ReadDigits(0, Digits(n)) == n
    ensures n > 0 ==> Digits(n) != "" && Digits(n)[0] != '0'
  {
    if n > 0 {
      DigitsRead(n / 10);
      ReadDigitsAppend(0, Digits(n / 10), DigitChar(n % 10));
    }
  }

  /** A printed number is all digits, has no leading zero, and reads back. */
  lemma DecimalRead(n: nat)
    ensures var s := Decimal(n);
            && s != "" && AllDigits(s) && ReadDigits(0, s) == n
            && (s[0] == '0' ==> s == "0")
  {
    DigitsRead(n);
    if n == 0 {
      assert "0"[1..] == "";
    }
  }

  /** Digits are read with or without a plus sign, leading zeros or not, up to the maximum. */
  lemma DigitsParse(s: string, max: nat)
    requires s != "" && AllDigits(s)
    ensures ParseUnsigned(s, max) == if ReadDigits(0, s) <= max then Some(ReadDigits(0, s)) else None
    ensures ParseUnsigned("+" + s, max) == ParseUnsigned(s, max)
  {
    hide ReadDigits;
    assert IsDigit(s[0]) && ("+" + s)[1..] == s;
  }

  lemma DecimalParses(n: nat, max: nat)
    ensures ParseUnsigned(Decimal(n), max) == if n <= max then Some(n) else None
  {
    hide Decimal, ReadDigits;
    DecimalRead(n);
    assert IsDigit(Decimal(n)[0]);
  }

  lemma DecimalInjective(n: nat, m: nat)
    requires Decimal(n) == Decimal(m)
    ensures n == m
  {
    hide Decimal;
    DecimalRead(n);
    DecimalRead(m);
  }

  /** Different numbers print differently, and zero never with a sign. */
  lemma SignedDecimalInjective(n: int, m: int)
    requires SignedDecimal(n) == SignedDecimal(m)
    ensures n == m
  {
    hide Decimal;
    var a, b := if n < 0 then -n else n, if m < 0 then -m else m;
    DecimalRead(a);
    DecimalRead(b);
    assert Decimal(a)[0] != '-' && Decimal(b)[0] != '-';
    assert (n < 0) == (m < 0);
    assert Decimal(a) == if n < 0 then SignedDecimal(n)[1..] else SignedDecimal(n);
    assert Decimal(b) == if m < 0 then SignedDecimal(m)[1..] else SignedDecimal(m);
    DecimalInjective(a, b);
  }

  // ---------- trimming ----------

  /** The characters with the Unicode property White_Space. */
  predicate IsWhitespace(c: char) {
    || '\t' <= c <= '\r' || c == ' ' || c == '\U{85}' || c == '\U{A0}' || c == '\U{1680}'
    || '\U{2000}' <= c <= '\U{200A}' || c == '\U{2028}' || c == '\U{2029}'
    || c == '\U{202F}' || c == '\U{205F}' || c == '\U{3000}'
  }

  /** `s.trim()`. */
  function Trim(s: string): string {
    if s == "" then ""
    else if IsWhitespace(s[0]) then Trim(s[1..])
    else if IsWhitespace(s[|s| - 1]) then Trim(s[..|s| - 1])
    else s
  }

  /** Trimming removes exactly the white space around a text. */
  lemma {:induction false} TrimIs(before: string, core: string, after: string)
    requires forall k | 0 <= k < |before| :: IsWhitespace(before[k])
    requires forall k | 0 <= k < |after| :: IsWhitespace(after[k])
    requires core != "" ==> !IsWhitespace(core[0]) && !IsWhitespace(core[|core| - 1])
    ensures Trim(before + core + after) == core
    decreases |before|, |after|
  {
    hide IsWhitespace;
    var s := before + core + after;
    if before != "" {
      assert s[0] == before[0] && s[1..] == before[1..] + core + after;
      TrimIs(before[1..], core, after);
    } else if after != "" {
      assert s == core + after;
      if core == "" {
        assert s[0] == after[0] && s[1..] == "" + "" + after[1..];
        TrimIs("", core, after[1..]);
      } else {
        assert s[0] == core[0] && s[|s| - 1] == after[|after| - 1];
        assert s[..|s| - 1] == before + core + after[..|after| - 1];
        TrimIs(before, core, after[..|after| - 1]);
      }
    } else {
      assert s == core;
    }
  }

  // ---------- separated lists ----------

  /** `s.split(c)`. */
  function Split(s: string, c: char): (parts: seq<string>)
    ensures parts != []
  {
    if s == "" then [""]
    else
      var rest := Split(s[1..], c);
      if s[0] == c then [""] + rest else [[s[0]] + rest[0]] + rest[1..]
  }

  function Join(parts: seq<string>, c: char): string
    requires parts != []
  {
    if |parts| == 1 then parts[0] else parts[0] + [c] + Join(parts[1..], c)
  }

  lemma {:induction false} SplitNone(s: string, c: char)
    requires c !in s
    ensures Split(s, c) == [s]
  {
    if s != "" {
      SplitNone(s[1..], c);
      assert [s[0]] + s[1..] == s;
    }
  }

  lemma SplitStep(s: string, c: char)
    requires s != ""
    ensures Split(s, c) == Grow(s[0], c, Split(s[1..], c))
  {
  }

  function Grow(x: char, c: char, parts: seq<string>): seq<string>
    requires parts != []
  {
    if x == c then [""] + parts else [[x] + parts[0]] + parts[1..]
  }

  lemma GrowAppend(x: char, c: char, p: seq<string>, q: seq<string>)
    requires p != []
    ensures Grow(x, c, p + q) == Grow(x, c, p) + q
  {
    assert (p + q)[0] == p[0] && (p + q)[1..] == p[1..] + q;
  }

  lemma {:induction false} SplitAt(a: string, b: string, c: char)
    ensures Split(a + [c] + b, c) == Split(a, c) + Split(b, c)
  {
    hide Split, Grow;
    var s := a + [c] + b;
    SplitStep(s, c);
    if a == "" {
      assert s[1..] == b;
      SplitSeparator(b, c);
    } else {
      assert s[1..] == a[1..] + [c] + b;
      SplitStep(a, c);
      SplitAt(a[1..], b, c);
      GrowAppend(a[0], c, Split(a[1..], c), Split(b, c));
    }
  }

  lemma SplitSeparator(b: string, c: char)
    ensures Grow(c, c, Split(b, c)) == Split("", c) + Split(b, c)
  {
  }

  /** Splitting undoes joining when no part contains the separator. */
  lemma {:induction false} SplitJoin(parts: seq<string>, c: char)
    requires parts != []
    requires forall i | 0 <= i < |parts| :: c !in parts[i]
    ensures Split(Join(parts, c), c) == parts
  {
    SplitNone(parts[0], c);
    if |parts| > 1 {
      SplitAt(parts[0], Join(parts[1..], c), c);
      SplitJoin(parts[1..], c);
    }
  }

  lemma DecimalHasNo(n: nat, c: char)
    requires !IsDigit(c)
    ensures c !in Decimal(n)
  {
    DecimalRead(n);
  }
}
