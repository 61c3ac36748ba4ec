/** INTEGER contents as decimal text and as 64-bit numbers. */
module Integers {
  import opened Types
  import opened Base256
  import opened Reversal
  import opened Text

  /** The two's-complement value of the content octets (X.690 section 8.3); zero when there
      are none. */
  function TwosValue(s: Octets): int {
    if s != [] && s[0] >= 0x80 then Value(s) - Pow256(|s|) else Value(s)
  }

  // ---------- values of slices ----------

  lemma {:induction false} ValueFromSplit(acc: nat, s: Octets)
    ensures ValueFrom(acc, s) == acc * Pow256(|s|) + Value(s)
    decreases |s|
  {
    if s != [] {
      var p, b := s[..|s| - 1], s[|s| - 1];
      assert s == p + [b];
      ValueFromSplit(acc, p);
      ValueAppend(acc, p, b);
      ValueAppend(0, p, b);
    }
  }

  /** The first octet weighs `256^(n-1)`. */
  lemma ValueFirst(b: Byte, s: Octets)
    ensures Value([b] + s) == b * Pow256(|s|) + Value(s)
  {
    assert ([b] + s)[1..] == s;
    ValueFromSplit(b, s);
  }

  lemma {:induction false} ValueBound(s: Octets)
    ensures Value(s) < Pow256(|s|)
    decreases |s|
  {
    if s != [] {
      var p, b := s[..|s| - 1], s[|s| - 1];
      assert s == p + [b];
      ValueBound(p);
      ValueAppend(0, p, b);
    }
  }

  lemma {:induction false} ValueZero(s: Octets)
    ensures Value(s) == 0 <==> forall i | 0 <= i < |s| :: s[i] == 0
    decreases |s|
  {
    if s != [] {
      var p, b := s[..|s| - 1], s[|s| - 1];
      assert s == p + [b];
      ValueZero(p);
      ValueAppend(0, p, b);
    }
  }

  // ---------- unsigned ----------

  /** One pass of long division by ten, in place: quotient left in the array, remainder
      returned. Every cell stays an octet. */
  method DivideByTen(value: array<Byte>) returns (rem: nat)
    modifies value
    ensures rem < 10
    ensures Value(old(value[..])) == 10 * Value(value[..]) + rem
  {
    rem := 0;
    ghost var was := value[..];
    for i := 0 to value.Length
      invariant rem < 10
      invariant value[i..] == was[i..]
      invariant Value(was[..i]) == 10 * Value(value[..i]) + rem
    {
      var cur := rem * 256 + value[i];
      assert value[i] == was[i];
      ghost var before := value[..i];
      value[i] := cur / 10;
      rem := cur % 10;
      assert value[..i] == before;
      assert value[..i + 1] == value[..i] + [value[i]];
      assert was[..i + 1] == was[..i] + [was[i]];
      ValueAppend(0, value[..i], value[i]);
      ValueAppend(0, was[..i], was[i]);
    }
    assert value[..value.Length] == value[..] && was[..|was|] == was;
  }

  method AllZero(value: array<Byte>) returns (zero: bool)
    ensures zero <==> Value(value[..]) == 0
  {
    ValueZero(value[..]);
    for i := 0 to value.Length
      invariant forall j | 0 <= j < i :: value[j] == 0
    {
      if value[i] != 0 {
        return false;
      }
    }
    return true;
  }

  method UnsignedBytesToDecimal(bytes: Octets) returns (r: string)
    ensures r == Decimal(Value(bytes))
  {
    hide Value, Digits, Reverse;
    var value := new Byte[|bytes|](i requires 0 <= i < |bytes| => bytes[i]);
    assert value[..] == bytes;
    var zero := AllZero(value);
    if zero {
      return "0";
    }
    var out := "";
    NoDigits(Value(bytes));
    while !zero
      invariant zero <==> Value(value[..]) == 0
      invariant Digits(Value(bytes)) == Digits(Value(value[..])) + Reverse(out)
      decreases Value(value[..])
    {
      ghost var v := Value(value[..]);
      var rem := DivideByTen(value);
      DigitsStep(v, out);
      out := out + [DigitChar(rem)];
      zero := AllZero(value);
    }
    NoDigits(0);
    assert "" + Reverse(out) == Reverse(out);
    return Reverse(out);
  }

  lemma NoDigits(n: nat)
    ensures Digits(0) == ""
    ensures Digits(n) == Digits(n) + Reverse("")
  {
    hide Digits;
    DigitsOfZero();
    assert Digits(n) + "" == Digits(n);
  }

  lemma DigitsOfZero()
    ensures Digits(0) == ""
  {
  }

  /** The last digit goes from the number to the front of the reversed text. */
  lemma DigitsStep(v: nat, out: string)
    requires v > 0
    ensures Digits(v) + Reverse(out) == Digits(v / 10) + Reverse(out + [DigitChar(v % 10)])
  {
    hide Reverse, Digits;
    var c := DigitChar(v % 10);
    ReverseAppend(out, c);
    LastDigit(v);
    Regrouped(Digits(v / 10), [c], Reverse(out));
  }

  lemma LastDigit(v: nat)
    requires v > 0
    ensures Digits(v) == Digits(v / 10) + [DigitChar(v % 10)]
  {
  }

  lemma Regrouped(a: string, b: string, c: string)
    ensures a + b + c == a + (b + c)
  {
  }

  // ---------- signed ----------

  /** `done` and the carry are the negation of the octets `was`. */
  ghost predicate Negated(done: Octets, was: Octets, carry: nat) {
    |done| == |was| && Value(done) + carry * Pow256(|done|) == Pow256(|done|) - Value(was)
  }

  /** Invert every octet and add one, with the carry running from the last octet. */
  method Negate(bytes: Octets) returns (inv: Octets)
    requires bytes != [] && bytes[0] >= 0x80
    ensures |inv| == |bytes|
    ensures Value(inv) == Pow256(|bytes|) - Value(bytes)
  {
    hide Value, Pow256, Negated;
    var a := new Byte[|bytes|](i requires 0 <= i < |bytes| => 0xff - bytes[i]);
    assert a[|bytes|..] == [] && bytes[|bytes|..] == [];
    NegatedNothing();
    var carry: nat := 1;
    var i := |bytes|;
    while i > 0
      invariant 0 <= i <= |bytes| && carry <= 1
      invariant forall j | 0 <= j < i :: a[j] == 0xff - bytes[j]
      invariant Negated(a[i..], bytes[i..], carry)
    {
      i := i - 1;
      var v: nat := a[i] + carry;
      ghost var rest := a[i + 1..];
      a[i] := v % 256;
      assert a[i..] == [a[i]] + rest && bytes[i..] == [bytes[i]] + bytes[i + 1..];
      NegatedStep(rest, bytes[i + 1..], carry, bytes[i], a[i], v / 256);
      carry := v / 256;
    }
    assert a[0..] == a[..] && bytes[0..] == bytes;
    NegatedAll(a[..], bytes, carry);
    return a[..];
  }

  lemma NegatedNothing()
    ensures Negated([], [], 1)
  {
  }

  lemma NegatedStep(done: Octets, was: Octets, carry: nat, b: Byte, digit: Byte, carry': nat)
    requires Negated(done, was, carry) && digit + 256 * carry' == 0xff - b + carry
    ensures Negated([digit] + done, [b] + was, carry')
  {
    hide Value, Pow256;
    ValueFirst(digit, done);
    ValueFirst(b, was);
    PowStep(|done|);
    CarryStep(digit, carry, carry', b, Pow256(|done|), Value(done), Value(was));
  }

  /** A negative number leaves no carry. */
  lemma NegatedAll(done: Octets, was: Octets, carry: nat)
    requires Negated(done, was, carry) && carry <= 1 && was != [] && was[0] >= 0x80
    ensures Value(done) == Pow256(|was|) - Value(was)
  {
    hide Value, Pow256;
    NegativeIsPositive(was);
    ValueBound(done);
  }

  lemma PowStep(k: nat)
    ensures Pow256(k + 1) == 256 * Pow256(k)
  {
  }

  lemma CarryStep(digit: int, carry: int, carry': int, b: int, p: int, rest: int, was: int)
    requires digit + 256 * carry' == 0xff - b + carry
    requires rest + carry * p == p - was
    ensures digit * p + rest + carry' * (256 * p) == 256 * p - (b * p + was)
  {
    assert (digit + 256 * carry') * p == (0xff - b + carry) * p;
  }

  lemma NegativeIsPositive(s: Octets)
    requires s != [] && s[0] >= 0x80
    ensures 0 < Value(s) < Pow256(|s|)
  {
    ValueBound(s);
    ValueZero(s);
  }

  /** Any number of octets is rendered as its two's-complement value. */
  method IntegerToDecimal(bytes: Octets) returns (r: string)
    ensures r == SignedDecimal(TwosValue(bytes))
  {
    if |bytes| == 0 {
      return "0";
    }
    var negative := bytes[0] >= 0x80;
    var mag := bytes;
    if negative {
      mag := Negate(bytes);
    }
    ghost var magnitude := Value(mag);
    while |mag| > 1 && mag[0] == 0
      invariant |mag| >= 1 && Value(mag) == magnitude
    {
      assert mag == [mag[0]] + mag[1..];
      ValueFirst(mag[0], mag[1..]);
      mag := mag[1..];
    }
    var digits := UnsignedBytesToDecimal(mag);
    ValueBound(bytes);
    if negative && digits != "0" {
      digits := "-" + digits;
    }
    DecimalRead(magnitude);
    return digits;
  }

  /** Shift left by eight as a 64-bit number does, then fill in the low octet. */
  function ShiftIn(v: int, b: Byte): int {
    var w := (v * 256) % 0x1_0000_0000_0000_0000 + b;
    if w >= 0x8000_0000_0000_0000 then w - 0x1_0000_0000_0000_0000 else w
  }

  /** Up to eight octets fit: the result is the value, and it is in the 64-bit range. */
  method IntegerToI64(bytes: Octets) returns (r: Option<int>)
    ensures r == if 1 <= |bytes| <= 8 then Some(TwosValue(bytes)) else None
    ensures r.Some? ==> -0x8000_0000_0000_0000 <= r.value < 0x8000_0000_0000_0000
  {
    if |bytes| == 0 || |bytes| > 8 {
      return None;
    }
    var negative := bytes[0] >= 0x80;
    var v := if negative then -1 else 0;
    for i := 0 to |bytes|
      invariant v == if negative then Value(bytes[..i]) - Pow256(i) else Value(bytes[..i])
    {
      assert bytes[..i + 1] == bytes[..i] + [bytes[i]];
      ValueAppend(0, bytes[..i], bytes[i]);
      PrefixFits(bytes, i + 1);
      v := ShiftIn(v, bytes[i]);
    }
    assert bytes[..|bytes|] == bytes;
    PrefixFits(bytes, |bytes|);
    return Some(v);
  }

  lemma {:induction false} HighBit(s: Octets)
    requires s != []
    ensures s[0] >= 0x80 <==> 2 * Value(s) >= Pow256(|s|)
  {
    assert s == [s[0]] + s[1..];
    ValueFirst(s[0], s[1..]);
    ValueBound(s[1..]);
    HalfStep(s[0], Pow256(|s| - 1), Value(s[1..]));
  }

  lemma HalfStep(b: int, p: int, rest: int)
    requires 0 <= b < 256 && 0 <= rest < p
    ensures b >= 0x80 <==> 2 * (b * p + rest) >= 256 * p
  {
    if b >= 0x80 {
      assert b * p >= 0x80 * p;
    } else {
      assert b * p <= 0x7f * p;
    }
  }

  lemma PrefixFits(s: Octets, k: nat)
    requires 1 <= k <= |s| && k <= 8
    ensures -0x8000_0000_0000_0000 <= TwosValue(s[..k]) < 0x8000_0000_0000_0000
    ensures Pow256(k) <= 0x1_0000_0000_0000_0000
  {
    HighBit(s[..k]);
    ValueBound(s[..k]);
    PowSmall(k);
  }

  lemma {:induction false} PowSmall(k: nat)
    requires k <= 8
    ensures Pow256(k) <= 0x1_0000_0000_0000_0000
  {
    PowMonotone(k, 8);
    assert Pow256(4) == 0x1_0000_0000;
    assert Pow256(8) == 0x1_0000_0000_0000_0000;
  }

  lemma {:induction false} PowMonotone(k: nat, n: nat)
    requires k <= n
    ensures Pow256(k) <= Pow256(n)
    decreases n
  {
    if k < n {
      PowMonotone(k, n - 1);
    }
  }

  // ---------- what the rendering is for ----------

  /** Two integers are rendered alike exactly when they denote the same number. */
  lemma RenderingIsCanonical(a: Octets, b: Octets)
    ensures SignedDecimal(TwosValue(a)) == SignedDecimal(TwosValue(b)) <==> TwosValue(a) == TwosValue(b)
  {
    if SignedDecimal(TwosValue(a)) == SignedDecimal(TwosValue(b)) {
      SignedDecimalInjective(TwosValue(a), TwosValue(b));
    }
  }

  /** Only a minus sign of a negative number may precede the digits; no leading zero, no
      "-0". */
  lemma RenderingShape(s: Octets)
    ensures var r := SignedDecimal(TwosValue(s));
            var body := if TwosValue(s) < 0 then r[1..] else r;
            && (TwosValue(s) < 0 ==> r[0] == '-' && body != "0")
            && body != "" && AllDigits(body)
            && (body[0] == '0' ==> body == "0")
  {
    var v := TwosValue(s);
    DecimalRead(if v < 0 then -v else v);
    if v < 0 {
      assert SignedDecimal(v)[1..] == Decimal(-v);
    }
  }

  /** Sign extension does not change the number: a redundant leading octet is harmless. */
  lemma SignExtension(s: Octets)
    requires s != []
    ensures TwosValue([if s[0] >= 0x80 then 0xff else 0x00] + s) == TwosValue(s)
  {
    ValueFirst(if s[0] >= 0x80 then 0xff else 0x00, s);
  }
}
