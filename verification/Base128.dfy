/** Big-endian base-128 numerals with continuation bits (tag numbers, OID subidentifiers). */
module Base128 {
  import opened Types

  /** The number read from the octets `s`, most significant group first, on top of `acc`. */
  function ValueFrom(acc: nat, s: Octets): nat
    decreases |s|
  {
    if s == [] then acc else ValueFrom(acc * 128 + s[0] % 128, s[1..])
  }

  function Value(s: Octets): nat { ValueFrom(0, s) }

  /** A minimal base-128 numeral: a continuation bit on every octet but the last, and no
      leading zero group. */
  predicate IsNumeral(s: Octets) {
    && s != []
    && s[0] != 0x80
    && s[|s| - 1] < 0x80
    && forall i | 0 <= i < |s| - 1 :: s[i] >= 0x80
  }

  /** The groups of `v`, each with its continuation bit set; none for zero. */
  function High(v: nat): Octets {
    if v == 0 then [] else High(v / 128) + [v % 128 + 128]
  }

  /** The minimal numeral of `v`. */
  function Minimal(v: nat): Octets {
    High(v / 128) + [v % 128]
  }

  function Pow128(k: nat): nat {
    if k == 0 then 1 else 128 * Pow128(k - 1)
  }

  lemma {:induction false} ValueAppend(acc: nat, s: Octets, b: Byte)
    ensures ValueFrom(acc, s + [b]) == ValueFrom(acc, s) * 128 + b % 128
    decreases |s|
  {
    if s == [] {
      assert (s + [b])[1..] == [];
    } else {
      assert (s + [b])[1..] == s[1..] + [b];
      ValueAppend(acc * 128 + s[0] % 128, s[1..], b);
    }
  }

  lemma {:induction false} HighShape(v: nat)
    ensures forall i | 0 <= i < |High(v)| :: High(v)[i] >= 0x80
    ensures v != 0 ==> High(v) != [] && High(v)[0] != 0x80
    ensures Value(High(v)) == v
  {
    if v != 0 {
      HighShape(v / 128);
      ValueAppend(0, High(v / 128), v % 128 + 128);
    }
  }

  /** The minimal numeral of `v` is a numeral and denotes `v`. */
  lemma MinimalDenotes(v: nat)
    ensures IsNumeral(Minimal(v))
    ensures Value(Minimal(v)) == v
  {
    HighShape(v / 128);
    ValueAppend(0, High(v / 128), v % 128);
  }

  lemma {:induction false} HighUnique(s: Octets)
    requires forall i | 0 <= i < |s| :: s[i] >= 0x80
    requires s == [] || s[0] != 0x80
    ensures High(Value(s)) == s
    decreases |s|
  {
    if s != [] {
      var p, b := s[..|s| - 1], s[|s| - 1];
      assert s == p + [b];
      assert p != [] ==> p[0] == s[0];
      HighUnique(p);
      ValueAppend(0, p, b);
      HighStep(Value(p), b);
    }
  }

  lemma HighStep(v: nat, b: Byte)
    requires b >= 0x80
    requires v == 0 ==> b != 0x80
    ensures High(v * 128 + b % 128) == High(v) + [b]
  {
    var w := v * 128 + b % 128;
    assert w / 128 == v && w % 128 + 128 == b;
  }

  /** Every numeral is the minimal numeral of the number it denotes. */
  lemma NumeralUnique(s: Octets)
    requires IsNumeral(s)
    ensures Minimal(Value(s)) == s
  {
    var p, b := s[..|s| - 1], s[|s| - 1];
    assert s == p + [b];
    HighUnique(p);
    ValueAppend(0, p, b);
    assert Value(s) / 128 == Value(p);
  }

  lemma {:induction false} HighSize(v: nat, k: nat)
    requires v < Pow128(k)
    ensures |High(v)| <= k
    decreases k
  {
    if v != 0 {
      HighSize(v / 128, k - 1);
    }
  }
}
