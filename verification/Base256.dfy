/** Big-endian base-256 numerals (length octets, INTEGER contents). */
module Base256 {
  import opened Types

  function ValueFrom(acc: nat, s: Octets): nat
    decreases |s|
  {
    if s == [] then acc else ValueFrom(acc * 256 + s[0], s[1..])
  }

  /** The number denoted by the octets `s`, most significant octet first. */
  function Value(s: Octets): nat { ValueFrom(0, s) }

  /** The low `k` octets of `v`, most significant first. */
  function Fixed(v: nat, k: nat): (s: Octets)
    ensures |s| == k
    decreases k
  {
    if k == 0 then [] else Fixed(v / 256, k - 1) + [v % 256]
  }

  /** The significant octets of `v`: none for zero, otherwise no leading zero octet. */
  function Significant(v: nat): Octets {
    if v == 0 then [] else Significant(v / 256) + [v % 256]
  }

  function Pow256(k: nat): (p: nat)
    ensures p > 0
  {
    if k == 0 then 1 else 256 * Pow256(k - 1)
  }

  function Zeros(k: nat): (s: Octets)
    ensures |s| == k
    ensures forall i | 0 <= i < k :: s[i] == 0
  {
    seq(k, _ => 0)
  }

  lemma {:induction false} ValueAppend(acc: nat, s: Octets, b: Byte)
    ensures ValueFrom(acc, s + [b]) == ValueFrom(acc, s) * 256 + b
    decreases |s|
  {
    if s == [] {
      assert (s + [b])[1..] == [];
    } else {
      assert (s + [b])[1..] == s[1..] + [b];
      ValueAppend(acc * 256 + s[0], s[1..], b);
    }
  }

  /** `Fixed` has no more than `k` significant octets exactly when nothing is lost. */
  lemma {:induction false} SignificantSize(v: nat, k: nat)
    ensures |Significant(v)| <= k <==> v < Pow256(k)
    decreases k
  {
    if v != 0 && k != 0 {
      SignificantSize(v / 256, k - 1);
    }
  }

  lemma {:induction false} FixedValue(v: nat, k: nat)
    requires |Significant(v)| <= k
    ensures Value(Fixed(v, k)) == v
    decreases k
  {
    if k != 0 {
      FixedValue(v / 256, k - 1);
      ValueAppend(0, Fixed(v / 256, k - 1), v % 256);
    }
  }

  lemma {:induction false} FixedUnique(s: Octets)
    ensures Fixed(Value(s), |s|) == s
    ensures |Significant(Value(s))| <= |s|
    decreases |s|
  {
    if s != [] {
      var p, b := s[..|s| - 1], s[|s| - 1];
      assert s == p + [b];
      FixedUnique(p);
      ValueAppend(0, p, b);
      assert Value(s) / 256 == Value(p) && Value(s) % 256 == b;
    }
  }

  lemma {:induction false} SignificantFirst(v: nat)
    requires v != 0
    ensures Significant(v) != [] && Significant(v)[0] != 0
  {
    if v / 256 != 0 {
      SignificantFirst(v / 256);
    }
  }

  lemma {:induction false} FixedIsPadded(v: nat, k: nat)
    requires |Significant(v)| <= k
    ensures Fixed(v, k) == Zeros(k - |Significant(v)|) + Significant(v)
    decreases k
  {
    if k != 0 {
      FixedIsPadded(v / 256, k - 1);
      if v == 0 {
        assert Fixed(v, k) == Zeros(k - 1) + [0] == Zeros(k);
      }
    }
  }

  /** Fewer octets never denote more: the significant size is monotone. */
  lemma {:induction false} SignificantMonotone(v: nat, w: nat)
    requires v <= w
    ensures |Significant(v)| <= |Significant(w)|
    decreases w
  {
    if v != 0 {
      SignificantMonotone(v / 256, w / 256);
    }
  }
}
