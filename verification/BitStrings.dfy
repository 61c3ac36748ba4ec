/** BIT STRING contents as text (X.690 section 8.6). */
module BitStrings {
  import opened Types

  /** `n >> k`. */
  function ShiftRight(n: nat, k: nat): nat {
    if k == 0 then n else ShiftRight(n, k - 1) / 2
  }

  /** `n << k` in unbounded numbers. */
  function ShiftLeft(n: nat, k: nat): nat {
    if k == 0 then n else 2 * ShiftLeft(n, k - 1)
  }

  /** `b & (0x80 >> i) != 0`: bit `i`, counted from the most significant one. */
  predicate BitAt(b: Byte, i: nat)
    requires i < 8
  {
    ShiftRight(b, 7 - i) % 2 == 1
  }

  function BitChar(b: Byte, i: nat): char
    requires i < 8
  {
    if BitAt(b, i) then '1' else '0'
  }

  function AllBits(data: Octets): (s: string)
    ensures |s| == 8 * |data|
  {
    seq(8 * |data|, k requires 0 <= k < 8 * |data| => BitChar(data[k / 8], k % 8))
  }

  /** `bitstring`: the number of unused bits and the octets after it. */
  function Bitstring(bytes: Octets): Option<(Byte, Octets)> {
    if bytes == [] || bytes[0] > 7 then None else Some((bytes[0], bytes[1..]))
  }

  function Dropped(unused: Byte): nat { if unused < 7 then unused else 7 }

  /** `bitstring_bits`; nothing when the subtraction of unused bits underflows. */
  function BitText(unused: Byte, data: Octets): Option<string> {
    if 8 * |data| < Dropped(unused) then None
    else Some(AllBits(data)[..8 * |data| - Dropped(unused)])
  }

  method BitstringBits(unused: Byte, data: Octets) returns (r: Option<string>)
    ensures r == BitText(unused, data)
  {
    hide BitAt;
    if |data| * 8 < Dropped(unused) {
      return None;
    }
    var total := |data| * 8 - Dropped(unused);
    var out := "";
    for i := 0 to |data|
      invariant out == AllBits(data)[..if 8 * i < total then 8 * i else total]
    {
      for bit := 0 to 8
        invariant out == AllBits(data)[..if 8 * i + bit < total then 8 * i + bit else total]
      {
        if i * 8 + bit >= total {
          break;
        }
        assert (8 * i + bit) / 8 == i && (8 * i + bit) % 8 == bit;
        out := out + [BitChar(data[i], bit)];
      }
    }
    return Some(out);
  }

  // ---------- reading the text back ----------

  function BitsValue(s: string): nat {
    if s == "" then 0
    else 2 * BitsValue(s[..|s| - 1]) + if s[|s| - 1] == '1' then 1 else 0
  }

  /** The numbers that each eight binary digits denote. */
  function Packed(s: string): (r: seq<nat>)
    ensures |r| == |s| / 8
  {
    seq(|s| / 8, i requires 0 <= i < |s| / 8 => BitsValue(s[8 * i..8 * i + 8]))
  }

  function Zeros(k: nat): (s: string)
    ensures |s| == k
  {
    if k == 0 then "" else Zeros(k - 1) + "0"
  }

  /** The octets with the last `k` bits cleared. */
  function Cleared(data: Octets, k: nat): (r: seq<nat>)
    ensures |r| == |data|
  {
    if data == [] then []
    else data[..|data| - 1] + [ShiftLeft(ShiftRight(data[|data| - 1], k), k)]
  }

  function FirstBits(b: Byte, n: nat): (s: string)
    requires n <= 8
    ensures |s| == n
    ensures forall i | 0 <= i < n :: s[i] == BitChar(b, i)
  {
    if n == 0 then "" else FirstBits(b, n - 1) + [BitChar(b, n - 1)]
  }

  /** The first binary digits of an octet denote its leading part. */
  lemma {:induction false} FirstBitsValue(b: Byte, n: nat)
    requires n <= 8
    ensures BitsValue(FirstBits(b, n)) == ShiftRight(b, 8 - n)
    decreases n
  {
    if n == 0 {
      NothingLeft(b);
    } else {
      FirstBitsValue(b, n - 1);
      assert FirstBits(b, n)[..n - 1] == FirstBits(b, n - 1);
    }
  }

  lemma NothingLeft(b: Byte)
    ensures ShiftRight(b, 8) == 0
  {
    assert ShiftRight(b, 1) < 128 && ShiftRight(b, 2) < 64;
    assert ShiftRight(b, 3) < 32 && ShiftRight(b, 4) < 16;
    assert ShiftRight(b, 5) < 8 && ShiftRight(b, 6) < 4 && ShiftRight(b, 7) < 2;
  }

  lemma {:induction false} ZerosValue(s: string, k: nat)
    ensures BitsValue(s + Zeros(k)) == ShiftLeft(BitsValue(s), k)
    decreases k
  {
    if k == 0 {
      assert s + "" == s;
    } else {
      ZerosValue(s, k - 1);
      var t := s + Zeros(k);
      assert t[..|t| - 1] == s + Zeros(k - 1);
    }
  }

  lemma OctetSlice(data: Octets, i: nat, n: nat)
    requires i < |data| && n <= 8
    ensures AllBits(data)[8 * i..8 * i + n] == FirstBits(data[i], n)
  {
    hide BitAt;
    forall j | 0 <= j < n
      ensures AllBits(data)[8 * i + j] == FirstBits(data[i], n)[j]
    {
      assert (8 * i + j) / 8 == i && (8 * i + j) % 8 == j;
    }
  }

  lemma OctetBack(b: Byte, k: nat)
    requires k <= 7
    ensures BitsValue(FirstBits(b, 8 - k) + Zeros(k)) == ShiftLeft(ShiftRight(b, k), k)
    ensures BitsValue(FirstBits(b, 8)) == b
  {
    hide BitsValue, FirstBits, Zeros, ShiftLeft;
    FirstBitsValue(b, 8 - k);
    ZerosValue(FirstBits(b, 8 - k), k);
    FirstBitsValue(b, 8);
  }

  /** The text exists exactly when there is data or no unused bit. It has one digit for each
      used bit, and filled up with zeros it gives back the octets, unused bits cleared. */
  lemma BitTextReadsBack(unused: Byte, data: Octets)
    ensures BitText(unused, data).Some? <==> data != [] || unused == 0
    ensures BitText(unused, data).Some? ==>
              var s, k := BitText(unused, data).value, if unused < 7 then unused else 7;
              |s| == 8 * |data| - k && Packed(s + Zeros(k)) == Cleared(data, k)
  {
    hide AllBits, BitsValue, FirstBits, Zeros, ShiftLeft, ShiftRight;
    var k := Dropped(unused);
    if data != [] {
      var s := AllBits(data)[..8 * |data| - k];
      var t := s + Zeros(k);
      forall i | 0 <= i < |data|
        ensures BitsValue(t[8 * i..8 * i + 8]) == Cleared(data, k)[i]
      {
        OctetBack(data[i], k);
        if i < |data| - 1 {
          OctetSlice(data, i, 8);
          assert t[8 * i..8 * i + 8] == AllBits(data)[8 * i..8 * i + 8];
        } else {
          OctetSlice(data, i, 8 - k);
          assert t[8 * i..8 * i + 8] == AllBits(data)[8 * i..8 * i + (8 - k)] + Zeros(k);
        }
      }
    } else {
      NoZeros();
    }
  }

  lemma NoZeros()
    ensures Zeros(0) == ""
  {
  }

  /** A content that is accepted although its bits cannot be told: unused bits, no data. */
  lemma UnusedBitsWithoutData()
    ensures Bitstring([3]) == Some((3, []))
    ensures BitText(3, []) == None
  {
    assert [3][1..] == [];
  }
}
