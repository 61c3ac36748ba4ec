/** Sorting encodings: the order of Rust's octet vectors, and the order of X.690
    section 11.6. */
module ByteOrder {
  import opened Types
  import opened Base256

  /** Rust's `Ord` on `Vec<u8>`: lexicographic, a proper prefix comes first. */
  predicate LexLe(a: Octets, b: Octets)
    decreases |a|
  {
    a == [] || (b != [] && (a[0] < b[0] || (a[0] == b[0] && LexLe(a[1..], b[1..]))))
  }

  predicate Sorted(s: seq<Octets>) {
    forall i, j | 0 <= i < j < |s| :: LexLe(s[i], s[j])
  }

  lemma {:induction false} LexRefl(a: Octets)
    ensures LexLe(a, a)
    decreases |a|
  {
    if a != [] {
      LexRefl(a[1..]);
    }
  }

  lemma {:induction false} LexTotal(a: Octets, b: Octets)
    ensures LexLe(a, b) || LexLe(b, a)
    decreases |a|
  {
    if a != [] && b != [] {
      LexTotal(a[1..], b[1..]);
    }
  }

  lemma {:induction false} LexTrans(a: Octets, b: Octets, c: Octets)
    requires LexLe(a, b) && LexLe(b, c)
    ensures LexLe(a, c)
    decreases |a|
  {
    if a != [] && b != [] && c != [] && a[0] == b[0] == c[0] {
      LexTrans(a[1..], b[1..], c[1..]);
    }
  }

  lemma {:induction false} LexAntisym(a: Octets, b: Octets)
    requires LexLe(a, b) && LexLe(b, a)
    ensures a == b
    decreases |a|
  {
    if a != [] {
      LexAntisym(a[1..], b[1..]);
      assert a == [a[0]] + a[1..] && b == [b[0]] + b[1..];
    }
  }

  // ---------- sorting ----------

  function Insert(x: Octets, s: seq<Octets>): (r: seq<Octets>)
    ensures multiset(r) == multiset(s) + multiset{x}
    decreases |s|
  {
    if s == [] then [x]
    else if LexLe(x, s[0]) then
      assert multiset([x] + s) == multiset{x} + multiset(s);
      [x] + s
    else
      assert s == [s[0]] + s[1..];
      [s[0]] + Insert(x, s[1..])
  }

  /** The sorted rearrangement of `s`: what `encoded.sort()` leaves behind. */
  function Sort(s: seq<Octets>): (r: seq<Octets>)
    ensures multiset(r) == multiset(s)
    decreases |s|
  {
    if s == [] then []
    else
      assert s == [s[0]] + s[1..];
      Insert(s[0], Sort(s[1..]))
  }

  lemma {:induction false} InsertSorted(x: Octets, s: seq<Octets>)
    requires Sorted(s)
    ensures Sorted(Insert(x, s))
    decreases |s|
  {
    if s != [] {
      if LexLe(x, s[0]) {
        forall i | 0 <= i < |s|
          ensures LexLe(x, s[i])
        {
          if i > 0 {
            LexTrans(x, s[0], s[i]);
          }
        }
      } else {
        var t := Insert(x, s[1..]);
        InsertSorted(x, s[1..]);
        LexTotal(x, s[0]);
        forall i | 0 <= i < |t|
          ensures LexLe(s[0], t[i])
        {
          assert t[i] in multiset(t);
          assert t[i] == x || t[i] in s[1..];
        }
      }
    }
  }

  lemma {:induction false} SortSorts(s: seq<Octets>)
    ensures Sorted(Sort(s))
    decreases |s|
  {
    if s != [] {
      SortSorts(s[1..]);
      InsertSorted(s[0], Sort(s[1..]));
    }
  }

  /** A sorted rearrangement is unique: any sorting routine yields the same vector. */
  lemma {:induction false} SortedUnique(a: seq<Octets>, b: seq<Octets>)
    requires Sorted(a) && Sorted(b)
    requires multiset(a) == multiset(b)
    ensures a == b
    decreases |a|
  {
    hide LexLe;
    assert |multiset(a)| == |a| && |multiset(b)| == |b|;
    if a != [] {
      SortedFirst(a, b);
      SortedFirst(b, a);
      LexAntisym(a[0], b[0]);
      assert a == [a[0]] + a[1..] && b == [b[0]] + b[1..];
      assert multiset(a[1..]) == multiset(a) - multiset{a[0]};
      assert multiset(b[1..]) == multiset(b) - multiset{b[0]};
      SortedUnique(a[1..], b[1..]);
    }
  }

  lemma SortedFirst(a: seq<Octets>, b: seq<Octets>)
    requires Sorted(a) && a != [] && b != [] && multiset(a) == multiset(b)
    ensures LexLe(a[0], b[0])
  {
    hide LexLe;
    assert b[0] in multiset(b);
    assert b[0] in a;
    LexRefl(a[0]);
  }

  /** Sorting what is sorted changes nothing. */
  lemma SortFixed(s: seq<Octets>)
    requires Sorted(s)
    ensures Sort(s) == s
  {
    SortSorts(s);
    SortedUnique(Sort(s), s);
  }

  // ---------- X.690 section 11.6 ----------

  /** The order of section 11.6: compare as octet strings, the shorter one padded at its end
      with zero octets. */
  predicate PaddedLe(a: Octets, b: Octets) {
    if |a| <= |b| then LexLe(a + Zeros(|b| - |a|), b) else LexLe(a, b + Zeros(|a| - |b|))
  }

  /** On octet strings of which neither is a proper prefix of the other, the two orders agree
      and tie only equal strings. */
  lemma {:induction false} PaddedIsLex(a: Octets, b: Octets)
    requires !(a < b) && !(b < a)
    ensures PaddedLe(a, b) <==> LexLe(a, b)
    decreases |a|
  {
    if a != [] && b != [] && a[0] == b[0] {
      var a', b' := a[1..], b[1..];
      assert a == [a[0]] + a' && b == [b[0]] + b';
      PaddedIsLex(a', b');
      assert (a + Zeros(if |a| <= |b| then |b| - |a| else 0))[1..]
          == a' + Zeros(if |a| <= |b| then |b| - |a| else 0);
      assert (b + Zeros(if |b| <= |a| then |a| - |b| else 0))[1..]
          == b' + Zeros(if |b| <= |a| then |a| - |b| else 0);
      assert a' + Zeros(0) == a' && b' + Zeros(0) == b';
    } else if a == [] {
      assert a <= b;
    }
  }

  /** Then ties in the padded order are ties of equal strings only. */
  lemma PaddedTiesEqual(a: Octets, b: Octets)
    requires !(a < b) && !(b < a)
    requires PaddedLe(a, b) && PaddedLe(b, a)
    ensures a == b
  {
    PaddedIsLex(a, b);
    PaddedIsLex(b, a);
    LexAntisym(a, b);
  }

  /** Without that condition they differ: the padded order ties these two strings. */
  lemma PaddedTiesPrefixes()
    ensures PaddedLe([1, 0], [1]) && PaddedLe([1], [1, 0]) && !LexLe([1, 0], [1])
  {
    assert [1] + Zeros(1) == [1, 0];
    assert [1, 0][1..] == [0] && [1][1..] == [];
  }
}
