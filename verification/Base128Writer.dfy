/** Writing base-128 numerals through a small fixed stack. */
module Base128Writer {
  import opened Types
  import opened Base128
  import opened Reversal

  /** Append the minimal numeral of `v`: groups are stacked from the least significant one,
      then emitted in reverse. A stack of `capacity` octets suffices below 128^capacity. */
  method PushBase128(out: Vec<Byte>, value: nat, capacity: nat)
    requires capacity >= 1 && value < Pow128(capacity)
    modifies out
    ensures out.items == old(out.items) + Minimal(value)
  {
    var v := value;
    var stack := new Byte[capacity](_ => 0);
    var n := 0;
    stack[n] := v % 128;
    n := n + 1;
    v := v / 128;
    assert stack[..1] == [value % 128] && stack[..1][1..] == [];
    assert Reverse(stack[..1]) == [value % 128];
    HighSize(v, capacity - 1);
    while v > 0
      invariant 1 <= n <= capacity
      invariant n + |High(v)| <= capacity
      invariant Minimal(value) == High(v) + Reverse(stack[..n])
      invariant out.items == old(out.items)
    {
      stack[n] := v % 128 + 128;
      assert stack[..n + 1] == stack[..n] + [v % 128 + 128];
      assert High(v) == High(v / 128) + [v % 128 + 128];
      StackGroup(High(v / 128), v % 128 + 128, stack[..n]);
      n := n + 1;
      v := v / 128;
    }
    assert High(v) + Reverse(stack[..n]) == Reverse(stack[..n]);
    EmitReversed(stack, n, out);
  }

  /** Stacking one more group keeps what is left to write and what is stacked together. */
  lemma StackGroup(left: Octets, b: Byte, stacked: Octets)
    ensures left + [b] + Reverse(stacked) == left + Reverse(stacked + [b])
  {
    ReverseAppend(stacked, b);
    assert left + [b] + Reverse(stacked) == left + ([b] + Reverse(stacked));
  }

  method EmitReversed(stack: array<Byte>, n: nat, out: Vec<Byte>)
    requires n <= stack.Length
    modifies out
    ensures out.items == old(out.items) + Reverse(stack[..n])
  {
    var i := n;
    while i > 0
      invariant 0 <= i <= n
      invariant out.items == old(out.items) + Reverse(stack[i..n])
    {
      i := i - 1;
      assert stack[i..n][1..] == stack[i + 1..n];
      out.Push(stack[i]);
    }
    assert stack[0..n] == stack[..n];
  }
}
