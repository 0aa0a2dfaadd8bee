/** Bytes, C strings and alignment, shared by the binary formats. */
module Bytes {

  type Byte = x: nat | x < 256 witness 0

  const WORD32: nat := 0x1_0000_0000

  /** Four bytes, most significant first. */
  function Big(n: nat): (r: seq<Byte>)
    ensures |r| == 4
  {
    [n / 0x100_0000 % 0x100, n / 0x1_0000 % 0x100, n / 0x100 % 0x100, n % 0x100]
  }

  lemma {:induction false} ByteShifts(n: nat)
    ensures n / 0x1_0000 == n / 0x100 / 0x100 && n / 0x100_0000 == n / 0x1_0000 / 0x100
  {
  }

  /** Memory beyond the data reads as zero. */
  function At(m: seq<Byte>, i: nat): Byte {
    if i < |m| then m[i] else 0
  }

  function AlignUp4(n: nat): (r: nat)
    ensures n <= r < n + 4 && r % 4 == 0
  {
    (n + 3) / 4 * 4
  }

  lemma {:induction false} AlignedSum(a: nat, n: nat)
    requires a % 4 == 0
    ensures AlignUp4(a + n) == a + AlignUp4(n)
  {
  }

  function Zeros(n: nat): (r: seq<Byte>)
    ensures |r| == n
  {
    if n == 0 then [] else [0] + Zeros(n - 1)
  }

  /** `data` and as many zeros as bring its end to a multiple of four, when `skew` bytes lie before it. */
  function Padded(skew: nat, data: seq<Byte>): (r: seq<Byte>)
    ensures skew + |r| == AlignUp4(skew + |data|)
  {
    data + Zeros(AlignUp4(skew + |data|) - (skew + |data|))
  }

  predicate NulFree(s: seq<Byte>) {
    0 !in s
  }

  /** `strlen` from position `i`. */
  function StrLen(m: seq<Byte>, i: nat): (n: nat)
    ensures At(m, i + n) == 0
    ensures forall j :: i <= j < i + n ==> At(m, j) != 0
    decreases |m| - i
  {
    if At(m, i) == 0 then 0 else 1 + StrLen(m, i + 1)
  }

  /** The loop of `strlen`. */
  method StringLength(m: seq<Byte>, i: nat) returns (n: nat)
    ensures n == StrLen(m, i)
  {
    n := 0;
    while At(m, i + n) != 0
      invariant StrLen(m, i) == n + StrLen(m, i + n)
      decreases |m| - (i + n)
    {
      n := n + 1;
    }
  }

  /** The `n` bytes from `i` on. */
  function Stretch(m: seq<Byte>, i: nat, n: nat): (s: seq<Byte>)
    ensures |s| == n && forall k :: 0 <= k < n ==> s[k] == At(m, i + k)
    decreases n
  {
    if n == 0 then [] else [At(m, i)] + Stretch(m, i + 1, n - 1)
  }

  /** The string at `i`, without its terminator. */
  function CString(m: seq<Byte>, i: nat): seq<Byte> {
    Stretch(m, i, StrLen(m, i))
  }

  /** `part` lies in `m` at `i`. */
  predicate Holds(m: seq<Byte>, i: nat, part: seq<Byte>) {
    i + |part| <= |m| && m[i..i + |part|] == part
  }

  lemma {:induction false} HoldsAt(m: seq<Byte>, i: nat, part: seq<Byte>, k: nat)
    requires Holds(m, i, part) && k < |part|
    ensures At(m, i + k) == part[k]
  {
    assert m[i..i + |part|][k] == m[i + k];
  }

  lemma {:induction false} HoldsParts(m: seq<Byte>, i: nat, a: seq<Byte>, b: seq<Byte>)
    requires Holds(m, i, a + b)
    ensures Holds(m, i, a) && Holds(m, i + |a|, b)
  {
    var s := m[i..i + |a + b|];
    assert m[i..i + |a|] == s[..|a|] == a;
    assert m[i + |a|..i + |a| + |b|] == s[|a|..] == b;
  }

  lemma {:induction false} HoldsPadded(m: seq<Byte>, i: nat, skew: nat, data: seq<Byte>)
    requires Holds(m, i, Padded(skew, data))
    ensures Holds(m, i, data)
  {
    hide Holds, AlignUp4;
    HoldsParts(m, i, data, Zeros(AlignUp4(skew + |data|) - (skew + |data|)));
  }

  lemma {:induction false} StretchAt(m: seq<Byte>, i: nat, part: seq<Byte>)
    requires Holds(m, i, part)
    ensures Stretch(m, i, |part|) == part
  {
    forall k: nat | k < |part|
      ensures Stretch(m, i, |part|)[k] == part[k]
    {
      HoldsAt(m, i, part, k);
    }
  }

  lemma {:induction false} StretchMore(m: seq<Byte>, i: nat, n: nat)
    ensures Stretch(m, i, n + 1) == Stretch(m, i, n) + [At(m, i + n)]
  {
  }

  /** A stored string without NUL, with its terminator, is read back. */
  lemma {:induction false} CStringAt(m: seq<Byte>, i: nat, name: seq<Byte>)
    requires Holds(m, i, name + [0]) && NulFree(name)
    ensures StrLen(m, i) == |name| && CString(m, i) == name
  {
    HoldsAt(m, i, name + [0], |name|);
    var n := StrLen(m, i);
    if n < |name| {
      HoldsAt(m, i, name + [0], n);
      assert name[n] in name;
    }
    HoldsParts(m, i, name, [0]);
    StretchAt(m, i, name);
  }
}
