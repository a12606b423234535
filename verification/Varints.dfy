/**
  Base 128 varints: the writer and its closed-form size, the reader, and what each of them computes.
 */
module Varints {
  import opened Bits
  import opened Buffer
  import opened Errors

  // ---------------------------------------------------------------- writing

  /** The canonical varint of `v`: 7-bit groups, least significant first. */
  function Varint(v: nat): (s: Bytes)
    ensures |s| >= 1
  {
    if v < 128 then [v] else [v % 128 + 128] + Varint(v / 128)
  }

  /** `sovCompany`: the size formula. */
  function Sov(v: nat): nat {
    (Len64(Or(v, 1)) + 6) / 7
  }

  lemma {:induction false} SovIsLength(v: nat)
    ensures Sov(v) == |Varint(v)|
  {
    hide Or;
    if v < 128 {
      OrOne(v);
      assert Len64(Or(v, 1)) == 1 || Len64(Or(v, 1)) >= 2;
      LenSmall(Or(v, 1));
    } else {
      SovIsLength(v / 128);
      OrOne(v);
      OrOne(v / 128);
      LenSeven(Or(v, 1));
      LenOdd(v / 128);
      assert Or(v, 1) / 128 == v / 128;
    }
  }

  lemma LenTwo(x: nat)
    ensures Len64(x) == if x >= 4 then 2 + Len64(x / 4) else if x >= 2 then 2 else x
  {
    if x >= 4 {
      var h := x / 2;
      assert h / 2 == x / 4;
      assert Len64(h) == 1 + Len64(h / 2);
    } else if x >= 2 {
      assert x / 2 == 1 && Len64(1) == 1;
    }
  }

  lemma LenSmall(x: nat)
    ensures 1 <= x < 128 ==> 1 <= Len64(x) <= 7
  {
    LenTwo(x);
    LenTwo(x / 4);
    LenTwo(x / 4 / 4);
  }

  lemma LenSeven(x: nat)
    ensures x >= 128 ==> Len64(x) == Len64(x / 128) + 7
  {
    LenTwo(x);
    LenTwo(x / 4);
    LenTwo(x / 4 / 4);
    assert x / 4 / 4 / 4 / 2 == x / 128;
  }

  /** Setting the lowest bit does not change the length of a positive number. */
  lemma LenOdd(x: nat)
    ensures x > 0 ==> Len64(Or(x, 1)) == Len64(x)
  {
    OrOne(x);
    assert Or(x, 1) / 2 == x / 2;
  }

  /** `encodeVarintCompany`: writes the varint of `v` so that it ends at `offset`. */
  method EncodeVarint(dAtA: array<byte>, offset: int, v: uint64) returns (base: int)
    requires Sov(v) <= offset <= dAtA.Length
    modifies dAtA
    ensures base == offset - Sov(v)
    ensures Filled(old(dAtA[..]), dAtA[..], base, offset, Varint(v))
  {
    hide Varint, Sov;
    SovIsLength(v);
    var at := offset - Sov(v);
    base := at;
    var u := v;
    ghost var before := dAtA[..];
    ghost var done: Bytes := [];
    assert before == before[..base] + done + before[at..];
    while u >= 128
      invariant 0 <= u < TWO64
      invariant 0 <= base <= at && at + |Varint(u)| == offset
      invariant |done| == at - base && done + Varint(u) == Varint(v)
      invariant dAtA[..] == before[..base] + done + before[at..]
    {
      dAtA[at] := u % 128 + 128;
      FilledFurther(before, done, base, at, u % 128 + 128);
      VarintFirst(done, u);
      done := done + [u % 128 + 128];
      u := u / 128;
      at := at + 1;
    }
    dAtA[at] := u;
    VarintFirst(done, u);
    FilledFurther(before, done, base, at, u);
  }

  lemma VarintFirst(done: Bytes, u: uint64)
    ensures u < 128 ==> Varint(u) == [u]
    ensures u >= 128 ==>
              && |Varint(u)| == 1 + |Varint(u / 128)|
              && done + Varint(u) == (done + [u % 128 + 128]) + Varint(u / 128)
  {
    if u >= 128 {
      var first: Bytes, rest: Bytes := [u % 128 + 128], Varint(u / 128);
      assert Varint(u) == first + rest;
      hide Varint;
      assert done + (first + rest) == (done + first) + rest;
    }
  }

  lemma FilledFurther(before: Bytes, done: Bytes, base: nat, at: nat, b: byte)
    requires base + |done| == at < |before|
    ensures (before[..base] + done + before[at..])[at := b] == before[..base] + (done + [b]) + before[at + 1..]
  {
  }

  // ---------------------------------------------------------------- reading

  /**
    What the reader loop has accumulated when it stops (`value`, before truncation to the width
    of the variable), how many bytes it has consumed, and why it stopped.
   */
  datatype Read = Read(value: nat, n: nat, err: Error)

  /** The reader loop entered with `k` groups already consumed. */
  function ReadVarint(s: Bytes, k: nat := 0): (r: Read)
    requires k <= 10
    ensures r.n <= |s| && k + r.n <= 10
    ensures r.err == Nil ==> r.n >= 1
    ensures r.err in {Nil, IntOverflow, UnexpectedEOF}
    decreases 10 - k
  {
    if k == 10 then Read(0, 0, IntOverflow)
    else if s == [] then Read(0, 0, UnexpectedEOF)
    else if s[0] < 128 then Read(s[0], 1, Nil)
    else
      var r := ReadVarint(s[1..], k + 1);
      Read(s[0] - 128 + 128 * r.value, 1 + r.n, r.err)
  }

  /** Reading what was written gives the value back and stops right behind it. */
  lemma {:induction false} VarintInverse(v: nat, rest: Bytes, k: nat)
    requires k + |Varint(v)| <= 10
    ensures ReadVarint(Varint(v) + rest, k) == Read(v, |Varint(v)|, Nil)
  {
    if v >= 128 {
      VarintInverse(v / 128, rest, k + 1);
      assert (Varint(v) + rest)[1..] == Varint(v / 128) + rest;
    }
  }

  /** Every 64-bit value fits in ten groups. */
  lemma VarintShort(v: uint64)
    ensures 1 <= |Varint(v)| <= 10
    ensures v < TWO63 ==> |Varint(v)| <= 9
  {
    Widths();
    Pow2Seven(63);
    VarintBound(v, 10);
    if v < TWO63 {
      VarintBound(v, 9);
    }
  }

  lemma {:induction false} VarintBound(v: nat, k: nat)
    requires 1 <= k && v < Pow2(7 * k)
    ensures |Varint(v)| <= k
  {
    if v >= 128 {
      assert Pow2(7 * k) == 128 * Pow2(7 * k - 7) by {
        Pow2Seven(7 * k - 7);
      }
      assert k > 1 by {
        assert Pow2(7) == 128;
      }
      VarintBound(v / 128, k - 1);
    }
  }

  lemma Pow2Seven(n: nat)
    ensures Pow2(n + 7) == 128 * Pow2(n)
  {
    assert Pow2(n + 2) == 4 * Pow2(n);
    assert Pow2(n + 4) == 4 * Pow2(n + 2);
    assert Pow2(n + 6) == 4 * Pow2(n + 4);
  }

  /** The groups of the first `n` bytes, each shifted to its place. */
  function Groups(s: Bytes, n: nat): nat
    requires n <= |s|
  {
    if n == 0 then 0 else Groups(s, n - 1) + Shl(s[n - 1] % 128, 7 * (n - 1))
  }

  /** The first `n` bytes all carry the continuation bit. */
  predicate Continued(s: Bytes, n: nat) {
    n <= |s| && forall i :: 0 <= i < n ==> s[i] >= 128
  }

  /** Where the reader stops, and why, on every input. */
  lemma {:induction false} ReaderStops(s: Bytes, k: nat)
    requires k <= 10
    ensures var r := ReadVarint(s, k);
            && (r.err == IntOverflow <==> Continued(s, 10 - k))
            && (r.err == UnexpectedEOF <==> |s| < 10 - k && Continued(s, |s|))
            && (r.err == IntOverflow ==> r.n == 10 - k)
            && (r.err == UnexpectedEOF ==> r.n == |s|)
            && (r.err == Nil <==> 1 <= r.n && Continued(s, r.n - 1) && s[r.n - 1] < 128)
    decreases 10 - k
  {
    hide Continued;
    ContinuedFirst(s);
    if k < 10 && s != [] && s[0] >= 128 {
      ReaderStops(s[1..], k + 1);
      var r := ReadVarint(s[1..], k + 1);
      ContinuedRest(s, 10 - k);
      ContinuedRest(s, |s|);
      if r.n >= 1 {
        ContinuedRest(s, r.n);
        assert s[r.n] == s[1..][r.n - 1];
      }
    }
  }

  lemma ContinuedFirst(s: Bytes)
    ensures Continued(s, 0)
    ensures forall n: nat :: n > 0 && Continued(s, n) ==> n <= |s| && s[0] >= 128
  {
  }

  lemma ContinuedRest(s: Bytes, n: nat)
    requires s != [] && s[0] >= 128 && n > 0
    ensures Continued(s, n) <==> Continued(s[1..], n - 1)
  {
    assert forall i :: 1 <= i < |s| ==> s[i] == s[1..][i - 1];
  }

  /** What the reader has accumulated is the sum of the shifted groups it consumed. */
  lemma {:induction false} ReaderSum(s: Bytes, k: nat)
    requires k <= 10
    ensures ReadVarint(s, k).value == Groups(s, ReadVarint(s, k).n)
    decreases 10 - k
  {
    hide Shl, Groups;
    NoGroups(s);
    if k == 10 || s == [] {
    } else if s[0] < 128 {
      GroupsFromFront(s, 1);
      NoGroups(s[1..]);
    } else {
      ReaderSum(s[1..], k + 1);
      GroupsFromFront(s, ReadVarint(s, k).n);
    }
  }

  lemma NoGroups(s: Bytes)
    ensures Groups(s, 0) == 0
  {
  }

  lemma {:induction false} GroupsFromFront(s: Bytes, n: nat)
    requires 1 <= n <= |s|
    ensures Groups(s, n) == s[0] % 128 + 128 * Groups(s[1..], n - 1)
  {
    if n > 1 {
      GroupsFromFront(s, n - 1);
      var c := s[n - 1] % 128;
      assert s[1..][n - 2] == s[n - 1];
      ShlGroup(0, c, 7 * (n - 2));
      ShlOfZero(7 * (n - 2));
      ShlSeven(c, 7 * (n - 2));
    } else {
      assert Groups(s, 1) == Groups(s, 0) + Shl(s[0] % 128, 0);
    }
  }

  lemma {:induction false} ShlOfZero(s: nat)
    ensures Shl(0, s) == 0
  {
    if s > 0 {
      ShlOfZero(s - 1);
    }
  }

  lemma ShlSeven(x: nat, s: nat)
    ensures Shl(x, s + 7) == 128 * Shl(x, s)
  {
    assert Shl(x, s + 2) == 4 * Shl(x, s);
    assert Shl(x, s + 4) == 4 * Shl(x, s + 2);
    assert Shl(x, s + 6) == 4 * Shl(x, s + 4);
  }

  /** More input behind a complete varint changes nothing. */
  lemma {:induction false} ReadExtends(s: Bytes, t: Bytes, k: nat)
    requires k <= 10 && ReadVarint(s, k).err == Nil
    ensures ReadVarint(s + t, k) == ReadVarint(s, k)
    decreases 10 - k
  {
    if s[0] >= 128 {
      ReadExtends(s[1..], t, k + 1);
      assert (s + t)[1..] == s[1..] + t;
    }
  }

  /** A varint depends only on the bytes it consumes. */
  lemma {:induction false} ReadTruncates(s: Bytes, k: nat)
    requires k <= 10 && ReadVarint(s, k).err == Nil
    ensures ReadVarint(s[..ReadVarint(s, k).n], k) == ReadVarint(s, k)
    decreases 10 - k
  {
    if s[0] >= 128 {
      ReadTruncates(s[1..], k + 1);
      var n := ReadVarint(s, k).n;
      assert s[..n][1..] == s[1..][..n - 1];
    }
  }

  /** No accepted encoding of a value is shorter than the canonical one. */
  lemma Minimal(s: Bytes)
    requires ReadVarint(s).err == Nil
    ensures Sov(Wrap64(ReadVarint(s).value)) <= ReadVarint(s).n
  {
    var r := ReadVarint(s);
    if r.n < 10 {
      ReadBound(s, 0);
      Widths();
      Pow2Monotone(7 * r.n, 63);
      MinimalFrom(s, 0);
      assert Wrap64(r.value) == r.value;
      SovIsLength(r.value);
    } else {
      SovIsLength(Wrap64(r.value));
      VarintShort(Wrap64(r.value));
    }
  }

  lemma {:induction false} MinimalFrom(s: Bytes, k: nat)
    requires k <= 10 && ReadVarint(s, k).err == Nil
    ensures |Varint(ReadVarint(s, k).value)| <= ReadVarint(s, k).n
    decreases 10 - k
  {
    if s[0] >= 128 {
      MinimalFrom(s[1..], k + 1);
    }
  }

  lemma Pow2Small()
    ensures Pow2(0) == 1 && Pow2(7) == 128
  {
    Pow2Seven(0);
  }

  lemma {:induction false} ReadBound(s: Bytes, k: nat)
    requires k <= 10
    ensures ReadVarint(s, k).value < Pow2(7 * ReadVarint(s, k).n)
    decreases 10 - k
  {
    hide Pow2;
    Pow2Small();
    if k < 10 && s != [] {
      if s[0] >= 128 {
        ReadBound(s[1..], k + 1);
        Pow2Seven(7 * ReadVarint(s[1..], k + 1).n);
      }
    }
  }

  lemma {:induction false} Pow2Monotone(m: nat, n: nat)
    requires m <= n
    ensures Pow2(m) <= Pow2(n)
    decreases n - m
  {
    if m < n {
      Pow2Monotone(m, n - 1);
    }
  }

  // ---------------------------------------------------------------- the reader loops

  /**
    The three ways out of a reader loop that has consumed `k` continued groups: what `ReadVarint`
    specifies is what the loop has found.
   */
  lemma ReaderFinds(s: Bytes, k: nat)
    requires k <= 10 && Continued(s, k)
    ensures k == 10 ==> ReadVarint(s) == Read(Groups(s, k), k, IntOverflow)
    ensures k < 10 && k == |s| ==> ReadVarint(s) == Read(Groups(s, k), k, UnexpectedEOF)
    ensures k < 10 && k < |s| && s[k] < 128 ==> ReadVarint(s) == Read(Groups(s, k + 1), k + 1, Nil)
  {
    hide ReadVarint, Groups;
    ReaderStops(s, 0);
    ReaderSum(s, 0);
    var r := ReadVarint(s);
    if k < 10 && k < |s| && s[k] < 128 {
      assert r.err == Nil;
      assert r.n == k + 1;
    }
  }

  lemma {:induction false} GroupsBound(s: Bytes, n: nat)
    requires n <= |s|
    ensures Groups(s, n) < Pow2(7 * n)
  {
    if n > 0 {
      GroupsBound(s, n - 1);
      ShlBound(s[n - 1] % 128, 7 * (n - 1));
    }
  }

  /** The seven bits of the byte at `k` are shifted and or-ed into a 64-bit variable. */
  method OrGroup64(x: uint64, b: byte, shift: nat, ghost s: Bytes, ghost k: nat) returns (y: uint64)
    requires k < |s| && s[k] == b && shift == 7 * k && x == Wrap64(Groups(s, k))
    ensures y == Wrap64(Groups(s, k + 1))
  {
    hide Or;
    GroupsBound(s, k);
    OrGroupMod(Groups(s, k), b % 128, shift);
    y := Or64(x, Shl(b % 128, shift));
  }

  /** The loop that reads a 64-bit varint: tags, lengths and bools. */
  method ReadUint64(dAtA: Bytes, start: nat) returns (x: uint64, iNdEx: nat, err: Error)
    requires start <= |dAtA|
    ensures var r := ReadVarint(dAtA[start..]);
            x == Wrap64(r.value) && iNdEx == start + r.n && err == r.err
  {
    hide Or;
    x, iNdEx := 0, start;
    var shift := 0;
    ghost var s, k := dAtA[start..], 0;
    while true
      invariant 0 <= k <= 10 && shift == 7 * k && iNdEx == start + k
      invariant Continued(s, k) && x == Wrap64(Groups(s, k))
      decreases 10 - k
    {
      ReaderFinds(s, k);
      if shift >= 64 {
        return x, iNdEx, IntOverflow;
      }
      if iNdEx >= |dAtA| {
        return x, iNdEx, UnexpectedEOF;
      }
      var b := dAtA[iNdEx];
      iNdEx := iNdEx + 1;
      x := OrGroup64(x, b, shift, s, k);
      if b < 0x80 {
        return x, iNdEx, Nil;
      }
      shift, k := shift + 7, k + 1;
    }
  }

  /** What an int32 variable holding `acc` becomes when the groups of a varint are or-ed into it. */
  function OrInto(acc: int32, value: nat): int32 {
    ToInt32(Or(Pattern32(acc), Wrap32(value)))
  }

  /** A variable that was reset to zero ends up with the low 32 bits. */
  lemma OrIntoZero(value: nat)
    ensures OrInto(0, value) == ToInt32(value)
  {
    hide Or;
    OrZero(Wrap32(value));
  }

  /**
    The loop that reads an int32: the shifted groups are or-ed into the variable, whose width cuts
    off what is shifted beyond bit 31.
   */
  method ReadInt32(dAtA: Bytes, start: nat, acc: int32) returns (x: int32, iNdEx: nat, err: Error)
    requires start <= |dAtA|
    ensures var r := ReadVarint(dAtA[start..]);
            x == OrInto(acc, r.value) && iNdEx == start + r.n && err == r.err
  {
    hide ReadVarint, Groups, OrInto;
    x, iNdEx := acc, start;
    var shift := 0;
    ghost var s, k := dAtA[start..], 0;
    OrIntoNothing(acc);
    NoGroups(s);
    while true
      invariant 0 <= k <= 10 && shift == 7 * k && iNdEx == start + k
      invariant Continued(s, k) && x == OrInto(acc, Groups(s, k))
      decreases 10 - k
    {
      ReaderFinds(s, k);
      if shift >= 64 {
        return x, iNdEx, IntOverflow;
      }
      if iNdEx >= |dAtA| {
        return x, iNdEx, UnexpectedEOF;
      }
      var b := dAtA[iNdEx];
      iNdEx := iNdEx + 1;
      x := OrGroup32(x, b, shift, acc, s, k);
      if b < 0x80 {
        return x, iNdEx, Nil;
      }
      shift, k := shift + 7, k + 1;
    }
  }

  lemma OrIntoNothing(acc: int32)
    ensures OrInto(acc, 0) == acc
  {
    hide Or;
    OrZero(Pattern32(acc));
    assert ToInt32(Pattern32(acc)) == acc;
  }

  /** The same for an int32 variable that started as `acc`. */
  method OrGroup32(x: int32, b: byte, shift: nat, ghost acc: int32, ghost s: Bytes, ghost k: nat)
    returns (y: int32)
    requires k < |s| && s[k] == b && shift == 7 * k && x == OrInto(acc, Groups(s, k))
    ensures y == OrInto(acc, Groups(s, k + 1))
  {
    hide Or;
    GroupsBound(s, k);
    OrGroupMod(Groups(s, k), b % 128, shift);
    OrIntoAgain(acc, Groups(s, k), Shl(b % 128, shift));
    y := OrInto(x, Shl(b % 128, shift));
  }

  lemma OrIntoAgain(acc: int32, p: nat, q: nat)
    requires Wrap32(p + q) == Or(Wrap32(p), Wrap32(q))
    ensures OrInto(OrInto(acc, p), q) == OrInto(acc, p + q)
  {
    hide Or;
    Or32(Pattern32(acc), Wrap32(p));
    OrAssociative(Pattern32(acc), Wrap32(p), Wrap32(q));
  }

  // ---------------------------------------------------------------- int32 values

  /** What the writer stores for an int32: `uint64(m.Version)`. */
  function Extended(v: int32): uint64 {
    ToUint64(v)
  }

  lemma ToInt32Extended(v: int32)
    ensures ToInt32(Extended(v)) == v
  {
    if v < 0 {
      ModOfSum(v + 0x1_0000_0000, 0xFFFF_FFFF);
      assert Extended(v) == (v + 0x1_0000_0000) + 0x1_0000_0000 * 0xFFFF_FFFF;
    }
  }

  /** A negative int32 takes all ten bytes. */
  lemma ExtendedLength(v: int32)
    ensures 1 <= Sov(Extended(v)) <= 10
    ensures v < 0 <==> Sov(Extended(v)) == 10
  {
    SovIsLength(Extended(v));
    VarintShort(Extended(v));
    if v < 0 {
      Widths();
      VarintLong(Extended(v), 9);
    }
  }

  /** Every int32 survives sign extension, the canonical varint and the 32-bit reader. */
  lemma Int32RoundTrip(v: int32, rest: Bytes)
    ensures var r := ReadVarint(Varint(Extended(v)) + rest);
            && r.err == Nil && r.n == Sov(Extended(v))
            && OrInto(0, r.value) == v
  {
    SovIsLength(Extended(v));
    VarintShort(Extended(v));
    VarintInverse(Extended(v), rest, 0);
    OrIntoZero(Extended(v));
    ToInt32Extended(v);
  }

  lemma {:induction false} VarintLong(v: nat, k: nat)
    requires k >= 1 && v >= Pow2(7 * k)
    ensures |Varint(v)| > k
  {
    Pow2Seven(7 * k - 7);
    if k > 1 {
      VarintLong(v / 128, k - 1);
    }
  }

  // ---------------------------------------------------------------- zigzag

  /** The argument of `sov` inside `soz`: twice the value, inverted bit by bit when it is negative. */
  function Zigzag(x: uint64): uint64 {
    var shifted := Wrap64(2 * x);
    if ToInt64(x) < 0 then TWO64 - 1 - shifted else shifted
  }

  /** `sozCompany`. */
  function Soz(x: uint64): nat {
    Sov(Zigzag(x))
  }

  /** Zigzag numbers the signed values 0, -1, 1, -2, 2, ... */
  lemma ZigzagSigned(x: uint64)
    ensures Zigzag(x) == if ToInt64(x) < 0 then -2 * ToInt64(x) - 1 else 2 * ToInt64(x)
  {
  }

  /** The inverse of `Zigzag`. */
  function Unzigzag(z: uint64): uint64 {
    if z % 2 == 0 then z / 2 else 0xFFFF_FFFF_FFFF_FFFF - z / 2
  }

  /** The map inside `soz` is a bijection on the 64-bit values. */
  lemma ZigzagBijective(x: uint64)
    ensures Zigzag(Unzigzag(x)) == x
    ensures Unzigzag(Zigzag(x)) == x
  {
    ZigzagSigned(x);
    ZigzagSigned(Unzigzag(x));
  }

  lemma SovBound(v: nat, k: nat)
    requires k >= 1
    ensures Sov(v) <= k <==> v < Pow2(7 * k)
  {
    SovIsLength(v);
    if v < Pow2(7 * k) {
      VarintBound(v, k);
    } else {
      VarintLong(v, k);
    }
  }

  /** `soz` needs at most `k` bytes exactly for the signed values of `7k - 1` bits and a sign. */
  lemma SozBound(x: uint64, k: nat)
    requires 1 <= k <= 9
    ensures Soz(x) <= k <==> 0 - Pow2(7 * k - 1) <= ToInt64(x) < Pow2(7 * k - 1)
  {
    hide Sov, Pow2;
    SovBound(Zigzag(x), k);
    Pow2Twice(7 * k - 1);
    ZigzagSigned(x);
  }

  lemma Pow2Twice(n: nat)
    ensures Pow2(n + 1) == 2 * Pow2(n)
  {
  }

}
