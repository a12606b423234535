/**
  Skipping one field of unknown meaning: the depth-counting loop of `skipCompany`, and the recursive
  grammar of wire fields it implements.
 */
module Skipper {
  import opened Bits
  import opened Errors
  import opened Varints

  // ---------------------------------------------------------------- the loop, as a function

  /** The outcome of `skipCompany`: `(n, err)`. */
  datatype Skipped = Skipped(n: nat, err: Error)

  /** The low three bits of a tag. */
  function WireType(tag: nat): nat {
    Wrap64(tag) % 8
  }

  /** The number of bytes behind a tag that is not a group tag; they need not all be there. */
  function PayloadSize(wireType: nat, s: Bytes): Skipped {
    if wireType == 0 then
      var r := ReadVarint(s);
      if r.err != Nil then Skipped(0, r.err) else Skipped(r.n, Nil)
    else if wireType == 1 then Skipped(8, Nil)
    else if wireType == 2 then
      var r := ReadVarint(s);
      if r.err != Nil then Skipped(0, r.err)
      else if ToInt64(Wrap64(r.value)) < 0 then Skipped(0, InvalidLength)
      else Skipped(r.n + ToInt64(Wrap64(r.value)), Nil)
    else if wireType == 5 then Skipped(4, Nil)
    else Skipped(0, IllegalWireType)
  }

  /** One round of the loop: the bytes it passes over and the depth afterwards. */
  datatype Token = Token(n: nat, depth: nat, err: Error)

  function NextToken(s: Bytes, depth: nat): (t: Token)
    ensures t.err == Nil ==> t.n >= 1
  {
    var tag := ReadVarint(s);
    var wireType := WireType(tag.value);
    if tag.err != Nil then Token(0, 0, tag.err)
    else if wireType == 3 then Token(tag.n, depth + 1, Nil)
    else if wireType == 4 then
      if depth == 0 then Token(0, 0, UnexpectedEndOfGroup) else Token(tag.n, depth - 1, Nil)
    else
      var p := PayloadSize(wireType, s[tag.n..]);
      if p.err != Nil then Token(0, 0, p.err) else Token(tag.n + p.n, depth, Nil)
  }

  /**
    The loop entered at index `at` with `s` left to read. The returned `n` counts from `at`; it may
    exceed the length of the input.
   */
  function SkipFrom(s: Bytes, at: nat, depth: nat): (r: Skipped)
    ensures r.err == Nil ==> r.n >= 1 && at + r.n < TWO63
    ensures r.err != Nil ==> r.n == 0
    decreases |s|
  {
    if s == [] then Skipped(0, UnexpectedEOF) else
    var t := NextToken(s, depth);
    if t.err != Nil then Skipped(0, t.err)
    else if at + t.n >= TWO63 then Skipped(0, InvalidLength)
    else if t.depth == 0 then Skipped(t.n, Nil)
    else if t.n > |s| then Skipped(0, UnexpectedEOF)
    else Further(t.n, SkipFrom(s[t.n..], at + t.n, t.depth))
  }

  function Further(n: nat, r: Skipped): Skipped {
    if r.err == Nil then Skipped(n + r.n, Nil) else Skipped(0, r.err)
  }

  /** `skipCompany`. */
  function SkipField(s: Bytes): (r: Skipped)
    ensures r.err == Nil ==> 1 <= r.n < TWO63
  {
    SkipFrom(s, 0, 0)
  }

  // ---------------------------------------------------------------- the loop

  /** An index that was advanced by a 64-bit addition. */
  ghost predicate Advanced(start: int, n: nat, iNdEx: int64) {
    start + n < TWO64 && iNdEx == if start + n < TWO63 then start + n else start + n - TWO64
  }

  /** The payload of a scalar field, passed over from `iNdEx`; the sum may wrap around. */
  method SkipPayload(dAtA: Bytes, start: nat, wireType: nat) returns (iNdEx: int64, err: Error)
    requires start <= |dAtA| < TWO63 && wireType < 8 && wireType != 3 && wireType != 4
    ensures var p := PayloadSize(wireType, dAtA[start..]);
            && err == p.err
            && (err == Nil ==> Advanced(start, p.n, iNdEx))
  {
    iNdEx, err := start, Nil;
    match wireType {
      case 0 =>
        var _, after, e := ReadUint64(dAtA, start);
        iNdEx, err := after, e;
      case 1 =>
        iNdEx := Add64(start, 8);
      case 2 =>
        var x, after, e := ReadUint64(dAtA, start);
        if e != Nil {
          return start, e;
        }
        var length := ToInt64(x);
        if length < 0 {
          return start, InvalidLength;
        }
        iNdEx := Add64(after, length);
      case 5 =>
        iNdEx := Add64(start, 4);
      case _ =>
        err := IllegalWireType;
    }
  }

  /** One round of the loop. */
  method SkipRound(dAtA: Bytes, start: nat, depth: nat) returns (iNdEx: int64, depth': nat, err: Error)
    requires start <= |dAtA| < TWO63
    ensures var t := NextToken(dAtA[start..], depth);
            err == t.err && (err == Nil ==> depth' == t.depth && Advanced(start, t.n, iNdEx))
  {
    hide ReadVarint, PayloadSize;
    var wire;
    wire, iNdEx, err := ReadUint64(dAtA, start);
    depth' := depth;
    if err != Nil {
      return;
    }
    assert dAtA[iNdEx..] == dAtA[start..][iNdEx - start..];
    var wireType := wire % 8;
    if wireType == 3 {
      depth' := depth + 1;
    } else if wireType == 4 {
      if depth == 0 {
        err := UnexpectedEndOfGroup;
        return;
      }
      depth' := depth - 1;
    } else {
      iNdEx, err := SkipPayload(dAtA, iNdEx, wireType);
    }
  }

  /** `skipCompany`. */
  method SkipCompany(dAtA: Bytes) returns (n: int64, err: Error)
    requires |dAtA| < TWO63
    ensures var r := SkipField(dAtA); n == r.n && err == r.err
  {
    hide NextToken;
    var l := |dAtA|;
    var iNdEx: int64 := 0;
    var depth: nat := 0;
    while iNdEx < l
      invariant 0 <= iNdEx && (iNdEx > 0 ==> depth > 0)
      invariant iNdEx <= l ==> SkipField(dAtA) == Further(iNdEx, SkipFrom(dAtA[iNdEx..], iNdEx, depth))
      invariant iNdEx > l ==> SkipField(dAtA) == Skipped(0, UnexpectedEOF)
      decreases l - iNdEx
    {
      ghost var start := iNdEx;
      iNdEx, depth, err := SkipRound(dAtA, iNdEx, depth);
      if err != Nil {
        return 0, err;
      }
      if iNdEx < 0 {
        return 0, InvalidLength;
      }
      if depth == 0 {
        return iNdEx, Nil;
      }
      assert iNdEx <= l ==> dAtA[iNdEx..] == dAtA[start..][iNdEx - start..];
    }
    return 0, UnexpectedEOF;
  }

  // ---------------------------------------------------------------- the grammar

  /**
    A wire field: a tag with its payload, or a group of fields between a start tag and an end tag.
    The field numbers of the two tags of a group are not compared.
   */
  datatype WireField =
    | Scalar(tag: Bytes, payload: Bytes)
    | Group(open: Bytes, body: seq<WireField>, close: Bytes)

  /** `s` is one varint, minimal or not. */
  predicate IsVarint(s: Bytes) {
    ReadVarint(s).err == Nil && ReadVarint(s).n == |s|
  }

  predicate IsTag(s: Bytes, wireType: nat) {
    IsVarint(s) && WireType(ReadVarint(s).value) == wireType
  }

  /** A length that is not negative, followed by that many bytes. */
  predicate IsDelimited(s: Bytes) {
    var r := ReadVarint(s);
    r.err == Nil && Wrap64(r.value) < TWO63 && |s| == r.n + Wrap64(r.value)
  }

  predicate WellFormed(f: WireField) {
    match f
    case Scalar(tag, payload) =>
      || (IsTag(tag, 0) && IsVarint(payload))
      || (IsTag(tag, 1) && |payload| == 8)
      || (IsTag(tag, 2) && IsDelimited(payload))
      || (IsTag(tag, 5) && |payload| == 4)
    case Group(open, body, close) =>
      IsTag(open, 3) && AllWellFormed(body) && IsTag(close, 4)
  }

  predicate AllWellFormed(fs: seq<WireField>) {
    fs == [] || (WellFormed(fs[0]) && AllWellFormed(fs[1..]))
  }

  /** The bytes of a wire field. */
  function Unparse(f: WireField): Bytes {
    match f
    case Scalar(tag, payload) => tag + payload
    case Group(open, body, close) => open + UnparseAll(body) + close
  }

  function UnparseAll(fs: seq<WireField>): Bytes {
    if fs == [] then [] else Unparse(fs[0]) + UnparseAll(fs[1..])
  }

  // ---------------------------------------------------------------- tokens

  lemma PayloadExtends(wireType: nat, s: Bytes, t: Bytes)
    requires PayloadSize(wireType, s).err == Nil
    ensures PayloadSize(wireType, s + t) == PayloadSize(wireType, s)
  {
    if ReadVarint(s).err == Nil {
      ReadExtends(s, t, 0);
    }
  }

  lemma PayloadTruncates(wireType: nat, s: Bytes)
    requires var p := PayloadSize(wireType, s); p.err == Nil && p.n <= |s|
    ensures PayloadSize(wireType, s[..PayloadSize(wireType, s).n]) == PayloadSize(wireType, s)
  {
    var n := PayloadSize(wireType, s).n;
    if wireType == 0 || wireType == 2 {
      var k := ReadVarint(s).n;
      ReadTruncates(s, 0);
      ReadExtends(s[..k], s[k..n], 0);
      assert s[..k] + s[k..n] == s[..n];
    }
  }

  /** The grammar's scalars are the tags followed by exactly the payload the loop passes over. */
  lemma ScalarPayload(tag: Bytes, payload: Bytes)
    requires IsVarint(tag)
    ensures var wireType := WireType(ReadVarint(tag).value);
            WellFormed(Scalar(tag, payload)) <==> PayloadSize(wireType, payload) == Skipped(|payload|, Nil)
  {
  }

  lemma TokenExtends(s: Bytes, t: Bytes, depth: nat)
    requires NextToken(s, depth).err == Nil
    ensures NextToken(s + t, depth) == NextToken(s, depth)
  {
    ReadExtends(s, t, 0);
    var tag := ReadVarint(s);
    assert (s + t)[tag.n..] == s[tag.n..] + t;
    if WireType(tag.value) != 3 && WireType(tag.value) != 4 {
      PayloadExtends(WireType(tag.value), s[tag.n..], t);
    }
  }

  /** A scalar field is one token that leaves the depth alone. */
  lemma ScalarToken(tag: Bytes, payload: Bytes, depth: nat)
    requires WellFormed(Scalar(tag, payload))
    ensures NextToken(tag + payload, depth) == Token(|tag + payload|, depth, Nil)
  {
    ScalarPayload(tag, payload);
    ReadExtends(tag, payload, 0);
    assert (tag + payload)[|tag|..] == payload;
  }

  lemma TokenScalar(s: Bytes, depth: nat) returns (f: WireField)
    requires var t := NextToken(s, depth); t.err == Nil && t.depth == depth && t.n <= |s|
    ensures WellFormed(f) && Unparse(f) == s[..NextToken(s, depth).n]
  {
    hide ReadVarint, PayloadSize, WellFormed;
    var n, tag := NextToken(s, depth).n, ReadVarint(s);
    f := Scalar(s[..tag.n], s[tag.n..n]);
    ReadTruncates(s, 0);
    PayloadTruncates(WireType(tag.value), s[tag.n..]);
    assert s[tag.n..][..n - tag.n] == s[tag.n..n];
    ScalarPayload(s[..tag.n], s[tag.n..n]);
    assert s[..tag.n] + s[tag.n..n] == s[..n];
  }

  lemma TokenTag(s: Bytes, depth: nat)
    requires var t := NextToken(s, depth); t.err == Nil && t.depth != depth
    ensures var t := NextToken(s, depth);
            && t.n <= |s|
            && (t.depth == depth + 1 ==> IsTag(s[..t.n], 3))
            && (t.depth != depth + 1 ==> t.depth == depth - 1 && IsTag(s[..t.n], 4))
  {
    ReadTruncates(s, 0);
  }

  /** One round of the loop that ends within the input. */
  lemma SkipOnce(s: Bytes, rest: Bytes, at: nat, depth: nat, t: Token)
    requires s != [] && NextToken(s, depth) == t && t.err == Nil
    requires t.n <= |s| && s[t.n..] == rest && at + t.n < TWO63
    ensures SkipFrom(s, at, depth) ==
            if t.depth == 0 then Skipped(t.n, Nil) else Further(t.n, SkipFrom(rest, at + t.n, t.depth))
  {
    hide NextToken, ReadVarint;
  }

  // ---------------------------------------------------------------- grammar ==> loop

  /** What the loop does on `s + rest` when `s` leaves the depth as it was. */
  ghost predicate PassesOver(s: Bytes, rest: Bytes, at: nat, depth: nat) {
    SkipFrom(s + rest, at, depth) ==
      if depth == 0 then Skipped(|s|, Nil) else Further(|s|, SkipFrom(rest, at + |s|, depth))
  }

  /** The loop passes over a well-formed field. */
  lemma {:induction false} SkipsField(f: WireField, rest: Bytes, at: nat, depth: nat)
    requires WellFormed(f) && at + |Unparse(f)| < TWO63
    ensures PassesOver(Unparse(f), rest, at, depth)
    decreases f
  {
    hide SkipFrom, NextToken, ReadVarint;
    var s := Unparse(f);
    match f
    case Scalar(tag, payload) =>
      ScalarToken(tag, payload, depth);
      TokenExtends(s, rest, depth);
      assert (s + rest)[|s|..] == rest;
      SkipOnce(s + rest, rest, at, depth, Token(|s|, depth, Nil));
    case Group(open, body, close) =>
      SkipsGroup(open, body, close, rest, at, depth);
      SkipsFields(body, close + rest, at + |open|, depth + 1);
  }

  lemma SkipsGroup(open: Bytes, body: seq<WireField>, close: Bytes, rest: Bytes, at: nat, depth: nat)
    requires IsTag(open, 3) && IsTag(close, 4)
    requires at + |open + UnparseAll(body) + close| < TWO63
    ensures var inner := UnparseAll(body);
            SkipFrom(inner + (close + rest), at + |open|, depth + 1)
            == Further(|inner|, SkipFrom(close + rest, at + |open| + |inner|, depth + 1))
            ==> PassesOver(open + inner + close, rest, at, depth)
  {
    hide SkipFrom, ReadVarint;
    var inner := UnparseAll(body);
    var s := open + inner + close;
    assert s + rest == open + (inner + (close + rest));
    TokenExtends(open, inner + (close + rest), depth);
    assert (s + rest)[|open|..] == inner + (close + rest);
    SkipOnce(s + rest, inner + (close + rest), at, depth, Token(|open|, depth + 1, Nil));
    TokenExtends(close, rest, depth + 1);
    assert (close + rest)[|close|..] == rest;
    SkipOnce(close + rest, rest, at + |open| + |inner|, depth + 1, Token(|close|, depth, Nil));
  }

  lemma {:induction false} SkipsFields(fs: seq<WireField>, rest: Bytes, at: nat, depth: nat)
    requires AllWellFormed(fs) && at + |UnparseAll(fs)| < TWO63 && depth > 0
    ensures SkipFrom(UnparseAll(fs) + rest, at, depth)
            == Further(|UnparseAll(fs)|, SkipFrom(rest, at + |UnparseAll(fs)|, depth))
    decreases fs
  {
    hide SkipFrom, ReadVarint;
    if fs == [] {
      assert UnparseAll(fs) + rest == rest;
    } else {
      var tail := UnparseAll(fs[1..]);
      assert UnparseAll(fs) + rest == Unparse(fs[0]) + (tail + rest);
      SkipsField(fs[0], tail + rest, at, depth);
      SkipsFields(fs[1..], rest, at + |Unparse(fs[0])|, depth);
    }
  }

  // ---------------------------------------------------------------- loop ==> grammar

  /** The input left inside open groups: for each group, its remaining fields and its end tag. */
  ghost predicate Closes(s: Bytes, bodies: seq<seq<WireField>>, ends: seq<Bytes>)
    requires |bodies| == |ends|
    decreases |bodies|
  {
    if bodies == [] then s == []
    else exists t :: ClosesFirst(s, t, bodies[0], ends[0]) && Closes(t, bodies[1..], ends[1..])
  }

  ghost predicate ClosesFirst(s: Bytes, t: Bytes, body: seq<WireField>, end: Bytes) {
    AllWellFormed(body) && IsTag(end, 4) && s == UnparseAll(body) + end + t
  }

  lemma PrependFirst(f: WireField, s: Bytes, t: Bytes, body: seq<WireField>, end: Bytes)
    requires WellFormed(f) && ClosesFirst(s, t, body, end)
    ensures ClosesFirst(Unparse(f) + s, t, [f] + body, end)
  {
    hide WellFormed, IsTag, Unparse;
    assert ([f] + body)[1..] == body;
  }

  /** A field in front belongs to the innermost group. */
  lemma PrependField(f: WireField, s: Bytes, bodies: seq<seq<WireField>>, ends: seq<Bytes>)
    requires |bodies| == |ends| > 0 && WellFormed(f) && Closes(s, bodies, ends)
    ensures Closes(Unparse(f) + s, [[f] + bodies[0]] + bodies[1..], ends)
  {
    hide ClosesFirst, WellFormed, Unparse;
    var t :| ClosesFirst(s, t, bodies[0], ends[0]) && Closes(t, bodies[1..], ends[1..]);
    PrependFirst(f, s, t, bodies[0], ends[0]);
    var bodies' := [[f] + bodies[0]] + bodies[1..];
    assert bodies'[1..] == bodies[1..] && bodies'[0] == [f] + bodies[0];
  }

  /** A start tag turns the innermost group into a field of the next one. */
  lemma PrependOpen(open: Bytes, s: Bytes, bodies: seq<seq<WireField>>, ends: seq<Bytes>)
    requires |bodies| == |ends| > 1 && IsTag(open, 3) && Closes(s, bodies, ends)
    ensures var f := Group(open, bodies[0], ends[0]);
            Closes(open + s, [[f] + bodies[1]] + bodies[2..], ends[1..])
  {
    var t :| ClosesFirst(s, t, bodies[0], ends[0]) && Closes(t, bodies[1..], ends[1..]);
    var f := Group(open, bodies[0], ends[0]);
    PrependField(f, t, bodies[1..], ends[1..]);
    assert open + s == Unparse(f) + t;
    assert bodies[1..][1..] == bodies[2..];
  }

  /** An end tag closes an innermost group without further fields. */
  lemma PrependClose(close: Bytes, s: Bytes, bodies: seq<seq<WireField>>, ends: seq<Bytes>)
    requires |bodies| == |ends| && IsTag(close, 4)
    requires if bodies == [] then s == [] else Closes(s, bodies, ends)
    ensures Closes(close + s, [[]] + bodies, [close] + ends)
  {
    assert Closes(s, bodies, ends);
    assert close + s == UnparseAll([]) + close + s;
    assert ClosesFirst(close + s, s, [], close);
    assert ([[]] + bodies)[1..] == bodies && ([close] + ends)[1..] == ends;
    assert ([[]] + bodies)[0] == [] && ([close] + ends)[0] == close;
  }

  /** Inside open groups, a successful run of the loop has read fields and one end tag for each group. */
  lemma {:induction false} ParseClosing(s: Bytes, at: nat, depth: nat)
    returns (bodies: seq<seq<WireField>>, ends: seq<Bytes>)
    requires depth > 0 && SkipFrom(s, at, depth).err == Nil
    ensures SkipFrom(s, at, depth).n <= |s|
    ensures |bodies| == |ends| == depth
    ensures Closes(s[..SkipFrom(s, at, depth).n], bodies, ends)
    decreases |s|
  {
    hide PayloadSize, ReadVarint, Closes, WellFormed, Unparse, UnparseAll, IsTag;
    var t := NextToken(s, depth);
    var n := SkipFrom(s, at, depth).n;
    if t.depth != depth {
      TokenTag(s, depth);
    }
    if t.depth == 0 {
      PrependClose(s[..t.n], [], [], []);
      assert s[..t.n] + [] == s[..n];
      assert [s[..t.n]] + [] == [s[..t.n]];
      bodies, ends := [[]] + [], [s[..t.n]];
    } else {
      bodies, ends := ParseClosing(s[t.n..], at + t.n, t.depth);
      var rest := s[t.n..][..n - t.n];
      assert s[..n] == s[..t.n] + rest;
      if t.depth == depth {
        var f := TokenScalar(s, depth);
        PrependField(f, rest, bodies, ends);
        bodies := [[f] + bodies[0]] + bodies[1..];
      } else if t.depth == depth + 1 {
        PrependOpen(s[..t.n], rest, bodies, ends);
        bodies, ends := [[Group(s[..t.n], bodies[0], ends[0])] + bodies[1]] + bodies[2..], ends[1..];
      } else {
        PrependClose(s[..t.n], rest, bodies, ends);
        bodies, ends := [[]] + bodies, [s[..t.n]] + ends;
      }
    }
  }

  /** A successful skip that stays within the input has passed over exactly one field of the grammar. */
  lemma ParseField(s: Bytes) returns (f: WireField)
    requires SkipField(s).err == Nil && SkipField(s).n <= |s|
    ensures WellFormed(f) && Unparse(f) == s[..SkipField(s).n]
  {
    hide PayloadSize, ReadVarint;
    var t := NextToken(s, 0);
    var n := SkipField(s).n;
    if t.depth == 0 {
      f := TokenScalar(s, 0);
    } else {
      TokenTag(s, 0);
      var bodies, ends := ParseClosing(s[t.n..], t.n, 1);
      f := Group(s[..t.n], bodies[0], ends[0]);
      var rest := s[t.n..][..n - t.n];
      assert s[..n] == s[..t.n] + rest;
      var u :| ClosesFirst(rest, u, bodies[0], ends[0]) && Closes(u, bodies[1..], ends[1..]);
      assert u == [] && rest == UnparseAll(bodies[0]) + ends[0];
    }
  }

  /**
    The depth counter implements the grammar: a skip succeeds within the input and passes over `n`
    bytes if and only if the first `n` bytes are one well-formed field.
   */
  lemma SkipIsGrammar(s: Bytes, n: nat)
    requires n <= |s| < TWO63
    ensures SkipField(s) == Skipped(n, Nil) <==> exists f :: WellFormed(f) && Unparse(f) == s[..n]
  {
    if SkipField(s) == Skipped(n, Nil) {
      var f := ParseField(s);
    }
    forall f | WellFormed(f) && Unparse(f) == s[..n]
      ensures SkipField(s) == Skipped(n, Nil)
    {
      SkipsField(f, s[n..], 0, 0);
      assert s == Unparse(f) + s[n..];
    }
  }

  /** What a skip passes over does not depend on the input behind it. */
  lemma {:induction false} SkipExtends(s: Bytes, t: Bytes, at: nat, depth: nat)
    requires SkipFrom(s, at, depth).err == Nil && SkipFrom(s, at, depth).n <= |s|
    ensures SkipFrom(s + t, at, depth) == SkipFrom(s, at, depth)
    decreases |s|
  {
    hide PayloadSize, ReadVarint, NextToken;
    TokenExtends(s, t, depth);
    var k := NextToken(s, depth);
    if k.depth > 0 {
      SkipExtends(s[k.n..], t, at + k.n, k.depth);
      assert (s + t)[k.n..] == s[k.n..] + t;
    }
  }

  /** A skip runs past the input only for a single truncated scalar; inside a group it is an error. */
  lemma SkipOverrun(s: Bytes)
    requires SkipField(s).err == Nil && SkipField(s).n > |s|
    ensures NextToken(s, 0) == Token(SkipField(s).n, 0, Nil)
    ensures ReadVarint(s).err == Nil && WireType(ReadVarint(s).value) in {1, 2, 5}
  {
    hide ReadVarint, Closes;
    var t := NextToken(s, 0);
    if t.depth > 0 {
      TokenTag(s, 0);
      var bodies, ends := ParseClosing(s[t.n..], t.n, t.depth);
    }
  }
}
