/**
  Tags: which field a tag means, stated by arithmetic on its value, whatever number of bytes it takes.
 */
module Tags {
  import opened Bits
  import opened Decoder
  import opened Errors
  import opened Skipper
  import opened Varints

  /** The low 32 bits of the number in a tag. */
  function Number(tag: nat): uint32 {
    tag / 8 % 0x1_0000_0000
  }

  /**
    The number that is read is the number in the tag, cut off to 32 bits and taken as signed; the
    wire type is in the low three bits.
   */
  lemma NumberRead(tag: nat)
    ensures FieldNumber(tag) == if Number(tag) < 0x8000_0000 then Number(tag) else Number(tag) - 0x1_0000_0000
    ensures WireType(tag) == tag % 8
  {
    var high, low := tag / TWO64, tag % TWO64;
    assert tag == 0x1_0000_0000_0000_0000 * high + low;
    assert tag / 8 == 0x2000_0000_0000_0000 * high + low / 8;
    ModOfSum(low / 8 % 0x1_0000_0000, 0x2000_0000 * high + low / 8 / 0x1_0000_0000);
  }

  /** Every number of the standard, with every wire type, is read from its tag. */
  lemma TagRead(num: nat, wireType: nat)
    requires 1 <= num < 0x2000_0000 && wireType < 8
    ensures Number(num * 8 + wireType) == num
    ensures FieldNumber(num * 8 + wireType) == num && WireType(num * 8 + wireType) == wireType
  {
    NumberRead(num * 8 + wireType);
  }

  // ---------------------------------------------------------------- spellings

  /** One varint, minimal or not, that is the tag of this field with this wire type. */
  predicate IsTagOf(s: Bytes, num: nat, wireType: nat) {
    IsVarint(s) && Number(ReadVarint(s).value) == num && ReadVarint(s).value % 8 == wireType
  }

  /** One varint, minimal or not, that gives `n` as a 64-bit integer that is not negative. */
  predicate IsLength(s: Bytes, n: nat) {
    IsVarint(s) && ReadVarint(s).value % 0x1_0000_0000_0000_0000 == n < 0x8000_0000_0000_0000
  }

  lemma VarintInFront(s: Bytes, rest: Bytes)
    requires IsVarint(s)
    ensures ReadVarint(s + rest) == ReadVarint(s) && (s + rest)[|s|..] == rest && s != []
  {
    ReadExtends(s, rest, 0);
  }

  /** A length in front of its bytes passes the checks, unless the index leaves the range of an int. */
  lemma LengthInFront(base: nat, len: Bytes, payload: Bytes, rest: Bytes)
    requires IsLength(len, |payload|) && base + |len| + |payload| < TWO63
    ensures var s := len + payload + rest;
            var c := Chunk(|len|, |payload|, Nil);
            Delimited(base, s) == c && Payload(s, c) == payload && s[|len + payload|..] == rest
  {
    hide ReadVarint;
    assert len + payload + rest == len + (payload + rest);
    VarintInFront(len, payload + rest);
  }

  /** The canonical varint of a value spells it. */
  lemma VarintSpells(x: uint64)
    ensures IsVarint(Varint(x)) && ReadVarint(Varint(x)).value == x
  {
    hide Varint, ReadVarint;
    VarintShort(x);
    VarintInverse(x, [], 0);
    assert Varint(x) + [] == Varint(x);
  }

  /** A byte below 128 spells itself. */
  lemma ByteSpells(x: byte)
    requires x < 128
    ensures IsVarint([x]) && ReadVarint([x]).value == x
  {
  }
}
