/** The general results at the messages of the company service. */
module CompanyResults {
  import opened Bits
  import opened Canonical
  import opened CompanySchemas
  import opened Decoder
  import opened Encoder
  import opened Errors
  import opened Schemas
  import Evolution
  import Merge
  import Skipper
  import Structs
  import Varints
  import Wire

  // ---------------------------------------------------------------- single fields

  /** A team of which only Archived is set: the bool is the varint 1 under its tag. */
  lemma ArchivedTeam()
    ensures Structs.TeamBytes(Structs.NO_TEAM.(archived := true)) == [0x20, 0x01]
  {
    var parts := Structs.TeamParts(Structs.NO_TEAM.(archived := true));
    assert parts == [[], [], [], [0x20, 0x01], [], [], [], []];
    ConcatOfOne(parts, 3);
  }

  /** A team of which only Version is set, to -1: the int32 is extended to 64 bits, ten bytes of varint. */
  lemma NegativeVersion()
    ensures Structs.TeamBytes(Structs.NO_TEAM.(version := -1))
            == [0x40, 0xff, 0xff, 0xff, 0xff, 0xff, 0xff, 0xff, 0xff, 0xff, 0x01]
  {
    var parts := Structs.TeamParts(Structs.NO_TEAM.(version := -1));
    MinusOneBytes();
    assert parts[7] == [0x40] + Wire.Int32Bytes(-1);
    ConcatOfOne(parts, 7);
  }

  lemma MinusOneBytes()
    ensures Wire.Int32Bytes(-1) == [0xff, 0xff, 0xff, 0xff, 0xff, 0xff, 0xff, 0xff, 0xff, 0x01]
  {
    OnesFirst(0xFFFF_FFFF_FFFF_FFFF);
    OnesFirst(0x1FF_FFFF_FFFF_FFFF);
    OnesFirst(0x3_FFFF_FFFF_FFFF);
    OnesFirst(0x7FF_FFFF_FFFF);
    OnesFirst(0xF_FFFF_FFFF);
    OnesFirst(0x1FFF_FFFF);
    OnesFirst(0x3F_FFFF);
    OnesFirst(0x7FFF);
    OnesFirst(0xFF);
    assert Varints.Varint(1) == [0x01];
  }

  lemma OnesFirst(x: nat)
    ensures x >= 128 && x % 128 == 127 ==> Varints.Varint(x) == [0xff] + Varints.Varint(x / 128)
  {
  }

  /** If all parts but one are empty, the whole is that one. */
  lemma {:induction false} ConcatOfOne(parts: seq<Bytes>, k: nat)
    requires k < |parts| && forall i :: 0 <= i < |parts| && i != k ==> parts[i] == []
    ensures Wire.Concat(parts) == parts[k]
  {
    if k > 0 {
      ConcatOfOne(parts[1..], k - 1);
    } else {
      ConcatOfNone(parts[1..]);
    }
  }

  lemma {:induction false} ConcatOfNone(parts: seq<Bytes>)
    requires forall i :: 0 <= i < |parts| ==> parts[i] == []
    ensures Wire.Concat(parts) == []
  {
    if parts != [] {
      ConcatOfNone(parts[1..]);
    }
  }

  // ---------------------------------------------------------------- re-encoding

  /** These messages are never longer when they are written back. */
  lemma CompactMessages()
    ensures ValidSchema(DIRECTORY_ENTRY) && ValidSchema(ROWS_OF_COMPANY)
    ensures ValidSchema(ROWS_OF_DIRECTORY) && ValidSchema(WORKER_LIST_REQUEST)
    ensures Compact(DIRECTORY_ENTRY) && NoEmbedded(DIRECTORY_ENTRY)
    ensures Compact(ROWS_OF_COMPANY) && NoEmbedded(ROWS_OF_COMPANY)
    ensures Compact(ROWS_OF_DIRECTORY) && NoEmbedded(ROWS_OF_DIRECTORY)
    ensures Compact(WORKER_LIST_REQUEST) && NoEmbedded(WORKER_LIST_REQUEST)
  {
    DirectoryEntryIsValid();
    RowsOfCompanyIsValid();
    RowsOfDirectoryIsValid();
    WorkerListRequestIsValid();
    assert Compact(DIRECTORY_ID);
  }

  /** These messages embed only compact ones, so the exact condition applies to each. */
  lemma CompanyMessagesEmbedCompact()
    ensures EmbedsCompact(TEAM, 0) && EmbedsCompact(WORKER, 0) && EmbedsCompact(GROWTH_GRAPH_RESPONSE, 0)
    ensures EmbedsCompact(TEAM_LIST, 1) && EmbedsCompact(ASSOCIATION, 1)
    ensures EmbedsCompact(ASSOCIATION_LIST, 2)
  {
    assert Compact(DIRECTORY_ENTRY);
  }

  /** These messages can be longer when they are written back. */
  lemma CompanyMessagesThatGrow(visit: Visit)
    requires Fair(visit)
    ensures !NeverGrows(TEAM, visit) && !NeverGrows(WORKER, visit) && !NeverGrows(GROWTH_GRAPH_RESPONSE, visit)
    ensures !NeverGrows(TEAM_LIST, visit) && !NeverGrows(ASSOCIATION, visit)
    ensures !NeverGrows(ASSOCIATION_LIST, visit)
  {
    CompanyMessagesEmbedCompact();
    NotCompactMessages();
    TeamIsValid();
    TeamListIsValid();
    WorkerIsValid();
    GrowthGraphResponseIsValid();
    AssociationIsValid();
    AssociationListIsValid();
    hide Compact, EmbedsCompact, ValidSchema, NeverGrows;
    NeverGrowsIffCompact(TEAM, 0, visit);
    NeverGrowsIffCompact(TEAM_LIST, 1, visit);
    NeverGrowsIffCompact(WORKER, 0, visit);
    NeverGrowsIffCompact(GROWTH_GRAPH_RESPONSE, 0, visit);
    NeverGrowsIffCompact(ASSOCIATION, 1, visit);
    NeverGrowsIffCompact(ASSOCIATION_LIST, 2, visit);
  }

  /** A list of one team with a negative version is such a message, and so is an association with it. */
  lemma TeamsGrow(visit: Visit)
    requires Fair(visit)
    ensures var d := VarintRecord(8, 0xFFFF_FFFF);
            var team := Empty(TEAM)[7 := VInt32(-1)];
            && Grows(TEAM_LIST, LenRecord(1, d), Empty(TEAM_LIST)[0 := VMessages([team])], visit)
            && Grows(ASSOCIATION, LenRecord(2, d), Empty(ASSOCIATION)[1 := VMessages([team])], visit)
  {
    var d, team := VarintRecord(8, 0xFFFF_FFFF), Empty(TEAM)[7 := VInt32(-1)];
    hide Decode, SizeFrom, Typed, VarintRecord, Empty;
    TeamIsValid();
    TeamListIsValid();
    AssociationIsValid();
    hide ValidSchema;
    Int32Grows(TEAM, 7, visit);
    SizeOfEmpty(TEAM, 0, visit);
    ListRecordLength(1, d);
    ListRecordLength(2, d);
    ListGrows(TEAM_LIST, 0, d, team, visit);
    ListGrows(ASSOCIATION, 1, d, team, visit);
  }

  lemma NotCompactMessages()
    ensures !Compact(TEAM) && !Compact(TEAM_LIST) && !Compact(WORKER) && !Compact(GROWTH_GRAPH_RESPONSE)
    ensures !Compact(ASSOCIATION) && !Compact(ASSOCIATION_LIST)
  {
    assert TEAM.fields[7].kind == KInt32 && WORKER.fields[3].kind == KInt32;
    assert TEAM_LIST.fields[1].kind == KInt32 && ASSOCIATION_LIST.fields[1].kind == KInt32;
    assert ASSOCIATION.fields[1].kind == KMessages(TEAM);
    assert GROWTH_GRAPH_RESPONSE.fields[0].kind == KMap;
  }

  // ---------------------------------------------------------------- errors

  /**
    The errors of a concatenation and of its second part can differ: behind `a`, the same announced
    length ends beyond the range of a 64-bit integer and not just beyond the input.
   */
  lemma MergeMayChangeTheError() returns (a: Bytes, b: Bytes)
    ensures var sc := ROWS_OF_COMPANY;
            var m := Unmarshal(sc, Empty(sc), a);
            && m.err == Nil
            && Unmarshal(sc, m.m, b).err == UnexpectedEOF
            && Unmarshal(sc, Empty(sc), a + b).err == InvalidLength
  {
    hide Empty, Decode, LenRecord, Varints.Varint, ValidSchema;
    var sc := ROWS_OF_COMPANY;
    var len: nat := 0x7FFF_FFFF_FFFF_FFF5;
    a := LenRecord(1, []);
    b := [0x0a] + Varints.Varint(len);
    AcceptsEmptyString();
    var m := Unmarshal(sc, Empty(sc), a).m;
    TooLong(m, 0, len);
    TooLong(m, 2, len);
    Merge.DecodeConcat(sc, Empty(sc), 0, a, b);
  }

  /** A record with an empty string, of two bytes. */
  lemma AcceptsEmptyString()
    ensures |LenRecord(1, [])| == 2
    ensures Unmarshal(ROWS_OF_COMPANY, Empty(ROWS_OF_COMPANY), LenRecord(1, [])).err == Nil
  {
    hide Empty, Decode, LenRecord, Varints.Varint;
    RowsOfCompanyIsValid();
    Varints.SovIsLength(0);
    Varints.VarintShort(0);
    Varints.VarintBound(0, 1);
    LenRecordLength(1, []);
    assert EncodeStrings(1, [[]]) == LenRecord(1, []);
    Evolution.StringsArrive(ROWS_OF_COMPANY, Empty(ROWS_OF_COMPANY), 0, 0, [[]]);
  }

  /** Behind a tag at `base`, this length ends beyond the input, and for `base` 2 beyond every index. */
  lemma LengthTooLong(base: nat, len: nat)
    requires len == 0x7FFF_FFFF_FFFF_FFF5 && base in {0, 2}
    ensures Delimited(base + 1, Varints.Varint(len)).err == if base == 2 then InvalidLength else UnexpectedEOF
  {
    hide Varints.ReadVarint, Varints.Varint, Pow2;
    var s := Varints.Varint(len);
    Varints.VarintShort(len);
    Widths();
    Varints.Pow2Monotone(56, 62);
    Varints.Pow2Twice(62);
    Varints.VarintLong(len, 8);
    Varints.VarintInverse(len, [], 0);
    assert s + [] == s;
  }

  lemma TooLong(m: Message, base: nat, len: nat)
    requires Typed(ROWS_OF_COMPANY, m) && len == 0x7FFF_FFFF_FFFF_FFF5 && base in {0, 2}
    ensures Decode(ROWS_OF_COMPANY, m, base, [0x0a] + Varints.Varint(len)).err
            == if base == 2 then InvalidLength else UnexpectedEOF
  {
    hide Varints.ReadVarint, Varints.Varint, FieldNumber, Skipper.WireType, Delimited, Typed;
    var s := Varints.Varint(len);
    LengthTooLong(base, len);
    RowsOfCompanyIsValid();
    Evolution.OneByteTag(0x0a, s);
    FindAt(ROWS_OF_COMPANY, 0);
    assert DecodeRecord(ROWS_OF_COMPANY, m, base, [0x0a] + s).err == Delimited(base + 1, s).err;
  }
}
