/**
  The messages as values, with the names of the Go fields: what is written for each field, and what
  one record does to it when it is read. The tags are those of the generated code.
 */
module Structs {
  import opened Bits
  import opened CompanySchemas
  import opened Decoder
  import opened Encoder
  import opened Entries
  import opened Errors
  import opened Records
  import opened Schemas
  import opened Varints
  import opened Wire

  // ---------------------------------------------------------------- Team

  datatype TeamStruct = TeamStruct(
    uuid: Bytes,
    companyUuid: Bytes,
    name: Bytes,
    archived: bool,
    timezone: Bytes,
    dayWeekStarts: Bytes,
    color: Bytes,
    version: int32)

  /** The fields, in the order of their numbers. */
  function OfTeam(x: TeamStruct): (m: Message)
    ensures Typed(TEAM, m)
  {
    [VString(x.uuid), VString(x.companyUuid), VString(x.name), VBool(x.archived), VString(x.timezone),
     VString(x.dayWeekStarts), VString(x.color), VInt32(x.version)]
  }

  /** What is written: each field under its tag. */
  function TeamBytes(x: TeamStruct): Bytes {
    Concat(TeamParts(x))
  }

  function TeamParts(x: TeamStruct): seq<Bytes> {
    [
      StringField(0x0a, x.uuid),
      StringField(0x12, x.companyUuid),
      StringField(0x1a, x.name),
      BoolField(0x20, x.archived),
      StringField(0x2a, x.timezone),
      StringField(0x32, x.dayWeekStarts),
      StringField(0x3a, x.color),
      Int32Field(0x40, x.version)
    ]
  }

  /** What is read: one record sets exactly the field of its tag, and one of another number nothing. */
  ghost predicate TeamReads(x: TeamStruct, d: Bytes, x': TeamStruct, err: Error) {
    && (forall s :: IsChunk(d, 0x0a, s) ==> err == Nil && x' == x.(uuid := s))
    && (forall s :: IsChunk(d, 0x12, s) ==> err == Nil && x' == x.(companyUuid := s))
    && (forall s :: IsChunk(d, 0x1a, s) ==> err == Nil && x' == x.(name := s))
    && (forall v :: IsNumber(d, 0x20, v) ==>
          err == Nil && x' == x.(archived := v % 0x1_0000_0000_0000_0000 != 0))
    && (forall s :: IsChunk(d, 0x2a, s) ==> err == Nil && x' == x.(timezone := s))
    && (forall s :: IsChunk(d, 0x32, s) ==> err == Nil && x' == x.(dayWeekStarts := s))
    && (forall s :: IsChunk(d, 0x3a, s) ==> err == Nil && x' == x.(color := s))
    && (forall v :: IsNumber(d, 0x40, v) ==> err == Nil && x' == x.(version := ToInt32(v)))
    && (IsForeign(d, {1, 2, 3, 4, 5, 6, 7, 8}) ==> err == Nil && x' == x)
  }

  lemma TeamIsWritten(x: TeamStruct, visit: Visit)
    requires Fair(visit)
    ensures ValidSchema(TEAM)
    ensures Marshal(TEAM, OfTeam(x), visit) == TeamBytes(x)
  {
    hide StringField, BoolField, Int32Field, PrefixedAll, Concat, EncodeField, Marshal;
    TeamIsValid();
    var parts := TeamParts(x);
    StringWritten(1, x.uuid, visit);
    StringWritten(2, x.companyUuid, visit);
    StringWritten(3, x.name, visit);
    BoolWritten(4, x.archived, visit);
    StringWritten(5, x.timezone, visit);
    StringWritten(6, x.dayWeekStarts, visit);
    StringWritten(7, x.color, visit);
    Int32Written(8, x.version, visit);
    forall j | 0 <= j < |parts|
      ensures Writes(TEAM, OfTeam(x), j, visit, parts[j])
    {
      assert j == 0 || j == 1 || j == 2 || j == 3 || j == 4 || j == 5 || j == 6 || j == 7;
    }
    MarshalIsConcat(TEAM, OfTeam(x), visit, parts);
  }

  lemma SameTeam(x: TeamStruct, y: TeamStruct)
    requires OfTeam(x) == OfTeam(y)
    ensures x == y
  {
    var a, b := OfTeam(x), OfTeam(y);
    assert a[0] == b[0] && a[1] == b[1] && a[2] == b[2] && a[3] == b[3];
    assert a[4] == b[4] && a[5] == b[5] && a[6] == b[6] && a[7] == b[7];
  }

  /** Assigning one of the first four fields. */
  lemma TeamFront(x: TeamStruct, s: Bytes, b: bool)
    ensures OfTeam(x)[0 := VString(s)] == OfTeam(x.(uuid := s))
    ensures OfTeam(x)[1 := VString(s)] == OfTeam(x.(companyUuid := s))
    ensures OfTeam(x)[2 := VString(s)] == OfTeam(x.(name := s))
    ensures OfTeam(x)[3 := VBool(b)] == OfTeam(x.(archived := b))
  {
  }

  /** Assigning one of the last four fields. */
  lemma TeamBack(x: TeamStruct, s: Bytes, b: bool, i: int32)
    ensures OfTeam(x)[4 := VString(s)] == OfTeam(x.(timezone := s))
    ensures OfTeam(x)[5 := VString(s)] == OfTeam(x.(dayWeekStarts := s))
    ensures OfTeam(x)[6 := VString(s)] == OfTeam(x.(color := s))
    ensures OfTeam(x)[7 := VInt32(i)] == OfTeam(x.(version := i))
  {
  }

  lemma TeamIsRead(x: TeamStruct, d: Bytes, x': TeamStruct, err: Error)
    requires |d| < TWO63 && Unmarshal(TEAM, OfTeam(x), d) == Outcome(OfTeam(x'), err)
    ensures TeamReads(x, d, x', err)
  {
    TeamIsValid();
    hide IsChunk, IsNumber, IsForeign, Typed, ValidSchema, Unmarshal, OfTeam;
    var m := OfTeam(x);
    forall s | IsChunk(d, 0x0a, s)
      ensures err == Nil && x' == x.(uuid := s)
    {
      StringAlone(TEAM, m, 0, d, s);
      TeamFront(x, s, false);
      SameTeam(x', x.(uuid := s));
    }
    forall s | IsChunk(d, 0x12, s)
      ensures err == Nil && x' == x.(companyUuid := s)
    {
      StringAlone(TEAM, m, 1, d, s);
      TeamFront(x, s, false);
      SameTeam(x', x.(companyUuid := s));
    }
    forall s | IsChunk(d, 0x1a, s)
      ensures err == Nil && x' == x.(name := s)
    {
      StringAlone(TEAM, m, 2, d, s);
      TeamFront(x, s, false);
      SameTeam(x', x.(name := s));
    }
    forall v | IsNumber(d, 0x20, v)
      ensures err == Nil && x' == x.(archived := v % 0x1_0000_0000_0000_0000 != 0)
    {
      NumberAlone(TEAM, m, 3, d, v);
      TeamFront(x, [], v % 0x1_0000_0000_0000_0000 != 0);
      SameTeam(x', x.(archived := v % 0x1_0000_0000_0000_0000 != 0));
    }
    forall s | IsChunk(d, 0x2a, s)
      ensures err == Nil && x' == x.(timezone := s)
    {
      StringAlone(TEAM, m, 4, d, s);
      TeamBack(x, s, false, 0);
      SameTeam(x', x.(timezone := s));
    }
    forall s | IsChunk(d, 0x32, s)
      ensures err == Nil && x' == x.(dayWeekStarts := s)
    {
      StringAlone(TEAM, m, 5, d, s);
      TeamBack(x, s, false, 0);
      SameTeam(x', x.(dayWeekStarts := s));
    }
    forall s | IsChunk(d, 0x3a, s)
      ensures err == Nil && x' == x.(color := s)
    {
      StringAlone(TEAM, m, 6, d, s);
      TeamBack(x, s, false, 0);
      SameTeam(x', x.(color := s));
    }
    forall v | IsNumber(d, 0x40, v)
      ensures err == Nil && x' == x.(version := ToInt32(v))
    {
      NumberAlone(TEAM, m, 7, d, v);
      TeamBack(x, [], false, ToInt32(v));
      SameTeam(x', x.(version := ToInt32(v)));
    }
    if IsForeign(d, {1, 2, 3, 4, 5, 6, 7, 8}) {
      ForeignAlone(TEAM, m, d, {1, 2, 3, 4, 5, 6, 7, 8});
      SameTeam(x', x);
    }
  }

  // ---------------------------------------------------------------- DirectoryEntry

  datatype DirectoryEntryStruct = DirectoryEntryStruct(
    userUuid: Bytes,
    internalId: Bytes,
    companyUuid: Bytes,
    name: Bytes,
    email: Bytes,
    confirmedAndActive: bool,
    phonenumber: Bytes,
    photoUrl: Bytes)

  /** The fields, in the order of their numbers. */
  function OfDirectoryEntry(x: DirectoryEntryStruct): (m: Message)
    ensures Typed(DIRECTORY_ENTRY, m)
  {
    [VString(x.userUuid), VString(x.internalId), VString(x.companyUuid), VString(x.name), VString(x.email),
     VBool(x.confirmedAndActive), VString(x.phonenumber), VString(x.photoUrl)]
  }

  /** What is written: each field under its tag. */
  function DirectoryEntryBytes(x: DirectoryEntryStruct): Bytes {
    Concat(DirectoryEntryParts(x))
  }

  function DirectoryEntryParts(x: DirectoryEntryStruct): seq<Bytes> {
    [
      StringField(0x0a, x.userUuid),
      StringField(0x12, x.internalId),
      StringField(0x1a, x.companyUuid),
      StringField(0x2a, x.name),
      StringField(0x32, x.email),
      BoolField(0x38, x.confirmedAndActive),
      StringField(0x42, x.phonenumber),
      StringField(0x4a, x.photoUrl)
    ]
  }

  /** What is read: one record sets exactly the field of its tag, and one of another number nothing. */
  ghost predicate DirectoryEntryReads(x: DirectoryEntryStruct, d: Bytes, x': DirectoryEntryStruct, err: Error) {
    && (forall s :: IsChunk(d, 0x0a, s) ==> err == Nil && x' == x.(userUuid := s))
    && (forall s :: IsChunk(d, 0x12, s) ==> err == Nil && x' == x.(internalId := s))
    && (forall s :: IsChunk(d, 0x1a, s) ==> err == Nil && x' == x.(companyUuid := s))
    && (forall s :: IsChunk(d, 0x2a, s) ==> err == Nil && x' == x.(name := s))
    && (forall s :: IsChunk(d, 0x32, s) ==> err == Nil && x' == x.(email := s))
    && (forall v :: IsNumber(d, 0x38, v) ==>
          err == Nil && x' == x.(confirmedAndActive := v % 0x1_0000_0000_0000_0000 != 0))
    && (forall s :: IsChunk(d, 0x42, s) ==> err == Nil && x' == x.(phonenumber := s))
    && (forall s :: IsChunk(d, 0x4a, s) ==> err == Nil && x' == x.(photoUrl := s))
    && (IsForeign(d, {1, 2, 3, 5, 6, 7, 8, 9}) ==> err == Nil && x' == x)
  }

  lemma DirectoryEntryIsWritten(x: DirectoryEntryStruct, visit: Visit)
    requires Fair(visit)
    ensures ValidSchema(DIRECTORY_ENTRY)
    ensures Marshal(DIRECTORY_ENTRY, OfDirectoryEntry(x), visit) == DirectoryEntryBytes(x)
  {
    hide StringField, BoolField, Int32Field, PrefixedAll, Concat, EncodeField, Marshal;
    DirectoryEntryIsValid();
    var parts := DirectoryEntryParts(x);
    StringWritten(1, x.userUuid, visit);
    StringWritten(2, x.internalId, visit);
    StringWritten(3, x.companyUuid, visit);
    StringWritten(5, x.name, visit);
    StringWritten(6, x.email, visit);
    BoolWritten(7, x.confirmedAndActive, visit);
    StringWritten(8, x.phonenumber, visit);
    StringWritten(9, x.photoUrl, visit);
    forall j | 0 <= j < |parts|
      ensures Writes(DIRECTORY_ENTRY, OfDirectoryEntry(x), j, visit, parts[j])
    {
      assert j == 0 || j == 1 || j == 2 || j == 3 || j == 4 || j == 5 || j == 6 || j == 7;
    }
    MarshalIsConcat(DIRECTORY_ENTRY, OfDirectoryEntry(x), visit, parts);
  }

  lemma SameDirectoryEntry(x: DirectoryEntryStruct, y: DirectoryEntryStruct)
    requires OfDirectoryEntry(x) == OfDirectoryEntry(y)
    ensures x == y
  {
    var a, b := OfDirectoryEntry(x), OfDirectoryEntry(y);
    assert a[0] == b[0] && a[1] == b[1] && a[2] == b[2] && a[3] == b[3];
    assert a[4] == b[4] && a[5] == b[5] && a[6] == b[6] && a[7] == b[7];
  }

  /** Assigning one of the first four fields. */
  lemma DirectoryEntryFront(x: DirectoryEntryStruct, s: Bytes)
    ensures OfDirectoryEntry(x)[0 := VString(s)] == OfDirectoryEntry(x.(userUuid := s))
    ensures OfDirectoryEntry(x)[1 := VString(s)] == OfDirectoryEntry(x.(internalId := s))
    ensures OfDirectoryEntry(x)[2 := VString(s)] == OfDirectoryEntry(x.(companyUuid := s))
    ensures OfDirectoryEntry(x)[3 := VString(s)] == OfDirectoryEntry(x.(name := s))
  {
  }

  /** Assigning one of the last four fields. */
  lemma DirectoryEntryBack(x: DirectoryEntryStruct, s: Bytes, b: bool)
    ensures OfDirectoryEntry(x)[4 := VString(s)] == OfDirectoryEntry(x.(email := s))
    ensures OfDirectoryEntry(x)[5 := VBool(b)] == OfDirectoryEntry(x.(confirmedAndActive := b))
    ensures OfDirectoryEntry(x)[6 := VString(s)] == OfDirectoryEntry(x.(phonenumber := s))
    ensures OfDirectoryEntry(x)[7 := VString(s)] == OfDirectoryEntry(x.(photoUrl := s))
  {
  }

  lemma DirectoryEntryIsRead(x: DirectoryEntryStruct, d: Bytes, x': DirectoryEntryStruct, err: Error)
    requires |d| < TWO63 && Unmarshal(DIRECTORY_ENTRY, OfDirectoryEntry(x), d) == Outcome(OfDirectoryEntry(x'), err)
    ensures DirectoryEntryReads(x, d, x', err)
  {
    DirectoryEntryIsValid();
    hide IsChunk, IsNumber, IsForeign, Typed, ValidSchema, Unmarshal, OfDirectoryEntry;
    var m := OfDirectoryEntry(x);
    forall s | IsChunk(d, 0x0a, s)
      ensures err == Nil && x' == x.(userUuid := s)
    {
      StringAlone(DIRECTORY_ENTRY, m, 0, d, s);
      DirectoryEntryFront(x, s);
      SameDirectoryEntry(x', x.(userUuid := s));
    }
    forall s | IsChunk(d, 0x12, s)
      ensures err == Nil && x' == x.(internalId := s)
    {
      StringAlone(DIRECTORY_ENTRY, m, 1, d, s);
      DirectoryEntryFront(x, s);
      SameDirectoryEntry(x', x.(internalId := s));
    }
    forall s | IsChunk(d, 0x1a, s)
      ensures err == Nil && x' == x.(companyUuid := s)
    {
      StringAlone(DIRECTORY_ENTRY, m, 2, d, s);
      DirectoryEntryFront(x, s);
      SameDirectoryEntry(x', x.(companyUuid := s));
    }
    forall s | IsChunk(d, 0x2a, s)
      ensures err == Nil && x' == x.(name := s)
    {
      StringAlone(DIRECTORY_ENTRY, m, 3, d, s);
      DirectoryEntryFront(x, s);
      SameDirectoryEntry(x', x.(name := s));
    }
    forall s | IsChunk(d, 0x32, s)
      ensures err == Nil && x' == x.(email := s)
    {
      StringAlone(DIRECTORY_ENTRY, m, 4, d, s);
      DirectoryEntryBack(x, s, false);
      SameDirectoryEntry(x', x.(email := s));
    }
    forall v | IsNumber(d, 0x38, v)
      ensures err == Nil && x' == x.(confirmedAndActive := v % 0x1_0000_0000_0000_0000 != 0)
    {
      NumberAlone(DIRECTORY_ENTRY, m, 5, d, v);
      DirectoryEntryBack(x, [], v % 0x1_0000_0000_0000_0000 != 0);
      SameDirectoryEntry(x', x.(confirmedAndActive := v % 0x1_0000_0000_0000_0000 != 0));
    }
    forall s | IsChunk(d, 0x42, s)
      ensures err == Nil && x' == x.(phonenumber := s)
    {
      StringAlone(DIRECTORY_ENTRY, m, 6, d, s);
      DirectoryEntryBack(x, s, false);
      SameDirectoryEntry(x', x.(phonenumber := s));
    }
    forall s | IsChunk(d, 0x4a, s)
      ensures err == Nil && x' == x.(photoUrl := s)
    {
      StringAlone(DIRECTORY_ENTRY, m, 7, d, s);
      DirectoryEntryBack(x, s, false);
      SameDirectoryEntry(x', x.(photoUrl := s));
    }
    if IsForeign(d, {1, 2, 3, 5, 6, 7, 8, 9}) {
      ForeignAlone(DIRECTORY_ENTRY, m, d, {1, 2, 3, 5, 6, 7, 8, 9});
      SameDirectoryEntry(x', x);
    }
  }

  // ---------------------------------------------------------------- Worker

  datatype WorkerStruct = WorkerStruct(
    companyUuid: Bytes,
    teamUuid: Bytes,
    userUuid: Bytes,
    version: int32)

  /** The fields, in the order of their numbers. */
  function OfWorker(x: WorkerStruct): (m: Message)
    ensures Typed(WORKER, m)
  {
    [VString(x.companyUuid), VString(x.teamUuid), VString(x.userUuid), VInt32(x.version)]
  }

  /** What is written: each field under its tag. */
  function WorkerBytes(x: WorkerStruct): Bytes {
    Concat(WorkerParts(x))
  }

  function WorkerParts(x: WorkerStruct): seq<Bytes> {
    [
      StringField(0x0a, x.companyUuid),
      StringField(0x12, x.teamUuid),
      StringField(0x1a, x.userUuid),
      Int32Field(0x20, x.version)
    ]
  }

  /** What is read: one record sets exactly the field of its tag, and one of another number nothing. */
  ghost predicate WorkerReads(x: WorkerStruct, d: Bytes, x': WorkerStruct, err: Error) {
    && (forall s :: IsChunk(d, 0x0a, s) ==> err == Nil && x' == x.(companyUuid := s))
    && (forall s :: IsChunk(d, 0x12, s) ==> err == Nil && x' == x.(teamUuid := s))
    && (forall s :: IsChunk(d, 0x1a, s) ==> err == Nil && x' == x.(userUuid := s))
    && (forall v :: IsNumber(d, 0x20, v) ==> err == Nil && x' == x.(version := ToInt32(v)))
    && (IsForeign(d, {1, 2, 3, 4}) ==> err == Nil && x' == x)
  }

  lemma WorkerIsWritten(x: WorkerStruct, visit: Visit)
    requires Fair(visit)
    ensures ValidSchema(WORKER)
    ensures Marshal(WORKER, OfWorker(x), visit) == WorkerBytes(x)
  {
    hide StringField, BoolField, Int32Field, PrefixedAll, Concat, EncodeField, Marshal;
    WorkerIsValid();
    var parts := WorkerParts(x);
    StringWritten(1, x.companyUuid, visit);
    StringWritten(2, x.teamUuid, visit);
    StringWritten(3, x.userUuid, visit);
    Int32Written(4, x.version, visit);
    forall j | 0 <= j < |parts|
      ensures Writes(WORKER, OfWorker(x), j, visit, parts[j])
    {
      assert j == 0 || j == 1 || j == 2 || j == 3;
    }
    MarshalIsConcat(WORKER, OfWorker(x), visit, parts);
  }

  lemma SameWorker(x: WorkerStruct, y: WorkerStruct)
    requires OfWorker(x) == OfWorker(y)
    ensures x == y
  {
    var a, b := OfWorker(x), OfWorker(y);
    assert a[0] == b[0] && a[1] == b[1] && a[2] == b[2] && a[3] == b[3];
  }

  lemma WorkerIsRead(x: WorkerStruct, d: Bytes, x': WorkerStruct, err: Error)
    requires |d| < TWO63 && Unmarshal(WORKER, OfWorker(x), d) == Outcome(OfWorker(x'), err)
    ensures WorkerReads(x, d, x', err)
  {
    WorkerIsValid();
    hide IsChunk, IsNumber, IsForeign, Typed, ValidSchema, Unmarshal;
    var m := OfWorker(x);
    forall s | IsChunk(d, 0x0a, s)
      ensures err == Nil && x' == x.(companyUuid := s)
    {
      StringAlone(WORKER, m, 0, d, s);
      SameWorker(x', x.(companyUuid := s));
    }
    forall s | IsChunk(d, 0x12, s)
      ensures err == Nil && x' == x.(teamUuid := s)
    {
      StringAlone(WORKER, m, 1, d, s);
      SameWorker(x', x.(teamUuid := s));
    }
    forall s | IsChunk(d, 0x1a, s)
      ensures err == Nil && x' == x.(userUuid := s)
    {
      StringAlone(WORKER, m, 2, d, s);
      SameWorker(x', x.(userUuid := s));
    }
    forall v | IsNumber(d, 0x20, v)
      ensures err == Nil && x' == x.(version := ToInt32(v))
    {
      NumberAlone(WORKER, m, 3, d, v);
      SameWorker(x', x.(version := ToInt32(v)));
    }
    if IsForeign(d, {1, 2, 3, 4}) {
      ForeignAlone(WORKER, m, d, {1, 2, 3, 4});
      SameWorker(x', x);
    }
  }

  // ---------------------------------------------------------------- WorkerListRequest

  datatype WorkerListRequestStruct = WorkerListRequestStruct(
    companyUuid: Bytes,
    teamUuid: Bytes)

  /** The fields, in the order of their numbers. */
  function OfWorkerListRequest(x: WorkerListRequestStruct): (m: Message)
    ensures Typed(WORKER_LIST_REQUEST, m)
  {
    [VString(x.companyUuid), VString(x.teamUuid)]
  }

  /** What is written: each field under its tag. */
  function WorkerListRequestBytes(x: WorkerListRequestStruct): Bytes {
    Concat(WorkerListRequestParts(x))
  }

  function WorkerListRequestParts(x: WorkerListRequestStruct): seq<Bytes> {
    [
      StringField(0x0a, x.companyUuid),
      StringField(0x12, x.teamUuid)
    ]
  }

  /** What is read: one record sets exactly the field of its tag, and one of another number nothing. */
  ghost predicate WorkerListRequestReads(
    x: WorkerListRequestStruct, d: Bytes, x': WorkerListRequestStruct, err: Error)
  {
    && (forall s :: IsChunk(d, 0x0a, s) ==> err == Nil && x' == x.(companyUuid := s))
    && (forall s :: IsChunk(d, 0x12, s) ==> err == Nil && x' == x.(teamUuid := s))
    && (IsForeign(d, {1, 2}) ==> err == Nil && x' == x)
  }

  lemma WorkerListRequestIsWritten(x: WorkerListRequestStruct, visit: Visit)
    requires Fair(visit)
    ensures ValidSchema(WORKER_LIST_REQUEST)
    ensures Marshal(WORKER_LIST_REQUEST, OfWorkerListRequest(x), visit) == WorkerListRequestBytes(x)
  {
    hide StringField, BoolField, Int32Field, PrefixedAll, Concat, EncodeField, Marshal;
    WorkerListRequestIsValid();
    var parts := WorkerListRequestParts(x);
    StringWritten(1, x.companyUuid, visit);
    StringWritten(2, x.teamUuid, visit);
    forall j | 0 <= j < |parts|
      ensures Writes(WORKER_LIST_REQUEST, OfWorkerListRequest(x), j, visit, parts[j])
    {
      assert j == 0 || j == 1;
    }
    MarshalIsConcat(WORKER_LIST_REQUEST, OfWorkerListRequest(x), visit, parts);
  }

  lemma SameWorkerListRequest(x: WorkerListRequestStruct, y: WorkerListRequestStruct)
    requires OfWorkerListRequest(x) == OfWorkerListRequest(y)
    ensures x == y
  {
    var a, b := OfWorkerListRequest(x), OfWorkerListRequest(y);
    assert a[0] == b[0] && a[1] == b[1];
  }

  lemma WorkerListRequestIsRead(x: WorkerListRequestStruct, d: Bytes, x': WorkerListRequestStruct, err: Error)
    requires |d| < TWO63
    requires Unmarshal(WORKER_LIST_REQUEST, OfWorkerListRequest(x), d) == Outcome(OfWorkerListRequest(x'), err)
    ensures WorkerListRequestReads(x, d, x', err)
  {
    WorkerListRequestIsValid();
    hide IsChunk, IsNumber, IsForeign, Typed, ValidSchema, Unmarshal;
    var m := OfWorkerListRequest(x);
    forall s | IsChunk(d, 0x0a, s)
      ensures err == Nil && x' == x.(companyUuid := s)
    {
      StringAlone(WORKER_LIST_REQUEST, m, 0, d, s);
      SameWorkerListRequest(x', x.(companyUuid := s));
    }
    forall s | IsChunk(d, 0x12, s)
      ensures err == Nil && x' == x.(teamUuid := s)
    {
      StringAlone(WORKER_LIST_REQUEST, m, 1, d, s);
      SameWorkerListRequest(x', x.(teamUuid := s));
    }
    if IsForeign(d, {1, 2}) {
      ForeignAlone(WORKER_LIST_REQUEST, m, d, {1, 2});
      SameWorkerListRequest(x', x);
    }
  }

  // ---------------------------------------------------------------- RowsOfCompany

  datatype RowsOfCompanyStruct = RowsOfCompanyStruct(
    companyUuid: seq<Bytes>)

  /** The fields, in the order of their numbers. */
  function OfRowsOfCompany(x: RowsOfCompanyStruct): (m: Message)
    ensures Typed(ROWS_OF_COMPANY, m)
  {
    [VStrings(x.companyUuid)]
  }

  /** What is written: each field under its tag. */
  function RowsOfCompanyBytes(x: RowsOfCompanyStruct): Bytes {
    Concat(RowsOfCompanyParts(x))
  }

  function RowsOfCompanyParts(x: RowsOfCompanyStruct): seq<Bytes> {
    [
      PrefixedAll(0x0a, x.companyUuid)
    ]
  }

  /** What is read: one record sets exactly the field of its tag, and one of another number nothing. */
  ghost predicate RowsOfCompanyReads(x: RowsOfCompanyStruct, d: Bytes, x': RowsOfCompanyStruct, err: Error) {
    && (forall s :: IsChunk(d, 0x0a, s) ==> err == Nil && x' == x.(companyUuid := x.companyUuid + [s]))
    && (IsForeign(d, {1}) ==> err == Nil && x' == x)
  }

  lemma RowsOfCompanyIsWritten(x: RowsOfCompanyStruct, visit: Visit)
    requires Fair(visit)
    ensures ValidSchema(ROWS_OF_COMPANY)
    ensures Marshal(ROWS_OF_COMPANY, OfRowsOfCompany(x), visit) == RowsOfCompanyBytes(x)
  {
    hide StringField, BoolField, Int32Field, PrefixedAll, Concat, EncodeField, Marshal;
    RowsOfCompanyIsValid();
    var parts := RowsOfCompanyParts(x);
    StringListWritten(1, x.companyUuid, visit);
    forall j | 0 <= j < |parts|
      ensures Writes(ROWS_OF_COMPANY, OfRowsOfCompany(x), j, visit, parts[j])
    {
      assert j == 0;
    }
    MarshalIsConcat(ROWS_OF_COMPANY, OfRowsOfCompany(x), visit, parts);
  }

  lemma SameRowsOfCompany(x: RowsOfCompanyStruct, y: RowsOfCompanyStruct)
    requires OfRowsOfCompany(x) == OfRowsOfCompany(y)
    ensures x == y
  {
    var a, b := OfRowsOfCompany(x), OfRowsOfCompany(y);
    assert a[0] == b[0];
  }

  lemma RowsOfCompanyIsRead(x: RowsOfCompanyStruct, d: Bytes, x': RowsOfCompanyStruct, err: Error)
    requires |d| < TWO63 && Unmarshal(ROWS_OF_COMPANY, OfRowsOfCompany(x), d) == Outcome(OfRowsOfCompany(x'), err)
    ensures RowsOfCompanyReads(x, d, x', err)
  {
    RowsOfCompanyIsValid();
    hide IsChunk, IsNumber, IsForeign, Typed, ValidSchema, Unmarshal;
    var m := OfRowsOfCompany(x);
    forall s | IsChunk(d, 0x0a, s)
      ensures err == Nil && x' == x.(companyUuid := x.companyUuid + [s])
    {
      StringAlone(ROWS_OF_COMPANY, m, 0, d, s);
      SameRowsOfCompany(x', x.(companyUuid := x.companyUuid + [s]));
    }
    if IsForeign(d, {1}) {
      ForeignAlone(ROWS_OF_COMPANY, m, d, {1});
      SameRowsOfCompany(x', x);
    }
  }

  // ---------------------------------------------------------------- Association

  datatype AssociationStruct = AssociationStruct(account: DirectoryEntryStruct, teams: seq<TeamStruct>, admin: bool)

  /** A team before anything is read into it. */
  const NO_TEAM := TeamStruct([], [], [], false, [], [], [], 0)

  lemma NoTeamIsEmpty()
    ensures OfTeam(NO_TEAM) == Empty(TEAM)
  {
    var m := Empty(TEAM);
    assert forall i :: 0 <= i < 8 ==> m[i] == EmptyValue(TEAM.fields[i].kind);
  }

  function OfTeams(ts: seq<TeamStruct>): (ms: seq<Message>)
    ensures |ms| == |ts| && forall i :: 0 <= i < |ts| ==> ms[i] == OfTeam(ts[i]) && Typed(TEAM, ms[i])
  {
    seq(|ts|, i requires 0 <= i < |ts| => OfTeam(ts[i]))
  }

  function OfAssociation(x: AssociationStruct): (m: Message)
    ensures Typed(ASSOCIATION, m)
  {
    [VMessage(OfDirectoryEntry(x.account)), VMessages(OfTeams(x.teams)), VBool(x.admin)]
  }

  function AssociationBytes(x: AssociationStruct): Bytes {
    Concat(AssociationParts(x))
  }

  /** The account is written even when it is empty. */
  function AssociationParts(x: AssociationStruct): seq<Bytes> {
    [
      Prefixed(0x0a, DirectoryEntryBytes(x.account)),
      PrefixedAll(0x12, seq(|x.teams|, i requires 0 <= i < |x.teams| => TeamBytes(x.teams[i]))),
      BoolField(0x18, x.admin)
    ]
  }

  /**
    A nested record is read into the account, or into a new team that is appended; this is also what
    has happened when it is rejected.
   */
  ghost predicate AssociationReads(x: AssociationStruct, d: Bytes, x': AssociationStruct, err: Error) {
    && (forall s :: IsChunk(d, 0x0a, s) ==>
          && x' == x.(account := x'.account)
          && DirectoryEntryReads(x.account, s, x'.account, err)
          && Unmarshal(DIRECTORY_ENTRY, OfDirectoryEntry(x.account), s) == Outcome(OfDirectoryEntry(x'.account), err))
    && (forall s :: IsChunk(d, 0x12, s) ==>
          && |x'.teams| == |x.teams| + 1
          && var team := x'.teams[|x.teams|];
             && x' == x.(teams := x.teams + [team])
             && TeamReads(NO_TEAM, s, team, err)
             && Unmarshal(TEAM, OfTeam(NO_TEAM), s) == Outcome(OfTeam(team), err))
    && (forall v :: IsNumber(d, 0x18, v) ==>
          err == Nil && x' == x.(admin := v % 0x1_0000_0000_0000_0000 != 0))
    && (IsForeign(d, {1, 2, 3}) ==> err == Nil && x' == x)
  }

  lemma AssociationIsWritten(x: AssociationStruct, visit: Visit)
    requires Fair(visit)
    ensures ValidSchema(ASSOCIATION)
    ensures Marshal(ASSOCIATION, OfAssociation(x), visit) == AssociationBytes(x)
  {
    hide Prefixed, PrefixedAll, BoolField, Concat, EncodeField, Marshal, DirectoryEntryBytes, TeamBytes, Typed;
    AssociationIsValid();
    var parts := AssociationParts(x);
    DirectoryEntryIsWritten(x.account, visit);
    MessageWritten(1, DIRECTORY_ENTRY, OfDirectoryEntry(x.account), visit);
    var list := seq(|x.teams|, i requires 0 <= i < |x.teams| => TeamBytes(x.teams[i]));
    TeamIsValid();
    forall i | 0 <= i < |list|
      ensures list[i] == Marshal(TEAM, OfTeam(x.teams[i]), visit)
    {
      TeamIsWritten(x.teams[i], visit);
    }
    MessageListWritten(2, TEAM, OfTeams(x.teams), list, visit);
    BoolWritten(3, x.admin, visit);
    forall j | 0 <= j < |parts|
      ensures Writes(ASSOCIATION, OfAssociation(x), j, visit, parts[j])
    {
      assert j == 0 || j == 1 || j == 2;
    }
    MarshalIsConcat(ASSOCIATION, OfAssociation(x), visit, parts);
  }

  lemma SameTeams(x: seq<TeamStruct>, y: seq<TeamStruct>)
    requires OfTeams(x) == OfTeams(y)
    ensures x == y
  {
    forall i | 0 <= i < |x|
      ensures x[i] == y[i]
    {
      assert OfTeams(x)[i] == OfTeams(y)[i];
      SameTeam(x[i], y[i]);
    }
  }

  lemma SameAssociation(x: AssociationStruct, y: AssociationStruct)
    requires OfAssociation(x) == OfAssociation(y)
    ensures x == y
  {
    hide OfDirectoryEntry, OfTeams;
    var a, b := OfAssociation(x), OfAssociation(y);
    assert a[0] == b[0] && a[1] == b[1] && a[2] == b[2];
    SameDirectoryEntry(x.account, y.account);
    SameTeams(x.teams, y.teams);
  }

  lemma AccountIsRead(x: AssociationStruct, d: Bytes, s: Bytes, x': AssociationStruct, err: Error)
    requires |d| < TWO63 && Unmarshal(ASSOCIATION, OfAssociation(x), d) == Outcome(OfAssociation(x'), err)
    requires IsChunk(d, 0x0a, s)
    ensures x' == x.(account := x'.account) && DirectoryEntryReads(x.account, s, x'.account, err)
    ensures Unmarshal(DIRECTORY_ENTRY, OfDirectoryEntry(x.account), s) == Outcome(OfDirectoryEntry(x'.account), err)
  {
    ChunkIsShorter(d, 0x0a, s);
    AssociationIsValid();
    hide IsChunk, Typed, ValidSchema, Unmarshal, OfDirectoryEntry, OfTeams, DirectoryEntryReads;
    MessageAlone(ASSOCIATION, OfAssociation(x), 0, d, s);
    var a, b := OfAssociation(x), OfAssociation(x');
    assert b[0].m == Unmarshal(DIRECTORY_ENTRY, a[0].m, s).m && b[1] == a[1] && b[2] == a[2];
    SameTeams(x.teams, x'.teams);
    DirectoryEntryIsRead(x.account, s, x'.account, err);
  }

  lemma TeamIsAppended(x: AssociationStruct, d: Bytes, s: Bytes, x': AssociationStruct, err: Error)
    requires |d| < TWO63 && Unmarshal(ASSOCIATION, OfAssociation(x), d) == Outcome(OfAssociation(x'), err)
    requires IsChunk(d, 0x12, s)
    ensures |x'.teams| == |x.teams| + 1 && x' == x.(teams := x.teams + [x'.teams[|x.teams|]])
    ensures var team := x'.teams[|x.teams|];
            TeamReads(NO_TEAM, s, team, err) && Unmarshal(TEAM, OfTeam(NO_TEAM), s) == Outcome(OfTeam(team), err)
  {
    ChunkIsShorter(d, 0x12, s);
    AssociationIsValid();
    hide IsChunk, Typed, ValidSchema, Unmarshal, OfDirectoryEntry, OfTeams, OfTeam, TeamReads, Empty;
    ElementAlone(ASSOCIATION, OfAssociation(x), 1, d, s);
    NoTeamIsEmpty();
    var a, b := OfAssociation(x), OfAssociation(x');
    assert b[1].ms == a[1].ms + [Unmarshal(TEAM, Empty(TEAM), s).m] && b[0] == a[0] && b[2] == a[2];
    var n := |x.teams|;
    forall i | 0 <= i < n
      ensures x'.teams[i] == x.teams[i]
    {
      assert b[1].ms[i] == a[1].ms[i];
      SameTeam(x'.teams[i], x.teams[i]);
    }
    SameDirectoryEntry(x.account, x'.account);
    assert b[1].ms[n] == OfTeam(x'.teams[n]);
    TeamIsRead(NO_TEAM, s, x'.teams[n], err);
  }

  lemma AssociationIsRead(x: AssociationStruct, d: Bytes, x': AssociationStruct, err: Error)
    requires |d| < TWO63 && Unmarshal(ASSOCIATION, OfAssociation(x), d) == Outcome(OfAssociation(x'), err)
    ensures AssociationReads(x, d, x', err)
  {
    AssociationIsValid();
    hide IsChunk, IsNumber, IsForeign, Typed, ValidSchema, Unmarshal, OfDirectoryEntry, OfTeams, OfTeam;
    hide DirectoryEntryReads, TeamReads;
    var m := OfAssociation(x);
    forall s | IsChunk(d, 0x0a, s)
      ensures x' == x.(account := x'.account) && DirectoryEntryReads(x.account, s, x'.account, err)
      ensures Unmarshal(DIRECTORY_ENTRY, OfDirectoryEntry(x.account), s) == Outcome(OfDirectoryEntry(x'.account), err)
    {
      AccountIsRead(x, d, s, x', err);
    }
    forall s | IsChunk(d, 0x12, s)
      ensures |x'.teams| == |x.teams| + 1 && x' == x.(teams := x.teams + [x'.teams[|x.teams|]])
      ensures var team := x'.teams[|x.teams|];
              TeamReads(NO_TEAM, s, team, err) && Unmarshal(TEAM, OfTeam(NO_TEAM), s) == Outcome(OfTeam(team), err)
    {
      TeamIsAppended(x, d, s, x', err);
    }
    forall v | IsNumber(d, 0x18, v)
      ensures err == Nil && x' == x.(admin := v % 0x1_0000_0000_0000_0000 != 0)
    {
      NumberAlone(ASSOCIATION, m, 2, d, v);
      SameAssociation(x', x.(admin := v % 0x1_0000_0000_0000_0000 != 0));
    }
    if IsForeign(d, {1, 2, 3}) {
      ForeignAlone(ASSOCIATION, m, d, {1, 2, 3});
      SameAssociation(x', x);
    }
  }

  // ---------------------------------------------------------------- AssociationList

  datatype AssociationListStruct = AssociationListStruct(
    accounts: seq<AssociationStruct>,
    limit: int32,
    offset: int32)

  const NO_ENTRY := DirectoryEntryStruct([], [], [], [], [], false, [], [])

  /** An association before anything is read into it. */
  const NO_ASSOCIATION := AssociationStruct(NO_ENTRY, [], false)

  lemma NoEntryIsEmpty()
    ensures OfDirectoryEntry(NO_ENTRY) == Empty(DIRECTORY_ENTRY)
  {
    var m := Empty(DIRECTORY_ENTRY);
    assert forall i :: 0 <= i < 8 ==> m[i] == EmptyValue(DIRECTORY_ENTRY.fields[i].kind);
  }

  lemma NoAssociationIsEmpty()
    ensures OfAssociation(NO_ASSOCIATION) == Empty(ASSOCIATION)
  {
    hide OfDirectoryEntry;
    NoEntryIsEmpty();
    var m := Empty(ASSOCIATION);
    assert forall i :: 0 <= i < 3 ==> m[i] == EmptyValue(ASSOCIATION.fields[i].kind);
  }

  function OfAssociations(xs: seq<AssociationStruct>): (ms: seq<Message>)
    ensures |ms| == |xs| && forall i :: 0 <= i < |xs| ==> ms[i] == OfAssociation(xs[i]) && Typed(ASSOCIATION, ms[i])
  {
    seq(|xs|, i requires 0 <= i < |xs| => OfAssociation(xs[i]))
  }

  function OfAssociationList(x: AssociationListStruct): (m: Message)
    ensures Typed(ASSOCIATION_LIST, m)
  {
    [VMessages(OfAssociations(x.accounts)), VInt32(x.limit), VInt32(x.offset)]
  }

  function AssociationListBytes(x: AssociationListStruct): Bytes {
    Concat(AssociationListParts(x))
  }

  function AssociationListParts(x: AssociationListStruct): seq<Bytes> {
    [
      PrefixedAll(0x0a, seq(|x.accounts|, i requires 0 <= i < |x.accounts| => AssociationBytes(x.accounts[i]))),
      Int32Field(0x10, x.limit),
      Int32Field(0x18, x.offset)
    ]
  }

  /** A nested record is read into a new association that is appended. */
  ghost predicate AssociationListReads(x: AssociationListStruct, d: Bytes, x': AssociationListStruct, err: Error) {
    && (forall s :: IsChunk(d, 0x0a, s) ==>
          && |x'.accounts| == |x.accounts| + 1
          && var a := x'.accounts[|x.accounts|];
             && x' == x.(accounts := x.accounts + [a])
             && AssociationReads(NO_ASSOCIATION, s, a, err)
             && Unmarshal(ASSOCIATION, OfAssociation(NO_ASSOCIATION), s) == Outcome(OfAssociation(a), err))
    && (forall v :: IsNumber(d, 0x10, v) ==> err == Nil && x' == x.(limit := ToInt32(v)))
    && (forall v :: IsNumber(d, 0x18, v) ==> err == Nil && x' == x.(offset := ToInt32(v)))
    && (IsForeign(d, {1, 2, 3}) ==> err == Nil && x' == x)
  }

  lemma AssociationListIsWritten(x: AssociationListStruct, visit: Visit)
    requires Fair(visit)
    ensures ValidSchema(ASSOCIATION_LIST)
    ensures Marshal(ASSOCIATION_LIST, OfAssociationList(x), visit) == AssociationListBytes(x)
  {
    hide Prefixed, PrefixedAll, Int32Field, Concat, EncodeField, Marshal, AssociationBytes, OfAssociation, Typed;
    AssociationListIsValid();
    var parts := AssociationListParts(x);
    var list := seq(|x.accounts|, i requires 0 <= i < |x.accounts| => AssociationBytes(x.accounts[i]));
    AssociationIsValid();
    forall i | 0 <= i < |list|
      ensures list[i] == Marshal(ASSOCIATION, OfAssociation(x.accounts[i]), visit)
    {
      AssociationIsWritten(x.accounts[i], visit);
    }
    MessageListWritten(1, ASSOCIATION, OfAssociations(x.accounts), list, visit);
    Int32Written(2, x.limit, visit);
    Int32Written(3, x.offset, visit);
    forall j | 0 <= j < |parts|
      ensures Writes(ASSOCIATION_LIST, OfAssociationList(x), j, visit, parts[j])
    {
      assert j == 0 || j == 1 || j == 2;
    }
    MarshalIsConcat(ASSOCIATION_LIST, OfAssociationList(x), visit, parts);
  }

  lemma SameAssociations(x: seq<AssociationStruct>, y: seq<AssociationStruct>)
    requires OfAssociations(x) == OfAssociations(y)
    ensures x == y
  {
    hide OfAssociation;
    forall i | 0 <= i < |x|
      ensures x[i] == y[i]
    {
      assert OfAssociations(x)[i] == OfAssociations(y)[i];
      SameAssociation(x[i], y[i]);
    }
  }

  lemma SameAssociationList(x: AssociationListStruct, y: AssociationListStruct)
    requires OfAssociationList(x) == OfAssociationList(y)
    ensures x == y
  {
    hide OfAssociations;
    var a, b := OfAssociationList(x), OfAssociationList(y);
    assert a[0] == b[0] && a[1] == b[1] && a[2] == b[2];
    SameAssociations(x.accounts, y.accounts);
  }

  lemma AssociationIsAppended(x: AssociationListStruct, d: Bytes, s: Bytes, x': AssociationListStruct, err: Error)
    requires |d| < TWO63 && Unmarshal(ASSOCIATION_LIST, OfAssociationList(x), d) == Outcome(OfAssociationList(x'), err)
    requires IsChunk(d, 0x0a, s)
    ensures |x'.accounts| == |x.accounts| + 1 && x' == x.(accounts := x.accounts + [x'.accounts[|x.accounts|]])
    ensures var a := x'.accounts[|x.accounts|];
            && AssociationReads(NO_ASSOCIATION, s, a, err)
            && Unmarshal(ASSOCIATION, OfAssociation(NO_ASSOCIATION), s) == Outcome(OfAssociation(a), err)
  {
    ChunkIsShorter(d, 0x0a, s);
    AssociationListIsValid();
    hide IsChunk, Typed, ValidSchema, Unmarshal, OfAssociations, OfAssociation, AssociationReads, Empty;
    ElementAlone(ASSOCIATION_LIST, OfAssociationList(x), 0, d, s);
    NoAssociationIsEmpty();
    var a, b := OfAssociationList(x), OfAssociationList(x');
    assert b[0].ms == a[0].ms + [Unmarshal(ASSOCIATION, Empty(ASSOCIATION), s).m] && b[1] == a[1] && b[2] == a[2];
    var n := |x.accounts|;
    forall i | 0 <= i < n
      ensures x'.accounts[i] == x.accounts[i]
    {
      assert b[0].ms[i] == a[0].ms[i];
      SameAssociation(x'.accounts[i], x.accounts[i]);
    }
    assert b[0].ms[n] == OfAssociation(x'.accounts[n]);
    AssociationIsRead(NO_ASSOCIATION, s, x'.accounts[n], err);
  }

  lemma AssociationListIsRead(x: AssociationListStruct, d: Bytes, x': AssociationListStruct, err: Error)
    requires |d| < TWO63 && Unmarshal(ASSOCIATION_LIST, OfAssociationList(x), d) == Outcome(OfAssociationList(x'), err)
    ensures AssociationListReads(x, d, x', err)
  {
    AssociationListIsValid();
    hide IsChunk, IsNumber, IsForeign, Typed, ValidSchema, Unmarshal, OfAssociations, OfAssociation, AssociationReads;
    var m := OfAssociationList(x);
    forall s | IsChunk(d, 0x0a, s)
      ensures |x'.accounts| == |x.accounts| + 1 && x' == x.(accounts := x.accounts + [x'.accounts[|x.accounts|]])
      ensures var a := x'.accounts[|x.accounts|];
              && AssociationReads(NO_ASSOCIATION, s, a, err)
              && Unmarshal(ASSOCIATION, OfAssociation(NO_ASSOCIATION), s) == Outcome(OfAssociation(a), err)
    {
      AssociationIsAppended(x, d, s, x', err);
    }
    forall v | IsNumber(d, 0x10, v)
      ensures err == Nil && x' == x.(limit := ToInt32(v))
    {
      NumberAlone(ASSOCIATION_LIST, m, 1, d, v);
      SameAssociationList(x', x.(limit := ToInt32(v)));
    }
    forall v | IsNumber(d, 0x18, v)
      ensures err == Nil && x' == x.(offset := ToInt32(v))
    {
      NumberAlone(ASSOCIATION_LIST, m, 2, d, v);
      SameAssociationList(x', x.(offset := ToInt32(v)));
    }
    if IsForeign(d, {1, 2, 3}) {
      ForeignAlone(ASSOCIATION_LIST, m, d, {1, 2, 3});
      SameAssociationList(x', x);
    }
  }

  // ---------------------------------------------------------------- GrowthGraphResponse

  datatype GrowthGraphStruct = GrowthGraphStruct(peopleScheduledPerWeek: map<Bytes, int32>, peopleOnShifts: int32)

  function OfGrowthGraph(x: GrowthGraphStruct): (m: Message)
    ensures Typed(GROWTH_GRAPH_RESPONSE, m)
  {
    [VMap(x.peopleScheduledPerWeek), VInt32(x.peopleOnShifts)]
  }

  /** The entries, the one visited last in front; key and value are written even when they are empty or zero. */
  function PeopleBytes(people: map<Bytes, int32>, keys: seq<Bytes>): Bytes
    requires forall k :: k in keys ==> k in people
  {
    if keys == [] then []
    else
      var n := |keys| - 1;
      Prefixed(0x0a, Prefixed(0x0a, keys[n]) + ([0x10] + Int32Bytes(people[keys[n]]))) + PeopleBytes(people, keys[..n])
  }

  function GrowthGraphBytes(x: GrowthGraphStruct, keys: seq<Bytes>): Bytes
    requires forall k :: k in keys ==> k in x.peopleScheduledPerWeek
  {
    Concat([PeopleBytes(x.peopleScheduledPerWeek, keys), Int32Field(0x10, x.peopleOnShifts)])
  }

  /** An entry with any keys, values and unknown fields gives its last key all its values or-ed. */
  ghost predicate GrowthGraphReads(x: GrowthGraphStruct, d: Bytes, x': GrowthGraphStruct, err: Error) {
    && (forall ps :: ValidParts(ps) && IsChunk(d, 0x0a, Parts(ps)) ==>
          && err == Nil
          && x' == x.(peopleScheduledPerWeek := x.peopleScheduledPerWeek[LastKey([], ps) := OrAll(0, Vals(ps))]))
    && (forall v :: IsNumber(d, 0x10, v) ==> err == Nil && x' == x.(peopleOnShifts := ToInt32(v)))
    && (IsForeign(d, {1, 2}) ==> err == Nil && x' == x)
  }

  lemma {:induction false} PeopleWritten(people: map<Bytes, int32>, keys: seq<Bytes>)
    requires forall k :: k in keys ==> k in people
    ensures EncodeEntries(1, people, keys) == PeopleBytes(people, keys)
  {
    hide LenRecord, EntryBody, Prefixed, Int32Bytes;
    if keys != [] {
      var n := |keys| - 1;
      EntryWritten(keys[n], people[keys[n]]);
      PeopleWritten(people, keys[..n]);
    }
  }

  lemma EntryWritten(k: Bytes, v: int32)
    ensures LenRecord(1, EntryBody(k, v)) == Prefixed(0x0a, Prefixed(0x0a, k) + ([0x10] + Int32Bytes(v)))
  {
    hide LenRecord, Prefixed, Varint;
    LenRecordPrefixed(1, k);
    LenRecordPrefixed(1, EntryBody(k, v));
    assert VarintRecord(2, Extended(v)) == [0x10] + Int32Bytes(v);
  }

  lemma GrowthGraphIsWritten(x: GrowthGraphStruct, visit: Visit)
    requires Fair(visit)
    ensures IsOrder(visit(x.peopleScheduledPerWeek), x.peopleScheduledPerWeek) && ValidSchema(GROWTH_GRAPH_RESPONSE)
    ensures Marshal(GROWTH_GRAPH_RESPONSE, OfGrowthGraph(x), visit)
            == GrowthGraphBytes(x, visit(x.peopleScheduledPerWeek))
  {
    hide Concat, Marshal, PeopleBytes, EncodeEntries, Int32Field;
    var people, m := x.peopleScheduledPerWeek, OfGrowthGraph(x);
    assert IsOrder(visit(people), people);
    GrowthGraphResponseIsValid();
    var parts := [PeopleBytes(people, visit(people)), Int32Field(0x10, x.peopleOnShifts)];
    PeopleWritten(people, visit(people));
    Int32Written(2, x.peopleOnShifts, visit);
    assert Writes(GROWTH_GRAPH_RESPONSE, m, 0, visit, parts[0]);
    assert Writes(GROWTH_GRAPH_RESPONSE, m, 1, visit, parts[1]);
    MarshalIsConcat(GROWTH_GRAPH_RESPONSE, m, visit, parts);
  }

  lemma GrowthGraphIsRead(x: GrowthGraphStruct, d: Bytes, x': GrowthGraphStruct, err: Error)
    requires |d| < TWO63 && Unmarshal(GROWTH_GRAPH_RESPONSE, OfGrowthGraph(x), d) == Outcome(OfGrowthGraph(x'), err)
    ensures GrowthGraphReads(x, d, x', err)
  {
    GrowthGraphResponseIsValid();
    hide IsChunk, IsNumber, IsForeign, Typed, ValidSchema, Unmarshal, ValidParts, Parts, LastKey, Vals, OrAll;
    var m, m' := OfGrowthGraph(x), OfGrowthGraph(x');
    forall ps | ValidParts(ps) && IsChunk(d, 0x0a, Parts(ps))
      ensures err == Nil
      ensures x' == x.(peopleScheduledPerWeek := x.peopleScheduledPerWeek[LastKey([], ps) := OrAll(0, Vals(ps))])
    {
      EntryAlone(GROWTH_GRAPH_RESPONSE, m, 0, d, ps);
      assert m'[0] == VMap(x.peopleScheduledPerWeek[LastKey([], ps) := OrAll(0, Vals(ps))]) && m'[1] == m[1];
    }
    forall v | IsNumber(d, 0x10, v)
      ensures err == Nil && x' == x.(peopleOnShifts := ToInt32(v))
    {
      NumberAlone(GROWTH_GRAPH_RESPONSE, m, 1, d, v);
      assert m'[0] == m[0] && m'[1] == VInt32(ToInt32(v));
    }
    if IsForeign(d, {1, 2}) {
      ForeignAlone(GROWTH_GRAPH_RESPONSE, m, d, {1, 2});
      assert m'[0] == m[0] && m'[1] == m[1];
    }
  }
}
