/** `AssociationList`: a list of messages that are nested two levels deep, and two int32. */
module AssociationListMessage {
  import opened Bits
  import opened Buffer
  import opened CompanySchemas
  import opened Errors
  import opened Fields
  import opened Schemas
  import opened Structs
  import opened Varints
  import Decoder
  import Encoder
  import opened AssociationMessage
  import opened DirectoryEntryMessage
  import opened TeamMessage

  /** `entries` and `teams` hold the structs that the associations are made of. */
  ghost predicate Within(accounts: seq<Association>, entries: set<DirectoryEntry>, teams: set<Team>)
    reads accounts
  {
    forall a :: a in accounts ==> a.account in entries && forall t :: t in a.teams ==> t in teams
  }

  /** The values of a slice of associations. */
  ghost function AssociationStructs(
    accounts: seq<Association>, entries: set<DirectoryEntry>, teams: set<Team>): (xs: seq<AssociationStruct>)
    requires Within(accounts, entries, teams)
    reads accounts, entries, teams
    ensures |xs| == |accounts| && forall i :: 0 <= i < |xs| ==> xs[i] == accounts[i].Struct()
  {
    if accounts == [] then [] else [accounts[0].Struct()] + AssociationStructs(accounts[1..], entries, teams)
  }

  /** The contents of a slice of associations. */
  ghost function AssociationContents(
    accounts: seq<Association>, entries: set<DirectoryEntry>, teams: set<Team>): (ms: seq<Message>)
    requires Within(accounts, entries, teams)
    reads accounts, entries, teams
    ensures |ms| == |accounts|
    ensures forall i :: 0 <= i < |ms| ==> ms[i] == accounts[i].Contents() && Typed(ASSOCIATION, ms[i])
  {
    if accounts == [] then [] else [accounts[0].Contents()] + AssociationContents(accounts[1..], entries, teams)
  }

  lemma AssociationContentsAreStructs(accounts: seq<Association>, entries: set<DirectoryEntry>, teams: set<Team>)
    requires Within(accounts, entries, teams)
    ensures AssociationContents(accounts, entries, teams)
            == OfAssociations(AssociationStructs(accounts, entries, teams))
  {
    hide Typed, OfAssociation, AssociationContents, AssociationStructs;
    forall i | 0 <= i < |accounts|
      ensures accounts[i].Contents() == OfAssociation(accounts[i].Struct())
    {
      accounts[i].ContentsAreStruct();
    }
  }

  /** Growing the slice and the sets of structs. */
  lemma AssociationAppended(
    accounts: seq<Association>, entries: set<DirectoryEntry>, teams: set<Team>,
    account: Association, entries': set<DirectoryEntry>, teams': set<Team>)
    requires Within(accounts, entries, teams)
    requires entries' == entries + {account.account} && teams' == teams + set t | t in account.teams
    ensures Within(accounts + [account], entries', teams')
    ensures AssociationContents(accounts + [account], entries', teams')
            == AssociationContents(accounts, entries, teams) + [account.Contents()]
  {
    hide Typed;
  }

  class AssociationList {
    var accounts: seq<Association>
    var limit: int32
    var offset: int32
    ghost var entries: set<DirectoryEntry>
    ghost var teams: set<Team>

    /** The footprint of the nested structs is recorded. */
    ghost predicate Valid()
      reads this, accounts
    {
      Within(accounts, entries, teams)
    }

    /** The struct as a value. */
    ghost function Struct(): AssociationListStruct
      requires Valid()
      reads this, accounts, entries, teams
    {
      AssociationListStruct(AssociationStructs(accounts, entries, teams), limit, offset)
    }

    lemma ContentsAreStruct()
      requires Valid()
      ensures Contents() == OfAssociationList(Struct())
    {
      AssociationContentsAreStructs(accounts, entries, teams);
    }

    /** Its fields, in the order of their numbers. */
    ghost function Contents(): (m: Message)
      requires Valid()
      reads this, accounts, entries, teams
      ensures ValidSchema(ASSOCIATION_LIST) && Typed(ASSOCIATION_LIST, m)
    {
      AssociationListIsValid();
      [VMessages(AssociationContents(accounts, entries, teams)), VInt32(limit), VInt32(offset)]
    }

    constructor ()
      ensures Valid()
      ensures Contents() == Empty(ASSOCIATION_LIST)
    {
      accounts, limit, offset := [], 0, 0;
      entries, teams := {}, {};
    }

    /** One round of the loop of `Unmarshal`. */
    method UnmarshalField(dAtA: Bytes, preIndex: nat) returns (iNdEx: nat, err: Error)
      requires Valid() && preIndex < |dAtA| < TWO63
      modifies this
      ensures Valid()
      ensures Round(ASSOCIATION_LIST, old(Contents()), dAtA, preIndex, Contents(), iNdEx, err)
    {
      hide Decoder.DecodeField, Decoder.SkipUnknown, Decoder.FieldNumber, Decoder.Decode;
      hide ReadVarint, Typed, ValidSchema, Round, Did, TagError, AssociationContents, Within;
      ghost var m := Contents();
      var fieldNum, wireType;
      fieldNum, wireType, iNdEx, err := ReadTag(dAtA, preIndex);
      if err != Nil {
        RoundRefused(ASSOCIATION_LIST, m, dAtA, preIndex, iNdEx);
        return;
      }
      match fieldNum {
        case 1 =>
          iNdEx, err := UnmarshalAssociation(dAtA, iNdEx, wireType);
          RoundKnown(ASSOCIATION_LIST, m, dAtA, preIndex, 0, VMessages(AssociationContents(accounts, entries, teams)),
                     Contents(), iNdEx, err);
        case 2 =>
          limit, iNdEx, err := ReadInt32Field(dAtA, iNdEx, wireType, limit);
          RoundKnown(ASSOCIATION_LIST, m, dAtA, preIndex, 1, VInt32(limit), Contents(), iNdEx, err);
        case 3 =>
          offset, iNdEx, err := ReadInt32Field(dAtA, iNdEx, wireType, offset);
          RoundKnown(ASSOCIATION_LIST, m, dAtA, preIndex, 2, VInt32(offset), Contents(), iNdEx, err);
        case _ =>
          iNdEx, err := SkipUnknownField(dAtA, preIndex, |dAtA|);
          RoundUnknown(ASSOCIATION_LIST, m, dAtA, preIndex, iNdEx, err);
      }
    }

    /** An empty association is appended to the list, and the payload is unmarshalled into it there. */
    method AppendAssociation(payload: Bytes) returns (err: Error)
      requires Valid() && |payload| < TWO63
      modifies this`accounts, this`entries, this`teams
      ensures Valid()
      ensures var o := Decoder.Unmarshal(ASSOCIATION, Empty(ASSOCIATION), payload);
              && AssociationContents(accounts, entries, teams)
                 == old(AssociationContents(accounts, entries, teams)) + [o.m]
              && err == o.err
    {
      hide Typed, Empty, Decoder.Unmarshal, Within, AssociationContents, Association.Contents, ValidSchema;
      hide Association.Struct, AssociationReads, AssociationStructs;
      ghost var o := Decoder.Unmarshal(ASSOCIATION, Empty(ASSOCIATION), payload);
      ghost var ms := AssociationContents(accounts, entries, teams);
      ghost var before, beforeEntries, beforeTeams := accounts, entries, teams;
      var account := new Association();
      accounts := accounts + [account];
      assert account.Contents() == Empty(ASSOCIATION);
      err := accounts[|accounts| - 1].Unmarshal(payload);
      assert account.Contents() == o.m && err == o.err;
      assert Within(before, beforeEntries, beforeTeams);
      assert AssociationContents(before, beforeEntries, beforeTeams) == ms;
      entries, teams := entries + {account.account}, teams + set t | t in account.teams;
      AssociationAppended(before, beforeEntries, beforeTeams, account, entries, teams);
      assert AssociationContents(accounts, entries, teams) == ms + [o.m];
    }

    /** `case 1`: a new association is appended and unmarshalled into. */
    method UnmarshalAssociation(dAtA: Bytes, start: nat, wireType: nat) returns (iNdEx: nat, err: Error)
      requires Valid() && start <= |dAtA| < TWO63
      modifies this`accounts, this`entries, this`teams
      ensures Valid()
      ensures Did(Decoder.DecodeField(KMessages(ASSOCIATION),
                                      VMessages(old(AssociationContents(accounts, entries, teams))),
                                      wireType, start, dAtA[start..]),
                  VMessages(AssociationContents(accounts, entries, teams)), start, iNdEx, err)
    {
      hide Decoder.Delimited, Decoder.Decode, Decoder.DecodeField, Typed, Did, AssociationContents, Within;
      ghost var ms := AssociationContents(accounts, entries, teams);
      var postIndex;
      iNdEx, postIndex, err := ReadMessageHead(dAtA, start, wireType);
      if err != Nil {
        NestedRefused(KMessages(ASSOCIATION), VMessages(ms), wireType, dAtA, start, iNdEx, err);
        return;
      }
      NestedRead(KMessages(ASSOCIATION), VMessages(ms), dAtA, start, Decoder.Delimited(start, dAtA[start..]));
      err := AppendAssociation(dAtA[iNdEx..postIndex]);
      iNdEx := postIndex;
    }

    method Unmarshal(dAtA: Bytes) returns (err: Error)
      requires Valid() && |dAtA| < TWO63
      modifies this
      ensures Valid()
      ensures Decoder.Unmarshal(ASSOCIATION_LIST, old(Contents()), dAtA) == Decoder.Outcome(Contents(), err)
      ensures AssociationListReads(old(Struct()), dAtA, Struct(), err)
    {
      hide Decoder.Decode, Round, Typed, ValidSchema, OfAssociationList, AssociationListReads, Within;
      hide AssociationContents, AssociationStructs;
      ContentsAreStruct();
      LoopEnds(ASSOCIATION_LIST, Contents(), dAtA);
      var l, iNdEx := |dAtA|, 0;
      err := Nil;
      while iNdEx < l
        invariant Valid()
        invariant 0 <= iNdEx <= l && err == Nil
        invariant Decoder.Decode(ASSOCIATION_LIST, Contents(), iNdEx, dAtA[iNdEx..])
                  == Decoder.Decode(ASSOCIATION_LIST, old(Contents()), 0, dAtA)
      {
        ghost var m, preIndex := Contents(), iNdEx;
        iNdEx, err := UnmarshalField(dAtA, iNdEx);
        RoundDone(ASSOCIATION_LIST, m, dAtA, preIndex, Contents(), iNdEx, err);
        if err != Nil {
          ContentsAreStruct();
          AssociationListIsRead(old(Struct()), dAtA, Struct(), err);
          return;
        }
      }
      LoopEnds(ASSOCIATION_LIST, Contents(), dAtA);
      ContentsAreStruct();
      AssociationListIsRead(old(Struct()), dAtA, Struct(), err);
    }

    method Size(ghost visit: Encoder.Visit) returns (n: int64)
      requires Valid() && Encoder.Fair(visit)
      ensures var size := Encoder.Size(ASSOCIATION_LIST, Contents(), visit); size < TWO63 ==> n == size
    {
      hide Counted, Typed, ValidSchema, Encoder.Size, Encoder.MessagesSize, AssociationContents, Within;
      ghost var m := Contents();
      CountedNothing(ASSOCIATION_LIST, m, visit);
      CountedRoom(ASSOCIATION_LIST, m, visit, 0, 0);
      n := CountAssociations(0, visit);
      CountedField(ASSOCIATION_LIST, m, visit, 0, n, 0);
      n := CountInt32(n, limit, ASSOCIATION_LIST, m, visit, 1);
      n := CountInt32(n, offset, ASSOCIATION_LIST, m, visit, 2);
      CountedAll(ASSOCIATION_LIST, m, visit, n);
    }

    /** The sizes of the associations are added, from the first to the last. */
    method CountAssociations(n: int64, ghost visit: Encoder.Visit) returns (n': int64)
      requires Valid() && Encoder.Fair(visit)
      ensures var size := Encoder.MessagesSize(ASSOCIATION, AssociationContents(accounts, entries, teams), visit);
              0 <= n && n + size < TWO63 ==> n' == n + size
    {
      hide Typed, Sov, Encoder.SizeFrom, AssociationContents, Within;
      ghost var ms := AssociationContents(accounts, entries, teams);
      ghost var size := Encoder.MessagesSize(ASSOCIATION, ms, visit);
      n' := n;
      for j := 0 to |accounts|
        invariant 0 <= n && n + size < TWO63 ==>
                    0 <= n' && n' + Encoder.MessagesSize(ASSOCIATION, ms[j..], visit) == n + size
      {
        assert ms[j..][1..] == ms[j + 1..];
        var l := accounts[j].Size(visit);
        n' := AddLenSize(n', l);
      }
    }

    /** Writes into `dAtA[:end]`, from its end backwards. */
    method MarshalToSizedBuffer(dAtA: array<byte>, end: nat, ghost visit: Encoder.Visit) returns (n: nat)
      requires Valid() && Encoder.Fair(visit)
      requires Encoder.Size(ASSOCIATION_LIST, Contents(), visit) <= end <= dAtA.Length < TWO63
      modifies dAtA
      ensures n == Encoder.Size(ASSOCIATION_LIST, Contents(), visit)
      ensures Filled(old(dAtA[..]), dAtA[..], end - n, end, Encoder.Marshal(ASSOCIATION_LIST, Contents(), visit))
      ensures Filled(old(dAtA[..]), dAtA[..], end - n, end, AssociationListBytes(Struct()))
    {
      hide Placed, Typed, ValidSchema, Filled, Encoder.EncodeFrom, Encoder.SizeFrom, AssociationContents, Within;
      hide AssociationListBytes, OfAssociationList, AssociationStructs;
      Encoder.SizeIsLength(ASSOCIATION_LIST, Contents(), visit);
      ghost var w := Job(ASSOCIATION_LIST, Contents(), visit, dAtA[..], end);
      PlacedNothing(w);
      var i := end;
      i := PutInt32(dAtA, i, 0x18, offset, w, 2);
      i := PutInt32(dAtA, i, 0x10, limit, w, 1);
      i := PutAssociations(dAtA, i, w);
      PlacedAll(w, dAtA[..], i);
      n := end - i;
      ContentsAreStruct();
      AssociationListIsWritten(Struct(), visit);
    }

    /** The loop over the associations, from the last to the first. */
    method PutAssociations(dAtA: array<byte>, end: int, ghost w: Job) returns (i: int)
      requires Valid() && w.sc == ASSOCIATION_LIST && w.m == Contents() && Placed(w, dAtA[..], end, 1)
      modifies dAtA
      ensures Placed(w, dAtA[..], i, 0)
    {
      hide Placed, Typed, ValidSchema, Encoder.EncodeFrom, Encoder.EncodeMessages, Encoder.SizeFrom;
      hide Encoder.LenRecord, ListPlaced, Filled, FieldBytes;
      ghost var s0, ms := dAtA[..], AssociationContents(accounts, entries, teams);
      ListStarts(w, s0, end, 0, 1, ASSOCIATION, ms);
      i := end;
      var iNdEx := |accounts| - 1;
      while iNdEx >= 0
        invariant -1 <= iNdEx < |accounts|
        invariant ListPlaced(s0, dAtA[..], i, end, 1, ASSOCIATION, ms, w.visit, iNdEx + 1)
      {
        ghost var s1, hi := dAtA[..], i;
        ListFacts(s0, s1, i, end, 1, ASSOCIATION, ms, w.visit, iNdEx + 1);
        ListRoom(s0, s1, i, end, 1, ASSOCIATION, ms, w.visit, iNdEx + 1);
        Encoder.SizeIsLength(ASSOCIATION, ms[iNdEx], w.visit);
        var size := accounts[iNdEx].MarshalToSizedBuffer(dAtA, i, w.visit);
        i := PutHead(dAtA, i, size, 0x0a, 1, Encoder.Marshal(ASSOCIATION, ms[iNdEx], w.visit), s1);
        ListNext(s0, s1, dAtA[..], hi, i, end, 1, ASSOCIATION, ms, w.visit, iNdEx + 1);
        iNdEx := iNdEx - 1;
      }
      ListEnds(w, s0, dAtA[..], i, end, 0, 1, ASSOCIATION, ms);
    }

    method Marshal(ghost visit: Encoder.Visit) returns (dAtA: array<byte>)
      requires Valid() && Encoder.Fair(visit) && Encoder.Size(ASSOCIATION_LIST, Contents(), visit) < TWO63
      ensures fresh(dAtA) && dAtA[..] == Encoder.Marshal(ASSOCIATION_LIST, Contents(), visit)
      ensures dAtA[..] == AssociationListBytes(Struct())
    {
      hide Typed, ValidSchema, Encoder.EncodeFrom, Encoder.SizeFrom, AssociationContents, Within;
      hide AssociationListBytes, OfAssociationList, AssociationStructs;
      Encoder.SizeIsLength(ASSOCIATION_LIST, Contents(), visit);
      var size := Size(visit);
      dAtA := new byte[size];
      ghost var before := dAtA[..];
      var n := MarshalToSizedBuffer(dAtA, size, visit);
      WholeBuffer(before, dAtA[..], size - n, Encoder.Marshal(ASSOCIATION_LIST, Contents(), visit));
      ContentsAreStruct();
      AssociationListIsWritten(Struct(), visit);
    }

    /** Writes the message into the first `Size()` bytes of a buffer. */
    method MarshalTo(dAtA: array<byte>, ghost visit: Encoder.Visit) returns (n: nat)
      requires Valid() && Encoder.Fair(visit)
      requires Encoder.Size(ASSOCIATION_LIST, Contents(), visit) <= dAtA.Length < TWO63
      modifies dAtA
      ensures n == Encoder.Size(ASSOCIATION_LIST, Contents(), visit)
      ensures Filled(old(dAtA[..]), dAtA[..], 0, n, Encoder.Marshal(ASSOCIATION_LIST, Contents(), visit))
    {
      hide Typed, ValidSchema, Encoder.EncodeFrom, Encoder.SizeFrom, AssociationListBytes, AssociationStructs;
      hide AssociationContents, Within;
      var size := Size(visit);
      n := MarshalToSizedBuffer(dAtA, size, visit);
    }
  }
}
