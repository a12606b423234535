/** `Association`: an embedded message that is always emitted, a list of messages and a bool. */
module AssociationMessage {
  import opened Bits
  import opened Buffer
  import opened CompanySchemas
  import opened Errors
  import opened Fields
  import opened Schemas
  import opened Structs
  import opened Varints
  import Decoder
  import Encoder
  import opened DirectoryEntryMessage
  import opened TeamMessage

  /** The values of a slice of teams. */
  ghost function TeamStructs(teams: seq<Team>): (xs: seq<TeamStruct>)
    reads teams
    ensures |xs| == |teams| && forall i :: 0 <= i < |xs| ==> xs[i] == teams[i].Struct()
  {
    if teams == [] then [] else [teams[0].Struct()] + TeamStructs(teams[1..])
  }

  /** The contents of a slice of teams. */
  ghost function TeamContents(teams: seq<Team>): (ms: seq<Message>)
    reads teams
    ensures |ms| == |teams|
    ensures forall i :: 0 <= i < |ms| ==> ms[i] == teams[i].Contents() && Typed(TEAM, ms[i])
  {
    if teams == [] then [] else [teams[0].Contents()] + TeamContents(teams[1..])
  }

  lemma TeamContentsAreStructs(teams: seq<Team>)
    ensures TeamContents(teams) == OfTeams(TeamStructs(teams))
  {
  }

  lemma TeamAppended(teams: seq<Team>, team: Team)
    ensures TeamContents(teams + [team]) == TeamContents(teams) + [team.Contents()]
  {
    hide Typed;
  }

  class Association {
    const account: DirectoryEntry
    var teams: seq<Team>
    var admin: bool

    /** The struct as a value. */
    ghost function Struct(): AssociationStruct
      reads this, account, teams
    {
      AssociationStruct(account.Struct(), TeamStructs(teams), admin)
    }

    /** Its fields, in the order of their numbers. */
    ghost function Contents(): (m: Message)
      reads this, account, teams
      ensures ValidSchema(ASSOCIATION) && Typed(ASSOCIATION, m)
    {
      AssociationIsValid();
      [VMessage(account.Contents()), VMessages(TeamContents(teams)), VBool(admin)]
    }

    lemma ContentsAreStruct()
      ensures Contents() == OfAssociation(Struct())
    {
      TeamContentsAreStructs(teams);
    }

    constructor ()
      ensures Contents() == Empty(ASSOCIATION) && fresh(account) && teams == []
    {
      account := new DirectoryEntry();
      teams, admin := [], false;
    }

    /** One round of the loop of `Unmarshal`. */
    method UnmarshalField(dAtA: Bytes, preIndex: nat) returns (iNdEx: nat, err: Error)
      requires preIndex < |dAtA| < TWO63
      modifies this, account
      ensures Round(ASSOCIATION, old(Contents()), dAtA, preIndex, Contents(), iNdEx, err)
    {
      hide Decoder.DecodeField, Decoder.SkipUnknown, Decoder.FieldNumber, Decoder.Decode;
      hide ReadVarint, Typed, ValidSchema, Round, Did, TagError, TeamContents;
      ghost var m := Contents();
      var fieldNum, wireType;
      fieldNum, wireType, iNdEx, err := ReadTag(dAtA, preIndex);
      if err != Nil {
        RoundRefused(ASSOCIATION, m, dAtA, preIndex, iNdEx);
        return;
      }
      match fieldNum {
        case 1 =>
          iNdEx, err := UnmarshalAccount(dAtA, iNdEx, wireType);
          RoundKnown(ASSOCIATION, m, dAtA, preIndex, 0, VMessage(account.Contents()), Contents(), iNdEx, err);
        case 2 =>
          iNdEx, err := UnmarshalTeam(dAtA, iNdEx, wireType);
          RoundKnown(ASSOCIATION, m, dAtA, preIndex, 1, VMessages(TeamContents(teams)), Contents(), iNdEx, err);
        case 3 =>
          admin, iNdEx, err := ReadBool(dAtA, iNdEx, wireType, admin);
          RoundKnown(ASSOCIATION, m, dAtA, preIndex, 2, VBool(admin), Contents(), iNdEx, err);
        case _ =>
          iNdEx, err := SkipUnknownField(dAtA, preIndex, |dAtA|);
          RoundUnknown(ASSOCIATION, m, dAtA, preIndex, iNdEx, err);
      }
    }

    /** `case 1`: the embedded account is unmarshalled into, not replaced. */
    method UnmarshalAccount(dAtA: Bytes, start: nat, wireType: nat) returns (iNdEx: nat, err: Error)
      requires start <= |dAtA| < TWO63
      modifies account
      ensures Did(Decoder.DecodeField(KMessage(DIRECTORY_ENTRY), VMessage(old(account.Contents())), wireType,
                                      start, dAtA[start..]),
                  VMessage(account.Contents()), start, iNdEx, err)
    {
      hide Decoder.Delimited, Decoder.Decode, Decoder.DecodeField, Typed, Did;
      ghost var v := VMessage(account.Contents());
      var postIndex;
      iNdEx, postIndex, err := ReadMessageHead(dAtA, start, wireType);
      if err != Nil {
        NestedRefused(KMessage(DIRECTORY_ENTRY), v, wireType, dAtA, start, iNdEx, err);
        return;
      }
      NestedRead(KMessage(DIRECTORY_ENTRY), v, dAtA, start, Decoder.Delimited(start, dAtA[start..]));
      err := account.Unmarshal(dAtA[iNdEx..postIndex]);
      iNdEx := postIndex;
    }

    /** An empty team is appended to the list, and the payload is unmarshalled into it there. */
    method AppendTeam(payload: Bytes) returns (err: Error)
      requires |payload| < TWO63
      modifies this`teams
      ensures var o := Decoder.Unmarshal(TEAM, Empty(TEAM), payload);
              TeamContents(teams) == old(TeamContents(teams)) + [o.m] && err == o.err
    {
      hide Typed, Empty, Decoder.Unmarshal;
      ghost var before := teams;
      var team := new Team();
      teams := teams + [team];
      err := teams[|teams| - 1].Unmarshal(payload);
      assert TeamContents(before) == old(TeamContents(teams));
      TeamAppended(before, team);
    }

    /** `case 2`: a new team is appended and unmarshalled into. */
    method UnmarshalTeam(dAtA: Bytes, start: nat, wireType: nat) returns (iNdEx: nat, err: Error)
      requires start <= |dAtA| < TWO63
      modifies this`teams
      ensures Did(Decoder.DecodeField(KMessages(TEAM), VMessages(old(TeamContents(teams))), wireType,
                                      start, dAtA[start..]),
                  VMessages(TeamContents(teams)), start, iNdEx, err)
    {
      hide Decoder.Delimited, Decoder.Decode, Decoder.DecodeField, Typed, Did, TeamContents;
      ghost var ms := TeamContents(teams);
      var postIndex;
      iNdEx, postIndex, err := ReadMessageHead(dAtA, start, wireType);
      if err != Nil {
        NestedRefused(KMessages(TEAM), VMessages(ms), wireType, dAtA, start, iNdEx, err);
        return;
      }
      NestedRead(KMessages(TEAM), VMessages(ms), dAtA, start, Decoder.Delimited(start, dAtA[start..]));
      err := AppendTeam(dAtA[iNdEx..postIndex]);
      iNdEx := postIndex;
    }

    method Unmarshal(dAtA: Bytes) returns (err: Error)
      requires |dAtA| < TWO63
      modifies this, account
      ensures Decoder.Unmarshal(ASSOCIATION, old(Contents()), dAtA) == Decoder.Outcome(Contents(), err)
      ensures AssociationReads(old(Struct()), dAtA, Struct(), err)
    {
      hide Decoder.Decode, Round, Typed, ValidSchema, OfAssociation, AssociationReads, TeamContents;
      ContentsAreStruct();
      LoopEnds(ASSOCIATION, Contents(), dAtA);
      var l, iNdEx := |dAtA|, 0;
      err := Nil;
      while iNdEx < l
        invariant 0 <= iNdEx <= l && err == Nil
        invariant Decoder.Decode(ASSOCIATION, Contents(), iNdEx, dAtA[iNdEx..])
                  == Decoder.Decode(ASSOCIATION, old(Contents()), 0, dAtA)
      {
        ghost var m, preIndex := Contents(), iNdEx;
        iNdEx, err := UnmarshalField(dAtA, iNdEx);
        RoundDone(ASSOCIATION, m, dAtA, preIndex, Contents(), iNdEx, err);
        if err != Nil {
          ContentsAreStruct();
          AssociationIsRead(old(Struct()), dAtA, Struct(), err);
          return;
        }
      }
      LoopEnds(ASSOCIATION, Contents(), dAtA);
      ContentsAreStruct();
      AssociationIsRead(old(Struct()), dAtA, Struct(), err);
    }

    method Size(ghost visit: Encoder.Visit) returns (n: int64)
      requires Encoder.Fair(visit)
      ensures var size := Encoder.Size(ASSOCIATION, Contents(), visit); size < TWO63 ==> n == size
    {
      hide Counted, Typed, ValidSchema, Sov, Encoder.SizeFrom, Encoder.MessagesSize, TeamContents;
      ghost var m := Contents();
      CountedNothing(ASSOCIATION, m, visit);
      CountedRoom(ASSOCIATION, m, visit, 0, 0);
      var l := account.Size(visit);
      n := AddLenSize(0, l);
      CountedField(ASSOCIATION, m, visit, 0, n, 0);
      CountedRoom(ASSOCIATION, m, visit, n, 1);
      var n' := CountTeams(n, visit);
      CountedField(ASSOCIATION, m, visit, n, n', 1);
      n := CountBool(n', admin, ASSOCIATION, m, visit, 2);
      CountedAll(ASSOCIATION, m, visit, n);
    }

    /** The sizes of the teams are added, from the first to the last. */
    method CountTeams(n: int64, ghost visit: Encoder.Visit) returns (n': int64)
      requires Encoder.Fair(visit)
      ensures var size := Encoder.MessagesSize(TEAM, TeamContents(teams), visit);
              0 <= n && n + size < TWO63 ==> n' == n + size
    {
      hide Typed, Sov, Encoder.SizeFrom;
      ghost var ms := TeamContents(teams);
      ghost var size := Encoder.MessagesSize(TEAM, ms, visit);
      n' := n;
      for j := 0 to |teams|
        invariant 0 <= n && n + size < TWO63 ==>
                    0 <= n' && n' + Encoder.MessagesSize(TEAM, ms[j..], visit) == n + size
      {
        assert ms[j..][1..] == ms[j + 1..];
        var l := teams[j].Size(visit);
        n' := AddLenSize(n', l);
      }
    }

    /** Writes into `dAtA[:end]`, from its end backwards. */
    method MarshalToSizedBuffer(dAtA: array<byte>, end: nat, ghost visit: Encoder.Visit) returns (n: nat)
      requires Encoder.Fair(visit)
      requires Encoder.Size(ASSOCIATION, Contents(), visit) <= end <= dAtA.Length < TWO63
      modifies dAtA
      ensures n == Encoder.Size(ASSOCIATION, Contents(), visit)
      ensures Filled(old(dAtA[..]), dAtA[..], end - n, end, Encoder.Marshal(ASSOCIATION, Contents(), visit))
      ensures Filled(old(dAtA[..]), dAtA[..], end - n, end, AssociationBytes(Struct()))
    {
      hide Placed, Typed, ValidSchema, Encoder.EncodeFrom, Encoder.SizeFrom;
      hide AssociationBytes, OfAssociation;
      Encoder.SizeIsLength(ASSOCIATION, Contents(), visit);
      ghost var w := Job(ASSOCIATION, Contents(), visit, dAtA[..], end);
      PlacedNothing(w);
      var i := end;
      i := PutBool(dAtA, i, 0x18, admin, w, 2);
      i := PutTeams(dAtA, i, w);
      i := PutAccount(dAtA, i, w);
      PlacedAll(w, dAtA[..], i);
      n := end - i;
      ContentsAreStruct();
      AssociationIsWritten(Struct(), visit);
    }

    /** The loop over the teams, from the last to the first. */
    method PutTeams(dAtA: array<byte>, end: int, ghost w: Job) returns (i: int)
      requires w.sc == ASSOCIATION && w.m == Contents() && Placed(w, dAtA[..], end, 2)
      modifies dAtA
      ensures Placed(w, dAtA[..], i, 1)
    {
      hide Placed, Typed, ValidSchema, Encoder.EncodeFrom, Encoder.EncodeMessages, Encoder.SizeFrom;
      hide Encoder.LenRecord, ListPlaced, Filled, FieldBytes;
      ghost var s0, ms := dAtA[..], TeamContents(teams);
      ListStarts(w, s0, end, 1, 2, TEAM, ms);
      i := end;
      var iNdEx := |teams| - 1;
      while iNdEx >= 0
        invariant -1 <= iNdEx < |teams|
        invariant ListPlaced(s0, dAtA[..], i, end, 2, TEAM, ms, w.visit, iNdEx + 1)
      {
        ghost var s1, hi := dAtA[..], i;
        ListFacts(s0, s1, i, end, 2, TEAM, ms, w.visit, iNdEx + 1);
        ListRoom(s0, s1, i, end, 2, TEAM, ms, w.visit, iNdEx + 1);
        Encoder.SizeIsLength(TEAM, ms[iNdEx], w.visit);
        var size := teams[iNdEx].MarshalToSizedBuffer(dAtA, i, w.visit);
        i := PutHead(dAtA, i, size, 0x12, 2, Encoder.Marshal(TEAM, ms[iNdEx], w.visit), s1);
        ListNext(s0, s1, dAtA[..], hi, i, end, 2, TEAM, ms, w.visit, iNdEx + 1);
        iNdEx := iNdEx - 1;
      }
      ListEnds(w, s0, dAtA[..], i, end, 1, 2, TEAM, ms);
    }

    /** The embedded account. */
    method PutAccount(dAtA: array<byte>, end: int, ghost w: Job) returns (i: int)
      requires w.sc == ASSOCIATION && w.m == Contents() && Placed(w, dAtA[..], end, 1)
      modifies dAtA
      ensures Placed(w, dAtA[..], i, 0)
    {
      hide Placed, Typed, ValidSchema, Encoder.EncodeFrom, Encoder.SizeFrom, Encoder.LenRecord, Filled, FieldBytes;
      ghost var s0, m := dAtA[..], account.Contents();
      EmbeddedStarts(w, s0, end, 0, 1, DIRECTORY_ENTRY, m);
      Encoder.SizeIsLength(DIRECTORY_ENTRY, m, w.visit);
      var size := account.MarshalToSizedBuffer(dAtA, end, w.visit);
      i := PutHead(dAtA, end, size, 0x0a, 1, Encoder.Marshal(DIRECTORY_ENTRY, m, w.visit), s0);
      PlacedField(w, s0, dAtA[..], i, end, 0);
    }

    method Marshal(ghost visit: Encoder.Visit) returns (dAtA: array<byte>)
      requires Encoder.Fair(visit) && Encoder.Size(ASSOCIATION, Contents(), visit) < TWO63
      ensures fresh(dAtA) && dAtA[..] == Encoder.Marshal(ASSOCIATION, Contents(), visit)
      ensures dAtA[..] == AssociationBytes(Struct())
    {
      hide Typed, ValidSchema, Encoder.EncodeFrom, Encoder.SizeFrom;
      hide AssociationBytes, OfAssociation;
      Encoder.SizeIsLength(ASSOCIATION, Contents(), visit);
      var size := Size(visit);
      dAtA := new byte[size];
      ghost var before := dAtA[..];
      var n := MarshalToSizedBuffer(dAtA, size, visit);
      WholeBuffer(before, dAtA[..], size - n, Encoder.Marshal(ASSOCIATION, Contents(), visit));
      ContentsAreStruct();
      AssociationIsWritten(Struct(), visit);
    }
  }
}
