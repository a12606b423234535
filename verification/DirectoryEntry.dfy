/** `DirectoryEntry`: strings and a bool, with a gap at field 4. */
module DirectoryEntryMessage {
  import opened Bits
  import opened Buffer
  import opened CompanySchemas
  import opened Errors
  import opened Fields
  import opened Schemas
  import opened Structs
  import opened Varints
  import Decoder
  import Encoder

  class DirectoryEntry {
    var userUuid: Bytes
    var internalId: Bytes
    var companyUuid: Bytes
    var name: Bytes
    var email: Bytes
    var confirmedAndActive: bool
    var phonenumber: Bytes
    var photoUrl: Bytes

    /** The struct as a value. */
    ghost function Struct(): DirectoryEntryStruct
      reads this
    {
      DirectoryEntryStruct(userUuid, internalId, companyUuid, name, email, confirmedAndActive,
                           phonenumber, photoUrl)
    }

    /** Its fields, in the order of their numbers. */
    ghost function Contents(): (m: Message)
      reads this
      ensures ValidSchema(DIRECTORY_ENTRY) && Typed(DIRECTORY_ENTRY, m)
    {
      DirectoryEntryIsValid();
      OfDirectoryEntry(Struct())
    }

    constructor ()
      ensures Contents() == Empty(DIRECTORY_ENTRY)
    {
      userUuid := [];
      internalId := [];
      companyUuid := [];
      name := [];
      email := [];
      confirmedAndActive := false;
      phonenumber := [];
      photoUrl := [];
    }

    /** One round of the loop of `Unmarshal`. */
    method UnmarshalField(dAtA: Bytes, preIndex: nat) returns (iNdEx: nat, err: Error)
      requires preIndex < |dAtA| < TWO63
      modifies this
      ensures Round(DIRECTORY_ENTRY, old(Contents()), dAtA, preIndex, Contents(), iNdEx, err)
    {
      hide Decoder.DecodeField, Decoder.SkipUnknown, Decoder.FieldNumber;
      hide ReadVarint, Typed, ValidSchema, Round, Did, TagError;
      ghost var m := Contents();
      var fieldNum, wireType;
      fieldNum, wireType, iNdEx, err := ReadTag(dAtA, preIndex);
      if err != Nil {
        RoundRefused(DIRECTORY_ENTRY, m, dAtA, preIndex, iNdEx);
        return;
      }
      match fieldNum {
        case 1 =>
          userUuid, iNdEx, err := ReadString(dAtA, iNdEx, wireType, userUuid);
          RoundKnown(DIRECTORY_ENTRY, m, dAtA, preIndex, 0, VString(userUuid), Contents(), iNdEx, err);
        case 2 =>
          internalId, iNdEx, err := ReadString(dAtA, iNdEx, wireType, internalId);
          RoundKnown(DIRECTORY_ENTRY, m, dAtA, preIndex, 1, VString(internalId), Contents(), iNdEx, err);
        case 3 =>
          companyUuid, iNdEx, err := ReadString(dAtA, iNdEx, wireType, companyUuid);
          RoundKnown(DIRECTORY_ENTRY, m, dAtA, preIndex, 2, VString(companyUuid), Contents(), iNdEx, err);
        case 5 =>
          name, iNdEx, err := ReadString(dAtA, iNdEx, wireType, name);
          RoundKnown(DIRECTORY_ENTRY, m, dAtA, preIndex, 3, VString(name), Contents(), iNdEx, err);
        case 6 =>
          email, iNdEx, err := ReadString(dAtA, iNdEx, wireType, email);
          RoundKnown(DIRECTORY_ENTRY, m, dAtA, preIndex, 4, VString(email), Contents(), iNdEx, err);
        case 7 =>
          confirmedAndActive, iNdEx, err := ReadBool(dAtA, iNdEx, wireType, confirmedAndActive);
          RoundKnown(DIRECTORY_ENTRY, m, dAtA, preIndex, 5, VBool(confirmedAndActive), Contents(), iNdEx, err);
        case 8 =>
          phonenumber, iNdEx, err := ReadString(dAtA, iNdEx, wireType, phonenumber);
          RoundKnown(DIRECTORY_ENTRY, m, dAtA, preIndex, 6, VString(phonenumber), Contents(), iNdEx, err);
        case 9 =>
          photoUrl, iNdEx, err := ReadString(dAtA, iNdEx, wireType, photoUrl);
          RoundKnown(DIRECTORY_ENTRY, m, dAtA, preIndex, 7, VString(photoUrl), Contents(), iNdEx, err);
        case _ =>
          iNdEx, err := SkipUnknownField(dAtA, preIndex, |dAtA|);
          RoundUnknown(DIRECTORY_ENTRY, m, dAtA, preIndex, iNdEx, err);
      }
    }

    method Unmarshal(dAtA: Bytes) returns (err: Error)
      requires |dAtA| < TWO63
      modifies this
      ensures Decoder.Unmarshal(DIRECTORY_ENTRY, old(Contents()), dAtA) == Decoder.Outcome(Contents(), err)
      ensures DirectoryEntryReads(old(Struct()), dAtA, Struct(), err)
    {
      hide Decoder.Decode, Round, Typed, ValidSchema, OfDirectoryEntry, DirectoryEntryReads;
      LoopEnds(DIRECTORY_ENTRY, Contents(), dAtA);
      var l, iNdEx := |dAtA|, 0;
      err := Nil;
      while iNdEx < l
        invariant 0 <= iNdEx <= l && err == Nil
        invariant Decoder.Decode(DIRECTORY_ENTRY, Contents(), iNdEx, dAtA[iNdEx..])
                  == Decoder.Decode(DIRECTORY_ENTRY, old(Contents()), 0, dAtA)
      {
        ghost var m, preIndex := Contents(), iNdEx;
        iNdEx, err := UnmarshalField(dAtA, iNdEx);
        RoundDone(DIRECTORY_ENTRY, m, dAtA, preIndex, Contents(), iNdEx, err);
        if err != Nil {
          DirectoryEntryIsRead(old(Struct()), dAtA, Struct(), err);
          return;
        }
      }
      LoopEnds(DIRECTORY_ENTRY, Contents(), dAtA);
      DirectoryEntryIsRead(old(Struct()), dAtA, Struct(), err);
    }

    method Size(ghost visit: Encoder.Visit) returns (n: int64)
      requires Encoder.Fair(visit)
      ensures var size := Encoder.Size(DIRECTORY_ENTRY, Contents(), visit); size < TWO63 ==> n == size
    {
      hide Counted, Typed;
      ghost var m := Contents();
      CountedNothing(DIRECTORY_ENTRY, m, visit);
      n := 0;
      n := CountString(n, userUuid, DIRECTORY_ENTRY, m, visit, 0);
      n := CountString(n, internalId, DIRECTORY_ENTRY, m, visit, 1);
      n := CountString(n, companyUuid, DIRECTORY_ENTRY, m, visit, 2);
      n := CountString(n, name, DIRECTORY_ENTRY, m, visit, 3);
      n := CountString(n, email, DIRECTORY_ENTRY, m, visit, 4);
      n := CountBool(n, confirmedAndActive, DIRECTORY_ENTRY, m, visit, 5);
      n := CountString(n, phonenumber, DIRECTORY_ENTRY, m, visit, 6);
      n := CountString(n, photoUrl, DIRECTORY_ENTRY, m, visit, 7);
      CountedAll(DIRECTORY_ENTRY, m, visit, n);
    }

    /** Writes into `dAtA[:end]`, from its end backwards. */
    method MarshalToSizedBuffer(dAtA: array<byte>, end: nat, ghost visit: Encoder.Visit) returns (n: nat)
      requires Encoder.Fair(visit)
      requires Encoder.Size(DIRECTORY_ENTRY, Contents(), visit) <= end <= dAtA.Length < TWO63
      modifies dAtA
      ensures n == Encoder.Size(DIRECTORY_ENTRY, Contents(), visit)
      ensures Filled(old(dAtA[..]), dAtA[..], end - n, end, Encoder.Marshal(DIRECTORY_ENTRY, Contents(), visit))
      ensures Filled(old(dAtA[..]), dAtA[..], end - n, end, DirectoryEntryBytes(Struct()))
    {
      hide Placed, Typed, ValidSchema, DirectoryEntryBytes, Encoder.EncodeFrom, Encoder.SizeFrom;
      Encoder.SizeIsLength(DIRECTORY_ENTRY, Contents(), visit);
      ghost var w := Job(DIRECTORY_ENTRY, Contents(), visit, dAtA[..], end);
      PlacedNothing(w);
      var i := end;
      i := PutString(dAtA, i, 0x4a, photoUrl, w, 7);
      i := PutString(dAtA, i, 0x42, phonenumber, w, 6);
      i := PutBool(dAtA, i, 0x38, confirmedAndActive, w, 5);
      i := PutString(dAtA, i, 0x32, email, w, 4);
      i := PutString(dAtA, i, 0x2a, name, w, 3);
      i := PutString(dAtA, i, 0x1a, companyUuid, w, 2);
      i := PutString(dAtA, i, 0x12, internalId, w, 1);
      i := PutString(dAtA, i, 0x0a, userUuid, w, 0);
      PlacedAll(w, dAtA[..], i);
      n := end - i;
      DirectoryEntryIsWritten(Struct(), visit);
    }

    method Marshal(ghost visit: Encoder.Visit) returns (dAtA: array<byte>)
      requires Encoder.Fair(visit) && Encoder.Size(DIRECTORY_ENTRY, Contents(), visit) < TWO63
      ensures fresh(dAtA) && dAtA[..] == Encoder.Marshal(DIRECTORY_ENTRY, Contents(), visit)
      ensures dAtA[..] == DirectoryEntryBytes(Struct())
    {
      DirectoryEntryIsWritten(Struct(), visit);
      hide Typed, ValidSchema, DirectoryEntryBytes, Encoder.EncodeFrom, Encoder.SizeFrom;
      Encoder.SizeIsLength(DIRECTORY_ENTRY, Contents(), visit);
      var size := Size(visit);
      dAtA := new byte[size];
      ghost var before := dAtA[..];
      var n := MarshalToSizedBuffer(dAtA, size, visit);
      WholeBuffer(before, dAtA[..], size - n, Encoder.Marshal(DIRECTORY_ENTRY, Contents(), visit));
    }
  }
}
