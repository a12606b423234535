/** `Worker`: strings and an int32. */
module WorkerMessage {
  import opened Bits
  import opened Buffer
  import opened CompanySchemas
  import opened Errors
  import opened Fields
  import opened Schemas
  import opened Structs
  import opened Varints
  import Decoder
  import Encoder

  class Worker {
    var companyUuid: Bytes
    var teamUuid: Bytes
    var userUuid: Bytes
    var version: int32

    /** The struct as a value. */
    ghost function Struct(): WorkerStruct
      reads this
    {
      WorkerStruct(companyUuid, teamUuid, userUuid, version)
    }

    /** Its fields, in the order of their numbers. */
    ghost function Contents(): (m: Message)
      reads this
      ensures ValidSchema(WORKER) && Typed(WORKER, m)
    {
      WorkerIsValid();
      OfWorker(Struct())
    }

    constructor ()
      ensures Contents() == Empty(WORKER)
    {
      companyUuid := [];
      teamUuid := [];
      userUuid := [];
      version := 0;
    }

    /** One round of the loop of `Unmarshal`. */
    method UnmarshalField(dAtA: Bytes, preIndex: nat) returns (iNdEx: nat, err: Error)
      requires preIndex < |dAtA| < TWO63
      modifies this
      ensures Round(WORKER, old(Contents()), dAtA, preIndex, Contents(), iNdEx, err)
    {
      hide Decoder.DecodeField, Decoder.SkipUnknown, Decoder.FieldNumber;
      hide ReadVarint, Typed, ValidSchema, Round, Did, TagError;
      ghost var m := Contents();
      var fieldNum, wireType;
      fieldNum, wireType, iNdEx, err := ReadTag(dAtA, preIndex);
      if err != Nil {
        RoundRefused(WORKER, m, dAtA, preIndex, iNdEx);
        return;
      }
      match fieldNum {
        case 1 =>
          companyUuid, iNdEx, err := ReadString(dAtA, iNdEx, wireType, companyUuid);
          RoundKnown(WORKER, m, dAtA, preIndex, 0, VString(companyUuid), Contents(), iNdEx, err);
        case 2 =>
          teamUuid, iNdEx, err := ReadString(dAtA, iNdEx, wireType, teamUuid);
          RoundKnown(WORKER, m, dAtA, preIndex, 1, VString(teamUuid), Contents(), iNdEx, err);
        case 3 =>
          userUuid, iNdEx, err := ReadString(dAtA, iNdEx, wireType, userUuid);
          RoundKnown(WORKER, m, dAtA, preIndex, 2, VString(userUuid), Contents(), iNdEx, err);
        case 4 =>
          version, iNdEx, err := ReadInt32Field(dAtA, iNdEx, wireType, version);
          RoundKnown(WORKER, m, dAtA, preIndex, 3, VInt32(version), Contents(), iNdEx, err);
        case _ =>
          iNdEx, err := SkipUnknownField(dAtA, preIndex, |dAtA|);
          RoundUnknown(WORKER, m, dAtA, preIndex, iNdEx, err);
      }
    }

    method Unmarshal(dAtA: Bytes) returns (err: Error)
      requires |dAtA| < TWO63
      modifies this
      ensures Decoder.Unmarshal(WORKER, old(Contents()), dAtA) == Decoder.Outcome(Contents(), err)
      ensures WorkerReads(old(Struct()), dAtA, Struct(), err)
    {
      hide Decoder.Decode, Round, Typed, ValidSchema, OfWorker, WorkerReads;
      LoopEnds(WORKER, Contents(), dAtA);
      var l, iNdEx := |dAtA|, 0;
      err := Nil;
      while iNdEx < l
        invariant 0 <= iNdEx <= l && err == Nil
        invariant Decoder.Decode(WORKER, Contents(), iNdEx, dAtA[iNdEx..])
                  == Decoder.Decode(WORKER, old(Contents()), 0, dAtA)
      {
        ghost var m, preIndex := Contents(), iNdEx;
        iNdEx, err := UnmarshalField(dAtA, iNdEx);
        RoundDone(WORKER, m, dAtA, preIndex, Contents(), iNdEx, err);
        if err != Nil {
          WorkerIsRead(old(Struct()), dAtA, Struct(), err);
          return;
        }
      }
      LoopEnds(WORKER, Contents(), dAtA);
      WorkerIsRead(old(Struct()), dAtA, Struct(), err);
    }

    method Size(ghost visit: Encoder.Visit) returns (n: int64)
      requires Encoder.Fair(visit)
      ensures var size := Encoder.Size(WORKER, Contents(), visit); size < TWO63 ==> n == size
    {
      hide Counted, Typed;
      ghost var m := Contents();
      CountedNothing(WORKER, m, visit);
      n := 0;
      n := CountString(n, companyUuid, WORKER, m, visit, 0);
      n := CountString(n, teamUuid, WORKER, m, visit, 1);
      n := CountString(n, userUuid, WORKER, m, visit, 2);
      n := CountInt32(n, version, WORKER, m, visit, 3);
      CountedAll(WORKER, m, visit, n);
    }

    /** Writes into `dAtA[:end]`, from its end backwards. */
    method MarshalToSizedBuffer(dAtA: array<byte>, end: nat, ghost visit: Encoder.Visit) returns (n: nat)
      requires Encoder.Fair(visit)
      requires Encoder.Size(WORKER, Contents(), visit) <= end <= dAtA.Length < TWO63
      modifies dAtA
      ensures n == Encoder.Size(WORKER, Contents(), visit)
      ensures Filled(old(dAtA[..]), dAtA[..], end - n, end, Encoder.Marshal(WORKER, Contents(), visit))
      ensures Filled(old(dAtA[..]), dAtA[..], end - n, end, WorkerBytes(Struct()))
    {
      hide Placed, Typed, ValidSchema, WorkerBytes, Encoder.EncodeFrom, Encoder.SizeFrom;
      Encoder.SizeIsLength(WORKER, Contents(), visit);
      ghost var w := Job(WORKER, Contents(), visit, dAtA[..], end);
      PlacedNothing(w);
      var i := end;
      i := PutInt32(dAtA, i, 0x20, version, w, 3);
      i := PutString(dAtA, i, 0x1a, userUuid, w, 2);
      i := PutString(dAtA, i, 0x12, teamUuid, w, 1);
      i := PutString(dAtA, i, 0x0a, companyUuid, w, 0);
      PlacedAll(w, dAtA[..], i);
      n := end - i;
      WorkerIsWritten(Struct(), visit);
    }

    method Marshal(ghost visit: Encoder.Visit) returns (dAtA: array<byte>)
      requires Encoder.Fair(visit) && Encoder.Size(WORKER, Contents(), visit) < TWO63
      ensures fresh(dAtA) && dAtA[..] == Encoder.Marshal(WORKER, Contents(), visit)
      ensures dAtA[..] == WorkerBytes(Struct())
    {
      WorkerIsWritten(Struct(), visit);
      hide Typed, ValidSchema, WorkerBytes, Encoder.EncodeFrom, Encoder.SizeFrom;
      Encoder.SizeIsLength(WORKER, Contents(), visit);
      var size := Size(visit);
      dAtA := new byte[size];
      ghost var before := dAtA[..];
      var n := MarshalToSizedBuffer(dAtA, size, visit);
      WholeBuffer(before, dAtA[..], size - n, Encoder.Marshal(WORKER, Contents(), visit));
    }
  }
}
