/** `WorkerListRequest`: the first two fields of `Worker`. */
module WorkerListRequestMessage {
  import opened Bits
  import opened Buffer
  import opened CompanySchemas
  import opened Errors
  import opened Fields
  import opened Schemas
  import opened Structs
  import opened Varints
  import Decoder
  import Encoder

  class WorkerListRequest {
    var companyUuid: Bytes
    var teamUuid: Bytes

    /** The struct as a value. */
    ghost function Struct(): WorkerListRequestStruct
      reads this
    {
      WorkerListRequestStruct(companyUuid, teamUuid)
    }

    /** Its fields, in the order of their numbers. */
    ghost function Contents(): (m: Message)
      reads this
      ensures ValidSchema(WORKER_LIST_REQUEST) && Typed(WORKER_LIST_REQUEST, m)
    {
      WorkerListRequestIsValid();
      OfWorkerListRequest(Struct())
    }

    constructor ()
      ensures Contents() == Empty(WORKER_LIST_REQUEST)
    {
      companyUuid := [];
      teamUuid := [];
    }

    /** One round of the loop of `Unmarshal`. */
    method UnmarshalField(dAtA: Bytes, preIndex: nat) returns (iNdEx: nat, err: Error)
      requires preIndex < |dAtA| < TWO63
      modifies this
      ensures Round(WORKER_LIST_REQUEST, old(Contents()), dAtA, preIndex, Contents(), iNdEx, err)
    {
      hide Decoder.DecodeField, Decoder.SkipUnknown, Decoder.FieldNumber;
      hide ReadVarint, Typed, ValidSchema, Round, Did, TagError;
      ghost var m := Contents();
      var fieldNum, wireType;
      fieldNum, wireType, iNdEx, err := ReadTag(dAtA, preIndex);
      if err != Nil {
        RoundRefused(WORKER_LIST_REQUEST, m, dAtA, preIndex, iNdEx);
        return;
      }
      match fieldNum {
        case 1 =>
          companyUuid, iNdEx, err := ReadString(dAtA, iNdEx, wireType, companyUuid);
          RoundKnown(WORKER_LIST_REQUEST, m, dAtA, preIndex, 0, VString(companyUuid), Contents(), iNdEx, err);
        case 2 =>
          teamUuid, iNdEx, err := ReadString(dAtA, iNdEx, wireType, teamUuid);
          RoundKnown(WORKER_LIST_REQUEST, m, dAtA, preIndex, 1, VString(teamUuid), Contents(), iNdEx, err);
        case _ =>
          iNdEx, err := SkipUnknownField(dAtA, preIndex, |dAtA|);
          RoundUnknown(WORKER_LIST_REQUEST, m, dAtA, preIndex, iNdEx, err);
      }
    }

    method Unmarshal(dAtA: Bytes) returns (err: Error)
      requires |dAtA| < TWO63
      modifies this
      ensures Decoder.Unmarshal(WORKER_LIST_REQUEST, old(Contents()), dAtA) == Decoder.Outcome(Contents(), err)
      ensures WorkerListRequestReads(old(Struct()), dAtA, Struct(), err)
    {
      hide Decoder.Decode, Round, Typed, ValidSchema, OfWorkerListRequest, WorkerListRequestReads;
      LoopEnds(WORKER_LIST_REQUEST, Contents(), dAtA);
      var l, iNdEx := |dAtA|, 0;
      err := Nil;
      while iNdEx < l
        invariant 0 <= iNdEx <= l && err == Nil
        invariant Decoder.Decode(WORKER_LIST_REQUEST, Contents(), iNdEx, dAtA[iNdEx..])
                  == Decoder.Decode(WORKER_LIST_REQUEST, old(Contents()), 0, dAtA)
      {
        ghost var m, preIndex := Contents(), iNdEx;
        iNdEx, err := UnmarshalField(dAtA, iNdEx);
        RoundDone(WORKER_LIST_REQUEST, m, dAtA, preIndex, Contents(), iNdEx, err);
        if err != Nil {
          WorkerListRequestIsRead(old(Struct()), dAtA, Struct(), err);
          return;
        }
      }
      LoopEnds(WORKER_LIST_REQUEST, Contents(), dAtA);
      WorkerListRequestIsRead(old(Struct()), dAtA, Struct(), err);
    }

    method Size(ghost visit: Encoder.Visit) returns (n: int64)
      requires Encoder.Fair(visit)
      ensures var size := Encoder.Size(WORKER_LIST_REQUEST, Contents(), visit); size < TWO63 ==> n == size
    {
      hide Counted, Typed;
      ghost var m := Contents();
      CountedNothing(WORKER_LIST_REQUEST, m, visit);
      n := 0;
      n := CountString(n, companyUuid, WORKER_LIST_REQUEST, m, visit, 0);
      n := CountString(n, teamUuid, WORKER_LIST_REQUEST, m, visit, 1);
      CountedAll(WORKER_LIST_REQUEST, m, visit, n);
    }

    /** Writes into `dAtA[:end]`, from its end backwards. */
    method MarshalToSizedBuffer(dAtA: array<byte>, end: nat, ghost visit: Encoder.Visit) returns (n: nat)
      requires Encoder.Fair(visit)
      requires Encoder.Size(WORKER_LIST_REQUEST, Contents(), visit) <= end <= dAtA.Length < TWO63
      modifies dAtA
      ensures n == Encoder.Size(WORKER_LIST_REQUEST, Contents(), visit)
      ensures Filled(old(dAtA[..]), dAtA[..], end - n, end, Encoder.Marshal(WORKER_LIST_REQUEST, Contents(), visit))
      ensures Filled(old(dAtA[..]), dAtA[..], end - n, end, WorkerListRequestBytes(Struct()))
    {
      hide Placed, Typed, ValidSchema, WorkerListRequestBytes, Encoder.EncodeFrom, Encoder.SizeFrom;
      Encoder.SizeIsLength(WORKER_LIST_REQUEST, Contents(), visit);
      ghost var w := Job(WORKER_LIST_REQUEST, Contents(), visit, dAtA[..], end);
      PlacedNothing(w);
      var i := end;
      i := PutString(dAtA, i, 0x12, teamUuid, w, 1);
      i := PutString(dAtA, i, 0x0a, companyUuid, w, 0);
      PlacedAll(w, dAtA[..], i);
      n := end - i;
      WorkerListRequestIsWritten(Struct(), visit);
    }

    method Marshal(ghost visit: Encoder.Visit) returns (dAtA: array<byte>)
      requires Encoder.Fair(visit) && Encoder.Size(WORKER_LIST_REQUEST, Contents(), visit) < TWO63
      ensures fresh(dAtA) && dAtA[..] == Encoder.Marshal(WORKER_LIST_REQUEST, Contents(), visit)
      ensures dAtA[..] == WorkerListRequestBytes(Struct())
    {
      WorkerListRequestIsWritten(Struct(), visit);
      hide Typed, ValidSchema, WorkerListRequestBytes, Encoder.EncodeFrom, Encoder.SizeFrom;
      Encoder.SizeIsLength(WORKER_LIST_REQUEST, Contents(), visit);
      var size := Size(visit);
      dAtA := new byte[size];
      ghost var before := dAtA[..];
      var n := MarshalToSizedBuffer(dAtA, size, visit);
      WholeBuffer(before, dAtA[..], size - n, Encoder.Marshal(WORKER_LIST_REQUEST, Contents(), visit));
    }
  }
}
