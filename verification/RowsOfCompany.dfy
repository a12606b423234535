/** `RowsOfCompany`: a list of strings. */
module RowsOfCompanyMessage {
  import opened Bits
  import opened Buffer
  import opened CompanySchemas
  import opened Errors
  import opened Fields
  import opened Schemas
  import opened Structs
  import opened Varints
  import Decoder
  import Encoder

  class RowsOfCompany {
    var companyUuid: seq<Bytes>

    /** The struct as a value. */
    ghost function Struct(): RowsOfCompanyStruct
      reads this
    {
      RowsOfCompanyStruct(companyUuid)
    }

    /** Its fields, in the order of their numbers. */
    ghost function Contents(): (m: Message)
      reads this
      ensures ValidSchema(ROWS_OF_COMPANY) && Typed(ROWS_OF_COMPANY, m)
    {
      RowsOfCompanyIsValid();
      OfRowsOfCompany(Struct())
    }

    constructor ()
      ensures Contents() == Empty(ROWS_OF_COMPANY)
    {
      companyUuid := [];
    }

    /** One round of the loop of `Unmarshal`. */
    method UnmarshalField(dAtA: Bytes, preIndex: nat) returns (iNdEx: nat, err: Error)
      requires preIndex < |dAtA| < TWO63
      modifies this
      ensures Round(ROWS_OF_COMPANY, old(Contents()), dAtA, preIndex, Contents(), iNdEx, err)
    {
      hide Decoder.DecodeField, Decoder.SkipUnknown, Decoder.FieldNumber;
      hide ReadVarint, Typed, ValidSchema, Round, Did, TagError;
      ghost var m := Contents();
      var fieldNum, wireType;
      fieldNum, wireType, iNdEx, err := ReadTag(dAtA, preIndex);
      if err != Nil {
        RoundRefused(ROWS_OF_COMPANY, m, dAtA, preIndex, iNdEx);
        return;
      }
      match fieldNum {
        case 1 =>
          companyUuid, iNdEx, err := AppendString(dAtA, iNdEx, wireType, companyUuid);
          RoundKnown(ROWS_OF_COMPANY, m, dAtA, preIndex, 0, VStrings(companyUuid), Contents(), iNdEx, err);
        case _ =>
          iNdEx, err := SkipUnknownField(dAtA, preIndex, |dAtA|);
          RoundUnknown(ROWS_OF_COMPANY, m, dAtA, preIndex, iNdEx, err);
      }
    }

    method Unmarshal(dAtA: Bytes) returns (err: Error)
      requires |dAtA| < TWO63
      modifies this
      ensures Decoder.Unmarshal(ROWS_OF_COMPANY, old(Contents()), dAtA) == Decoder.Outcome(Contents(), err)
      ensures RowsOfCompanyReads(old(Struct()), dAtA, Struct(), err)
    {
      hide Decoder.Decode, Round, Typed, ValidSchema, OfRowsOfCompany, RowsOfCompanyReads;
      LoopEnds(ROWS_OF_COMPANY, Contents(), dAtA);
      var l, iNdEx := |dAtA|, 0;
      err := Nil;
      while iNdEx < l
        invariant 0 <= iNdEx <= l && err == Nil
        invariant Decoder.Decode(ROWS_OF_COMPANY, Contents(), iNdEx, dAtA[iNdEx..])
                  == Decoder.Decode(ROWS_OF_COMPANY, old(Contents()), 0, dAtA)
      {
        ghost var m, preIndex := Contents(), iNdEx;
        iNdEx, err := UnmarshalField(dAtA, iNdEx);
        RoundDone(ROWS_OF_COMPANY, m, dAtA, preIndex, Contents(), iNdEx, err);
        if err != Nil {
          RowsOfCompanyIsRead(old(Struct()), dAtA, Struct(), err);
          return;
        }
      }
      LoopEnds(ROWS_OF_COMPANY, Contents(), dAtA);
      RowsOfCompanyIsRead(old(Struct()), dAtA, Struct(), err);
    }

    method Size(ghost visit: Encoder.Visit) returns (n: int64)
      requires Encoder.Fair(visit)
      ensures var size := Encoder.Size(ROWS_OF_COMPANY, Contents(), visit); size < TWO63 ==> n == size
    {
      hide Counted, Typed;
      ghost var m := Contents();
      CountedNothing(ROWS_OF_COMPANY, m, visit);
      n := 0;
      n := CountStrings(n, companyUuid, ROWS_OF_COMPANY, m, visit, 0);
      CountedAll(ROWS_OF_COMPANY, m, visit, n);
    }

    /** Writes into `dAtA[:end]`, from its end backwards. */
    method MarshalToSizedBuffer(dAtA: array<byte>, end: nat, ghost visit: Encoder.Visit) returns (n: nat)
      requires Encoder.Fair(visit)
      requires Encoder.Size(ROWS_OF_COMPANY, Contents(), visit) <= end <= dAtA.Length < TWO63
      modifies dAtA
      ensures n == Encoder.Size(ROWS_OF_COMPANY, Contents(), visit)
      ensures Filled(old(dAtA[..]), dAtA[..], end - n, end, Encoder.Marshal(ROWS_OF_COMPANY, Contents(), visit))
      ensures Filled(old(dAtA[..]), dAtA[..], end - n, end, RowsOfCompanyBytes(Struct()))
    {
      hide Placed, Typed, ValidSchema, RowsOfCompanyBytes, Encoder.EncodeFrom, Encoder.SizeFrom;
      Encoder.SizeIsLength(ROWS_OF_COMPANY, Contents(), visit);
      ghost var w := Job(ROWS_OF_COMPANY, Contents(), visit, dAtA[..], end);
      PlacedNothing(w);
      var i := end;
      i := PutStrings(dAtA, i, 0x0a, companyUuid, w, 0);
      PlacedAll(w, dAtA[..], i);
      n := end - i;
      RowsOfCompanyIsWritten(Struct(), visit);
    }

    method Marshal(ghost visit: Encoder.Visit) returns (dAtA: array<byte>)
      requires Encoder.Fair(visit) && Encoder.Size(ROWS_OF_COMPANY, Contents(), visit) < TWO63
      ensures fresh(dAtA) && dAtA[..] == Encoder.Marshal(ROWS_OF_COMPANY, Contents(), visit)
      ensures dAtA[..] == RowsOfCompanyBytes(Struct())
    {
      RowsOfCompanyIsWritten(Struct(), visit);
      hide Typed, ValidSchema, RowsOfCompanyBytes, Encoder.EncodeFrom, Encoder.SizeFrom;
      Encoder.SizeIsLength(ROWS_OF_COMPANY, Contents(), visit);
      var size := Size(visit);
      dAtA := new byte[size];
      ghost var before := dAtA[..];
      var n := MarshalToSizedBuffer(dAtA, size, visit);
      WholeBuffer(before, dAtA[..], size - n, Encoder.Marshal(ROWS_OF_COMPANY, Contents(), visit));
    }
  }
}
