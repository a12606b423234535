/** Sender and receiver: what one object marshals, another unmarshals. */
module Exchange {
  import opened AssociationListMessage
  import opened Bits
  import opened CompanySchemas
  import opened Encoder
  import opened Errors
  import opened GrowthGraphResponseMessage
  import opened Schemas
  import opened WorkerListRequestMessage
  import opened WorkerMessage
  import Decoder
  import Evolution
  import Structs

  lemma ListArrives(m: Message, visit: Visit)
    requires ValidSchema(ASSOCIATION_LIST) && Typed(ASSOCIATION_LIST, m)
    requires Fair(visit) && Size(ASSOCIATION_LIST, m, visit) < TWO63
    ensures var d := Marshal(ASSOCIATION_LIST, m, visit);
            |d| < TWO63 && Decoder.Unmarshal(ASSOCIATION_LIST, Empty(ASSOCIATION_LIST), d) == Decoder.Outcome(m, Nil)
  {
    SizeIsLength(ASSOCIATION_LIST, m, visit);
    Evolution.RoundTrip(ASSOCIATION_LIST, m, visit);
  }

  /** Marshalling an association list and unmarshalling the bytes into a new one gives an equal list. */
  method SendAssociationList(a: AssociationList, ghost visit: Visit) returns (b: AssociationList, err: Error)
    requires a.Valid() && Fair(visit) && Size(ASSOCIATION_LIST, a.Contents(), visit) < TWO63
    ensures err == Nil && b.Valid() && b.Contents() == a.Contents()
  {
    hide Typed, ValidSchema, Decoder.Unmarshal, Marshal, Size, Empty, Within, AssociationContents;
    hide AssociationStructs, Structs.AssociationListBytes;
    ghost var m := a.Contents();
    ListArrives(m, visit);
    var dAtA := a.Marshal(visit);
    b, err := ReceiveAssociationList(dAtA[..], m);
  }

  /** The receiver unmarshals into a new list. */
  method ReceiveAssociationList(dAtA: Bytes, ghost m: Message) returns (b: AssociationList, err: Error)
    requires |dAtA| < TWO63
    requires Decoder.Unmarshal(ASSOCIATION_LIST, Empty(ASSOCIATION_LIST), dAtA) == Decoder.Outcome(m, Nil)
    ensures err == Nil && b.Valid() && b.Contents() == m
  {
    hide Typed, ValidSchema, Decoder.Unmarshal, Empty, Within, AssociationContents;
    hide AssociationStructs, Structs.AssociationListReads;
    b := new AssociationList();
    err := b.Unmarshal(dAtA);
  }

  /**
    The same for a map, whatever order the sender visits it in and whatever order `Size` had visited
    it in before.
   */
  method SendGrowthGraph(g: GrowthGraphResponse, ghost others: Visit) returns (h: GrowthGraphResponse, err: Error)
    requires Fair(others) && Size(GROWTH_GRAPH_RESPONSE, g.Contents(), others) < TWO63
    ensures err == Nil
    ensures h.peopleScheduledPerWeek == g.peopleScheduledPerWeek && h.peopleOnShifts == g.peopleOnShifts
  {
    hide Typed, ValidSchema, Decoder.Decode, EncodeFrom, SizeFrom, Empty;
    ghost var visit;
    var dAtA;
    dAtA, visit := g.Marshal(others);
    SizeIgnoresOrder(GROWTH_GRAPH_RESPONSE, g.Contents(), others, visit);
    Evolution.RoundTrip(GROWTH_GRAPH_RESPONSE, g.Contents(), visit);
    h := new GrowthGraphResponse();
    err := h.Unmarshal(dAtA[..]);
    assert h.Contents() == g.Contents();
    assert h.Contents()[0] == VMap(h.peopleScheduledPerWeek) && h.Contents()[1] == VInt32(h.peopleOnShifts);
  }

  lemma WorkerCompatible()
    ensures Evolution.Compatible(WORKER, WORKER_LIST_REQUEST)
  {
  }

  /** The projection of a worker to the fields of a list request. */
  lemma WorkerProjection(m: Message)
    requires Typed(WORKER, m)
    ensures Evolution.Compatible(WORKER, WORKER_LIST_REQUEST)
    ensures Evolution.Project(WORKER, WORKER_LIST_REQUEST, m) == [m[0], m[1]]
  {
    WorkerCompatible();
    WorkerIsValid();
    FindAt(WORKER, 0);
    FindAt(WORKER, 1);
    hide ValidSchema, Evolution.Compatible, Find;
    var r := Evolution.Project(WORKER, WORKER_LIST_REQUEST, m);
    assert r[0] == Evolution.ProjectField(WORKER, WORKER_LIST_REQUEST, m, 4, 0);
    assert r[1] == Evolution.ProjectField(WORKER, WORKER_LIST_REQUEST, m, 4, 1);
  }

  /** A list request read from the bytes of a worker gets the first two fields; the others are skipped. */
  method ReadWorkerAsRequest(w: Worker, ghost visit: Visit) returns (r: WorkerListRequest, err: Error)
    requires Fair(visit) && Size(WORKER, w.Contents(), visit) < TWO63
    ensures err == Nil && r.companyUuid == w.companyUuid && r.teamUuid == w.teamUuid
  {
    hide Typed, ValidSchema, Decoder.Decode, EncodeFrom, SizeFrom, Empty;
    hide Evolution.Compatible, Evolution.Merged, Evolution.Project;
    ghost var m := w.Contents();
    SizeIsLength(WORKER, m, visit);
    WorkerProjection(m);
    r := new WorkerListRequest();
    Evolution.EvolutionIsProjection(WORKER, WORKER_LIST_REQUEST, r.Contents(), m, visit);
    var dAtA := w.Marshal(visit);
    err := r.Unmarshal(dAtA[..]);
    assert r.Contents()[0] == VString(r.companyUuid) && r.Contents()[1] == VString(r.teamUuid);
    assert m[0] == VString(w.companyUuid) && m[1] == VString(w.teamUuid);
  }
}
