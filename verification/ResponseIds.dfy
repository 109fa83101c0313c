/** When the items of a Responses stream have different ids (`responses.rs`). */
module ResponseIds {
  import opened Wrappers
  import opened Bytes
  import opened OpenAiChunks
  import opened Responses

  /** No call index is opened twice. */
  predicate OpensOnce(ops: seq<Op>) {
    ops == [] ||
    (var front, op := ops[..|ops| - 1], ops[|ops| - 1];
     OpensOnce(front) && (op.Open? ==> op.index !in Known(front)))
  }

  ghost predicate DistinctIds(items: seq<Item>) {
    forall i, j :: 0 <= i < j < |items| ==> IdOf(items[i]) != IdOf(items[j])
  }

  predicate HasId(items: seq<Item>, id: ItemId) {
    exists k :: 0 <= k < |items| && IdOf(items[k]) == id
  }

  /** The same ids in the same places. */
  predicate SameIds(a: seq<Item>, b: seq<Item>) {
    |a| == |b| && forall k :: 0 <= k < |a| ==> IdOf(a[k]) == IdOf(b[k])
  }

  /** A message is named after its place, so no later message has its id. */
  predicate Placed(items: seq<Item>) {
    forall k :: 0 <= k < |items| && items[k].Message? ==> items[k].index == k
  }

  lemma DistinctSnoc(items: seq<Item>, item: Item)
    ensures DistinctIds(items + [item]) <==> DistinctIds(items) && !HasId(items, IdOf(item))
  {
    var more := items + [item];
    if DistinctIds(more) {
      forall k | 0 <= k < |items|
        ensures IdOf(items[k]) != IdOf(item)
      {
        assert more[k] == items[k] && more[|items|] == item;
      }
      forall i, j | 0 <= i < j < |items|
        ensures IdOf(items[i]) != IdOf(items[j])
      {
        assert more[i] == items[i] && more[j] == items[j];
      }
    }
  }

  lemma SameIdsKeep(a: seq<Item>, b: seq<Item>)
    requires SameIds(a, b)
    ensures DistinctIds(a) <==> DistinctIds(b)
    ensures forall id :: HasId(a, id) <==> HasId(b, id)
  {
    forall id
      ensures HasId(a, id) <==> HasId(b, id)
    {
    }
    forall i, j | 0 <= i < j < |a|
      ensures IdOf(a[i]) == IdOf(b[i]) && IdOf(a[j]) == IdOf(b[j])
    {
    }
  }

  lemma HasIdSnoc(items: seq<Item>, item: Item, id: ItemId)
    ensures HasId(items + [item], id) <==> HasId(items, id) || IdOf(item) == id
  {
    var more := items + [item];
    assert more[|items|] == item;
    if HasId(items, id) {
      var k :| 0 <= k < |items| && IdOf(items[k]) == id;
      assert more[k] == items[k];
    }
  }

  /** One more op adds an item of its own id, or changes what the last item says. */
  lemma SpokenIds(ops: seq<Op>, op: Op)
    requires Placed(Spoken(ops))
    ensures (var a, b := Spoken(ops), Spoken(ops + [op]);
             && Placed(b)
             && (SameIds(b, a)
                 || (b == a + [b[|a|]] && IdOf(b[|a|]) == (if op.Open? then Fc(op.index) else Msg(|a|)))))
    ensures op.Open? ==> |Spoken(ops + [op])| == |Spoken(ops)| + 1
  {
    hide Spoken;
    SpokenSnoc(ops, op);
  }

  /** The call ids are those of the indices opened, and all ids differ exactly when none was opened twice. */
  lemma {:induction false} OpsIds(ops: seq<Op>)
    ensures Placed(Spoken(ops))
    ensures forall i :: HasId(Spoken(ops), Fc(i)) <==> i in Known(ops)
    ensures DistinctIds(Spoken(ops)) <==> OpensOnce(ops)
  {
    hide Spoken, Known, HasId, DistinctIds, Placed, SameIds;
    if ops == [] {
      NoOps();
    } else {
      var front, op := ops[..|ops| - 1], ops[|ops| - 1];
      OpsIds(front);
      assert front + [op] == ops;
      SpokenIds(front, op);
      SpokenSnoc(front, op);
      var a, b := Spoken(front), Spoken(ops);
      if SameIds(b, a) {
        SameIdsKeep(b, a);
        SameIdsLength(b, a);
      } else {
        var item := b[|a|];
        DistinctSnoc(a, item);
        forall i
          ensures HasId(b, Fc(i)) <==> HasId(a, Fc(i)) || IdOf(item) == Fc(i)
        {
          HasIdSnoc(a, item, Fc(i));
        }
        NoLaterMessage(a);
      }
    }
  }

  lemma NoOps()
    ensures Spoken([]) == [] && Known([]) == {} && Placed([]) && DistinctIds([])
    ensures forall id :: !HasId([], id)
  {
  }

  lemma SameIdsLength(a: seq<Item>, b: seq<Item>)
    requires SameIds(a, b)
    ensures |a| == |b|
  {
  }

  lemma NoLaterMessage(items: seq<Item>)
    requires Placed(items)
    ensures !HasId(items, Msg(|items|))
  {
  }

  // ----- a client that also refuses an id it knows

  /** The items a client has heard of. */
  function Heard(c: Client): seq<Item> {
    match c
    case Between(done) => done
    case Inside(done, item) => done + [item]
    case Ending(done, item) => done + [item]
    case Ended(output, _, _) => output
    case _ => []
  }

  predicate Repeats(c: Client, body: Body) {
    body.ItemAdded? && HasId(Heard(c), IdOf(body.item))
  }

  function WatchIds(c: Client, body: Body): Client {
    if Repeats(c, body) then Confused else Watch(c, body)
  }

  function WatchAllIds(c: Client, bodies: seq<Body>): Client {
    if bodies == [] then c else WatchIds(WatchAllIds(c, bodies[..|bodies| - 1]), bodies[|bodies| - 1])
  }

  /** An event a client takes adds the item it opens, or no id. */
  lemma WatchHears(c: Client, body: Body)
    requires Watch(c, body) != Confused
    ensures (var a, b := Heard(c), Heard(Watch(c, body));
             if body.ItemAdded? then b == a + [body.item] else SameIds(b, a))
  {
  }

  lemma ConfusedStays(c: Client, body: Body)
    ensures Watch(Confused, body) == Confused == WatchIds(Confused, body)
  {
  }

  /** It is the plain client until an id comes back. */
  lemma {:induction false} IdsWatched(bodies: seq<Body>)
    ensures (var c := WatchAll(Waiting, bodies);
             WatchAllIds(Waiting, bodies) == if DistinctIds(Heard(c)) then c else Confused)
  {
    hide Watch, Heard, DistinctIds, HasId, SameIds;
    if bodies == [] {
      NothingHeard();
    } else {
      var front, body := bodies[..|bodies| - 1], bodies[|bodies| - 1];
      IdsWatched(front);
      var c := WatchAll(Waiting, front);
      ConfusedStays(c, body);
      NothingHeard();
      if Watch(c, body) != Confused {
        WatchHears(c, body);
        if body.ItemAdded? {
          DistinctSnoc(Heard(c), body.item);
        } else {
          SameIdsKeep(Heard(Watch(c, body)), Heard(c));
        }
      }
    }
  }

  lemma NothingHeard()
    ensures DistinctIds(Heard(Waiting)) && DistinctIds(Heard(Confused))
  {
  }

  /**
   The items of a completed response have different ids, and a client that also refuses an id it has
   heard before reaches the end of an in-time stream, exactly when no call index was opened twice.
   */
  lemma DistinctIdsIff(chunks: seq<Chunk>)
    ensures (var bodies := Bodies(chunks) + Finishing(Run(chunks).0).1;
             && (DistinctIds(Spoken(AllOps(chunks))) <==> OpensOnce(AllOps(chunks)))
             && (WatchAllIds(Waiting, bodies).Ended?
                 <==> chunks != [] && InTime(AllOps(chunks)) && OpensOnce(AllOps(chunks))))
  {
    hide Run, Bodies, Spoken, DistinctIds, InTime, AllOps, WatchAll, WatchAllIds, Finishing, OpensOnce;
    var bodies := Bodies(chunks) + Finishing(Run(chunks).0).1;
    ClientFollowsIff(chunks);
    IdsWatched(bodies);
    OpsIds(AllOps(chunks));
  }

  /** One index opened by two chunks gives two items of one id. */
  lemma OpenedTwice(i: nat, name: bytes)
    ensures (var chunk := Chunk(None, None, None, [CallDelta(Some(i), None, Some(name), None)], None, None);
             var items := Spoken(AllOps([chunk, chunk]));
             && InTime(AllOps([chunk, chunk]))
             && items == [FunctionCall(i, CALL_0, name, []), FunctionCall(i, CALL_0, name, [])] && !DistinctIds(items))
  {
    hide Spoken, InTime, AllOps, DistinctIds;
    var op := Open(i, CALL_0, name);
    OpsOfTwo(i, name);
    SpokenTwice(op);
    ShownTwice(FunctionCall(i, CALL_0, name, []));
  }

  lemma OpsOfTwo(i: nat, name: bytes)
    ensures (var chunk := Chunk(None, None, None, [CallDelta(Some(i), None, Some(name), None)], None, None);
             AllOps([chunk, chunk]) == [Open(i, CALL_0, name), Open(i, CALL_0, name)])
  {
    var chunk := Chunk(None, None, None, [CallDelta(Some(i), None, Some(name), None)], None, None);
    OpsOfOne(chunk);
    assert [chunk, chunk][..1] == [chunk] && [chunk][..0] == [];
    var op := Open(i, CALL_0, name);
    assert AllOps([chunk]) == [] + [op] == [op];
  }

  lemma SpokenTwice(op: Op)
    requires op.Open?
    ensures (var item := FunctionCall(op.index, op.callId, op.name, []); Spoken([op, op]) == [item, item])
    ensures InTime([op, op])
  {
    hide Spoken, InTime, Known, OpenAfter;
    assert [] + [op] == [op] && [op] + [op] == [op, op];
    NoOps();
    NothingIsInTime();
    InTimeSnoc([], op);
    InTimeSnoc([op], op);
    SpokenSnoc([], op);
    SpokenSnoc([op], op);
  }

  lemma ShownTwice(item: Item)
    ensures !DistinctIds([item, item])
  {
    var items := [item, item];
    assert IdOf(items[0]) == IdOf(items[1]);
  }
}
