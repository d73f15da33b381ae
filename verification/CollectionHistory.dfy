/** What a keyed collection holds and counts, told from the operations alone (util/objectManager.js:106-230). */
module CollectionHistory {
  import opened ObjectManagers

  // ----- The count -----

  /** Adds less deletes since the collection was last emptied; deleting all takes off what was held. */
  function Net<V>(max: int, ops: seq<Op<V>>): int {
    if ops == [] then 0
    else
      var before := ops[..|ops| - 1];
      match ops[|ops| - 1]
      case Add(_, _) => Net(max, before) + 1
      case Delete(_) => Net(max, before) - 1
      case DeleteAll => Net(max, before) - |Run(max, before).objects|
      case Update(_, _) => Net(max, before)
      case Empty => 0
  }

  lemma {:induction false} CountIsNet<V>(max: int, ops: seq<Op<V>>)
    ensures Run(max, ops).count == Net(max, ops)
  {
    if ops != [] {
      CountIsNet(max, ops[..|ops| - 1]);
    }
  }

  // ----- Which adds are taken -----

  /** There is no limit, or the count is not exactly at it. */
  predicate Takes<V>(max: int, ops: seq<Op<V>>) {
    max == 0 || Net(max, ops) != max
  }

  /** In every state, whatever its size, an add is stored exactly when there is no limit or the count is not
      at it, which is so when the size and the irregular operations since the last emptying do not add up to
      the limit. */
  lemma AddStoredExactly<V>(max: int, ops: seq<Op<V>>, id: string, obj: V)
    ensures var m := Run(max, ops); var t := TallyOf(max, ops);
            && Run(max, ops + [Add(id, obj)]).objects == (if Takes(max, ops) then m.objects[id := obj] else m.objects)
            && (Takes(max, ops)
                <==> max == 0 || |m.objects| + t.refused + t.overwriting - t.absent - t.inserting != max)
            && (id !in m.objects ==>
                  (id in Run(max, ops + [Add(id, obj)]).objects
                   <==> max == 0 || |m.objects| + t.refused + t.overwriting - t.absent - t.inserting != max))
  {
    RunSnoc(max, ops, Add(id, obj));
    RunMax(max, ops);
    CountIsNet(max, ops);
    Accounting(max, ops);
  }

  /** A collection limited to two that is given one object twice refuses the next, though it holds only one. */
  lemma HalfFullRefuses<V>(a: V, b: V)
    ensures Run(2, [Add("a", a), Add("a", a), Add("b", b)]).objects == map["a" := a]
  {
    var one, two, three := [Add("a", a)], [Add("a", a), Add("a", a)], [Add("a", a), Add("a", a), Add("b", b)];
    assert [] + one == one && one + [Add("a", a)] == two && two + [Add("b", b)] == three;
    RunSnoc(2, [], Add("a", a));
    RunSnoc(2, one, Add("a", a));
    RunSnoc(2, two, Add("b", b));
  }

  // ----- What is held -----

  /** Operation `k` stores an object under the id. */
  predicate Puts<V>(max: int, ops: seq<Op<V>>, k: nat, id: string) {
    && k < |ops|
    && match ops[k]
       case Add(i, _) => i == id && Takes(max, ops[..k])
       case Update(i, _) => i == id
       case _ => false
  }

  /** The operation takes what is under the id away. */
  predicate Drops<V>(op: Op<V>, id: string) {
    op.DeleteAll? || op.Empty? || (op.Delete? && op.id == id)
  }

  ghost predicate LastPut<V>(max: int, ops: seq<Op<V>>, k: nat, id: string) {
    Puts(max, ops, k, id) && forall j | k < j < |ops| :: !Puts(max, ops, j, id) && !Drops(ops[j], id)
  }

  /** A collection holds, under each id, exactly what the last operation that stored something there stored,
      if none took it away since. */
  lemma {:induction false} HeldIsHistory<V>(max: int, ops: seq<Op<V>>, id: string)
    ensures id in Run(max, ops).objects <==> exists k: nat :: LastPut(max, ops, k, id)
    ensures forall k: nat | LastPut(max, ops, k, id) ::
              id in Run(max, ops).objects && Run(max, ops).objects[id] == ops[k].obj
    decreases |ops|
  {
    if ops != [] {
      var n := |ops| - 1;
      HeldIsHistory(max, ops[..n], id);
      HeldStep(max, ops, id);
      forall k: nat | k < n
        ensures LastPut(max, ops, k, id)
           <==> LastPut(max, ops[..n], k, id) && !Puts(max, ops, n, id) && !Drops(ops[n], id)
      {
        LastPutStep(max, ops, k, id);
      }
      if Puts(max, ops, n, id) {
        assert LastPut(max, ops, n, id);
      } else if k: nat :| LastPut(max, ops[..n], k, id) {
        assert k < n;
        assert !Drops(ops[n], id) ==> LastPut(max, ops, k, id);
      }
    }
  }

  lemma HeldStep<V>(max: int, ops: seq<Op<V>>, id: string)
    requires ops != []
    ensures var n := |ops| - 1; var before, now := Run(max, ops[..n]).objects, Run(max, ops).objects;
            if Puts(max, ops, n, id) then id in now && now[id] == ops[n].obj
            else if Drops(ops[n], id) then id !in now
            else (id in now <==> id in before) && (id in before ==> now[id] == before[id])
  {
    var n := |ops| - 1;
    RunMax(max, ops[..n]);
    CountIsNet(max, ops[..n]);
  }

  lemma LastPutStep<V>(max: int, ops: seq<Op<V>>, k: nat, id: string)
    requires k < |ops| - 1
    ensures var n := |ops| - 1;
            LastPut(max, ops, k, id)
            <==> LastPut(max, ops[..n], k, id) && !Puts(max, ops, n, id) && !Drops(ops[n], id)
  {
    var n := |ops| - 1;
    forall j: nat | j < n
      ensures Puts(max, ops[..n], j, id) == Puts(max, ops, j, id) && ops[..n][j] == ops[j]
    {
      assert ops[..n][..j] == ops[..j];
    }
  }
}
