/** A keyed collection with an optional limit and three statistics (util/objectManager.js).
    `objects` is a JavaScript object: a map from ids, whose key order is a parameter where it matters. */
module ObjectManagers {
  import opened Options

  /** The fields of a manager at one moment. */
  datatype Manager<V> = Manager(max: int, objects: map<string, V>, count: int, total: int, peak: int)

  function Fresh<V>(max: int): Manager<V> {
    Manager(max, map[], 0, 0, 0)
  }

  /** An add is refused only when the limit is on and `count` is exactly at it. */
  predicate Refuses<V>(m: Manager<V>) {
    m.max != 0 && m.count == m.max
  }

  /** Adding counts, whether or not the object is stored. */
  function Added<V>(m: Manager<V>, id: string, obj: V): Manager<V> {
    m.(objects := if Refuses(m) then m.objects else m.objects[id := obj],
       count := m.count + 1,
       total := m.total + 1,
       peak := if m.count + 1 > m.peak then m.count + 1 else m.peak)
  }

  /** Deleting counts, whether or not the id is present. */
  function Deleted<V>(m: Manager<V>, id: string): Manager<V> {
    m.(objects := m.objects - {id}, count := m.count - 1)
  }

  function Updated<V>(m: Manager<V>, id: string, obj: V): Manager<V> {
    m.(objects := m.objects[id := obj])
  }

  function Cleared<V>(m: Manager<V>): Manager<V> {
    m.(objects := map[], count := m.count - |m.objects|)
  }

  function Emptied<V>(m: Manager<V>): Manager<V> {
    m.(objects := map[], count := 0)
  }

  class ObjectManager<V> {
    const max_objects: int
    var objects: map<string, V>
    var count: int
    var count_total: int
    var count_peak: int

    constructor (max_objects: int)
      ensures View() == Fresh(max_objects)
    {
      this.max_objects := max_objects;
      objects := map[];
      count, count_total, count_peak := 0, 0, 0;
    }

    function View(): Manager<V>
      reads this
    {
      Manager(max_objects, objects, count, count_total, count_peak)
    }

    method UpdatePeakCount()
      modifies this`count_peak
      ensures count_peak == if count > old(count_peak) then count else old(count_peak)
    {
      if count > count_peak {
        count_peak := count;
      }
    }

    method AddOne(id: string, obj: V)
      modifies this
      ensures View() == Added(old(View()), id, obj)
    {
      if max_objects == 0 || count != max_objects {
        objects := objects[id := obj];
      }
      count := count + 1;
      count_total := count_total + 1;
      UpdatePeakCount();
    }

    method Delete(id: string)
      modifies this
      ensures View() == Deleted(old(View()), id)
    {
      objects := objects - {id};
      count := count - 1;
    }

    method DeleteAll()
      modifies this
      ensures View() == Cleared(old(View()))
    {
      while objects != map[]
        invariant count - |objects| == old(count - |objects|)
        invariant count_total == old(count_total) && count_peak == old(count_peak)
        decreases |objects|
      {
        var k :| k in objects;
        assert objects.Keys == (objects - {k}).Keys + {k};
        Delete(k);
      }
    }

    function GetOne(id: string): Option<V>
      reads this
    {
      if id in objects then Some(objects[id]) else None
    }

    method Update(id: string, obj: V)
      modifies this
      ensures View() == Updated(old(View()), id, obj)
    {
      objects := objects[id := obj];
    }

    method Empty()
      modifies this
      ensures View() == Emptied(old(View()))
    {
      objects := map[];
      count := 0;
    }

    /** Serialises the objects in key order, counting `offset` and then `max` down. An object without
        a `serialize` method uses up a place of the page but yields nothing. */
    method SerializeObjects<S>(order: seq<string>, serialize: V -> Option<S>, max: int, offset: int)
      returns (serialized: seq<S>)
      requires KeyOrder(order, objects)
      ensures serialized == Collect(objects, serialize, Window(order, max, offset))
    {
      serialized := [];
      var toSkip, left := offset, max;
      for i := 0 to |order|
        invariant serialized == Collect(objects, serialize, Window(order[..i], max, offset))
        invariant toSkip == if Clamp(offset) <= i then offset - Clamp(offset) else offset - i
        invariant left == if Clamp(offset) <= i then max - (if max > 0 then i - Clamp(offset) else 0) else max
        invariant max > 0 ==> left > 0
      {
        WindowStep(order, i, max, offset);
        if toSkip > 0 {
          toSkip := toSkip - 1;
          continue;
        }
        CollectSnoc(objects, serialize, Window(order[..i], max, offset), order[i]);
        var s := serialize(objects[order[i]]);
        if s.Some? {
          serialized := serialized + [s.value];
        }
        if left > 0 {
          left := left - 1;
          if left == 0 {
            WindowFull(order, i + 1, max, offset);
            return;
          }
        }
      }
      assert order[..|order|] == order;
    }
  }

  // ----- Pages -----

  /** `order` lists the keys of `objects`, each once. */
  ghost predicate KeyOrder<V>(order: seq<string>, objects: map<string, V>) {
    && Distinct(order)
    && (forall i | 0 <= i < |order| :: order[i] in objects)
    && (forall k | k in objects :: k in order)
  }

  ghost predicate Distinct<K>(order: seq<K>) {
    forall i, j | 0 <= i < j < |order| :: order[i] != order[j]
  }

  function Clamp(n: int): nat { if n > 0 then n else 0 }

  /** The `max` elements from position `offset` on, or all of them when `max` is not positive. */
  function Window<K>(order: seq<K>, max: int, offset: int): seq<K> {
    var lo := if Clamp(offset) < |order| then Clamp(offset) else |order|;
    var hi := if 0 < max && lo + max < |order| then lo + max else |order|;
    order[lo..hi]
  }

  /** An element is in the window exactly when its position is not before a positive offset and, for a
      positive `max`, among the next so many; and the window keeps the order. */
  lemma WindowMeans<K>(order: seq<K>, max: int, offset: int)
    requires Distinct(order)
    ensures forall i | 0 <= i < |order| ::
              order[i] in Window(order, max, offset)
              <==> offset <= i && (max <= 0 || i < max || (offset > 0 && i < offset + max))
    ensures forall k | 0 <= k < |Window(order, max, offset)| ::
              var from := if offset > 0 then offset else 0;
              from + k < |order| && Window(order, max, offset)[k] == order[from + k]
  {
    var w := Window(order, max, offset);
    forall k | 0 <= k < |w|
      ensures Clamp(offset) + k < |order| && w[k] == order[Clamp(offset) + k]
    {
    }
    forall i | 0 <= i < |order|
      ensures order[i] in w <==> offset <= i && (max <= 0 || i < Clamp(offset) + max)
    {
      if offset <= i && (max <= 0 || i < Clamp(offset) + max) {
        assert w[i - Clamp(offset)] == order[i];
      }
    }
  }

  /** What the objects with these keys serialise to; those that do not serialise are left out. */
  function Collect<V, S>(objects: map<string, V>, serialize: V -> Option<S>, keys: seq<string>): seq<S> {
    if keys == [] then []
    else
      (if keys[0] in objects && serialize(objects[keys[0]]).Some? then [serialize(objects[keys[0]]).value] else [])
      + Collect(objects, serialize, keys[1..])
  }

  lemma {:induction false} CollectAppend<V, S>(objects: map<string, V>, serialize: V -> Option<S>,
                                               a: seq<string>, b: seq<string>)
    ensures Collect(objects, serialize, a + b) == Collect(objects, serialize, a) + Collect(objects, serialize, b)
  {
    if a == [] {
      assert a + b == b;
    } else {
      assert (a + b)[1..] == a[1..] + b;
      CollectAppend(objects, serialize, a[1..], b);
    }
  }

  /** Something is collected exactly when it is what an object under one of the keys serialises to; and where
      all of them serialise, there is one for each key, in order. */
  lemma {:induction false} CollectMeans<V, S>(objects: map<string, V>, serialize: V -> Option<S>, keys: seq<string>)
    requires forall k | k in keys :: k in objects
    ensures forall x :: x in Collect(objects, serialize, keys)
              <==> exists i :: 0 <= i < |keys| && serialize(objects[keys[i]]) == Some(x)
    ensures (forall k | k in keys :: serialize(objects[k]).Some?) ==>
              && |Collect(objects, serialize, keys)| == |keys|
              && forall i | 0 <= i < |keys| :: serialize(objects[keys[i]]) == Some(Collect(objects, serialize, keys)[i])
  {
    if keys != [] {
      var rest := keys[1..];
      CollectMeans(objects, serialize, rest);
      assert forall i | 0 <= i < |rest| :: rest[i] == keys[i + 1];
      assert forall i | 1 <= i < |keys| :: keys[i] == rest[i - 1];
      assert keys[0] in keys;
    }
  }

  lemma CollectSnoc<V, S>(objects: map<string, V>, serialize: V -> Option<S>, keys: seq<string>, k: string)
    requires k in objects
    ensures Collect(objects, serialize, keys + [k])
         == Collect(objects, serialize, keys)
            + if serialize(objects[k]).Some? then [serialize(objects[k]).value] else []
  {
    CollectAppend(objects, serialize, keys, [k]);
    assert Collect(objects, serialize, [k][1..]) == [];
  }

  /** One more key extends the window by that key when it lies inside. */
  lemma WindowStep<K>(order: seq<K>, i: nat, max: int, offset: int)
    requires i < |order| && (max > 0 ==> i < Clamp(offset) + max)
    ensures Window(order[..i + 1], max, offset)
         == Window(order[..i], max, offset) + if i < Clamp(offset) then [] else [order[i]]
  {
    if i >= Clamp(offset) {
      assert order[..i + 1][Clamp(offset)..i + 1] == order[..i][Clamp(offset)..i] + [order[i]];
    }
  }

  /** A full window ignores the keys that follow. */
  lemma WindowFull<K>(order: seq<K>, i: nat, max: int, offset: int)
    requires i <= |order| && max > 0 && i == Clamp(offset) + max
    ensures Window(order[..i], max, offset) == Window(order, max, offset)
  {
  }

  /** The serialised pages `0 .. n` of the given size, one after the other. */
  function Pages<V, S>(objects: map<string, V>, serialize: V -> Option<S>, order: seq<string>,
                       size: nat, n: nat): seq<S>
  {
    if n == 0 then []
    else
      Pages(objects, serialize, order, size, n - 1)
      + Collect(objects, serialize, Window(order, size, (n - 1) * size))
  }

  lemma {:induction false} PagesAreFirst<V, S>(objects: map<string, V>, serialize: V -> Option<S>,
                                               order: seq<string>, size: nat, n: nat)
    requires size > 0
    ensures Pages(objects, serialize, order, size, n)
         == Collect(objects, serialize, order[..Least(n * size, |order|)])
  {
    if n > 0 {
      var from := (n - 1) * size;
      PagesAreFirst(objects, serialize, order, size, n - 1);
      PageAfter(order, from, size);
      CollectAppend(objects, serialize, order[..Least(from, |order|)], Window(order, size, from));
      assert n * size == from + size;
    }
  }

  lemma PageAfter<K>(order: seq<K>, from: nat, size: nat)
    requires size > 0
    ensures order[..Least(from, |order|)] + Window(order, size, from) == order[..Least(from + size, |order|)]
  {
  }

  lemma FirstWindow<K>(order: seq<K>, max: nat)
    requires max > 0
    ensures Window(order, max, 0) == order[..Least(max, |order|)]
    ensures max >= |order| ==> order[..Least(max, |order|)] == Window(order, 0, 0)
  {
  }

  /** Pages of any positive size partition the collection: the first `n` of them are the serialised
      first `n * size` objects, and enough of them are the unpaged result. */
  lemma PagesPartition<V, S>(objects: map<string, V>, serialize: V -> Option<S>,
                             order: seq<string>, size: nat, n: nat)
    requires size > 0
    ensures n > 0 ==>
              Pages(objects, serialize, order, size, n) == Collect(objects, serialize, Window(order, n * size, 0))
    ensures n > 0 && n * size >= |order| ==>
              Pages(objects, serialize, order, size, n) == Collect(objects, serialize, Window(order, 0, 0))
  {
    PagesAreFirst(objects, serialize, order, size, n);
    if n > 0 {
      assert n * size > 0;
      FirstWindow(order, n * size);
    }
  }

  /** Exchanging the two arguments of a page, as `getRooms` does, gives the page that was meant exactly when
      both come to the same within the list. */
  lemma SwappedArguments<K>(order: seq<K>, max: int, offset: int)
    requires Distinct(order)
    ensures Window(order, offset, max) == Window(order, max, offset)
       <==> Least(Clamp(max), |order|) == Least(Clamp(offset), |order|)
  {
    var a, b := Least(Clamp(max), |order|), Least(Clamp(offset), |order|);
    if a < b {
      assert Window(order, offset, max)[0] == order[a];
      assert b < |order| ==> Window(order, max, offset)[0] == order[b];
    } else if b < a {
      assert Window(order, max, offset)[0] == order[b];
      assert a < |order| ==> Window(order, offset, max)[0] == order[a];
    }
  }

  function Least(a: nat, b: nat): nat { if a < b then a else b }

  // ----- Histories -----

  datatype Op<V> =
    | Add(id: string, obj: V)
    | Delete(id: string)
    | DeleteAll
    | Update(id: string, obj: V)
    | Empty

  function Apply<V>(m: Manager<V>, op: Op<V>): Manager<V> {
    match op
    case Add(id, obj) => Added(m, id, obj)
    case Delete(id) => Deleted(m, id)
    case DeleteAll => Cleared(m)
    case Update(id, obj) => Updated(m, id, obj)
    case Empty => Emptied(m)
  }

  /** A new manager after the operations, in order. */
  function Run<V>(max: int, ops: seq<Op<V>>): Manager<V> {
    if ops == [] then Fresh(max) else Apply(Run(max, ops[..|ops| - 1]), ops[|ops| - 1])
  }

  /** How often, since the last `Empty`, an operation counted other than what it stored. */
  datatype Tally = Tally(refused: nat, overwriting: nat, absent: nat, inserting: nat)

  function TallyStep<V>(m: Manager<V>, t: Tally, op: Op<V>): Tally {
    match op
    case Add(id, _) =>
      if Refuses(m) then t.(refused := t.refused + 1)
      else if id in m.objects then t.(overwriting := t.overwriting + 1)
      else t
    case Delete(id) => if id in m.objects then t else t.(absent := t.absent + 1)
    case DeleteAll => t
    case Update(id, _) => if id in m.objects then t else t.(inserting := t.inserting + 1)
    case Empty => Tally(0, 0, 0, 0)
  }

  function TallyOf<V>(max: int, ops: seq<Op<V>>): Tally {
    if ops == [] then Tally(0, 0, 0, 0)
    else TallyStep(Run(max, ops[..|ops| - 1]), TallyOf(max, ops[..|ops| - 1]), ops[|ops| - 1])
  }

  lemma RunSnoc<V>(max: int, ops: seq<Op<V>>, op: Op<V>)
    ensures Run(max, ops + [op]) == Apply(Run(max, ops), op)
    ensures TallyOf(max, ops + [op]) == TallyStep(Run(max, ops), TallyOf(max, ops), op)
  {
    assert (ops + [op])[..|ops|] == ops;
  }

  lemma StoredSize<V>(objects: map<string, V>, id: string, obj: V)
    ensures |objects[id := obj]| == if id in objects then |objects| else |objects| + 1
  {
    assert objects[id := obj].Keys == objects.Keys + {id};
  }

  lemma DeletedSize<V>(objects: map<string, V>, id: string)
    ensures |objects - {id}| == if id in objects then |objects| - 1 else |objects|
  {
    assert (objects - {id}).Keys == objects.Keys - {id};
  }

  /** The exact account of `count`, in every run. */
  lemma {:induction false} Accounting<V>(max: int, ops: seq<Op<V>>)
    ensures var t := TallyOf(max, ops); var m := Run(max, ops);
            m.count == |m.objects| + t.refused + t.overwriting - t.absent - t.inserting
  {
    if ops != [] {
      var before := ops[..|ops| - 1];
      Accounting(max, before);
      match ops[|ops| - 1]
      case Add(id, obj) => StoredSize(Run(max, before).objects, id, obj);
      case Delete(id) => DeletedSize(Run(max, before).objects, id);
      case DeleteAll =>
      case Update(id, obj) => StoredSize(Run(max, before).objects, id, obj);
      case Empty =>
    }
  }

  /** On runs of fresh, unrefused adds, present deletes and present updates, `count` is the number of
      objects and a positive limit holds. */
  lemma {:induction false} RegularRun<V>(max: int, ops: seq<Op<V>>)
    requires TallyOf(max, ops) == Tally(0, 0, 0, 0)
    ensures var m := Run(max, ops);
            m.count == |m.objects| && (max > 0 ==> m.count <= max)
  {
    Accounting(max, ops);
    if ops != [] && !ops[|ops| - 1].Empty? {
      var before := ops[..|ops| - 1];
      RegularRun(max, before);
      Accounting(max, before);
      RunMax(max, before);
    }
  }

  lemma {:induction false} RunMax<V>(max: int, ops: seq<Op<V>>)
    ensures Run(max, ops).max == max
  {
    if ops != [] {
      RunMax(max, ops[..|ops| - 1]);
    }
  }

  /** A full collection is given a new id: an update always stores it, and an add does unless the
      irregular operations of the past cancel out. */
  predicate Overfills<V>(m: Manager<V>, t: Tally, op: Op<V>) {
    && m.max > 0 && |m.objects| == m.max
    && (op.Add? || op.Update?) && op.id !in m.objects
    && (op.Add? ==> t.refused + t.overwriting != t.absent + t.inserting)
  }

  /** From within the limit, one operation leads beyond it exactly when it overfills. */
  lemma OverfillsExactly<V>(max: int, ops: seq<Op<V>>, op: Op<V>)
    requires max > 0 && |Run(max, ops).objects| <= max
    ensures |Apply(Run(max, ops), op).objects| <= max <==> !Overfills(Run(max, ops), TallyOf(max, ops), op)
  {
    var m := Run(max, ops);
    Accounting(max, ops);
    RunMax(max, ops);
    match op
    case Add(id, obj) => StoredSize(m.objects, id, obj);
    case Delete(id) => DeletedSize(m.objects, id);
    case DeleteAll =>
    case Update(id, obj) => StoredSize(m.objects, id, obj);
    case Empty =>
  }

  /** A positive limit holds throughout a run exactly when no operation of the run overfills. */
  lemma LimitHeldExactly<V>(max: int, ops: seq<Op<V>>)
    requires max > 0
    ensures (forall k | 0 <= k <= |ops| :: |Run(max, ops[..k]).objects| <= max)
       <==> forall k | 0 <= k < |ops| :: !Overfills(Run(max, ops[..k]), TallyOf(max, ops[..k]), ops[k])
  {
    if forall k | 0 <= k < |ops| :: !Overfills(Run(max, ops[..k]), TallyOf(max, ops[..k]), ops[k]) {
      forall k | 0 <= k <= |ops|
        ensures |Run(max, ops[..k]).objects| <= max
      {
        NeverOverfilled(max, ops, k);
      }
    } else {
      var k :| 0 <= k < |ops| && Overfills(Run(max, ops[..k]), TallyOf(max, ops[..k]), ops[k]);
      RunMax(max, ops[..k]);
      OverfillsExactly(max, ops[..k], ops[k]);
      RunNext(max, ops, k);
      assert |Run(max, ops[..k + 1]).objects| > max;
    }
  }

  lemma {:induction false} NeverOverfilled<V>(max: int, ops: seq<Op<V>>, k: nat)
    requires max > 0 && k <= |ops|
    requires forall j | 0 <= j < |ops| :: !Overfills(Run(max, ops[..j]), TallyOf(max, ops[..j]), ops[j])
    ensures |Run(max, ops[..k]).objects| <= max
  {
    if k > 0 {
      NeverOverfilled(max, ops, k - 1);
      OverfillsExactly(max, ops[..k - 1], ops[k - 1]);
      RunNext(max, ops, k - 1);
    }
  }

  lemma RunNext<V>(max: int, ops: seq<Op<V>>, k: nat)
    requires k < |ops|
    ensures Run(max, ops[..k + 1]) == Apply(Run(max, ops[..k]), ops[k])
  {
    assert ops[..k + 1][..k] == ops[..k];
  }

  /** One refused add is enough to lift the limit. */
  lemma LimitOverrun<V>(obj: V)
    ensures |Run(1, [Add("a", obj), Add("b", obj), Add("c", obj)]).objects| == 2
  {
    RunSnoc(1, [], Add("a", obj));
    RunSnoc(1, [Add("a", obj)], Add("b", obj));
    RunSnoc(1, [Add("a", obj), Add("b", obj)], Add("c", obj));
    assert [] + [Add("a", obj)] == [Add("a", obj)];
    assert [Add("a", obj)] + [Add("b", obj)] == [Add("a", obj), Add("b", obj)];
    assert [Add("a", obj), Add("b", obj)] + [Add("c", obj)] == [Add("a", obj), Add("b", obj), Add("c", obj)];
    assert Run(1, [Add("a", obj), Add("b", obj), Add("c", obj)]).objects == map["a" := obj, "c" := obj];
    StoredSize(map["a" := obj], "c", obj);
  }

  function Adds<V>(ops: seq<Op<V>>): nat {
    if ops == [] then 0
    else Adds(ops[..|ops| - 1]) + if ops[|ops| - 1].Add? then 1 else 0
  }

  /** `count_total` is the number of adds ever made, and neither `count` nor `count_peak` exceeds it. */
  lemma {:induction false} TotalIsAdds<V>(max: int, ops: seq<Op<V>>)
    ensures var m := Run(max, ops); m.total == Adds(ops) && m.count <= m.peak <= m.total && 0 <= m.peak
  {
    if ops != [] {
      TotalIsAdds(max, ops[..|ops| - 1]);
    }
  }

  lemma PeakGrows<V>(max: int, ops: seq<Op<V>>, k: nat)
    requires k <= |ops|
    ensures Run(max, ops[..k]).peak <= Run(max, ops).peak
    decreases |ops| - k
  {
    if k == |ops| {
      assert ops[..k] == ops;
    } else {
      PeakStep(Run(max, ops[..k]), ops[k]);
      RunNext(max, ops, k);
      PeakGrows(max, ops, k + 1);
    }
  }

  lemma {:induction false} PeakReached<V>(max: int, ops: seq<Op<V>>) returns (k: nat)
    ensures k <= |ops| && Run(max, ops[..k]).count == Run(max, ops).peak
  {
    if ops == [] {
      k := 0;
    } else {
      var n := |ops| - 1;
      PeakStep(Run(max, ops[..n]), ops[n]);
      if Run(max, ops).peak == Run(max, ops[..n]).peak {
        k := PeakReached(max, ops[..n]);
        assert ops[..n][..k] == ops[..k];
      } else {
        k := |ops|;
        assert ops[..k] == ops;
      }
    }
  }

  /** `count_peak` is the largest value `count` has had since the manager was made. */
  lemma PeakIsMaximum<V>(max: int, ops: seq<Op<V>>)
    ensures forall k | 0 <= k <= |ops| :: Run(max, ops[..k]).count <= Run(max, ops).peak
    ensures exists k | 0 <= k <= |ops| :: Run(max, ops[..k]).count == Run(max, ops).peak
  {
    forall k | 0 <= k <= |ops|
      ensures Run(max, ops[..k]).count <= Run(max, ops).peak
    {
      TotalIsAdds(max, ops[..k]);
      PeakGrows(max, ops, k);
    }
    var _ := PeakReached(max, ops);
  }

  lemma PeakStep<V>(m: Manager<V>, op: Op<V>)
    ensures var n := Apply(m, op);
            n.peak >= m.peak && (n.peak == m.peak || n.peak == n.count)
  {
  }
}
