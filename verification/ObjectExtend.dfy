/** `Object.extend` on objects in memory (util/util.js:90-109). */
module ObjectExtend {
  import opened DeepMerge
  import opened ObjectShapes

  /** The tree while keys of the source are still to be merged. */
  function HalfFilled(t: Shape, s: Shape, todo: set<string>): Shape
    requires t.ObjShape? && s.ObjShape?
  {
    ObjShape(t.at, map k | k in t.fields.Keys + (s.fields.Keys - todo) ::
                     if k in todo then t.fields[k] else FilledAt(t, s, k))
  }

  lemma HalfChild(t: Shape, s: Shape, todo: set<string>, k: string)
    requires t.ObjShape? && s.ObjShape? && k in HalfFilled(t, s, todo).fields
    requires IsTree(t) && IsTree(s) && Objects(t) !! Objects(s)
    ensures var below := Objects(HalfFilled(t, s, todo).fields[k]);
            t.at !in below && below <= ObjectsAt(t, k) + ObjectsAt(s, k)
  {
    FilledTreeAt(t, s, k);
    assert t.at !in ObjectsAt(t, k);
  }

  lemma Apart(t: Shape, s: Shape, j: string, k: string)
    requires t.ObjShape? && s.ObjShape? && j != k
    requires IsTree(t) && IsTree(s) && Objects(t) !! Objects(s)
    ensures ObjectsAt(t, j) + ObjectsAt(s, j) !! ObjectsAt(t, k)
  {
  }

  lemma HalfStep(t: Shape, s: Shape, todo: set<string>, key: string)
    requires t.ObjShape? && s.ObjShape? && key in todo && todo <= s.fields.Keys
    ensures var before := HalfFilled(t, s, todo);
            HalfFilled(t, s, todo - {key}) == ObjShape(t.at, before.fields[key := FilledAt(t, s, key)])
  {
    assert HalfFilled(t, s, todo - {key}).fields == HalfFilled(t, s, todo).fields[key := FilledAt(t, s, key)];
  }

  lemma HalfEnds(t: Shape, s: Shape)
    requires t.ObjShape? && s.ObjShape?
    ensures HalfFilled(t, s, s.fields.Keys) == t && HalfFilled(t, s, {}) == Filled(t, s)
  {
    assert HalfFilled(t, s, s.fields.Keys).fields == t.fields;
    assert HalfFilled(t, s, {}).fields == Filled(t, s).fields;
  }

  /** An object whose slots lead to trees in memory is itself in memory. */
  lemma Rebuilt(p: Shape, key: string, q: Shape)
    requires p.ObjShape? && p.at.fields.Keys == p.fields.Keys + {key}
    requires forall k | k in p.fields && k != key :: p.at.fields[k] == SlotOf(p.fields[k]) && InMemory(p.fields[k])
    requires p.at.fields[key] == SlotOf(q) && InMemory(q)
    ensures InMemory(ObjShape(p.at, p.fields[key := q]))
  {
  }

  method ExtendOne(target: Slot, source: Slot, ghost t: Shape, ghost s: Shape)
    requires target == SlotOf(t) && source == SlotOf(s) && !t.LeafShape? && !s.LeafShape?
    requires InMemory(t) && InMemory(s) && IsTree(t) && IsTree(s) && Objects(t) !! Objects(s)
    modifies Written(t, s)
    ensures InMemory(Filled(t, s))
    decreases s, 2
  {
    if source.Ref? {
      var keys := source.object_.fields.Keys;
      if t.ObjShape? {
        HalfEnds(t, s);
      }
      while keys != {}
        invariant keys <= s.fields.Keys
        invariant InMemory(s)
        invariant if t.ObjShape? then InMemory(HalfFilled(t, s, keys)) else InMemory(t)
      {
        var key :| key in keys;
        if target.Ref? {
          ExtendKey(target.object_, source.object_, key, keys, t, s);
        }
        keys := keys - {key};
      }
    }
  }

  /** One turn of the loop. An object of the target is filled in; anything else is replaced. */
  method ExtendKey(target: JsObject, source: JsObject, key: string,
                   ghost todo: set<string>, ghost t: Shape, ghost s: Shape)
    requires t.ObjShape? && s.ObjShape? && target == t.at && source == s.at && key in todo && todo <= s.fields.Keys
    requires InMemory(s) && IsTree(t) && IsTree(s) && Objects(t) !! Objects(s)
    requires InMemory(HalfFilled(t, s, todo))
    modifies Written(t, s)
    ensures InMemory(s) && InMemory(HalfFilled(t, s, todo - {key}))
    decreases s, 1
  {
    ghost var half := HalfFilled(t, s, todo);
    HalfStep(t, s, todo, key);
    forall k | k in half.fields && k != key
      ensures t.at !in Objects(half.fields[k]) && Objects(half.fields[k]) !! ObjectsAt(t, key)
    {
      HalfChild(t, s, todo, k);
      Apart(t, s, k, key);
    }
    assert key in t.fields ==> key in half.fields && half.fields[key] == t.fields[key];
    assert ObjectsAt(t, key) !! Objects(s) && t.at !in ObjectsAt(t, key) + ObjectsAt(s, key);
    if key in target.fields && !target.fields[key].LeafSlot? && !source.fields[key].LeafSlot? {
      FillSlot(target, key, source.fields[key], half, s.fields[key]);
    } else {
      ReplaceSlot(target, key, source.fields[key], half, s.fields[key]);
    }
    assert old(allocated(Objects(s)));
    assert unchanged(Objects(s));
  }

  method FillSlot(target: JsObject, key: string, slot: Slot, ghost p: Shape, ghost s: Shape)
    requires p.ObjShape? && target == p.at && key in p.fields && InMemory(p) && InMemory(s)
    requires slot == SlotOf(s) && !s.LeafShape? && !p.fields[key].LeafShape?
    requires IsTree(p.fields[key]) && IsTree(s) && Objects(p.fields[key]) !! Objects(s) + {p.at}
    requires forall k | k in p.fields && k != key :: Objects(p.fields[k]) !! Objects(p.fields[key])
    modifies Written(p.fields[key], s)
    ensures InMemory(ObjShape(p.at, p.fields[key := Filled(p.fields[key], s)]))
    decreases s, 3
  {
    ExtendOne(target.fields[key], slot, p.fields[key], s);
    forall k | k in p.fields && k != key
      ensures InMemory(p.fields[k])
    {
      assert old(allocated(Objects(p.fields[k])));
      assert unchanged(Objects(p.fields[k]));
    }
    Rebuilt(p, key, Filled(p.fields[key], s));
  }

  method ReplaceSlot(target: JsObject, key: string, slot: Slot, ghost p: Shape, ghost q: Shape)
    requires p.ObjShape? && target == p.at && InMemory(p) && InMemory(q) && slot == SlotOf(q)
    requires p.at !in Objects(q) && forall k | k in p.fields && k != key :: p.at !in Objects(p.fields[k])
    modifies target
    ensures InMemory(ObjShape(p.at, p.fields[key := q]))
  {
    target.fields := target.fields[key := slot];
    forall k | k in p.fields && k != key
      ensures InMemory(p.fields[k])
    {
    }
    Rebuilt(p, key, q);
  }

  /** The target and the sources are trees that share no object. */
  ghost predicate Separate(t: Shape, ss: seq<Shape>) {
    && IsTree(t)
    && (forall s | s in ss :: IsTree(s) && Objects(t) !! Objects(s))
    && (forall i, j | 0 <= i < j < |ss| :: Objects(ss[i]) !! Objects(ss[j]))
  }

  ghost predicate AllInMemory(ss: seq<Shape>)
    reads AllObjects(ss)
  {
    forall s | s in ss :: InMemory(s)
  }

  ghost function AllObjects(ss: seq<Shape>): set<JsObject> {
    set s, o | s in ss && o in Objects(s) :: o
  }

  /** The tree after all sources were merged, one after the other. */
  function FilledAll(t: Shape, ss: seq<Shape>): Shape {
    if ss == [] then t else Filled(FilledAll(t, ss[..|ss| - 1]), ss[|ss| - 1])
  }

  /** What source `j` looks like after the first `n` sources were merged. */
  function Left(t: Shape, ss: seq<Shape>, j: nat, n: nat): Shape
    requires j < n <= |ss|
    decreases n
  {
    if n == j + 1 then ss[j] else After(Left(t, ss, j, n - 1), FilledAll(t, ss[..n - 1]), ss[n - 1])
  }

  /** `Object.extend(target, ...sources)`: fills the target in place, source after source. Memory then holds
      the filled target, and every source with what it shares with the target filled as well. */
  method Extend(target: Slot, sources: seq<Slot>, ghost t: Shape, ghost ss: seq<Shape>) returns (merged: Slot)
    requires target == SlotOf(t) && !t.LeafShape?
    requires |sources| == |ss| && forall i | 0 <= i < |ss| :: sources[i] == SlotOf(ss[i]) && !ss[i].LeafShape?
    requires Separate(t, ss) && InMemory(t) && AllInMemory(ss)
    modifies Objects(t) + AllObjects(ss)
    ensures merged == target == SlotOf(FilledAll(t, ss)) && InMemory(FilledAll(t, ss))
    ensures ValueOf(FilledAll(t, ss)) == MergeAll(ValueOf(t), ValuesOf(ss))
    ensures forall j | 0 <= j < |ss| :: InMemory(Left(t, ss, j, |ss|))
  {
    assert ss[..0] == [] && ss[0..] == ss;
    for i := 0 to |sources|
      invariant InMemory(FilledAll(t, ss[..i])) && AllInMemory(ss[i..])
      invariant forall j | 0 <= j < i :: InMemory(Left(t, ss, j, i))
    {
      ExtendNext(target, sources[i], t, ss, i);
    }
    assert ss[..|ss|] == ss;
    FilledAllValue(t, ss);
    FilledAllSlot(t, ss);
    merged := target;
  }

  /** One turn of the outer loop. The sources still to come stay as they are. */
  method ExtendNext(target: Slot, source: Slot, ghost t: Shape, ghost ss: seq<Shape>, ghost i: nat)
    requires i < |ss| && target == SlotOf(t) && source == SlotOf(ss[i]) && !t.LeafShape? && !ss[i].LeafShape?
    requires Separate(t, ss) && InMemory(FilledAll(t, ss[..i])) && AllInMemory(ss[i..])
    requires forall j | 0 <= j < i :: InMemory(Left(t, ss, j, i))
    modifies Objects(t) + AllObjects(ss)
    ensures InMemory(FilledAll(t, ss[..i + 1])) && AllInMemory(ss[i + 1..])
    ensures var n := i + 1; forall j | 0 <= j < n :: InMemory(Left(t, ss, j, n))
  {
    ghost var done, later := FilledAll(t, ss[..i]), ss[i..];
    ghost var w := Written(done, ss[i]);
    FilledAllTree(t, ss, i);
    FilledAllSlot(t, ss[..i]);
    assert ss[i] in later && ss[i] in ss;
    StillToCome(t, ss, i);
    forall j | 0 <= j < i
      ensures InMemoryBut(Left(t, ss, j, i), w)
    {
      InMemoryThenBut(Left(t, ss, j, i), w);
    }
    ExtendOne(target, source, done, ss[i]);
    assert old(allocated(AllObjects(later)));
    assert unchanged(AllObjects(later));
    assert ss[..i + 1][..i] == ss[..i] && forall s | s in ss[i + 1..] :: s in later;
    forall j | 0 <= j < i
      ensures InMemoryBut(Left(t, ss, j, i), w)
    {
      assert old(allocated(Objects(Left(t, ss, j, i))));
      assert unchanged(Objects(Left(t, ss, j, i)) - w);
    }
    LeftInMemory(t, ss, i);
  }

  /** Once source `i` is merged, memory holds what has become of the sources before it. */
  lemma LeftInMemory(t: Shape, ss: seq<Shape>, i: nat)
    requires i < |ss| && Separate(t, ss)
    requires InMemory(Filled(FilledAll(t, ss[..i]), ss[i])) && InMemory(ss[i])
    requires forall j | 0 <= j < i :: InMemoryBut(Left(t, ss, j, i), Written(FilledAll(t, ss[..i]), ss[i]))
    ensures var n := i + 1; forall j | 0 <= j < n :: InMemory(Left(t, ss, j, n))
  {
    var n := i + 1;
    forall j | 0 <= j < n
      ensures InMemory(Left(t, ss, j, n))
    {
      if j < i {
        LeftClear(t, ss, j, i);
        AfterInMemory(Left(t, ss, j, i), FilledAll(t, ss[..i]), ss[i]);
      }
    }
  }

  lemma FilledAllSlot(t: Shape, ss: seq<Shape>)
    ensures SlotOf(FilledAll(t, ss)) == SlotOf(t)
  {
  }

  function ValuesOf(ss: seq<Shape>): (vs: seq<Value>)
    ensures |vs| == |ss| && forall i | 0 <= i < |ss| :: vs[i] == ValueOf(ss[i])
  {
    seq(|ss|, i requires 0 <= i < |ss| => ValueOf(ss[i]))
  }

  lemma {:induction false} FilledAllValue(t: Shape, ss: seq<Shape>)
    ensures ValueOf(FilledAll(t, ss)) == MergeAll(ValueOf(t), ValuesOf(ss))
  {
    if ss != [] {
      var before, s := ss[..|ss| - 1], ss[|ss| - 1];
      FilledAllValue(t, before);
      FilledValue(FilledAll(t, before), s);
      assert ValuesOf(ss)[..|ss| - 1] == ValuesOf(before);
    }
  }

  lemma OneMore(t: Shape, ss: seq<Shape>, n: nat)
    requires n < |ss| && Separate(t, ss)
    ensures AllObjects(ss[..n + 1]) == AllObjects(ss[..n]) + Objects(ss[n])
    ensures Objects(ss[n]) !! AllObjects(ss[..n]) && Objects(ss[n]) !! Objects(t) && IsTree(ss[n])
    ensures FilledAll(t, ss[..n + 1]) == Filled(FilledAll(t, ss[..n]), ss[n])
  {
    assert ss[..n + 1] == ss[..n] + [ss[n]] && ss[n] in ss;
    assert ss[..n + 1][..n] == ss[..n];
  }

  /** What was merged so far is a tree of the objects of the target and the sources so far. */
  lemma {:induction false} FilledAllTree(t: Shape, ss: seq<Shape>, n: nat)
    requires n <= |ss| && Separate(t, ss)
    ensures IsTree(FilledAll(t, ss[..n])) && Objects(FilledAll(t, ss[..n])) <= Objects(t) + AllObjects(ss[..n])
  {
    if n > 0 {
      FilledAllTree(t, ss, n - 1);
      OneMore(t, ss, n - 1);
      FilledTree(FilledAll(t, ss[..n - 1]), ss[n - 1]);
    }
  }

  lemma StillToCome(t: Shape, ss: seq<Shape>, n: nat)
    requires n < |ss| && Separate(t, ss)
    ensures Objects(FilledAll(t, ss[..n])) !! AllObjects(ss[n..])
  {
    FilledAllTree(t, ss, n);
    assert forall s | s in ss[n..] :: s in ss;
    assert AllObjects(ss[..n]) !! AllObjects(ss[n..]);
  }

  /** A source that was merged shares objects with the target only in their places, whatever came after it. */
  lemma {:induction false} LeftClear(t: Shape, ss: seq<Shape>, j: nat, n: nat)
    requires j < n < |ss| && Separate(t, ss)
    ensures Clear(Left(t, ss, j, n), FilledAll(t, ss[..n]), ss[n])
    ensures Objects(Left(t, ss, j, n)) <= AllObjects(ss[..n])
    decreases n
  {
    var before := FilledAll(t, ss[..n - 1]);
    FilledAllTree(t, ss, n - 1);
    OneMore(t, ss, n - 1);
    OneMore(t, ss, n);
    if n == j + 1 {
      ClearSource(before, ss[j], ss[n]);
    } else {
      LeftClear(t, ss, j, n - 1);
      ClearAfter(Left(t, ss, j, n - 1), before, ss[n - 1], ss[n]);
    }
  }

  /** With two sources, the first keeps its value exactly when it survives; the second always does. */
  lemma SourceKeptExactly(t: Shape, f: Shape, s: Shape)
    requires Separate(t, [f, s])
    ensures Left(t, [f, s], 0, 2) == Touched(t, f, s) && Left(t, [f, s], 1, 2) == s
    ensures ValueOf(Left(t, [f, s], 0, 2)) == ValueOf(f) <==> Survives(ValueOf(t), ValueOf(f), ValueOf(s))
  {
    var both := [f, s];
    assert both[..1] == [f] && [f][..0] == [] && both[0] == f && both[1] == s;
    assert f in both;
    assert FilledAll(t, [f]) == Filled(FilledAll(t, []), f);
    assert Left(t, both, 0, 2) == After(Left(t, both, 0, 1), FilledAll(t, both[..1]), both[1]);
    TouchedIsAfter(t, f, s);
    TouchedKeptExactly(t, f, s);
  }
}
