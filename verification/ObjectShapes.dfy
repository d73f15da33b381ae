/** Trees of objects as they lie in memory, and what a merge makes of them (util/util.js:90-109). */
module ObjectShapes {
  import opened DeepMerge

  /** What a field of an object holds. */
  datatype Slot = NullSlot | LeafSlot(tag: int) | Ref(object_: JsObject)

  class JsObject {
    var fields: map<string, Slot>

    constructor ()
      ensures fields == map[]
    {
      fields := map[];
    }
  }

  /** A tree of objects as it lies in memory at one moment. */
  datatype Shape = NullShape | LeafShape(tag: int) | ObjShape(at: JsObject, fields: map<string, Shape>)

  function SlotOf(s: Shape): Slot {
    match s
    case NullShape => NullSlot
    case LeafShape(tag) => LeafSlot(tag)
    case ObjShape(at, _) => Ref(at)
  }

  /** The value that the tree stands for. */
  function ValueOf(s: Shape): Value {
    match s
    case NullShape => Null
    case LeafShape(tag) => Leaf(tag)
    case ObjShape(_, fields) => Obj(map k | k in fields :: ValueOf(fields[k]))
  }

  ghost function Objects(s: Shape): set<JsObject> {
    match s
    case NullShape => {}
    case LeafShape(_) => {}
    case ObjShape(at, fields) => {at} + set k, o | k in fields && o in Objects(fields[k]) :: o
  }

  /** No object occurs twice. */
  ghost predicate IsTree(s: Shape) {
    s.ObjShape? ==>
      && (forall k | k in s.fields :: IsTree(s.fields[k]) && s.at !in Objects(s.fields[k]))
      && (forall j, k | j in s.fields && k in s.fields && j != k :: Objects(s.fields[j]) !! Objects(s.fields[k]))
  }

  /** Memory holds the tree. */
  ghost predicate InMemory(s: Shape)
    reads Objects(s)
    decreases s
  {
    s.ObjShape? ==>
      && s.at.fields.Keys == s.fields.Keys
      && (forall k | k in s.fields :: s.at.fields[k] == SlotOf(s.fields[k]) && InMemory(s.fields[k]))
  }

  /** The tree after a merge: objects of the target are kept and filled in, and what the target lacks is
      not copied but shared with the source. */
  function Filled(t: Shape, s: Shape): Shape
    decreases s
  {
    if !t.ObjShape? || !s.ObjShape? then t
    else
      ObjShape(t.at, map k | k in t.fields.Keys + s.fields.Keys :: FilledAt(t, s, k))
  }

  function FilledAt(t: Shape, s: Shape, k: string): Shape
    requires t.ObjShape? && s.ObjShape? && (k in t.fields || k in s.fields)
    decreases s, 0
  {
    if k !in s.fields then t.fields[k]
    else if k in t.fields && !t.fields[k].LeafShape? && !s.fields[k].LeafShape? then Filled(t.fields[k], s.fields[k])
    else s.fields[k]
  }

  lemma {:induction false} FilledValue(t: Shape, s: Shape)
    ensures ValueOf(Filled(t, s)) == Merge(ValueOf(t), ValueOf(s))
    decreases s
  {
    if t.ObjShape? && s.ObjShape? {
      forall k | k in t.fields && k in s.fields
        ensures ValueOf(Filled(t.fields[k], s.fields[k])) == Merge(ValueOf(t.fields[k]), ValueOf(s.fields[k]))
      {
        FilledValue(t.fields[k], s.fields[k]);
      }
      assert ValueOf(Filled(t, s)).fields == Merge(ValueOf(t), ValueOf(s)).fields;
    }
  }

  /** The objects of the target that a merge writes to. */
  ghost function Written(t: Shape, s: Shape): (w: set<JsObject>)
    ensures w <= Objects(t)
    decreases s
  {
    if !t.ObjShape? || !s.ObjShape? then {}
    else {t.at} + set k, o | k in t.fields && k in s.fields && o in Written(t.fields[k], s.fields[k]) :: o
  }

  /** The objects below one key. */
  ghost function ObjectsAt(s: Shape, k: string): (r: set<JsObject>)
    ensures r <= Objects(s)
  {
    if s.ObjShape? && k in s.fields then Objects(s.fields[k]) else {}
  }

  /** A merge of trees that share nothing makes a tree of their objects. */
  lemma {:induction false} FilledTree(t: Shape, s: Shape)
    requires IsTree(t) && IsTree(s) && Objects(t) !! Objects(s)
    ensures IsTree(Filled(t, s)) && Objects(Filled(t, s)) <= Objects(t) + Objects(s)
    decreases s
  {
    if t.ObjShape? && s.ObjShape? {
      forall k | k in t.fields.Keys + s.fields.Keys
        ensures IsTree(FilledAt(t, s, k)) && t.at !in Objects(FilledAt(t, s, k))
        ensures Objects(FilledAt(t, s, k)) <= ObjectsAt(t, k) + ObjectsAt(s, k)
      {
        FilledTreeAt(t, s, k);
      }
    }
  }

  lemma FilledTreeAt(t: Shape, s: Shape, k: string)
    requires t.ObjShape? && s.ObjShape? && (k in t.fields || k in s.fields)
    requires IsTree(t) && IsTree(s) && Objects(t) !! Objects(s)
    ensures IsTree(FilledAt(t, s, k)) && t.at !in Objects(FilledAt(t, s, k))
    ensures Objects(FilledAt(t, s, k)) <= ObjectsAt(t, k) + ObjectsAt(s, k)
    decreases s, 0
  {
    var inT, inS := ObjectsAt(t, k), ObjectsAt(s, k);
    assert inT !! inS && t.at !in inT && t.at !in inS;
    if k in t.fields && k in s.fields {
      FilledTree(t.fields[k], s.fields[k]);
    }
  }

  lemma FilledField(t: Shape, s: Shape, k: string)
    requires t.ObjShape? && s.ObjShape? && (k in t.fields || k in s.fields)
    ensures Filled(t, s).ObjShape? && k in Filled(t, s).fields && Filled(t, s).fields[k] == FilledAt(t, s, k)
  {
  }

  // ----- What becomes of a source -----

  /** What the tree `f` looks like after `s` was merged into `t`: where `f` and `t` meet in the same object,
      `f` is filled as well. */
  function After(f: Shape, t: Shape, s: Shape): Shape
    decreases f
  {
    if !f.ObjShape? || !t.ObjShape? || !s.ObjShape? then f
    else if f.at == t.at then Filled(f, s)
    else
      ObjShape(f.at, map k | k in f.fields :: AfterAt(f, t, s, k))
  }

  function AfterAt(f: Shape, t: Shape, s: Shape, k: string): Shape
    requires f.ObjShape? && t.ObjShape? && s.ObjShape? && k in f.fields
    decreases f, 0
  {
    if k in t.fields && k in s.fields then After(f.fields[k], t.fields[k], s.fields[k]) else f.fields[k]
  }

  /** The objects that two trees share lie in the same place in both. */
  ghost predicate Shares(f: Shape, t: Shape)
    decreases f
  {
    f.ObjShape? && t.ObjShape? && f != t ==>
      && f.at !in Objects(t)
      && forall k | k in f.fields ::
           && Objects(f.fields[k]) * Objects(t) <= ObjectsAt(t, k)
           && (k in t.fields ==> Shares(f.fields[k], t.fields[k]))
  }

  lemma {:induction false} SharesNothing(f: Shape, t: Shape)
    requires Objects(f) !! Objects(t)
    ensures Shares(f, t)
    decreases f
  {
    if f.ObjShape? && t.ObjShape? {
      forall k | k in f.fields
        ensures Objects(f.fields[k]) * Objects(t) <= ObjectsAt(t, k)
        ensures k in t.fields ==> Shares(f.fields[k], t.fields[k])
      {
        assert ObjectsAt(f, k) <= Objects(f);
        if k in t.fields {
          assert ObjectsAt(t, k) <= Objects(t);
          SharesNothing(f.fields[k], t.fields[k]);
        }
      }
    }
  }

  lemma OnlyAt(inside: set<JsObject>, t: Shape, k: string)
    requires t.ObjShape? && t.at !in inside
    requires forall j | j in t.fields && j != k :: inside !! Objects(t.fields[j])
    ensures inside * Objects(t) <= ObjectsAt(t, k)
  {
  }

  /** A merge makes the target share objects with the source, each in its place. */
  lemma {:induction false} SharesSource(t: Shape, f: Shape)
    requires IsTree(t) && IsTree(f) && Objects(t) !! Objects(f)
    ensures Shares(f, Filled(t, f))
    decreases f
  {
    if t.ObjShape? && f.ObjShape? {
      FilledTree(t, f);
      assert f.at !in Objects(Filled(t, f)) by {
        forall k | k in Filled(t, f).fields
          ensures f.at !in Objects(Filled(t, f).fields[k])
        {
          FilledField(t, f, k);
          FilledTreeAt(t, f, k);
          assert f.at !in ObjectsAt(f, k);
        }
      }
      forall k | k in f.fields
        ensures Objects(f.fields[k]) * Objects(Filled(t, f)) <= ObjectsAt(Filled(t, f), k)
        ensures k in Filled(t, f).fields ==> Shares(f.fields[k], Filled(t, f).fields[k])
      {
        SharesSourceAt(t, f, k);
      }
    }
  }

  lemma SharesSourceAt(t: Shape, f: Shape, k: string)
    requires t.ObjShape? && f.ObjShape? && k in f.fields
    requires IsTree(t) && IsTree(f) && Objects(t) !! Objects(f)
    ensures Objects(f.fields[k]) * Objects(Filled(t, f)) <= ObjectsAt(Filled(t, f), k)
    ensures k in Filled(t, f).fields ==> Shares(f.fields[k], Filled(t, f).fields[k])
    decreases f, 0
  {
    forall j | j in Filled(t, f).fields && j != k
      ensures ObjectsAt(f, k) !! Objects(Filled(t, f).fields[j])
    {
      FilledField(t, f, j);
      FilledTreeAt(t, f, j);
      assert ObjectsAt(f, k) !! ObjectsAt(t, j) && ObjectsAt(f, k) !! ObjectsAt(f, j);
    }
    OnlyAt(ObjectsAt(f, k), Filled(t, f), k);
    FilledField(t, f, k);
    if k in t.fields && !t.fields[k].LeafShape? && !f.fields[k].LeafShape? {
      assert ObjectsAt(t, k) !! ObjectsAt(f, k);
      SharesSource(t.fields[k], f.fields[k]);
    }
  }

  /** Trees of which the first two share objects only in their places, and the source shares none. */
  ghost predicate Clear(f: Shape, t: Shape, s: Shape) {
    && IsTree(f) && IsTree(t) && IsTree(s) && Shares(f, t)
    && Objects(s) !! Objects(f) && Objects(s) !! Objects(t)
  }

  lemma ClearAt(f: Shape, t: Shape, s: Shape, k: string)
    requires f.ObjShape? && t.ObjShape? && s.ObjShape? && f.at != t.at && Clear(f, t, s)
    requires k in f.fields && k in t.fields && k in s.fields
    ensures Clear(f.fields[k], t.fields[k], s.fields[k])
  {
    assert ObjectsAt(s, k) !! ObjectsAt(f, k) && ObjectsAt(s, k) !! ObjectsAt(t, k);
  }

  lemma {:induction false} AfterTree(f: Shape, t: Shape, s: Shape)
    requires Clear(f, t, s)
    ensures IsTree(After(f, t, s)) && Objects(After(f, t, s)) <= Objects(f) + Objects(s)
    decreases f
  {
    if f.ObjShape? && t.ObjShape? && s.ObjShape? {
      if f.at == t.at {
        FilledTree(f, s);
      } else {
        forall k | k in f.fields
          ensures IsTree(AfterAt(f, t, s, k)) && f.at !in Objects(AfterAt(f, t, s, k))
          ensures Objects(AfterAt(f, t, s, k)) <= ObjectsAt(f, k) + ObjectsAt(s, k)
        {
          AfterTreeAt(f, t, s, k);
        }
      }
    }
  }

  lemma AfterTreeAt(f: Shape, t: Shape, s: Shape, k: string)
    requires f.ObjShape? && t.ObjShape? && s.ObjShape? && f.at != t.at && k in f.fields
    requires Clear(f, t, s)
    ensures IsTree(AfterAt(f, t, s, k)) && f.at !in Objects(AfterAt(f, t, s, k))
    ensures Objects(AfterAt(f, t, s, k)) <= ObjectsAt(f, k) + ObjectsAt(s, k)
    decreases f, 0
  {
    assert f.at !in ObjectsAt(f, k) && f.at !in ObjectsAt(s, k);
    if k in t.fields && k in s.fields {
      ClearAt(f, t, s, k);
      AfterTree(f.fields[k], t.fields[k], s.fields[k]);
    }
  }

  /** Merging one more source keeps what is shared in its place. */
  lemma {:induction false} SharesAfter(f: Shape, t: Shape, s: Shape)
    requires Clear(f, t, s)
    ensures Shares(After(f, t, s), Filled(t, s))
    decreases f
  {
    if f.ObjShape? && t.ObjShape? && s.ObjShape? && f.at != t.at {
      var after, filled := After(f, t, s), Filled(t, s);
      FilledTree(t, s);
      assert f.at !in Objects(filled);
      forall k | k in after.fields
        ensures Objects(after.fields[k]) * Objects(filled) <= ObjectsAt(filled, k)
        ensures k in filled.fields ==> Shares(after.fields[k], filled.fields[k])
      {
        SharesAfterAt(f, t, s, k);
      }
    }
  }

  lemma SharesAfterAt(f: Shape, t: Shape, s: Shape, k: string)
    requires f.ObjShape? && t.ObjShape? && s.ObjShape? && f.at != t.at && k in f.fields
    requires Clear(f, t, s)
    ensures Objects(AfterAt(f, t, s, k)) * Objects(Filled(t, s)) <= ObjectsAt(Filled(t, s), k)
    ensures k in Filled(t, s).fields ==> Shares(AfterAt(f, t, s, k), Filled(t, s).fields[k])
    decreases f, 0
  {
    var inF, inS, filled := ObjectsAt(f, k), ObjectsAt(s, k), Filled(t, s);
    AfterTreeAt(f, t, s, k);
    forall j | j in filled.fields && j != k
      ensures inF + inS !! Objects(filled.fields[j])
    {
      FilledField(t, s, j);
      FilledTreeAt(t, s, j);
      assert inF * Objects(t) <= ObjectsAt(t, k) && ObjectsAt(t, j) <= Objects(t) && ObjectsAt(t, k) !! ObjectsAt(t, j);
      assert inF !! ObjectsAt(s, j) && inS !! ObjectsAt(t, j) && inS !! ObjectsAt(s, j);
    }
    assert t.at !in inF + inS by {
      assert t.at !in ObjectsAt(t, k) && t.at in Objects(t);
    }
    OnlyAt(inF + inS, filled, k);
    if k in filled.fields {
      FilledField(t, s, k);
      if k in s.fields {
        SharesNothing(f.fields[k], s.fields[k]);
        if k in t.fields {
          ClearAt(f, t, s, k);
          SharesAfter(f.fields[k], t.fields[k], s.fields[k]);
        }
      }
    }
  }

  lemma ClearSource(t: Shape, f: Shape, next: Shape)
    requires IsTree(t) && IsTree(f) && IsTree(next) && Objects(t) !! Objects(f)
    requires Objects(next) !! Objects(t) + Objects(f)
    ensures Clear(f, Filled(t, f), next)
  {
    FilledTree(t, f);
    SharesSource(t, f);
  }

  lemma ClearAfter(f: Shape, t: Shape, s: Shape, next: Shape)
    requires Clear(f, t, s) && IsTree(next) && Objects(next) !! Objects(f) + Objects(t) + Objects(s)
    ensures Clear(After(f, t, s), Filled(t, s), next)
    ensures Objects(After(f, t, s)) <= Objects(f) + Objects(s)
  {
    FilledTree(t, s);
    AfterTree(f, t, s);
    SharesAfter(f, t, s);
  }

  // ----- Memory -----

  /** Memory holds the tree, except perhaps for some objects in it. */
  ghost predicate InMemoryBut(f: Shape, w: set<JsObject>)
    reads Objects(f) - w
    decreases f
  {
    f.ObjShape? ==>
      && (f.at !in w ==>
            f.at.fields.Keys == f.fields.Keys && forall k | k in f.fields :: f.at.fields[k] == SlotOf(f.fields[k]))
      && forall k | k in f.fields :: InMemoryBut(f.fields[k], w)
  }

  lemma {:induction false} InMemoryButLess(f: Shape, w: set<JsObject>, v: set<JsObject>)
    requires InMemoryBut(f, w) && Objects(f) * w <= v
    ensures InMemoryBut(f, v)
    ensures v == {} ==> InMemory(f)
    decreases f
  {
    if f.ObjShape? {
      forall k | k in f.fields
        ensures InMemoryBut(f.fields[k], v)
        ensures v == {} ==> InMemory(f.fields[k])
      {
        assert ObjectsAt(f, k) <= Objects(f);
        InMemoryButLess(f.fields[k], w, v);
      }
    }
  }

  lemma {:induction false} InMemoryThenBut(f: Shape, w: set<JsObject>)
    requires InMemory(f)
    ensures InMemoryBut(f, w)
    decreases f
  {
    if f.ObjShape? {
      forall k | k in f.fields
        ensures InMemoryBut(f.fields[k], w)
      {
        InMemoryThenBut(f.fields[k], w);
      }
    }
  }

  /** Once the target is filled, memory holds what has become of `f`, if nothing else was written to. */
  lemma {:induction false} AfterInMemory(f: Shape, t: Shape, s: Shape)
    requires Clear(f, t, s)
    requires InMemory(Filled(t, s)) && InMemoryBut(f, Written(t, s))
    ensures InMemory(After(f, t, s))
    decreases f
  {
    if f.ObjShape? && t.ObjShape? && s.ObjShape? {
      if f.at != t.at {
        forall k | k in f.fields
          ensures InMemory(AfterAt(f, t, s, k)) && SlotOf(AfterAt(f, t, s, k)) == SlotOf(f.fields[k])
        {
          AfterInMemoryAt(f, t, s, k);
        }
        assert f.at !in Written(t, s);
      }
    } else {
      InMemoryButLess(f, Written(t, s), {});
    }
  }

  lemma AfterInMemoryAt(f: Shape, t: Shape, s: Shape, k: string)
    requires f.ObjShape? && t.ObjShape? && s.ObjShape? && f.at != t.at && k in f.fields
    requires Clear(f, t, s)
    requires InMemory(Filled(t, s)) && InMemoryBut(f, Written(t, s))
    ensures InMemory(AfterAt(f, t, s, k))
    decreases f, 0
  {
    WrittenAt(t, s, k);
    var below := if k in t.fields && k in s.fields then Written(t.fields[k], s.fields[k]) else {};
    assert ObjectsAt(f, k) * Objects(t) <= ObjectsAt(t, k);
    InMemoryButLess(f.fields[k], Written(t, s), below);
    if k in t.fields && k in s.fields {
      ClearAt(f, t, s, k);
      FilledField(t, s, k);
      if t.fields[k].ObjShape? && s.fields[k].ObjShape? {
        AfterInMemory(f.fields[k], t.fields[k], s.fields[k]);
      }
    }
  }

  lemma WrittenAt(t: Shape, s: Shape, k: string)
    requires t.ObjShape? && s.ObjShape? && IsTree(t)
    ensures Written(t, s) * ObjectsAt(t, k)
         <= if k in t.fields && k in s.fields then Written(t.fields[k], s.fields[k]) else {}
  {
    forall o | o in Written(t, s) && o in ObjectsAt(t, k)
      ensures k in s.fields && o in Written(t.fields[k], s.fields[k])
    {
      assert o != t.at;
      var j :| j in t.fields && j in s.fields && o in Written(t.fields[j], s.fields[j]);
      assert j == k by {
        assert o in Objects(t.fields[j]) && o in Objects(t.fields[k]);
      }
    }
  }

  // ----- When a source survives -----

  /** What the first of two sources looks like in the end: where it and the second hold objects, it goes on
      inside if the target has its own object there, and is filled if the target has taken it over. */
  function Touched(t: Shape, f: Shape, s: Shape): Shape
    decreases f
  {
    if !t.ObjShape? || !f.ObjShape? || !s.ObjShape? then f
    else ObjShape(f.at, map k | k in f.fields :: TouchedAt(t, f, s, k))
  }

  function TouchedAt(t: Shape, f: Shape, s: Shape, k: string): Shape
    requires t.ObjShape? && f.ObjShape? && s.ObjShape? && k in f.fields
    decreases f, 0
  {
    if k !in s.fields || f.fields[k].LeafShape? || s.fields[k].LeafShape? then f.fields[k]
    else if k in t.fields && !t.fields[k].LeafShape? then Touched(t.fields[k], f.fields[k], s.fields[k])
    else Filled(f.fields[k], s.fields[k])
  }

  /** Wherever the target takes over an object of the first source, that object covers the second source. */
  predicate Survives(t: Value, f: Value, s: Value)
    decreases f
  {
    t.Obj? && f.Obj? && s.Obj? ==> forall k | k in f.fields :: SurvivesAt(t, f, s, k)
  }

  predicate SurvivesAt(t: Value, f: Value, s: Value, k: string)
    requires t.Obj? && f.Obj? && s.Obj? && k in f.fields
    decreases f, 0
  {
    k in s.fields && f.fields[k].TypeofObject() && s.fields[k].TypeofObject() ==>
      if k in t.fields && t.fields[k].TypeofObject() then Survives(t.fields[k], f.fields[k], s.fields[k])
      else Covers(f.fields[k], s.fields[k])
  }

  lemma {:induction false} TouchedKeptExactly(t: Shape, f: Shape, s: Shape)
    ensures ValueOf(Touched(t, f, s)) == ValueOf(f) <==> Survives(ValueOf(t), ValueOf(f), ValueOf(s))
    decreases f
  {
    if t.ObjShape? && f.ObjShape? && s.ObjShape? {
      forall k | k in f.fields
        ensures ValueOf(TouchedAt(t, f, s, k)) == ValueOf(f.fields[k])
           <==> SurvivesAt(ValueOf(t), ValueOf(f), ValueOf(s), k)
      {
        TouchedAtKeptExactly(t, f, s, k);
      }
      var touched := ValueOf(Touched(t, f, s)).fields;
      assert forall k | k in f.fields :: touched[k] == ValueOf(TouchedAt(t, f, s, k));
      assert touched == ValueOf(f).fields <==> forall k | k in f.fields :: touched[k] == ValueOf(f.fields[k]);
    }
  }

  lemma TouchedAtKeptExactly(t: Shape, f: Shape, s: Shape, k: string)
    requires t.ObjShape? && f.ObjShape? && s.ObjShape? && k in f.fields
    ensures ValueOf(TouchedAt(t, f, s, k)) == ValueOf(f.fields[k])
       <==> SurvivesAt(ValueOf(t), ValueOf(f), ValueOf(s), k)
    decreases f, 0
  {
    if k in s.fields && !f.fields[k].LeafShape? && !s.fields[k].LeafShape? {
      if k in t.fields && !t.fields[k].LeafShape? {
        TouchedKeptExactly(t.fields[k], f.fields[k], s.fields[k]);
      } else {
        FilledValue(f.fields[k], s.fields[k]);
        CoversExactly(ValueOf(f.fields[k]), ValueOf(s.fields[k]));
      }
    }
  }

  lemma {:induction false} TouchedIsAfter(t: Shape, f: Shape, s: Shape)
    requires Objects(t) !! Objects(f)
    ensures After(f, Filled(t, f), s) == Touched(t, f, s)
    decreases f
  {
    if t.ObjShape? && f.ObjShape? && s.ObjShape? {
      assert t.at in Objects(t);
      forall k | k in f.fields
        ensures AfterAt(f, Filled(t, f), s, k) == TouchedAt(t, f, s, k)
      {
        FilledField(t, f, k);
        if k in t.fields && k in s.fields {
          assert ObjectsAt(t, k) !! ObjectsAt(f, k);
          TouchedIsAfter(t.fields[k], f.fields[k], s.fields[k]);
        }
      }
      assert After(f, Filled(t, f), s).fields == Touched(t, f, s).fields;
    }
  }

  /** Two ways to lose it: the target has a leaf where the first source has an object, or the target takes
      an object over further inside. */
  lemma SourceLost()
    ensures var less, more := Obj(map[]), Obj(map["b" := Leaf(2)]);
            && !Survives(Obj(map["k" := Leaf(1)]), Obj(map["k" := less]), Obj(map["k" := more]))
            && !Survives(Obj(map["k" := Obj(map[])]), Obj(map["k" := Obj(map["j" := less])]),
                         Obj(map["k" := Obj(map["j" := more])]))
  {
    var less, more := Obj(map[]), Obj(map["b" := Leaf(2)]);
    assert "b" in more.fields && !Covers(less, more);
    assert !SurvivesAt(Obj(map["k" := Leaf(1)]), Obj(map["k" := less]), Obj(map["k" := more]), "k");
    var f, s := Obj(map["j" := less]), Obj(map["j" := more]);
    assert !SurvivesAt(Obj(map[]), f, s, "j");
    assert !SurvivesAt(Obj(map["k" := Obj(map[])]), Obj(map["k" := f]), Obj(map["k" := s]), "k");
  }
}
