/** What `Object.extend` makes of values (util/util.js:90-109): deep merging of finite trees. */
module DeepMerge {
  import opened Options

  /** A value that is null, an object, or anything else (whose `typeof` is not "object"). */
  datatype Value = Null | Leaf(tag: int) | Obj(fields: map<string, Value>) {
    /** `typeof` says "object" for objects and for null. */
    predicate TypeofObject() { !Leaf? }
  }

  function Merge(t: Value, s: Value): Value
    decreases s
  {
    if !t.Obj? || !s.Obj? then t
    else
      Obj(map k | k in t.fields.Keys + s.fields.Keys ::
            if k !in s.fields then t.fields[k]
            else if k in t.fields && t.fields[k].TypeofObject() && s.fields[k].TypeofObject()
            then Merge(t.fields[k], s.fields[k])
            else s.fields[k])
  }

  function MergeAll(t: Value, sources: seq<Value>): Value {
    if sources == [] then t
    else Merge(MergeAll(t, sources[..|sources| - 1]), sources[|sources| - 1])
  }

  // ----- Keys and idempotence -----

  lemma {:induction false} MergeSelf(v: Value)
    ensures Merge(v, v) == v
  {
    if v.Obj? {
      forall k | k in v.fields
        ensures Merge(v, v).fields[k] == v.fields[k]
      {
        MergeSelf(v.fields[k]);
      }
      assert Merge(v, v).fields == v.fields;
    }
  }

  /** Merging the same source twice is merging it once, nulls included, and no key is lost or made up. */
  lemma {:induction false} MergeIdempotent(t: Value, s: Value)
    ensures Merge(Merge(t, s), s) == Merge(t, s)
    ensures t.Obj? && s.Obj? ==> Merge(t, s).Obj? && Merge(t, s).fields.Keys == t.fields.Keys + s.fields.Keys
    decreases s
  {
    if t.Obj? && s.Obj? {
      var m := Merge(t, s);
      forall k | k in m.fields
        ensures Merge(m, s).fields[k] == m.fields[k]
      {
        if k in s.fields {
          MergeSelf(s.fields[k]);
          if k in t.fields {
            MergeIdempotent(t.fields[k], s.fields[k]);
          }
        }
      }
      assert Merge(m, s).fields == m.fields;
    }
  }

  // ----- What a merge means -----

  /** What stands at the end of the path, if the path can be followed; any object counts as the empty one. */
  function At(v: Value, path: seq<string>): Option<Value> {
    if path == [] then Some(if v.Obj? then Obj(map[]) else v)
    else if v.Obj? && path[0] in v.fields then At(v.fields[path[0]], path[1..])
    else None
  }

  /** Along the path, the source has a key that the target lacks, or one of the two has a leaf, before
      either meets a null. */
  predicate Decides(t: Value, s: Value, path: seq<string>)
    decreases |path|
  {
    && path != [] && t.Obj? && s.Obj? && path[0] in s.fields
    && (path[0] !in t.fields || t.fields[path[0]].Leaf? || s.fields[path[0]].Leaf?
        || Decides(t.fields[path[0]], s.fields[path[0]], path[1..]))
  }

  /** Along every path the merge shows the source where that decides and the target everywhere else,
      nulls included. */
  lemma {:induction false} MergeShows(t: Value, s: Value, path: seq<string>)
    ensures At(Merge(t, s), path) == if Decides(t, s, path) then At(s, path) else At(t, path)
    decreases |path|
  {
    if path != [] && t.Obj? && s.Obj? && path[0] in t.fields && path[0] in s.fields {
      MergeShows(t.fields[path[0]], s.fields[path[0]], path[1..]);
    }
  }

  /** Values that show the same along every path are equal, so this determines the merge. */
  lemma {:induction false} PathsDetermine(v: Value, w: Value)
    requires forall path :: At(v, path) == At(w, path)
    ensures v == w
  {
    assert At(v, []) == At(w, []);
    if v.Obj? {
      forall k: string
        ensures (k in v.fields) == (k in w.fields)
        ensures k in v.fields && k in w.fields ==> v.fields[k] == w.fields[k]
      {
        SamePathsBelow(v, w, k);
        if k in v.fields && k in w.fields {
          PathsDetermine(v.fields[k], w.fields[k]);
        }
      }
      assert v.fields.Keys == w.fields.Keys;
      assert v.fields == w.fields;
    }
  }

  lemma SamePathsBelow(v: Value, w: Value, k: string)
    requires v.Obj? && w.Obj? && forall path :: At(v, path) == At(w, path)
    ensures (k in v.fields) == (k in w.fields)
    ensures k in v.fields ==> forall path :: At(v.fields[k], path) == At(w.fields[k], path)
  {
    AtBelow(v, k, []);
    AtBelow(w, k, []);
    if k in v.fields {
      forall path
        ensures At(v.fields[k], path) == At(w.fields[k], path)
      {
        AtBelow(v, k, path);
        AtBelow(w, k, path);
      }
    }
  }

  lemma AtBelow(v: Value, k: string, path: seq<string>)
    requires v.Obj?
    ensures At(v, [k] + path) == if k in v.fields then At(v.fields[k], path) else None
  {
    assert ([k] + path)[1..] == path;
  }

  /** Along every path `m` shows the source where that decides and the target everywhere else. */
  ghost predicate Overlays(m: Value, t: Value, s: Value) {
    forall path :: At(m, path) == if Decides(t, s, path) then At(s, path) else At(t, path)
  }

  /** The merge overlays the target with the source, and no other value does. */
  lemma MergeExactly(t: Value, s: Value, m: Value)
    ensures m == Merge(t, s) <==> Overlays(m, t, s)
  {
    forall path
      ensures At(Merge(t, s), path) == if Decides(t, s, path) then At(s, path) else At(t, path)
    {
      MergeShows(t, s, path);
    }
    assert Overlays(Merge(t, s), t, s);
    if Overlays(m, t, s) {
      PathsDetermine(m, Merge(t, s));
    }
  }

  predicate NullFree(v: Value) {
    match v
    case Null => false
    case Leaf(_) => true
    case Obj(fields) => forall k | k in fields :: NullFree(fields[k])
  }

  /** The leaf at the end of the path, if there is one. */
  function LeafAt(v: Value, path: seq<string>): (leaf: Option<int>)
    ensures path != [] ==>
              leaf == if v.Obj? && path[0] in v.fields then LeafAt(v.fields[path[0]], path[1..]) else None
  {
    var end := At(v, path);
    if end.Some? && end.value.Leaf? then Some(end.value.tag) else None
  }

  /** Following the path meets an object that lacks the next key. */
  predicate LeavesOff(v: Value, path: seq<string>) {
    path != [] && v.Obj? && (path[0] !in v.fields || LeavesOff(v.fields[path[0]], path[1..]))
  }

  /** Without nulls the source decides wherever it gives a leaf, and leaves off only where the target decides
      or has no leaf either. */
  lemma {:induction false} NullFreeDecides(t: Value, s: Value, path: seq<string>)
    requires t.Obj? && s.Obj? && NullFree(t) && NullFree(s)
    ensures (if Decides(t, s, path) then LeafAt(s, path) else LeafAt(t, path))
         == if LeavesOff(s, path) then LeafAt(t, path) else LeafAt(s, path)
    decreases |path|
  {
    if path != [] {
      var k, rest := path[0], path[1..];
      if k in s.fields && k in t.fields && s.fields[k].Obj? && t.fields[k].Obj? {
        NullFreeDecides(t.fields[k], s.fields[k], rest);
      } else if LeavesOff(s, path) {
        OffNoLeaf(s, path);
      }
    }
  }

  /** Without nulls the source overlays the target: along every path the source gives the leaf, except
      where it says nothing. */
  lemma MergeOverlays(t: Value, s: Value, path: seq<string>)
    requires t.Obj? && s.Obj? && NullFree(t) && NullFree(s)
    ensures LeafAt(Merge(t, s), path) == if LeavesOff(s, path) then LeafAt(t, path) else LeafAt(s, path)
  {
    MergeShows(t, s, path);
    NullFreeDecides(t, s, path);
  }

  lemma {:induction false} OffNoLeaf(v: Value, path: seq<string>)
    requires LeavesOff(v, path)
    ensures LeafAt(v, path) == None
    decreases |path|
  {
    if path[0] in v.fields {
      OffNoLeaf(v.fields[path[0]], path[1..]);
    }
  }

  // ----- Associativity -----

  /** The source overwrites or meets everything in the target: what is left is the source. */
  predicate Absorbs(s: Value, t: Value)
    requires t.TypeofObject() && s.TypeofObject()
  {
    if t.Null? || s.Null? then t == s
    else
      && t.fields.Keys <= s.fields.Keys
      && forall k | k in t.fields && t.fields[k].TypeofObject() && s.fields[k].TypeofObject() ::
           Absorbs(s.fields[k], t.fields[k])
  }

  /** The target has everything the source has already, or a null shields it: what is left is the target. */
  predicate Covers(t: Value, s: Value)
    requires t.TypeofObject() && s.TypeofObject()
  {
    t.Null? || s.Null? ||
    (&& s.fields.Keys <= t.fields.Keys
     && forall k | k in s.fields ::
          if t.fields[k].TypeofObject() && s.fields[k].TypeofObject() then Covers(t.fields[k], s.fields[k])
          else t.fields[k] == s.fields[k])
  }

  /** A merge leaves the source when the source absorbs the target, and only then. */
  lemma {:induction false} AbsorbsExactly(t: Value, s: Value)
    requires t.TypeofObject() && s.TypeofObject()
    ensures Merge(t, s) == s <==> Absorbs(s, t)
    decreases s
  {
    if t.Obj? && s.Obj? {
      forall k | k in t.fields && k in s.fields && t.fields[k].TypeofObject() && s.fields[k].TypeofObject()
        ensures Merge(t.fields[k], s.fields[k]) == s.fields[k] <==> Absorbs(s.fields[k], t.fields[k])
      {
        AbsorbsExactly(t.fields[k], s.fields[k]);
      }
      assert Merge(t, s).fields.Keys == t.fields.Keys + s.fields.Keys;
      assert Merge(t, s) == s <==> Merge(t, s).fields == s.fields;
    }
  }

  /** A merge leaves the target when the target covers the source, and only then. */
  lemma {:induction false} CoversExactly(t: Value, s: Value)
    requires t.TypeofObject() && s.TypeofObject()
    ensures Merge(t, s) == t <==> Covers(t, s)
    decreases s
  {
    if t.Obj? && s.Obj? {
      forall k | k in t.fields && k in s.fields && t.fields[k].TypeofObject() && s.fields[k].TypeofObject()
        ensures Merge(t.fields[k], s.fields[k]) == t.fields[k] <==> Covers(t.fields[k], s.fields[k])
      {
        CoversExactly(t.fields[k], s.fields[k]);
      }
      assert Merge(t, s).fields.Keys == t.fields.Keys + s.fields.Keys;
      assert Merge(t, s) == t <==> Merge(t, s).fields == t.fields;
    }
  }

  /** Wherever the outer two have no leaf: if the middle one has a leaf, the last absorbs the first; if
      it has a null, the first covers the last; and if all three have objects, so on inside. */
  predicate Aligned(a: Value, b: Value, c: Value)
    decreases c
  {
    a.TypeofObject() && c.TypeofObject() ==>
      match b
      case Leaf(_) => Absorbs(c, a)
      case Null => Covers(a, c)
      case Obj(_) =>
        a.Obj? && c.Obj? ==>
          forall k | k in a.fields && k in b.fields && k in c.fields :: Aligned(a.fields[k], b.fields[k], c.fields[k])
  }

  /** Merging is associative exactly on operands that are aligned. */
  lemma {:induction false} MergeAssociative(a: Value, b: Value, c: Value)
    requires a.TypeofObject() && b.TypeofObject() && c.TypeofObject()
    ensures Merge(Merge(a, b), c) == Merge(a, Merge(b, c)) <==> Aligned(a, b, c)
    decreases c, 1
  {
    if a.Obj? && b.Obj? && c.Obj? {
      var l, r := Merge(Merge(a, b), c), Merge(a, Merge(b, c));
      assert l.fields.Keys == r.fields.Keys;
      forall k | k in l.fields
        ensures l.fields[k] == r.fields[k]
           <==> (k in a.fields && k in b.fields && k in c.fields ==> Aligned(a.fields[k], b.fields[k], c.fields[k]))
      {
        AssociativeAt(a, b, c, k);
      }
      assert l == r <==> l.fields == r.fields;
      assert forall k | k in a.fields :: k in l.fields;
    } else if a.Obj? && b.Null? {
      CoversExactly(a, c);
    }
  }

  lemma AssociativeAt(a: Value, b: Value, c: Value, k: string)
    requires a.Obj? && b.Obj? && c.Obj?
    requires k in Merge(Merge(a, b), c).fields
    ensures k in Merge(a, Merge(b, c)).fields
    ensures Merge(Merge(a, b), c).fields[k] == Merge(a, Merge(b, c)).fields[k]
       <==> (k in a.fields && k in b.fields && k in c.fields ==> Aligned(a.fields[k], b.fields[k], c.fields[k]))
    decreases c, 0
  {
    if k in a.fields && k in b.fields && k in c.fields && a.fields[k].TypeofObject() && c.fields[k].TypeofObject() {
      if b.fields[k].TypeofObject() {
        MergeAssociative(a.fields[k], b.fields[k], c.fields[k]);
      } else {
        AbsorbsExactly(a.fields[k], c.fields[k]);
      }
    }
  }

  /** One key "k" that holds the value. */
  function AtK(v: Value): Value { Obj(map["k" := v]) }

  /** Of two sources that both have a leaf under a key, the later one wins. */
  lemma LaterWins(v: Value, x: int, y: int)
    ensures MergeAll(AtK(v), [AtK(Leaf(x)), AtK(Leaf(y))]) == AtK(Leaf(y))
  {
    MergeAllTwo(AtK(v), AtK(Leaf(x)), AtK(Leaf(y)));
    LeafWins(v, x);
    LeafWins(Leaf(x), y);
  }

  lemma MergeAllTwo(t: Value, a: Value, b: Value)
    ensures MergeAll(t, [a, b]) == Merge(Merge(t, a), b)
  {
    var sources := [a, b];
    assert sources[..1] == [a] && [a][..0] == [];
    assert MergeAll(t, [a]) == Merge(MergeAll(t, []), a);
  }

  lemma LeafWins(v: Value, x: int)
    ensures Merge(AtK(v), AtK(Leaf(x))) == AtK(Leaf(x))
  {
    assert Merge(AtK(v), AtK(Leaf(x))).fields == map["k" := Leaf(x)];
  }

  /** A leaf between two objects that disagree breaks associativity, and so does a null. */
  lemma NotAssociative(b: Value)
    requires !b.Obj?
    ensures var x, y, z := AtK(Obj(map["x" := Leaf(1)])), AtK(b), AtK(Obj(map["y" := Leaf(2)]));
            Merge(Merge(x, y), z) != Merge(x, Merge(y, z))
  {
    var x, y, z := AtK(Obj(map["x" := Leaf(1)])), AtK(b), AtK(Obj(map["y" := Leaf(2)]));
    assert "x" in x.fields["k"].fields && "x" !in z.fields["k"].fields;
    assert "y" in z.fields["k"].fields && "y" !in x.fields["k"].fields;
    assert !Aligned(x.fields["k"], y.fields["k"], z.fields["k"]);
    MergeAssociative(x, y, z);
  }
}
