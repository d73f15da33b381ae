/** Which URLs lead to paths below the public path (http/httpServer.js:299). */
module Confinement {
  import opened Paths
  import opened Sequences
  import opened PublicPaths

  /** Counted from the given depth, ".." never climbs above the start. */
  predicate StaysDown(segments: seq<string>, depth: nat)
    decreases |segments|
  {
    segments == []
    || (var x, rest := segments[0], segments[1..];
        if x == "" || x == "." then StaysDown(rest, depth)
        else if x == ".." then depth > 0 && StaysDown(rest, depth - 1)
        else StaysDown(rest, depth + 1))
  }

  predicate Confined(root: string, p: string) {
    p == root || p == root + "/" || Below(root, p)
  }

  lemma {:induction false} ReduceStays(base: seq<string>, extra: seq<string>, segments: seq<string>, absolute: bool)
      returns (more: seq<string>)
    requires StaysDown(segments, |extra|) && ".." !in extra
    ensures Reduce(base + extra, segments, absolute) == base + more
    decreases |segments|
  {
    if segments == [] {
      more := extra;
    } else {
      var x := segments[0];
      var next := if x == "" || x == "." then extra else if x == ".." then extra[..|extra| - 1] else extra + [x];
      assert Push(base + extra, x, absolute) == base + next by {
        if x == ".." {
          assert (base + extra)[..|base + extra| - 1] == base + next;
        } else {
          assert base + extra + [x] == base + (extra + [x]);
        }
      }
      more := ReduceStays(base, next, segments[1..], absolute);
    }
  }

  lemma {:induction false} GlueExtends(base: seq<string>, more: seq<string>)
    requires base != [] && more != [] && AllSegments(more)
    ensures Below(Glue(base), Glue(base + more))
    decreases |more|
  {
    var front, x := more[..|more| - 1], more[|more| - 1];
    assert IsSegment(x);
    assert base + more == (base + front) + [x];
    GlueBelow(base + front, x);
    if front != [] {
      GlueExtends(base, front);
    } else {
      assert base + front == base;
    }
  }

  lemma BelowFramed(pre: string, p: string, q: string, post: string)
    requires Below(p, q)
    ensures Below(pre + p, pre + q + post)
  {
    assert q == p + q[|p|..];
    assert pre + q + post == (pre + p) + (q[|p|..] + post);
  }

  lemma FramedConfined(pre: string, base: seq<string>, done: seq<string>, post: string)
    requires base != [] && base <= done && AllSegments(done) && (post == "" || post == "/")
    ensures Confined(pre + Glue(base), pre + Glue(done) + post)
  {
    var more := done[|base|..];
    assert done == base + more;
    if more != [] {
      assert AllSegments(more) by {
        assert forall x | x in more :: x in done;
      }
      GlueExtends(base, more);
      BelowFramed(pre, Glue(base), Glue(done), post);
    } else {
      assert done == base && pre + Glue(base) + "" == pre + Glue(base);
    }
  }

  lemma NormalizeGlue(s: string)
    requires s != "" && Reduce([], Segments(s), IsAbsolute(s)) != []
    ensures AllSegments(Reduce([], Segments(s), IsAbsolute(s)))
    ensures Normalize(s) == (if IsAbsolute(s) then "/" else "") + Glue(Reduce([], Segments(s), IsAbsolute(s)))
                            + (if HasTrailingSlash(s) then "/" else "")
  {
    SegmentsSlashFree(s);
    ReduceSegments([], Segments(s), IsAbsolute(s));
    GlueEnds(Reduce([], Segments(s), IsAbsolute(s)));
  }

  lemma ReducedBelow(root: string, s: string)
    requires Plain(root) && s != "" && IsAbsolute(s) == IsAbsolute(root)
    requires Reduce([], Segments(root), IsAbsolute(root)) <= Reduce([], Segments(s), IsAbsolute(s))
    ensures Confined(root, Normalize(s))
  {
    var base, done := Reduce([], Segments(root), IsAbsolute(root)), Reduce([], Segments(s), IsAbsolute(s));
    PlainBody(root);
    NormalizeGlue(s);
    FramedConfined(if IsAbsolute(s) then "/" else "", base, done, if HasTrailingSlash(s) then "/" else "");
  }

  lemma StaysBelow(root: string, url: string)
    requires Plain(root) && StaysDown(Segments(url), 0)
    ensures Confined(root, Join(root, url))
  {
    if url != "" {
      var absolute := IsAbsolute(root);
      var base := Reduce([], Segments(root), absolute);
      SegmentsSlash(root, url);
      ReduceAppend([], Segments(root), Segments(url), absolute);
      assert base + [] == base;
      var more := ReduceStays(base, [], Segments(url), absolute);
      ReducedBelow(root, root + "/" + url);
    }
  }

  /** A directory of the file system's root whose name is longer than the URL. */
  function LongName(url: string): (name: string)
    ensures IsName(name) && |name| == |url| + 3
    ensures Count('x', name) == |name|
  {
    if url == "" then "xxx" else ['x'] + LongName(url[1..])
  }

  /** Climbing above the start takes that name away for good. */
  lemma {:induction false} ClimbLoses(name: string, extra: seq<string>, segments: seq<string>)
    requires IsName(name) && ".." !in extra && !StaysDown(segments, |extra|)
    ensures CountAll('x', Reduce([name] + extra, segments, true)) <= CountAll('x', extra) + CountAll('x', segments)
    decreases |segments|
  {
    var x, rest := segments[0], segments[1..];
    if x == ".." && extra == [] {
      assert Push([name] + extra, x, true) == [];
      CountReduce('x', [], rest, true);
    } else {
      var next := if x == "" || x == "." then extra else if x == ".." then extra[..|extra| - 1] else extra + [x];
      assert Push([name] + extra, x, true) == [name] + next by {
        if x == ".." {
          assert ([name] + extra)[..|extra|] == [name] + next;
        } else {
          assert [name] + extra + [x] == [name] + (extra + [x]);
        }
      }
      CountAllSnoc('x', extra, x);
      if extra != [] {
        CountAllSnoc('x', extra[..|extra| - 1], extra[|extra| - 1]);
        assert extra == extra[..|extra| - 1] + [extra[|extra| - 1]];
      }
      ClimbLoses(name, next, rest);
    }
  }

  lemma {:induction false} CountAtMost(c: char, s: string)
    ensures Count(c, s) <= |s|
  {
    if s != "" {
      CountAtMost(c, s[1..]);
    }
  }

  lemma ClimbEscapes(url: string)
    requires !StaysDown(Segments(url), 0)
    ensures var root := "/" + LongName(url); Plain(root) && !Confined(root, Join(root, url))
  {
    var name := LongName(url);
    var root := "/" + name;
    var s := root + "/" + url;
    BelowRootPlain(name);
    SegmentsSlash(root, url);
    ReduceAppend([], Segments(root), Segments(url), true);
    assert [name] + [] == [name];
    ClimbLoses(name, [], Segments(url));
    CountSegments('x', url);
    CountAtMost('x', url);
    CountNormalized('x', s);
    CountAppend('x', "/", name);
    if Confined(root, Normalize(s)) {
      ConfinedCount('x', root, Normalize(s));
    }
  }

  lemma ConfinedCount(c: char, root: string, p: string)
    requires Confined(root, p)
    ensures Count(c, root) <= Count(c, p)
  {
    assert p == root + p[|root|..];
    CountAppend(c, root, p[|root|..]);
  }

  /** A URL stays below every plain public path exactly when its ".." never climb above its start. */
  lemma ConfinedExactly(url: string)
    ensures (forall root | Plain(root) :: Confined(root, Join(root, url))) <==> StaysDown(Segments(url), 0)
  {
    if StaysDown(Segments(url), 0) {
      forall root | Plain(root)
        ensures Confined(root, Join(root, url))
      {
        StaysBelow(root, url);
      }
    } else {
      ClimbEscapes(url);
    }
  }

  // ----- One public path -----

  /** The segments of a normalised path are those that normalising kept, between what the slashes at its
      ends add. */
  lemma SegmentsFramed(segments: seq<string>, absolute: bool, trailing: bool)
    requires segments != [] && AllSegments(segments)
    ensures Segments((if absolute then "/" else "") + Glue(segments) + (if trailing then "/" else ""))
         == (if absolute then [""] else []) + segments + (if trailing then [""] else [])
  {
    var s := (if absolute then "/" else "") + Glue(segments);
    SegmentsGlue(segments);
    SegmentsLed(Glue(segments));
    SegmentsTrailed(s);
    assert !absolute ==> s == Glue(segments);
    assert s + "" == s;
  }

  /** What normalising keeps of the path that a URL joins to. */
  function Reached(root: string, url: string): seq<string> {
    Reduce(Reduce([], Segments(root), IsAbsolute(root)), Segments(url), IsAbsolute(root))
  }

  lemma JoinReached(root: string, url: string)
    requires Plain(root) && url != ""
    ensures IsAbsolute(root + "/" + url) == IsAbsolute(root)
    ensures Reduce([], Segments(root + "/" + url), IsAbsolute(root)) == Reached(root, url)
  {
    SegmentsSlash(root, url);
    ReduceAppend([], Segments(root), Segments(url), IsAbsolute(root));
  }

  lemma PrefixFromParts(base: seq<string>, rest: seq<string>, done: seq<string>, end: seq<string>)
    requires base + rest == done + end && AllSegments(base) && (end == [] || end == [""])
    ensures base <= done
  {
    assert forall i | 0 <= i < |base| :: IsSegment(base[i]) && base[i] == (done + end)[i];
    assert end != [] ==> (done + end)[|done|] == "";
    assert |base| + |rest| == |done| + |end|;
    assert |base| <= |done|;
    assert base == (base + rest)[..|base|] == done[..|base|];
  }

  lemma ReachedSegments(root: string, url: string)
    requires Plain(root) && url != ""
    ensures AllSegments(Reached(root, url)) && AllSegments(Reduce([], Segments(root), IsAbsolute(root)))
  {
    SegmentsSlashFree(root + "/" + url);
    SegmentsSlashFree(root);
    ReduceSegments([], Segments(root + "/" + url), IsAbsolute(root));
    ReduceSegments([], Segments(root), IsAbsolute(root));
    JoinReached(root, url);
  }

  lemma NormalizedSegments(s: string)
    requires s != "" && Reduce([], Segments(s), IsAbsolute(s)) != []
    ensures Segments(Normalize(s))
         == (if IsAbsolute(s) then [""] else []) + Reduce([], Segments(s), IsAbsolute(s))
            + (if HasTrailingSlash(s) then [""] else [])
  {
    NormalizeGlue(s);
    SegmentsFramed(Reduce([], Segments(s), IsAbsolute(s)), IsAbsolute(s), HasTrailingSlash(s));
  }

  lemma ConfinedSegments(root: string, p: string) returns (rest: seq<string>)
    requires Confined(root, p)
    ensures Segments(p) == Segments(root) + rest
  {
    if p == root {
      rest := [];
    } else if p == root + "/" {
      SegmentsTrailed(root);
      rest := [""];
    } else {
      assert p == root + "/" + p[|root| + 1..];
      SegmentsSlash(root, p[|root| + 1..]);
      rest := Segments(p[|root| + 1..]);
    }
  }

  lemma DropLead<T>(lead: seq<T>, a: seq<T>, b: seq<T>)
    requires lead + a == lead + b
    ensures a == b
  {
    assert (lead + a)[|lead|..] == a && (lead + b)[|lead|..] == b;
  }

  /** A path below the public path starts with its segments. */
  lemma BelowStartsWith(root: string, url: string)
    requires Plain(root) && url != "" && Reached(root, url) != []
    requires Confined(root, Join(root, url))
    ensures Reduce([], Segments(root), IsAbsolute(root)) <= Reached(root, url)
  {
    var absolute, s := IsAbsolute(root), root + "/" + url;
    var base, done := Reduce([], Segments(root), absolute), Reached(root, url);
    var lead, end := if absolute then [""] else [], if HasTrailingSlash(s) then [""] else [];
    JoinReached(root, url);
    ReachedSegments(root, url);
    PlainBody(root);
    assert Segments(Join(root, url)) == lead + done + end by {
      NormalizedSegments(s);
    }
    assert Segments(root) == lead + base by {
      NormalizedSegments(root);
    }
    var rest := ConfinedSegments(root, Join(root, url));
    Associates(lead, base, rest);
    Associates(lead, done, end);
    DropLead(lead, base + rest, done + end);
    PrefixFromParts(base, rest, done, end);
  }

  /** With nothing left of it, a path is "/", "." or "./", which lie below no plain path. */
  lemma NothingReached(root: string, url: string)
    requires Plain(root) && url != "" && Reached(root, url) == []
    ensures !Confined(root, Join(root, url))
  {
    JoinReached(root, url);
    assert |Join(root, url)| <= 2;
  }

  lemma EmptyUrl(root: string)
    requires Plain(root)
    ensures Join(root, "") == root && Reached(root, "") == Reduce([], Segments(root), IsAbsolute(root))
  {
    assert Segments("") == [""];
    ReduceNothing(Reduce([], Segments(root), IsAbsolute(root)), IsAbsolute(root));
  }

  lemma ReduceNothing(done: seq<string>, absolute: bool)
    ensures Reduce(done, [""], absolute) == done
  {
    assert [""][1..] == [];
  }

  lemma StartsWithBelow(root: string, url: string)
    requires Plain(root) && url != ""
    requires Reduce([], Segments(root), IsAbsolute(root)) <= Reached(root, url)
    ensures Confined(root, Join(root, url))
  {
    JoinReached(root, url);
    ReducedBelow(root, root + "/" + url);
  }

  /** What a URL joins to stays below a plain public path exactly when the segments of the public path are
      the first of those that are left. */
  lemma ConfinedInExactly(root: string, url: string)
    requires Plain(root)
    ensures Confined(root, Join(root, url)) <==> Reduce([], Segments(root), IsAbsolute(root)) <= Reached(root, url)
  {
    var base, reached := Reduce([], Segments(root), IsAbsolute(root)), Reached(root, url);
    if url == "" {
      EmptyUrl(root);
    } else if base <= reached {
      StartsWithBelow(root, url);
    } else if reached == [] {
      NothingReached(root, url);
    } else if Confined(root, Join(root, url)) {
      BelowStartsWith(root, url);
    }
  }

  lemma NamePlain(name: string)
    requires IsName(name)
    ensures Plain(name) && Reduce([], Segments(name), IsAbsolute(name)) == [name] && !IsAbsolute(name)
  {
    SegmentsName(name);
    assert Reduce([], [name], false) == Push([], name, false) == [name];
    NormalizeBody(name, name);
  }

  lemma UpSegments()
    ensures Segments("/..") == ["", ".."]
  {
    SegmentsLed("..");
    SegmentsName("..");
    assert "/" + ".." == "/..";
  }

  lemma UpOne(root: string)
    requires IsName(root)
    ensures Reduce([root], ["", ".."], false) == []
  {
    assert ["", ".."][1..] == [".."] && [".."][1..] == [];
    assert Reduce([root], [".."], false) == Push([root], "..", false);
  }

  lemma UpReached(root: string, s: string)
    requires IsName(root)
    ensures Reached(root, "/../" + s) == Reduce([], Segments(s), false)
  {
    assert "/../" + s == "/.." + "/" + s;
    ReachedFurther(root, "/..", s);
    NamePlain(root);
    UpSegments();
    UpOne(root);
  }

  lemma ReachedFurther(root: string, url: string, s: string)
    ensures Reached(root, url + "/" + s) == Reduce(Reached(root, url), Segments(s), IsAbsolute(root))
  {
    SegmentsSlash(url, s);
    ReduceAppend(Reduce([], Segments(root), IsAbsolute(root)), Segments(url), Segments(s), IsAbsolute(root));
  }

  /** A public path of one name: one step up and down to another name leaves it, and one step up and down
      again does not. */
  lemma UpAndDown(root: string, f: string)
    requires IsName(root) && IsName(f) && f != root
    ensures Plain(root)
    ensures !Confined(root, Join(root, "/../" + f)) && Confined(root, Join(root, "/../" + (root + "/" + f)))
  {
    NamePlain(root);
    UpReached(root, f);
    NamePlain(f);
    ConfinedInExactly(root, "/../" + f);
    UpReached(root, root + "/" + f);
    ReduceBelow(root, f, false);
    ConfinedInExactly(root, "/../" + (root + "/" + f));
  }
}
