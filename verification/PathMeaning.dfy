/** Where paths lead, and that normalising a path is writing down where it leads in the one normal form
    (Node's `path.join`, used at http/httpServer.js:252, 258, 299). */
module PathMeaning {
  import opened Paths
  import opened PublicPaths
  import opened Confinement

  // ----- Where a path leads -----

  /** One step from a directory, given by the names on its way from the root. Above the root is the root. */
  function Move(at: seq<string>, x: string): seq<string> {
    if x == "" || x == "." then at
    else if x == ".." then if at == [] then [] else at[..|at| - 1]
    else at + [x]
  }

  function Walk(at: seq<string>, segments: seq<string>): seq<string>
    decreases |segments|
  {
    if segments == [] then at else Walk(Move(at, segments[0]), segments[1..])
  }

  /** Where a path leads from the directory `cwd`. */
  function Where(cwd: seq<string>, p: string): seq<string> {
    Walk(if IsAbsolute(p) then [] else cwd, Segments(p))
  }

  lemma {:induction false} WalkAppend(at: seq<string>, a: seq<string>, b: seq<string>)
    ensures Walk(at, a + b) == Walk(Walk(at, a), b)
    decreases |a|
  {
    if a == [] {
      assert a + b == b;
    } else {
      assert (a + b)[1..] == a[1..] + b;
      WalkAppend(Move(at, a[0]), a[1..], b);
    }
  }

  lemma WalkOne(at: seq<string>, x: string)
    ensures Walk(at, [x]) == Move(at, x)
  {
    assert [x][1..] == [];
  }

  // ----- Normal forms -----

  /** Names behind any number of "..", which only a relative path can start with. */
  ghost predicate NormalBody(b: seq<string>, absolute: bool) {
    forall i | 0 <= i < |b| ::
      IsName(b[i]) || (b[i] == ".." && !absolute && forall j | 0 <= j < i :: b[j] == "..")
  }

  /** The path with these segments. */
  function Framed(b: seq<string>, absolute: bool, trailing: bool): string {
    if b == [] then if absolute then "/" else if trailing then "./" else "."
    else (if absolute then "/" else "") + Glue(b) + (if trailing then "/" else "")
  }

  ghost predicate IsNormal(p: string) {
    exists b, absolute, trailing :: NormalBody(b, absolute) && p == Framed(b, absolute, trailing)
  }

  lemma {:induction false} ReduceNormal(done: seq<string>, segments: seq<string>, absolute: bool)
    requires NormalBody(done, absolute) && forall x | x in segments :: '/' !in x
    ensures NormalBody(Reduce(done, segments, absolute), absolute)
    decreases |segments|
  {
    if segments != [] {
      PushNormal(done, segments[0], absolute);
      ReduceNormal(Push(done, segments[0], absolute), segments[1..], absolute);
    }
  }

  lemma PushNormal(done: seq<string>, x: string, absolute: bool)
    requires NormalBody(done, absolute) && '/' !in x
    ensures NormalBody(Push(done, x, absolute), absolute)
  {
    if x == ".." && done != [] && done[|done| - 1] == ".." {
      assert forall j | 0 <= j < |done| :: done[j] == "..";
    }
  }

  lemma NormalSegments(b: seq<string>, absolute: bool)
    requires NormalBody(b, absolute)
    ensures AllSegments(b)
  {
    forall x | x in b
      ensures IsSegment(x)
    {
      var i :| 0 <= i < |b| && b[i] == x;
    }
  }

  /** Normalising frames what reducing leaves. */
  lemma NormalizeFramed(p: string)
    ensures var b := Reduce([], Segments(p), IsAbsolute(p));
            NormalBody(b, IsAbsolute(p)) && Normalize(p) == Framed(b, IsAbsolute(p), HasTrailingSlash(p))
  {
    SegmentsSlashFree(p);
    ReduceNormal([], Segments(p), IsAbsolute(p));
    if p == "" {
      ReduceNothing([], false);
    } else if Reduce([], Segments(p), IsAbsolute(p)) != [] {
      NormalizeGlue(p);
    }
  }

  // ----- Normalising keeps where a path leads -----

  lemma PushWalk(at: seq<string>, done: seq<string>, x: string, absolute: bool)
    requires NormalBody(done, absolute) && (absolute ==> at == [])
    ensures Walk(at, Push(done, x, absolute)) == Move(Walk(at, done), x)
  {
    if x == ".." && done != [] {
      var front, last := done[..|done| - 1], done[|done| - 1];
      assert done == front + [last];
      WalkAppend(at, front, [last]);
      WalkOne(Walk(at, front), last);
    }
    WalkAppend(at, done, [x]);
    WalkOne(Walk(at, done), x);
  }

  lemma {:induction false} ReduceWalk(at: seq<string>, done: seq<string>, segments: seq<string>, absolute: bool)
    requires NormalBody(done, absolute) && (absolute ==> at == []) && forall x | x in segments :: '/' !in x
    ensures Walk(at, Reduce(done, segments, absolute)) == Walk(Walk(at, done), segments)
    decreases |segments|
  {
    if segments != [] {
      PushWalk(at, done, segments[0], absolute);
      PushNormal(done, segments[0], absolute);
      ReduceWalk(at, Push(done, segments[0], absolute), segments[1..], absolute);
    }
  }

  lemma WalkFramed(at: seq<string>, b: seq<string>, absolute: bool, trailing: bool)
    ensures Walk(at, (if absolute then [""] else []) + b + (if trailing then [""] else [])) == Walk(at, b)
  {
    var lead, end := if absolute then [""] else [], if trailing then [""] else [];
    WalkAppend(at, lead + b, end);
    WalkAppend(at, lead, b);
    WalkOne(at, "");
    WalkOne(Walk(at, b), "");
  }

  /** What a normal form says of itself. */
  lemma FramedMeans(cwd: seq<string>, b: seq<string>, absolute: bool, trailing: bool)
    requires NormalBody(b, absolute)
    ensures var p := Framed(b, absolute, trailing);
            && IsAbsolute(p) == absolute && (HasTrailingSlash(p) == trailing || p == "/")
            && Where(cwd, p) == Walk(if absolute then [] else cwd, b)
  {
    var p := Framed(b, absolute, trailing);
    if b == [] {
      EmptyFramed();
      WalkFramed(if absolute then [] else cwd, [], true, true);
      WalkOne(cwd, ".");
      WalkAppend(cwd, ["."], [""]);
      WalkOne(cwd, "");
      assert ["."] + [""] == [".", ""] && [""] + [] + [""] == ["", ""];
    } else {
      NormalSegments(b, absolute);
      GlueEnds(b);
      SegmentsFramed(b, absolute, trailing);
      WalkFramed(if absolute then [] else cwd, b, absolute, trailing);
    }
  }

  lemma EmptyFramed()
    ensures Segments("/") == ["", ""] && Segments(".") == ["."] && Segments("./") == [".", ""]
  {
    SegmentsLed("");
    SegmentsName(".");
    SegmentsTrailed(".");
    assert "/" + "" == "/" && "." + "/" == "./";
  }

  // ----- A normal form is determined by where it leads -----

  /** How many ".." a normal form starts with. */
  function Ups(b: seq<string>): (k: nat)
    ensures k <= |b| && (forall i | 0 <= i < k :: b[i] == "..") && (k < |b| ==> b[k] != "..")
  {
    if b == [] || b[0] != ".." then 0 else 1 + Ups(b[1..])
  }

  /** What is left of a directory `k` levels up. */
  function Above(at: seq<string>, k: nat): seq<string> {
    at[..if k <= |at| then |at| - k else 0]
  }

  /** From a directory, a normal form goes up that often, if it can, and then down by its names. */
  lemma {:induction false} WalkNormal(at: seq<string>, b: seq<string>, absolute: bool)
    requires NormalBody(b, absolute)
    ensures Walk(at, b) == Above(at, Ups(b)) + b[Ups(b)..]
    decreases |b|
  {
    if b != [] {
      var front, x := b[..|b| - 1], b[|b| - 1];
      assert b == front + [x];
      WalkNormal(at, front, absolute);
      WalkAppend(at, front, [x]);
      WalkOne(Walk(at, front), x);
      if x == ".." {
        AllUps(front);
        AllUps(b);
        assert Walk(at, front) == Above(at, |front|);
      } else {
        DownByName(at, front, x);
      }
    }
  }

  lemma DownByName(at: seq<string>, front: seq<string>, x: string)
    requires x != ".."
    ensures Above(at, Ups(front + [x])) + (front + [x])[Ups(front + [x])..]
         == Above(at, Ups(front)) + front[Ups(front)..] + [x]
  {
    UpsSnoc(front, x);
    assert (front + [x])[Ups(front)..] == front[Ups(front)..] + [x];
  }

  lemma {:induction false} AllUps(b: seq<string>)
    requires forall j | 0 <= j < |b| :: b[j] == ".."
    ensures Ups(b) == |b|
  {
    if b != [] {
      AllUps(b[1..]);
    }
  }

  lemma {:induction false} UpsSnoc(b: seq<string>, x: string)
    ensures Ups(b + [x]) == if Ups(b) == |b| && x == ".." then |b| + 1 else Ups(b)
  {
    if b == [] {
      assert [] + [x] == [x] && [x][1..] == [];
    } else {
      assert (b + [x])[1..] == b[1..] + [x];
      UpsSnoc(b[1..], x);
    }
  }

  /** Where two normal forms lead tells them apart, from a directory that is deep enough. */
  lemma SameWalk(b: seq<string>, c: seq<string>, absolute: bool)
    requires NormalBody(b, absolute) && NormalBody(c, absolute)
    requires if absolute then Walk([], b) == Walk([], c) else forall at :: Walk(at, b) == Walk(at, c)
    ensures b == c
  {
    if absolute {
      WalkDown([], b, true);
      WalkDown([], c, true);
    } else {
      var deep, up := seq(Ups(b) + Ups(c), _ => ""), seq(Ups(b), _ => "");
      WalkNormal(deep, b, false);
      WalkNormal(deep, c, false);
      assert |Walk(deep, b)| == |Walk(deep, c)|;
      SameUps(b, c);
      SameUps(c, b);
      WalkDown(up, b, false);
      WalkDown(up, c, false);
      assert b[..Ups(b)] == c[..Ups(c)];
    }
    assert b == b[..Ups(b)] + b[Ups(b)..] && c == c[..Ups(c)] + c[Ups(c)..];
  }

  /** From just as deep as it goes up, a normal form leads to where its names lead from the root. */
  lemma WalkDown(at: seq<string>, b: seq<string>, absolute: bool)
    requires NormalBody(b, absolute) && if absolute then at == [] else |at| == Ups(b)
    ensures Walk(at, b) == b[Ups(b)..] && (absolute ==> Ups(b) == 0)
  {
    WalkNormal(at, b, absolute);
    assert Above(at, Ups(b)) == [];
  }

  /** From as deep as one goes up, the other would end elsewhere if it went further up. */
  lemma SameUps(b: seq<string>, c: seq<string>)
    requires NormalBody(b, false) && NormalBody(c, false) && forall at :: Walk(at, b) == Walk(at, c)
    requires |b| - 2 * Ups(b) == |c| - 2 * Ups(c)
    ensures Ups(c) <= Ups(b)
  {
    var at := seq(Ups(b), _ => "");
    assert Walk(at, b) == Walk(at, c);
    WalkNormal(at, b, false);
    WalkNormal(at, c, false);
  }

  /** The normal form of a path is the one path in normal form that starts and ends with a slash as it does
      and leads to the same place from every directory. */
  lemma NormalizeExactly(p: string, q: string)
    ensures q == Normalize(p)
       <==> && IsNormal(q) && IsAbsolute(q) == IsAbsolute(p)
            && (HasTrailingSlash(q) == HasTrailingSlash(p) || q == "/")
            && forall cwd :: Where(cwd, q) == Where(cwd, p)
  {
    NormalizeMeans(p);
    if IsNormal(q) && IsAbsolute(q) == IsAbsolute(p) && (HasTrailingSlash(q) == HasTrailingSlash(p) || q == "/")
       && forall cwd :: Where(cwd, q) == Where(cwd, p) {
      NormalUnique(q, Normalize(p));
    }
  }

  lemma NormalizeMeans(p: string)
    ensures var n := Normalize(p);
            && IsNormal(n) && IsAbsolute(n) == IsAbsolute(p) && (HasTrailingSlash(n) == HasTrailingSlash(p) || n == "/")
            && forall cwd :: Where(cwd, n) == Where(cwd, p)
  {
    var absolute := IsAbsolute(p);
    var b := Reduce([], Segments(p), absolute);
    NormalizeFramed(p);
    SegmentsSlashFree(p);
    forall cwd
      ensures Where(cwd, Normalize(p)) == Where(cwd, p)
    {
      FramedMeans(cwd, b, absolute, HasTrailingSlash(p));
      ReduceWalk(if absolute then [] else cwd, [], Segments(p), absolute);
    }
    FramedMeans([], b, absolute, HasTrailingSlash(p));
  }

  lemma NormalUnique(p: string, q: string)
    requires IsNormal(p) && IsNormal(q) && IsAbsolute(p) == IsAbsolute(q)
    requires HasTrailingSlash(p) == HasTrailingSlash(q) || p == "/" || q == "/"
    requires forall cwd :: Where(cwd, p) == Where(cwd, q)
    ensures p == q
  {
    var b, a, s :| NormalBody(b, a) && p == Framed(b, a, s);
    var c, d, t :| NormalBody(c, d) && q == Framed(c, d, t);
    FramedMeans([], b, a, s);
    FramedMeans([], c, d, t);
    forall cwd
      ensures !a ==> Walk(cwd, b) == Walk(cwd, c)
    {
      FramedMeans(cwd, b, a, s);
      FramedMeans(cwd, c, d, t);
      assert Where(cwd, p) == Where(cwd, q);
    }
    assert Where([], p) == Where([], q);
    SameWalk(b, c, a);
  }

  /** What is in normal form already stays. */
  lemma NormalStays(p: string)
    requires IsNormal(p)
    ensures Normalize(p) == p
  {
    NormalizeExactly(p, p);
  }

  /** Joining `b` to a path leads from where that path leads on along `b`, whose slashes at the start do not
      count, and is written in normal form. The empty path joins to nothing. */
  lemma JoinExactly(a: string, b: string, q: string)
    ensures q == Join(a, b)
       <==> && IsNormal(q) && IsAbsolute(q) == IsAbsolute(if a == "" then b else a)
            && (HasTrailingSlash(q) == HasTrailingSlash(if b == "" then a else b) || q == "/")
            && forall cwd :: Where(cwd, q) == if a == "" then Where(cwd, b) else Walk(Where(cwd, a), Segments(b))
  {
    var p := if a == "" then b else if b == "" then a else a + "/" + b;
    NormalizeExactly(p, q);
    assert b != "" ==> p[|p| - 1] == b[|b| - 1];
    forall cwd
      ensures Where(cwd, p) == if a == "" then Where(cwd, b) else Walk(Where(cwd, a), Segments(b))
    {
      if a == "" {
      } else if b == "" {
        WalkOne(Where(cwd, a), "");
      } else {
        SegmentsSlash(a, b);
        WalkAppend(if IsAbsolute(a) then [] else cwd, Segments(a), Segments(b));
      }
    }
  }

  // ----- Climbing -----

  /** How many levels a relative path climbs above its start, counted from its segments alone, when `depth`
      levels can be taken back. */
  function Climb(segments: seq<string>, depth: nat): nat
    decreases |segments|
  {
    if segments == [] then 0
    else
      var x, rest := segments[0], segments[1..];
      if x == "" || x == "." then Climb(rest, depth)
      else if x != ".." then Climb(rest, depth + 1)
      else if depth > 0 then Climb(rest, depth - 1)
      else 1 + Climb(rest, 0)
  }

  lemma {:induction false} ReduceClimbs(done: seq<string>, segments: seq<string>)
    requires NormalBody(done, false) && forall x | x in segments :: '/' !in x
    ensures Ups(Reduce(done, segments, false)) == Ups(done) + Climb(segments, |done| - Ups(done))
    decreases |segments|
  {
    if segments != [] {
      var x := segments[0];
      PushNormal(done, x, false);
      ReduceClimbs(Push(done, x, false), segments[1..]);
      if x != "" && x != "." {
        PushUps(done, x);
      }
    }
  }

  lemma PushUps(done: seq<string>, x: string)
    requires NormalBody(done, false) && x != "" && x != "."
    ensures var next := Push(done, x, false);
            if x != ".." then Ups(next) == Ups(done) && |next| == |done| + 1
            else if |done| > Ups(done) then Ups(next) == Ups(done) && |next| == |done| - 1
            else Ups(next) == Ups(done) + 1 && |next| == |done| + 1
  {
    UpsSnoc(done, x);
    if done != [] {
      UpsSnoc(done[..|done| - 1], done[|done| - 1]);
      assert done == done[..|done| - 1] + [done[|done| - 1]];
    }
  }

  /** Normalising keeps the climb of a relative path: its normal form starts with just as many "..". */
  lemma ClimbKept(p: string)
    requires !IsAbsolute(p)
    ensures exists b: seq<string> ::
              && NormalBody(b, false) && Normalize(p) == Framed(b, false, HasTrailingSlash(p))
              && Ups(b) == Climb(Segments(p), 0)
  {
    NormalizeFramed(p);
    SegmentsSlashFree(p);
    ReduceClimbs([], Segments(p));
  }

  /** Any number of "..". */
  function Dots(k: nat): (r: seq<string>)
    ensures |r| == k && forall i | 0 <= i < k :: r[i] == ".."
  {
    if k == 0 then [] else [".."] + Dots(k - 1)
  }

  /** A path that climbs and then goes down by names is plain, so joining a name only appends to it. */
  lemma ClimbingPlain(k: nat, names: seq<string>, f: string)
    requires names != [] && AllNames(names) && IsName(f)
    ensures var p := Glue(Dots(k) + names); Plain(p) && Join(p, f) == p + "/" + f
  {
    var b := Dots(k) + names;
    assert NormalBody(b, false) by {
      assert forall i | k <= i < |b| :: b[i] in names;
    }
    var p := Glue(b);
    assert p == Framed(b, false, false);
    NormalStays(p);
    FramedMeans([], b, false, false);
    NormalSegments(b, false);
    GlueEnds(b);
    assert p != "." by {
      SegmentsGlue(b);
      EmptyFramed();
      assert IsName(names[|names| - 1]) && b[|b| - 1] == names[|names| - 1];
    }
    JoinName(p, f);
  }

  /** One level up and down into a directory: what is joined stays there. */
  lemma ClimbingInstance(d: string, f: string)
    requires IsName(d) && IsName(f)
    ensures Join("../" + d, f) == "../" + d + "/" + f
  {
    assert Dots(1) + [d] == [".."] + [d] && Dots(0) == [];
    GlueBelow([".."], d);
    assert Glue([".."]) == ".." && ".." + "/" + d == "../" + d;
    ClimbingPlain(1, [d], f);
  }
}
