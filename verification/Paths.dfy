/** POSIX path joining and the URLs of public files, as Node's `path.join` computes them
    (used at http/httpServer.js:252, 258, 264-265, 299). */
module Paths {
  import opened Search

  // ----- Normalising -----

  /** The parts between slashes. */
  function Segments(s: string): (r: seq<string>)
    ensures r != []
  {
    if s == [] then [""]
    else
      var rest := Segments(s[1..]);
      if s[0] == '/' then [""] + rest else [[s[0]] + rest[0]] + rest[1..]
  }

  /** One more segment: empty ones and "." vanish, ".." takes back the one before it, if any. */
  function Push(done: seq<string>, x: string, absolute: bool): seq<string> {
    if x == "" || x == "." then done
    else if x == ".." then
      if done != [] && done[|done| - 1] != ".." then done[..|done| - 1]
      else if absolute then done
      else done + [x]
    else done + [x]
  }

  function Reduce(done: seq<string>, segments: seq<string>, absolute: bool): seq<string>
    decreases |segments|
  {
    if segments == [] then done else Reduce(Push(done, segments[0], absolute), segments[1..], absolute)
  }

  function Glue(segments: seq<string>): string {
    if segments == [] then ""
    else if |segments| == 1 then segments[0]
    else Glue(segments[..|segments| - 1]) + "/" + segments[|segments| - 1]
  }

  predicate IsAbsolute(p: string) { p != "" && p[0] == '/' }
  predicate HasTrailingSlash(p: string) { p != "" && p[|p| - 1] == '/' }

  function Normalize(p: string): string {
    if p == "" then "."
    else
      var absolute := IsAbsolute(p);
      var body := Glue(Reduce([], Segments(p), absolute));
      if body == "" then
        if absolute then "/" else if HasTrailingSlash(p) then "./" else "."
      else (if absolute then "/" else "") + body + (if HasTrailingSlash(p) then "/" else "")
  }

  function Join(a: string, b: string): string {
    if a == "" then Normalize(b) else if b == "" then Normalize(a) else Normalize(a + "/" + b)
  }

  // ----- Joining below a directory -----

  /** A normalised path that names something and has no trailing slash: neither "." nor "/". */
  predicate Plain(p: string) {
    p != "" && p != "." && !HasTrailingSlash(p) && Normalize(p) == p
  }

  /** A name that a directory can list. */
  predicate IsName(f: string) {
    f != "" && f != "." && f != ".." && '/' !in f
  }

  lemma {:induction false} SegmentsSlash(a: string, b: string)
    ensures Segments(a + "/" + b) == Segments(a) + Segments(b)
  {
    if a == [] {
      assert a + "/" + b == "/" + b;
      assert ("/" + b)[1..] == b;
    } else {
      assert (a + "/" + b)[1..] == a[1..] + "/" + b;
      SegmentsSlash(a[1..], b);
    }
  }

  lemma {:induction false} SegmentsName(f: string)
    requires '/' !in f
    ensures Segments(f) == [f]
  {
    if f != [] {
      SegmentsName(f[1..]);
      assert [f[0]] + f[1..] == f;
    }
  }

  lemma {:induction false} ReduceAppend(done: seq<string>, a: seq<string>, b: seq<string>, absolute: bool)
    ensures Reduce(done, a + b, absolute) == Reduce(Reduce(done, a, absolute), b, absolute)
    decreases |a|
  {
    if a == [] {
      assert a + b == b;
    } else {
      assert (a + b)[1..] == a[1..] + b;
      ReduceAppend(Push(done, a[0], absolute), a[1..], b, absolute);
    }
  }

  lemma ReduceBelow(p: string, f: string, absolute: bool)
    requires IsName(f)
    ensures Reduce([], Segments(p + "/" + f), absolute) == Reduce([], Segments(p), absolute) + [f]
  {
    SegmentsSlash(p, f);
    SegmentsName(f);
    ReduceAppend([], Segments(p), [f], absolute);
  }

  lemma GlueBelow(done: seq<string>, f: string)
    requires done != []
    ensures Glue(done + [f]) == Glue(done) + "/" + f
  {
    assert (done + [f])[..|done|] == done;
  }

  lemma PlainBody(p: string)
    requires Plain(p)
    ensures var done := Reduce([], Segments(p), IsAbsolute(p));
            done != [] && p == (if IsAbsolute(p) then "/" else "") + Glue(done)
  {
    assert p != "/";
  }

  lemma NormalizeBody(p: string, body: string)
    requires p != "" && body != "" && !HasTrailingSlash(p)
    requires Glue(Reduce([], Segments(p), IsAbsolute(p))) == body
    ensures Normalize(p) == (if IsAbsolute(p) then "/" else "") + body
  {
  }

  lemma JoinGlue(root: string, f: string)
    requires root != "" && IsName(f)
    ensures Join(root, f)
         == (if IsAbsolute(root) then "/" else "") + Glue(Reduce([], Segments(root), IsAbsolute(root)) + [f])
  {
    var s := root + "/" + f;
    assert s[|s| - 1] == f[|f| - 1] && IsAbsolute(s) == IsAbsolute(root);
    ReduceBelow(root, f, IsAbsolute(root));
    GlueOne(Reduce([], Segments(root), IsAbsolute(root)), f);
    NormalizeBody(s, Glue(Reduce([], Segments(s), IsAbsolute(s))));
  }

  lemma GlueOne(done: seq<string>, f: string)
    requires f != ""
    ensures Glue(done + [f]) == if done == [] then f else Glue(done) + "/" + f
    ensures Glue(done + [f]) != ""
  {
    if done == [] {
      assert [] + [f] == [f];
    } else {
      GlueBelow(done, f);
    }
  }

  /** Below a plain path a name is joined by one slash, and the result is plain again. */
  lemma JoinName(p: string, f: string)
    requires Plain(p) && IsName(f)
    ensures Join(p, f) == p + "/" + f && Plain(p + "/" + f)
  {
    var s := p + "/" + f;
    var pre, body := if IsAbsolute(p) then "/" else "", Glue(Reduce([], Segments(p), IsAbsolute(p)));
    JoinGlue(p, f);
    PlainBody(p);
    GlueOne(Reduce([], Segments(p), IsAbsolute(p)), f);
    Regroup(pre, body, f);
    LastOfName(p, f);
  }

  lemma Regroup(pre: string, body: string, f: string)
    ensures pre + (body + "/" + f) == pre + body + "/" + f
  {
  }

  lemma LastOfName(p: string, f: string)
    requires p != "" && IsName(f)
    ensures var s := p + "/" + f; !HasTrailingSlash(s) && s != "" && s != "."
  {
    var s := p + "/" + f;
    assert s[|s| - 1] == f[|f| - 1];
  }

  lemma ReduceDoubleSlash(a: string, b: string, absolute: bool)
    ensures Reduce([], Segments(a + "/" + ("/" + b)), absolute) == Reduce([], Segments(a + "/" + b), absolute)
  {
    SegmentsSlash(a, "/" + b);
    SegmentsSlash(a, b);
    ReduceAppend([], Segments(a), [""] + Segments(b), absolute);
    ReduceAppend([], Segments(a), Segments(b), absolute);
    assert ("/" + b)[1..] == b && ([""] + Segments(b))[1..] == Segments(b);
  }

  /** A doubled slash is dropped. */
  lemma NormalizeDoubleSlash(a: string, b: string)
    requires a != "" && b != ""
    ensures Normalize(a + "/" + ("/" + b)) == Normalize(a + "/" + b)
  {
    var s, t := a + "/" + ("/" + b), a + "/" + b;
    ReduceDoubleSlash(a, b, IsAbsolute(a));
    assert s[0] == a[0] == t[0] && s[|s| - 1] == b[|b| - 1] == t[|t| - 1];
    NormalizeSame(s, t);
  }

  lemma NormalizeSame(s: string, t: string)
    requires s != "" && t != "" && IsAbsolute(s) == IsAbsolute(t) && HasTrailingSlash(s) == HasTrailingSlash(t)
    requires Reduce([], Segments(s), IsAbsolute(s)) == Reduce([], Segments(t), IsAbsolute(t))
    ensures Normalize(s) == Normalize(t)
  {
  }

  // ----- Normalising adds no characters -----

  function Count(c: char, s: string): nat {
    if s == "" then 0 else (if s[0] == c then 1 else 0) + Count(c, s[1..])
  }

  function CountAll(c: char, segments: seq<string>): nat {
    if segments == [] then 0 else Count(c, segments[0]) + CountAll(c, segments[1..])
  }

  lemma {:induction false} CountAppend(c: char, a: string, b: string)
    ensures Count(c, a + b) == Count(c, a) + Count(c, b)
  {
    if a == "" {
      assert a + b == b;
    } else {
      assert (a + b)[1..] == a[1..] + b;
      CountAppend(c, a[1..], b);
    }
  }

  lemma {:induction false} CountAllSnoc(c: char, segments: seq<string>, x: string)
    ensures CountAll(c, segments + [x]) == CountAll(c, segments) + Count(c, x)
  {
    if segments == [] {
      assert [x][1..] == [];
    } else {
      assert (segments + [x])[1..] == segments[1..] + [x];
      CountAllSnoc(c, segments[1..], x);
    }
  }

  lemma {:induction false} CountSegments(c: char, s: string)
    requires c != '/'
    ensures CountAll(c, Segments(s)) == Count(c, s)
  {
    if s != "" {
      CountSegments(c, s[1..]);
      var rest := Segments(s[1..]);
      if s[0] == '/' {
        assert ([""] + rest)[1..] == rest;
      } else {
        assert ([[s[0]] + rest[0]] + rest[1..])[1..] == rest[1..];
        CountAppend(c, [s[0]], rest[0]);
        assert Count(c, [s[0]]) == if s[0] == c then 1 else 0;
      }
    }
  }

  lemma {:induction false} CountReduce(c: char, done: seq<string>, segments: seq<string>, absolute: bool)
    ensures CountAll(c, Reduce(done, segments, absolute)) <= CountAll(c, done) + CountAll(c, segments)
    decreases |segments|
  {
    if segments != [] {
      CountReduce(c, Push(done, segments[0], absolute), segments[1..], absolute);
      CountAllSnoc(c, done, segments[0]);
      if done != [] {
        CountAllSnoc(c, done[..|done| - 1], done[|done| - 1]);
        assert done == done[..|done| - 1] + [done[|done| - 1]];
      }
    }
  }

  lemma {:induction false} CountGlue(c: char, segments: seq<string>)
    requires c != '/'
    ensures Count(c, Glue(segments)) == CountAll(c, segments)
  {
    if |segments| > 1 {
      var front, x := segments[..|segments| - 1], segments[|segments| - 1];
      CountGlue(c, front);
      CountAllSnoc(c, front, x);
      assert segments == front + [x];
      CountAppend(c, Glue(front) + "/", x);
      CountAppend(c, Glue(front), "/");
      assert Count(c, "/") == 0;
    } else if |segments| == 1 {
      assert segments[1..] == [];
    }
  }

  lemma CountNormalized(c: char, p: string)
    requires c != '/' && c != '.'
    ensures Count(c, Normalize(p)) <= CountAll(c, Reduce([], Segments(p), IsAbsolute(p)))
  {
    var done := Reduce([], Segments(p), IsAbsolute(p));
    CountGlue(c, done);
    var pre, post := if IsAbsolute(p) then "/" else "", if HasTrailingSlash(p) then "/" else "";
    CountAppend(c, pre + Glue(done), post);
    CountAppend(c, pre, Glue(done));
    assert Count(c, pre) == 0 && Count(c, post) == 0;
    assert Count(c, ".") == 0 && Count(c, "/") == 0;
    assert "./" == "." + "/";
    CountAppend(c, ".", "/");
  }

  lemma CountNormalize(c: char, p: string)
    requires c != '/' && c != '.'
    ensures Count(c, Normalize(p)) <= Count(c, p)
  {
    CountSegments(c, p);
    CountReduce(c, [], Segments(p), IsAbsolute(p));
    CountNormalized(c, p);
  }

  // ----- URLs of public files -----

  /** JavaScript's `replace` of a string pattern by nothing: its first occurrence goes. */
  function RemoveFirst(s: string, pattern: string): string {
    var i := IndexOf(s, pattern);
    if i < 0 then s else s[..i] + s[i + |pattern|..]
  }

  /** What is around the first occurrence stays; where there is none, everything does. */
  lemma RemoveFirstMeans(x: string, pattern: string, y: string, s: string)
    ensures IndexOf(x + pattern + y, pattern) == |x| ==> RemoveFirst(x + pattern + y, pattern) == x + y
    ensures !Contains(s, pattern) ==> RemoveFirst(s, pattern) == s
  {
  }

  function Slashes(s: string): (r: string)
    ensures |r| == |s|
    ensures forall i | 0 <= i < |s| :: r[i] == if s[i] == '\\' then '/' else s[i]
  {
    if s == "" then "" else [if s[0] == '\\' then '/' else s[0]] + Slashes(s[1..])
  }

  /** The URL under which the file is registered. */
  function Url(root: string, filepath: string): string {
    Slashes(RemoveFirst(filepath, root))
  }

  /** `p` lies below `root`: a slash and at least one more character follow it. */
  predicate Below(root: string, p: string) {
    |p| > |root| + 1 && p[..|root|] == root && p[|root|] == '/'
  }

  /** The public path is cut off a file below it, and no file gets the URL "/". */
  lemma UrlBelow(root: string, p: string)
    requires Below(root, p)
    ensures Url(root, p) == Slashes(p[|root|..])
    ensures |Url(root, p)| == |p| - |root| >= 2 && Url(root, p)[0] == '/'
    ensures '\\' !in p[|root|..] ==> Url(root, p) == p[|root|..]
  {
    assert OccursAt(p, root, 0);
    assert IndexOf(p, root) == 0;
    assert p[..0] + p[0 + |root|..] == p[|root|..];
  }

  lemma BelowByName(root: string, f: string)
    requires f != ""
    ensures Below(root, root + "/" + f) && (root + "/" + f)[|root|..] == "/" + f
  {
    assert (root + "/" + f)[..|root|] == root;
  }

  lemma UrlOfTail(root: string, tail: string)
    requires tail != ""
    ensures Url(root, root + "/" + tail) == Slashes("/" + tail)
  {
    BelowByName(root, tail);
    UrlBelow(root, root + "/" + tail);
  }

  /** A registered URL leads back to its file, in that joining it to the public path gives the file's
      path again, exactly when no name below the public path holds a backslash. */
  lemma UrlInverse(root: string, p: string)
    requires Plain(root) && Plain(p) && Below(root, p)
    ensures Join(root, Url(root, p)) == p <==> '\\' !in p[|root|..]
  {
    var tail := p[|root|..];
    assert p == root + tail && |tail| > 1 && tail[0] == '/' by {
      assert p[..|root|] == root;
    }
    UrlBelow(root, p);
    UrlInverseTail(root, p, tail, Url(root, p));
  }

  lemma UrlInverseTail(root: string, p: string, tail: string, url: string)
    requires root != "" && |tail| > 1 && tail[0] == '/' && p == root + tail && Plain(p)
    requires url == Slashes(tail) && ('\\' !in tail ==> url == tail)
    ensures Join(root, url) == p <==> '\\' !in tail
  {
    if '\\' !in tail {
      JoinRelative(root, tail);
    } else {
      BackslashLost(root, tail);
    }
  }

  lemma JoinRelative(root: string, url: string)
    requires root != "" && |url| > 1 && url[0] == '/' && Plain(root + url)
    ensures Join(root, url) == root + url
  {
    var rel := url[1..];
    assert url == "/" + rel && root + url == root + "/" + rel;
    NormalizeDoubleSlash(root, rel);
  }

  lemma BackslashLost(root: string, tail: string)
    requires root != "" && tail != "" && '\\' in tail
    ensures Join(root, Slashes(tail)) != root + tail
  {
    var url := Slashes(tail);
    CountNormalize('\\', root + "/" + url);
    CountAppend('\\', root + "/", url);
    CountAppend('\\', root, "/");
    CountAppend('\\', root, tail);
    CountAbsent('\\', url);
    CountPresent('\\', tail);
    assert Count('\\', "/") == 0;
  }

  lemma {:induction false} CountAbsent(c: char, s: string)
    requires c !in s
    ensures Count(c, s) == 0
  {
    if s != "" {
      CountAbsent(c, s[1..]);
    }
  }

  lemma {:induction false} CountPresent(c: char, s: string)
    requires c in s
    ensures Count(c, s) > 0
  {
    if s[0] != c {
      CountPresent(c, s[1..]);
    }
  }

  /** Stripping the public path loses nothing. */
  lemma UrlInjective(root: string, p: string, q: string)
    requires Below(root, p) && Below(root, q) && '\\' !in p[|root|..] && '\\' !in q[|root|..]
    requires Url(root, p) == Url(root, q)
    ensures p == q
  {
    UrlBelow(root, p);
    UrlBelow(root, q);
    assert p == root + p[|root|..] && q == root + q[|root|..];
  }
}
