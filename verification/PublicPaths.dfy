/** For which public paths the URLs of files are the names on their way (http/httpServer.js:258, 264-265). */
module PublicPaths {
  import opened Search
  import opened Paths

  /** A segment that survives normalising. */
  predicate IsSegment(x: string) {
    x != "" && '/' !in x
  }

  ghost predicate AllSegments(segments: seq<string>) {
    forall x | x in segments :: IsSegment(x)
  }

  lemma {:induction false} SegmentsSlashFree(s: string)
    ensures forall x | x in Segments(s) :: '/' !in x
  {
    if s != "" {
      SegmentsSlashFree(s[1..]);
    }
  }

  lemma {:induction false} ReduceSegments(done: seq<string>, segments: seq<string>, absolute: bool)
    requires AllSegments(done) && forall x | x in segments :: '/' !in x
    ensures AllSegments(Reduce(done, segments, absolute))
    decreases |segments|
  {
    if segments != [] {
      ReduceSegments(Push(done, segments[0], absolute), segments[1..], absolute);
    }
  }

  /** Segments that are glued together neither start nor end with a slash. */
  lemma {:induction false} GlueEnds(segments: seq<string>)
    requires segments != [] && AllSegments(segments)
    ensures var s := Glue(segments); s != "" && s[0] != '/' && s[|s| - 1] != '/'
  {
    var x := segments[|segments| - 1];
    assert IsSegment(x);
    if |segments| > 1 {
      GlueEnds(segments[..|segments| - 1]);
    }
  }

  lemma ReducedEnds(root: string)
    ensures var done := Reduce([], Segments(root), IsAbsolute(root)); var s := Glue(done);
            done != [] ==> s != "" && s[0] != '/' && s[|s| - 1] != '/'
  {
    var done := Reduce([], Segments(root), IsAbsolute(root));
    SegmentsSlashFree(root);
    ReduceSegments([], Segments(root), IsAbsolute(root));
    if done != [] {
      GlueEnds(done);
    }
  }

  /** What stays of a directory's path when the slash and the name of a file in it follow. */
  function Stem(root: string): string {
    var absolute := IsAbsolute(root);
    var done := Reduce([], Segments(root), absolute);
    if done == [] then "" else (if absolute then "/" else "") + Glue(done)
  }

  lemma StemEnds(root: string)
    ensures var s := Stem(root);
            s != "" ==>
              && s[|s| - 1] != '/' && (s[0] == '/' <==> IsAbsolute(root))
              && (IsAbsolute(root) ==> |s| > 1 && s[1] != '/')
  {
    ReducedEnds(root);
  }

  lemma NormalizeStem(root: string)
    requires root != ""
    ensures Normalize(root) == if Stem(root) != "" then Stem(root) + (if HasTrailingSlash(root) then "/" else "")
                               else if IsAbsolute(root) then "/" else if HasTrailingSlash(root) then "./" else "."
  {
    ReducedEnds(root);
  }

  /** Joining a name to any path puts it behind the stem. */
  lemma JoinStem(root: string, f: string)
    requires root != "" && IsName(f)
    ensures Join(root, f) == if Stem(root) == "" && !IsAbsolute(root) then f else Stem(root) + "/" + f
  {
    var done := Reduce([], Segments(root), IsAbsolute(root));
    JoinGlue(root, f);
    StemGlue(root);
    GlueOne(done, f);
    if done != [] {
      Regroup(if IsAbsolute(root) then "/" else "", Glue(done), f);
      assert Stem(root) != "";
    }
  }

  lemma JoinBelowRoot(root: string, f: string)
    requires root != "" && Stem(root) == "" && IsAbsolute(root) && IsName(f)
    ensures Join(root, f) == "/" + f
  {
    JoinStem(root, f);
    assert "" + "/" + f == "/" + f;
  }

  lemma StemGlue(root: string)
    ensures var done := Reduce([], Segments(root), IsAbsolute(root));
            done != [] ==> Glue(done) != "" && Stem(root) == (if IsAbsolute(root) then "/" else "") + Glue(done)
  {
    ReducedEnds(root);
  }

  /** Every file directly in the public directory gets the URL of its name. */
  ghost predicate NamesAreUrls(root: string) {
    forall f | IsName(f) && '\\' !in f :: Url(root, Join(root, f)) == "/" + f
  }

  lemma PlainWorks(root: string)
    requires Plain(root)
    ensures NamesAreUrls(root)
  {
    forall f | IsName(f) && '\\' !in f
      ensures Url(root, Join(root, f)) == "/" + f
    {
      JoinName(root, f);
      BelowByName(root, f);
      UrlBelow(root, root + "/" + f);
    }
  }

  /** One character that a name can consist of, other than the second character of `s`. */
  function OtherName(s: string): (f: string)
    ensures IsName(f) && |f| == 1 && '\\' !in f && (|s| > 1 ==> f[0] != s[1])
  {
    if |s| > 1 && s[1] == 'x' then "y" else "x"
  }

  lemma RemovedLength(p: string, root: string)
    ensures |RemoveFirst(p, root)| == |p| - (if IndexOf(p, root) < 0 then 0 else |root|)
    ensures IndexOf(p, root) >= 0 ==> p[IndexOf(p, root)..][..|root|] == root
  {
  }

  /** Cutting the public path out of the path of a file leaves the file's name only if it is the stem. */
  lemma StemCutOut(root: string, stem: string, f: string)
    requires stem != "" && root != "" && IsName(f) && |f| == 1 && (|stem| > 1 ==> f[0] != stem[1])
    requires stem[|stem| - 1] != '/' && (stem[0] == '/' ==> |stem| > 1 && stem[1] != '/')
    requires stem[0] == '/' <==> root[0] == '/'
    requires Count('\\', stem) <= Count('\\', root)
    requires Url(root, stem + "/" + f) == "/" + f
    ensures root == stem
  {
    var p := stem + "/" + f;
    var i := IndexOf(p, root);
    RemovedLength(p, root);
    assert |root| == |stem| && 0 <= i <= 2;
    if i > 0 {
      LaterCut(root, stem, f, i);
    } else {
      assert root == p[..|stem|] == stem;
    }
  }

  lemma LaterCut(root: string, stem: string, f: string, i: nat)
    requires stem != "" && |root| == |stem| && IsName(f) && |f| == 1 && (|stem| > 1 ==> f[0] != stem[1])
    requires stem[0] == '/' ==> |stem| > 1 && stem[1] != '/'
    requires stem[0] == '/' <==> root[0] == '/'
    requires Count('\\', stem) <= Count('\\', root)
    requires 1 <= i <= 2 && (stem + "/" + f)[i..i + |root|] == root
    ensures var p := stem + "/" + f; Slashes(p[..i] + p[i + |root|..]) != "/" + f
  {
    var p := stem + "/" + f;
    var cut := p[..i] + p[i + |root|..];
    assert root[0] == p[i..i + |root|][0] == p[i];
    assert cut[0] == stem[0];
    if i == 1 {
      assert root == stem[1..] + "/";
      CutFromOne(stem);
    } else {
      assert cut[1] == p[1] == if |stem| > 1 then stem[1] else '/';
      assert Slashes(cut)[1] != f[0];
    }
  }

  lemma CutFromOne(stem: string)
    requires stem != "" && Count('\\', stem) <= Count('\\', stem[1..] + "/")
    ensures stem[0] != '\\'
  {
    CountAppend('\\', stem[1..], "/");
    assert Count('\\', "/") == 0;
  }

  /** A public path that is not plain, but has a stem, gives some file a URL that is not its name. */
  lemma OtherPathFails(root: string)
    requires root != "" && Stem(root) != "" && !Plain(root)
    ensures !NamesAreUrls(root)
  {
    var f := OtherName(Stem(root));
    JoinStem(root, f);
    StemEnds(root);
    NormalizeStem(root);
    StemCount(root);
    if Url(root, Stem(root) + "/" + f) == "/" + f {
      StemCutOut(root, Stem(root), f);
      DotStem();
    }
  }

  lemma DotStem()
    ensures Stem(".") == ""
  {
    SegmentsName(".");
    assert ["."][1..] == [];
  }

  lemma StemCount(root: string)
    requires root != "" && Stem(root) != ""
    ensures Count('\\', Stem(root)) <= Count('\\', root)
  {
    NormalizeStem(root);
    CountNormalize('\\', root);
    CountAppend('\\', Stem(root), if HasTrailingSlash(root) then "/" else "");
  }

  /** A public path that normalises to "/" and has no second slash is cut out of the name it starts. */
  lemma RootCutOut(root: string)
    requires root != "" && Stem(root) == "" && IsAbsolute(root) && '/' !in root[1..]
    ensures !NamesAreUrls(root)
  {
    OnlyDots(root);
    DotsThenName(root[1..]);
    NameCutOut(root, root[1..] + "xx");
  }

  lemma NameCutOut(root: string, f: string)
    requires root != "" && Stem(root) == "" && IsAbsolute(root)
    requires IsName(f) && '\\' !in f && root <= "/" + f
    ensures !NamesAreUrls(root)
  {
    JoinBelowRoot(root, f);
    StartCutOut(root, "/" + f);
  }

  lemma StartCutOut(root: string, p: string)
    requires root != "" && root <= p
    ensures |Url(root, p)| < |p| == |Slashes(p)|
  {
    assert p[0..0 + |root|] == root && OccursAt(p, root, 0);
    RemovedLength(p, root);
  }

  /** A public path that normalises to "/" and has a second slash occurs in no path. */
  lemma SecondSlashWorks(root: string)
    requires root != "" && Stem(root) == "" && IsAbsolute(root) && '/' in root[1..]
    ensures NamesAreUrls(root)
  {
    forall f | IsName(f) && '\\' !in f
      ensures Url(root, Join(root, f)) == "/" + f
    {
      JoinBelowRoot(root, f);
      SlashAgain(root, f);
    }
  }

  lemma OnlyDots(root: string)
    requires root != "" && Stem(root) == "" && IsAbsolute(root) && '/' !in root[1..]
    ensures root[1..] == "" || root[1..] == "." || root[1..] == ".."
  {
    var t := root[1..];
    assert root == "" + "/" + t;
    SegmentsSlash("", t);
    SegmentsName(t);
    StemGlue(root);
    assert ([""] + [t])[1..] == [t] && [t][1..] == [];
    assert Reduce([], [t], true) == Push([], t, true);
  }

  lemma DotsThenName(t: string)
    requires t == "" || t == "." || t == ".."
    ensures IsName(t + "xx") && '\\' !in t + "xx"
  {
    assert (t + "xx")[|t|] == 'x';
  }

  lemma SlashAgain(root: string, f: string)
    requires root != "" && '/' in root[1..] && IsName(f) && '\\' !in f
    ensures Url(root, "/" + f) == "/" + f
  {
    var p, k :| p == "/" + f && 1 <= k < |root| && root[k] == '/';
    forall i: nat
      ensures !OccursAt(p, root, i)
    {
      if i + |root| <= |p| {
        assert p[i..i + |root|][0] == p[i] && p[i..i + |root|][k] == p[i + k];
      }
    }
    assert IndexOf(p, root) < 0;
  }

  lemma NoStemFails(root: string)
    requires (root == "" || Stem(root) == "") && !IsAbsolute(root)
    ensures !NamesAreUrls(root)
  {
    if root == "" {
      SegmentsName("x");
      assert Reduce([], ["x"], false) == ["x"];
      assert Join("", "x") == "x";
    } else {
      JoinStem(root, "x");
    }
    assert Url(root, Join(root, "x")) != "/" + "x";
  }

  /** The URLs of files in the public directory itself are their names exactly when the public path is plain,
      or stands for "/" and has a second slash. */
  lemma NamesAreUrlsExactly(root: string)
    ensures NamesAreUrls(root) <==> Plain(root) || (Normalize(root) == "/" && '/' in root[1..])
  {
    if root != "" {
      NormalizeStem(root);
      StemEnds(root);
    }
    if Plain(root) {
      PlainWorks(root);
    } else if root == "" || (Stem(root) == "" && !IsAbsolute(root)) {
      NoStemFails(root);
    } else if Stem(root) == "" {
      if '/' in root[1..] {
        SecondSlashWorks(root);
      } else {
        RootCutOut(root);
      }
    } else {
      OtherPathFails(root);
    }
  }

  // ----- Segments of what is glued -----

  lemma {:induction false} SegmentsGlue(segments: seq<string>)
    requires segments != [] && AllSegments(segments)
    ensures Segments(Glue(segments)) == segments
  {
    var front, x := segments[..|segments| - 1], segments[|segments| - 1];
    assert IsSegment(x);
    SegmentsName(x);
    assert segments == front + [x];
    if front != [] {
      SegmentsGlue(front);
      SegmentsSlash(Glue(front), x);
    }
  }

  lemma SegmentsLed(s: string)
    ensures Segments("/" + s) == [""] + Segments(s)
  {
    assert ("/" + s)[1..] == s;
  }

  lemma SegmentsTrailed(s: string)
    ensures Segments(s + "/") == Segments(s) + [""]
  {
    SegmentsSlash(s, "");
    assert s + "/" + "" == s + "/";
  }

  lemma BelowRootPlain(name: string)
    requires IsName(name)
    ensures Plain("/" + name) && Reduce([], Segments("/" + name), true) == [name]
  {
    var root := "/" + name;
    assert "" + "/" + name == root;
    SegmentsSlash("", name);
    SegmentsName(name);
    assert ([""] + [name])[1..] == [name] && [name][1..] == [];
    assert Reduce([], [name], true) == Push([], name, true) == [name];
    assert root[|root| - 1] == name[|name| - 1];
    NormalizeBody(root, name);
  }

  // ----- Files at any depth -----

  ghost predicate AllNames(names: seq<string>) {
    forall f | f in names :: IsName(f)
  }

  /** The path of a file, as the walk makes it from the names on the way. */
  function PathOf(root: string, names: seq<string>): string {
    if names == [] then root else Join(PathOf(root, names[..|names| - 1]), names[|names| - 1])
  }

  /** Every file below the public directory gets the URL of the names on its way. */
  ghost predicate FilesAreUrls(root: string) {
    forall names | names != [] && AllNames(names) :: Url(root, PathOf(root, names)) == Slashes("/" + Glue(names))
  }

  /** From a path that is "" or plain and is followed by a slash, names are joined by slashes. */
  lemma {:induction false} PathBelow(root: string, lead: string, names: seq<string>)
    requires names != [] && AllNames(names)
    requires forall f | IsName(f) :: Join(root, f) == lead + "/" + f && Plain(lead + "/" + f)
    ensures PathOf(root, names) == lead + "/" + Glue(names) && Plain(lead + "/" + Glue(names))
  {
    var front, f := names[..|names| - 1], names[|names| - 1];
    assert names == front + [f] && IsName(f);
    if front != [] {
      PathBelow(root, lead, front);
      JoinName(PathOf(root, front), f);
      GlueBelow(front, f);
      Regroup(lead + "/", Glue(front), f);
    } else {
      assert PathOf(root, []) == root && Glue([f]) == f;
    }
  }

  lemma PlainFiles(root: string)
    requires Plain(root)
    ensures FilesAreUrls(root)
  {
    forall f | IsName(f)
      ensures Join(root, f) == root + "/" + f && Plain(root + "/" + f)
    {
      JoinName(root, f);
    }
    forall names | names != [] && AllNames(names)
      ensures Url(root, PathOf(root, names)) == Slashes("/" + Glue(names))
    {
      PathBelow(root, root, names);
      NamesGlued(names);
      UrlOfTail(root, Glue(names));
    }
  }

  lemma NamesGlued(names: seq<string>)
    requires names != [] && AllNames(names)
    ensures AllSegments(names) && Glue(names) != "" && Segments("/" + Glue(names)) == [""] + names
  {
    assert forall f | f in names :: IsName(f);
    GlueEnds(names);
    SegmentsGlue(names);
    SegmentsLed(Glue(names));
  }

  lemma RootPath(root: string, f: string)
    requires root != "" && Stem(root) == "" && IsAbsolute(root) && IsName(f)
    ensures Join(root, f) == "/" + f && Plain("/" + f)
  {
    JoinBelowRoot(root, f);
    BelowRootPlain(f);
  }

  lemma NoLead(s: string)
    ensures "" + "/" + s == "/" + s
  {
  }

  /** Files below "/", however that is written. */
  lemma RootPaths(root: string, names: seq<string>)
    requires root != "" && Stem(root) == "" && IsAbsolute(root) && names != [] && AllNames(names)
    ensures PathOf(root, names) == "/" + Glue(names)
  {
    forall f | IsName(f)
      ensures Join(root, f) == "" + "/" + f && Plain("" + "/" + f)
    {
      RootPath(root, f);
      NoLead(f);
    }
    PathBelow(root, "", names);
    NoLead(Glue(names));
  }

  /** One name below "/" and up again. */
  predicate UpFromName(root: string) {
    |root| > 4 && root[0] == '/' && root[|root| - 3..] == "/.." && IsName(root[1..|root| - 3])
  }

  lemma UpFromNameFails(root: string)
    requires Stem(root) == "" && UpFromName(root)
    ensures !FilesAreUrls(root)
  {
    DotsThenName("..");
    UpAndOn(root, root[1..|root| - 3], ".." + "xx");
  }

  lemma UpAndOn(root: string, d: string, f: string)
    requires Stem(root) == "" && UpFromName(root) && d == root[1..|root| - 3]
    requires IsName(f) && |f| > 2 && f[..2] == ".."
    ensures !FilesAreUrls(root)
  {
    var names := [d, f];
    assert names != [] && AllNames(names);
    RootPaths(root, names);
    GlueTwo(d, f);
    UpPrefix(root, d, f);
    StartCutOut(root, "/" + Glue(names));
  }

  lemma UpPrefix(root: string, d: string, f: string)
    requires UpFromName(root) && d == root[1..|root| - 3] && |f| > 2 && f[..2] == ".."
    ensures root <= "/" + (d + "/" + f)
  {
    assert f == ".." + f[2..];
    assert "/" + (d + "/" + f) == root + f[2..];
  }

  lemma GlueTwo(d: string, f: string)
    ensures Glue([d, f]) == d + "/" + f
  {
    assert [d, f] == [d] + [f] && Glue([d]) == d;
    GlueBelow([d], f);
  }

  lemma {:induction false} LastSlash(s: string) returns (a: string, b: string)
    requires '/' in s
    ensures s == a + "/" + b && '/' !in b
  {
    if s[|s| - 1] == '/' {
      a, b := s[..|s| - 1], "";
    } else {
      a, b := LastSlash(s[..|s| - 1]);
      b := b + [s[|s| - 1]];
    }
  }

  lemma {:induction false} ReduceNames(done: seq<string>, names: seq<string>, absolute: bool)
    requires AllNames(names)
    ensures Reduce(done, names, absolute) == done + names
    decreases |names|
  {
    if names != [] {
      assert IsName(names[0]);
      ReduceNames(done + [names[0]], names[1..], absolute);
    }
  }

  lemma OneSegment(a: string)
    requires |Segments(a)| == 1
    ensures Segments(a) == [a]
  {
    if '/' in a {
      var u, v := LastSlash(a);
      SegmentsSlash(u, v);
    } else {
      SegmentsName(a);
    }
  }

  lemma ReduceLed(names: seq<string>, b: string)
    requires AllNames(names)
    ensures Reduce([], [""] + names + [b], true) == Push(names, b, true)
  {
    ReduceAppend([], [""] + names, [b], true);
    ReduceNames([], names, true);
    assert ([""] + names)[1..] == names && [b][1..] == [] && [] + names == names;
    assert Reduce(names, [b], true) == Reduce(Push(names, b, true), [], true);
  }

  lemma SegmentsLedAndOne(a: string, b: string)
    requires '/' !in b
    ensures Segments("/" + a + "/" + b) == [""] + Segments(a) + [b]
  {
    SegmentsLed(a);
    SegmentsSlash("/" + a, b);
    SegmentsName(b);
  }

  /** Only one name and a ".." reduce to nothing. */
  lemma NamesAndOne(root: string, a: string, b: string)
    requires root == "/" + a + "/" + b && '/' !in b && AllNames(Segments(a)) && Stem(root) == ""
    ensures UpFromName(root)
  {
    var names := Segments(a);
    SegmentsLedAndOne(a, b);
    ReduceLed(names, b);
    StemGlue(root);
    assert Push(names, b, true) == [];
    OneSegment(a);
    assert a == names[0] && IsName(a) && b == "..";
  }

  /** The inner part of what occurs in a path of names consists of names. */
  lemma InnerNames(p: string, names: seq<string>, x: string, a: string, z: string)
    requires AllNames(names) && Segments(p) == [""] + names && p == x + "/" + (a + "/" + z)
    ensures AllNames(Segments(a))
  {
    SegmentsSlash(x, a + "/" + z);
    SegmentsSlash(a, z);
    var before, inner := Segments(x), Segments(a);
    assert [""] + names == before + (inner + Segments(z));
    forall i | 0 <= i < |inner|
      ensures inner[i] in names
    {
      assert inner[i] == (before + (inner + Segments(z)))[|before| + i] == names[|before| + i - 1];
    }
  }

  lemma AroundOccurrence(p: string, root: string, i: nat, a: string, b: string)
    requires OccursAt(p, root, i) && root == "/" + a + "/" + b
    ensures p == p[..i] + "/" + (a + "/" + (b + p[i + |root|..]))
  {
    assert p == p[..i] + p[i..i + |root|] + p[i + |root|..];
  }

  lemma OccursNamed(root: string, names: seq<string>, i: nat)
    requires root != "" && IsAbsolute(root) && Stem(root) == "" && '/' in root[1..]
    requires names != [] && AllNames(names) && OccursAt("/" + Glue(names), root, i)
    ensures UpFromName(root)
  {
    var p := "/" + Glue(names);
    var a, b := LastSlash(root[1..]);
    assert root == "/" + a + "/" + b;
    AroundOccurrence(p, root, i, a, b);
    NamesGlued(names);
    InnerNames(p, names, p[..i], a, b + p[i + |root|..]);
    NamesAndOne(root, a, b);
  }

  lemma NotCut(root: string, p: string)
    requires IndexOf(p, root) < 0
    ensures Url(root, p) == Slashes(p)
  {
  }

  lemma NoOccurrence(root: string, names: seq<string>)
    requires root != "" && IsAbsolute(root) && Stem(root) == "" && '/' in root[1..] && !UpFromName(root)
    requires names != [] && AllNames(names)
    ensures Url(root, "/" + Glue(names)) == Slashes("/" + Glue(names))
  {
    var i := IndexOf("/" + Glue(names), root);
    if i >= 0 {
      OccursNamed(root, names, i);
    }
    NotCut(root, "/" + Glue(names));
  }

  /** Every file below the public directory gets the URL of the names on its way exactly when the public path
      is plain, or stands for "/", has a second slash and is not one name and up again. */
  lemma PublicPathExactly(root: string)
    ensures FilesAreUrls(root)
       <==> Plain(root) || (Normalize(root) == "/" && '/' in root[1..] && !UpFromName(root))
  {
    NamesAreUrlsExactly(root);
    if Plain(root) {
      PlainFiles(root);
    } else if NamesAreUrls(root) {
      RootStem(root);
      if UpFromName(root) {
        UpFromNameFails(root);
      } else {
        forall names | names != [] && AllNames(names)
          ensures Url(root, PathOf(root, names)) == Slashes("/" + Glue(names))
        {
          RootPaths(root, names);
          NoOccurrence(root, names);
        }
      }
    } else {
      OneNameFails(root);
    }
  }

  lemma RootStem(root: string)
    requires Normalize(root) == "/"
    ensures root != "" && Stem(root) == "" && IsAbsolute(root)
  {
    if root != "" {
      NormalizeStem(root);
      StemEnds(root);
      if Stem(root) != "" {
        LoneSlash(Stem(root), if HasTrailingSlash(root) then "/" else "");
      }
    }
  }

  lemma LoneSlash(a: string, b: string)
    requires a + b == "/"
    ensures a == "" || a == "/"
  {
    if a != "" {
      assert (a + b)[0] == a[0];
    }
  }

  lemma OneNameFails(root: string)
    requires !NamesAreUrls(root)
    ensures !FilesAreUrls(root)
  {
    var f :| IsName(f) && '\\' !in f && Url(root, Join(root, f)) != "/" + f;
    assert [f][..0] == [] && PathOf(root, []) == root;
    assert AllNames([f]) && Glue([f]) == f && PathOf(root, [f]) == Join(root, f);
    assert Slashes("/" + f) == "/" + f;
  }
}
