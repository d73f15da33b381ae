/** What a directory tree of public files registers (http/httpServer.js:250-289). */
module PublicFiles {
  import opened Search
  import opened Paths
  import opened DirectoryTrees

  // ----- The index -----

  /** The map after the files were added, in order. */
  function Indexed(m: map<string, string>, root: string, files: seq<string>): map<string, string> {
    if files == [] then m
    else
      var f := files[|files| - 1];
      Indexed(m, root, files[..|files| - 1])[Url(root, f) := f]
  }

  lemma IndexedSnoc(m: map<string, string>, root: string, files: seq<string>, f: string)
    ensures Indexed(m, root, files + [f]) == Indexed(m, root, files)[Url(root, f) := f]
  {
    assert (files + [f])[..|files|] == files;
  }

  /** Every URL of the index is that of a registered file leading to such a file, or was there before. */
  lemma {:induction false} IndexedEntries(m: map<string, string>, root: string, files: seq<string>, u: string)
    ensures u in Indexed(m, root, files) <==> u in m || exists f :: f in files && Url(root, f) == u
    ensures u in Indexed(m, root, files) ==>
              (u in m && m[u] == Indexed(m, root, files)[u] && forall f | f in files :: Url(root, f) != u)
              || (Indexed(m, root, files)[u] in files && Url(root, Indexed(m, root, files)[u]) == u)
  {
    if files != [] {
      var front, last := files[..|files| - 1], files[|files| - 1];
      IndexedEntries(m, root, front, u);
      assert files == front + [last];
      assert forall f :: f in files <==> f in front || f == last;
    }
  }

  // ----- Exactness -----

  /** Different files have different URLs. */
  ghost predicate UrlsDiffer(root: string, files: multiset<string>) {
    forall f, g | f in files && g in files && Url(root, f) == Url(root, g) :: f == g
  }

  /** The index of a walk: "/" leads to the index file, every other URL to the file it belongs to. */
  ghost predicate IndexesFiles(m: map<string, string>, root: string, index: string, files: multiset<string>) {
    && "/" in m && m["/"] == index
    && (forall u | u in m && u != "/" :: m[u] in files && Url(root, m[u]) == u)
    && (forall f | f in files :: Url(root, f) in m && Url(root, f) != "/")
  }

  lemma WalkIndexes(root: string, index: string, es: seq<Entry>, registered: seq<string>)
    requires Plain(root) && Listable(es) && multiset(registered) == Files(root, es)
    ensures IndexesFiles(Indexed(map["/" := index], root, registered), root, index, Files(root, es))
  {
    var start := map["/" := index];
    forall u
      ensures u in Indexed(start, root, registered) && u != "/" ==>
                var f := Indexed(start, root, registered)[u]; f in Files(root, es) && Url(root, f) == u
    {
      IndexedEntries(start, root, registered, u);
      assert forall f :: f in registered ==> f in multiset(registered);
    }
    forall f | f in Files(root, es)
      ensures Url(root, f) in Indexed(start, root, registered) && Url(root, f) != "/"
    {
      assert f in multiset(registered);
      FileFacts(root, es, f);
      UrlBelow(root, f);
      IndexedEntries(start, root, registered, Url(root, f));
    }
    SlashKept(start, root, registered, es);
  }

  lemma SlashKept(m: map<string, string>, root: string, registered: seq<string>, es: seq<Entry>)
    requires Plain(root) && Listable(es) && multiset(registered) == Files(root, es) && "/" in m
    ensures "/" in Indexed(m, root, registered) && Indexed(m, root, registered)["/"] == m["/"]
  {
    IndexedEntries(m, root, registered, "/");
    forall f | f in registered
      ensures Url(root, f) != "/"
    {
      assert f in multiset(registered);
      FileFacts(root, es, f);
      UrlBelow(root, f);
    }
  }

  lemma FileIndexed(m: map<string, string>, root: string, files: seq<string>, f: string)
    requires f in multiset(files)
    ensures var u := Url(root, f); var g := Indexed(m, root, files);
            u in g && g[u] in multiset(files) && Url(root, g[u]) == u
  {
    IndexedEntries(m, root, files, Url(root, f));
  }

  /** What a walk registers, whatever the public path. Every file is reached by its own URL exactly when no
      two files share one. Below a plain public path every URL but "/" belongs to a file, and distinct URLs
      mean one entry for each regular file and one more, for "/". */
  lemma IndexIsExact(root: string, index: string, es: seq<Entry>, registered: seq<string>)
    requires multiset(registered) == Files(root, es)
    ensures var m := Indexed(map["/" := index], root, registered);
            && (forall f | f in Files(root, es) :: Url(root, f) in m)
            && ((forall f | f in Files(root, es) :: m[Url(root, f)] == f) <==> UrlsDiffer(root, Files(root, es)))
            && (Plain(root) && Listable(es) ==>
                  && IndexesFiles(m, root, index, Files(root, es))
                  && (UrlsDiffer(root, Files(root, es)) ==> |m| == |Files(root, es)| + 1))
  {
    var m, files := Indexed(map["/" := index], root, registered), Files(root, es);
    forall f | f in files
      ensures Url(root, f) in m && m[Url(root, f)] in files && Url(root, m[Url(root, f)]) == Url(root, f)
    {
      FileIndexed(map["/" := index], root, registered, f);
    }
    if Plain(root) && Listable(es) {
      WalkIndexes(root, index, es, registered);
      IndexIsAsLarge(root, index, es, registered);
    }
  }

  lemma IndexIsAsLarge(root: string, index: string, es: seq<Entry>, registered: seq<string>)
    requires Plain(root) && Listable(es) && multiset(registered) == Files(root, es)
    ensures UrlsDiffer(root, Files(root, es)) ==>
              |Indexed(map["/" := index], root, registered)| == |Files(root, es)| + 1
  {
    if UrlsDiffer(root, Files(root, es)) {
      RegisteredOnce(root, es, registered);
      IndexSize(map["/" := index], root, registered);
    }
  }

  lemma RegisteredOnce(root: string, es: seq<Entry>, registered: seq<string>)
    requires Plain(root) && Listable(es) && multiset(registered) == Files(root, es)
    requires UrlsDiffer(root, Files(root, es))
    ensures forall i | 0 <= i < |registered| :: Url(root, registered[i]) != "/"
    ensures forall i, j | 0 <= i < j < |registered| :: Url(root, registered[i]) != Url(root, registered[j])
  {
    forall i | 0 <= i < |registered|
      ensures registered[i] in Files(root, es) && Url(root, registered[i]) != "/"
    {
      assert registered[i] in multiset(registered);
      FileFacts(root, es, registered[i]);
      UrlBelow(root, registered[i]);
    }
    forall i, j | 0 <= i < j < |registered|
      ensures registered[i] != registered[j]
    {
      TwiceCounted(registered, i, j);
      FileFacts(root, es, registered[i]);
    }
  }

  lemma TwiceCounted(s: seq<string>, i: nat, j: nat)
    requires i < j < |s|
    ensures s[i] == s[j] ==> multiset(s)[s[i]] >= 2
  {
    assert s == s[..j] + s[j..];
    assert s[..j][i] == s[i] && s[j..][0] == s[j];
    assert s[i] in multiset(s[..j]) && s[j] in multiset(s[j..]);
  }

  /** With distinct URLs the index grows by one entry for each file. */
  lemma {:induction false} IndexSize(m: map<string, string>, root: string, files: seq<string>)
    requires forall u | u in m :: u == "/"
    requires forall i | 0 <= i < |files| :: Url(root, files[i]) != "/"
    requires forall i, j | 0 <= i < j < |files| :: Url(root, files[i]) != Url(root, files[j])
    ensures |Indexed(m, root, files)| == |m| + |files|
    decreases |files|
  {
    if files != [] {
      var front, last := files[..|files| - 1], files[|files| - 1];
      IndexSize(m, root, front);
      IndexedEntries(m, root, front, Url(root, last));
      assert Indexed(m, root, files).Keys == Indexed(m, root, front).Keys + {Url(root, last)};
    }
  }

  /** Names without backslashes make all URLs differ. */
  lemma NoBackslashUrlsDiffer(root: string, es: seq<Entry>)
    requires Plain(root) && Listable(es)
    requires forall f | f in Files(root, es) :: |root| <= |f| && '\\' !in f[|root|..]
    ensures UrlsDiffer(root, Files(root, es))
  {
    forall f, g | f in Files(root, es) && g in Files(root, es) && Url(root, f) == Url(root, g)
      ensures f == g
    {
      FileFacts(root, es, f);
      FileFacts(root, es, g);
      UrlInjective(root, f, g);
    }
  }

  /** Of the files that share a URL, the index keeps the one registered last. */
  lemma {:induction false} LostExactly(m: map<string, string>, root: string, files: seq<string>, i: nat)
    requires i < |files| && files[i] !in files[i + 1..]
    ensures Url(root, files[i]) in Indexed(m, root, files)
    ensures Indexed(m, root, files)[Url(root, files[i])] == files[i]
       <==> forall g | g in files[i + 1..] :: Url(root, g) != Url(root, files[i])
    decreases |files|
  {
    var n := |files| - 1;
    IndexedSnoc(m, root, files[..n], files[n]);
    assert files[..n] + [files[n]] == files;
    if i < n {
      LaterFiles(root, files, i, Url(root, files[i]));
      LostExactly(m, root, files[..n], i);
    }
  }

  lemma LaterFiles(root: string, files: seq<string>, i: nat, u: string)
    requires i + 1 < |files|
    ensures var n := |files| - 1;
            && files[i + 1..] == files[..n][i + 1..] + [files[n]]
            && ((forall g | g in files[i + 1..] :: Url(root, g) != u)
                <==> Url(root, files[n]) != u && forall g | g in files[..n][i + 1..] :: Url(root, g) != u)
  {
    var n := |files| - 1;
    assert files[i + 1..] == files[..n][i + 1..] + [files[n]];
  }

  /** In the index of a walk, a file is reached by its own URL exactly when no file that the walk sees later
      has the same URL. */
  lemma KeepsLast(root: string, index: string, es: seq<Entry>, i: nat)
    requires Plain(root) && Listable(es) && i < |Registration(root, es)|
    ensures var files := Registration(root, es); var m := Indexed(map["/" := index], root, files);
            && Url(root, files[i]) in m
            && (m[Url(root, files[i])] == files[i]
                <==> forall g | g in files[i + 1..] :: Url(root, g) != Url(root, files[i]))
  {
    NotAgain(root, es, i);
    LostExactly(map["/" := index], root, Registration(root, es), i);
  }

  lemma NotAgain(root: string, es: seq<Entry>, i: nat)
    requires Plain(root) && Listable(es) && i < |Registration(root, es)|
    ensures var files := Registration(root, es); files[i] !in files[i + 1..]
  {
    var files := Registration(root, es);
    RegistrationIsFiles(root, es);
    FileFacts(root, es, files[i]);
    forall j | i < j < |files|
      ensures files[j] != files[i]
    {
      TwiceCounted(files, i, j);
    }
  }

  /** A directory `d` with a file `f` in it, next to a file `d\f`. */
  function BackslashTree(d: string, f: string): seq<Entry> {
    [Entry(d, Dir([Entry(f, File)])), Entry(d + "\\" + f, File)]
  }

  function Beside(root: string, d: string, f: string): string { root + "/" + (d + "\\" + f) }
  function Inside(root: string, d: string, f: string): string { root + "/" + d + "/" + f }

  /** In such a tree the two files share a URL. The walk sees the one in the directory last, and the
      index then has the other one under no URL at all. */
  lemma SharedUrl(root: string, index: string, d: string, f: string)
    requires Plain(root) && IsName(d) && IsName(f) && '\\' !in d && '\\' !in f
    ensures var es := BackslashTree(d, f); var lost, kept := Beside(root, d, f), Inside(root, d, f);
            var m := Indexed(map["/" := index], root, Registration(root, es));
            && Listable(es) && Registration(root, es) == [lost, kept]
            && Url(root, lost) == Url(root, kept) && !UrlsDiffer(root, Files(root, es))
            && Url(root, lost) in m && m[Url(root, lost)] == kept && (index != lost ==> lost !in m.Values)
  {
    var lost, kept := Beside(root, d, f), Inside(root, d, f);
    BackslashListable(d, f);
    BackslashOrder(root, d, f);
    BackslashUrls(root, d, f);
    RegistrationIsFiles(root, BackslashTree(d, f));
    Collision(root, index, lost, kept, Files(root, BackslashTree(d, f)));
  }

  /** Without a plain public path even names without backslashes can share a URL: below "./f" the path of the
      file "d./f/g" holds the public path in its middle, and without that it is the path of "d/g". */
  lemma OffPlainShares(f: string, d: string, g: string)
    requires IsName(f) && '.' !in f + d + g && '\\' !in f + d + g
    ensures var root, x, y := "./" + f, f + "/" + d, "/" + g;
            !Plain(root) && Url(root, x + root + y) == Url(root, x + y) == x + y
  {
    var root, x, y := "./" + f, f + "/" + d, "/" + g;
    DotFirstNotPlain(f);
    assert '.' !in x + y && '\\' !in x + y;
    UrlAround(root, x, y);
  }

  lemma UrlAround(root: string, x: string, y: string)
    requires root != "" && root[0] !in x + y && '\\' !in x + y
    ensures Url(root, x + root + y) == Url(root, x + y) == x + y
  {
    InTheMiddle(x, root, y);
    FirstInside(x + root + y, root, |x|);
    RemoveFirstMeans(x, root, y, x + y);
    NotEarlier(x + y, root, |x + y|);
    NoBackslash(x + y);
  }

  lemma InTheMiddle(x: string, pattern: string, y: string)
    requires pattern != "" && pattern[0] !in x + y
    ensures var s := x + pattern + y;
            OccursAt(s, pattern, |x|) && forall k | 0 <= k < |x| :: s[k] != pattern[0]
    ensures forall k | 0 <= k < |x + y| :: (x + y)[k] != pattern[0]
  {
    assert forall k | 0 <= k < |x| :: (x + pattern + y)[k] == (x + y)[k];
  }

  lemma NoBackslash(s: string)
    requires '\\' !in s
    ensures Slashes(s) == s
  {
  }

  lemma FirstInside(s: string, pattern: string, i: nat)
    requires pattern != "" && OccursAt(s, pattern, i) && forall k | 0 <= k < i :: s[k] != pattern[0]
    ensures IndexOf(s, pattern) == i
  {
    NotEarlier(s, pattern, i);
  }

  lemma NotEarlier(s: string, pattern: string, i: nat)
    requires pattern != "" && i <= |s| && forall k | 0 <= k < i :: s[k] != pattern[0]
    ensures forall k: nat | k < i :: !OccursAt(s, pattern, k)
  {
    forall k: nat | k < i
      ensures !OccursAt(s, pattern, k)
    {
      assert k + |pattern| <= |s| ==> s[k..k + |pattern|][0] == s[k];
    }
  }

  lemma DotFirstNotPlain(f: string)
    requires IsName(f)
    ensures !Plain("./" + f)
  {
    var s := "." + "/" + f;
    assert s == "./" + f && s[|s| - 1] == f[|f| - 1];
    ReduceBelow(".", f, false);
    SegmentsName(".");
    assert ["."][1..] == [] && [] + [f] == [f] && Glue([f]) == f;
    NormalizeBody(s, f);
    assert |f| < |s|;
  }

  lemma Collision(root: string, index: string, lost: string, kept: string, files: multiset<string>)
    requires lost != kept && Url(root, lost) == Url(root, kept) && files == multiset{lost, kept}
    ensures !UrlsDiffer(root, files)
    ensures var m := Indexed(map["/" := index], root, [lost, kept]);
            Url(root, lost) in m && m[Url(root, lost)] == kept && (index != lost ==> lost !in m.Values)
  {
    assert lost in files && kept in files;
    IndexTwo(map["/" := index], root, lost, kept);
  }

  lemma BackslashListable(d: string, f: string)
    requires IsName(d) && IsName(f) && '\\' !in d && '\\' !in f
    ensures Listable(BackslashTree(d, f)) && IsName(d + "\\" + f)
  {
    assert |d + "\\" + f| >= 3;
  }

  lemma BackslashOrder(root: string, d: string, f: string)
    requires Plain(root) && IsName(d) && IsName(f) && IsName(d + "\\" + f)
    ensures Registration(root, BackslashTree(d, f)) == [Beside(root, d, f), Inside(root, d, f)]
  {
    var dir, file := Entry(d, Dir([Entry(f, File)])), Entry(d + "\\" + f, File);
    assert BackslashTree(d, f) == [dir, file] && [dir, file][1..] == [file];
    JoinName(root, d);
    JoinName(root, d + "\\" + f);
    JoinName(root + "/" + d, f);
    OneFile(root + "/" + d, Entry(f, File));
    OneFile(root, file);
    assert Here(root, [dir, file]) == [Beside(root, d, f)];
    assert Deeper(root, [dir, file]) == [Inside(root, d, f)];
  }

  lemma OneFile(path: string, e: Entry)
    requires e.node.File?
    ensures Here(path, [e]) == [Join(path, e.name)] && Deeper(path, [e]) == []
    ensures Registration(path, [e]) == [Join(path, e.name)]
  {
    assert [e][1..] == [];
  }

  lemma BackslashUrls(root: string, d: string, f: string)
    requires IsName(d) && IsName(f) && '\\' !in d && '\\' !in f
    ensures Url(root, Beside(root, d, f)) == Url(root, Inside(root, d, f)) && Beside(root, d, f) != Inside(root, d, f)
  {
    var name, path := d + "\\" + f, d + "/" + f;
    assert Inside(root, d, f) == root + "/" + path;
    UrlOfTail(root, name);
    UrlOfTail(root, path);
    SlashedAlike(d, f);
    assert name[|d|] != path[|d|];
    assert Beside(root, d, f)[|root| + 1..] == name && Inside(root, d, f)[|root| + 1..] == path;
  }

  lemma SlashedAlike(d: string, f: string)
    requires '\\' !in d && '\\' !in f
    ensures Slashes("/" + (d + "\\" + f)) == Slashes("/" + (d + "/" + f))
  {
    var a, b := "/" + (d + "\\" + f), "/" + (d + "/" + f);
    assert forall i | 0 <= i < |a| :: b[i] == if i == 1 + |d| then '/' else a[i];
  }

  lemma IndexTwo(m: map<string, string>, root: string, p: string, q: string)
    ensures Indexed(m, root, [p, q]) == m[Url(root, p) := p][Url(root, q) := q]
  {
    IndexedSnoc(m, root, [], p);
    IndexedSnoc(m, root, [p], q);
    assert [] + [p] == [p] && [p] + [q] == [p, q];
  }
}
