/** Trees of directories, and the walk through them (http/httpServer.js:250-278). */
module DirectoryTrees {
  import opened Paths
  import opened Sequences

  /** What `readdir` and `lstat` report: names, and what is under them. */
  datatype Node = File | Dir(entries: seq<Entry>)
  datatype Entry = Entry(name: string, node: Node)

  /** Every name can stand in a directory, and no directory lists a name twice. */
  predicate Listable(es: seq<Entry>)
    decreases es
  {
    && (forall i | 0 <= i < |es| ::
          IsName(es[i].name) && (es[i].node.Dir? ==> Listable(es[i].node.entries)))
    && (forall i, j | 0 <= i < j < |es| :: es[i].name != es[j].name)
  }

  /** The paths of the regular files below `path`. */
  function Files(path: string, es: seq<Entry>): multiset<string>
    decreases es
  {
    if es == [] then multiset{} else FilesOf(path, es[0]) + Files(path, es[1..])
  }

  function FilesOf(path: string, e: Entry): multiset<string>
    decreases e
  {
    match e.node
    case File => multiset{Join(path, e.name)}
    case Dir(sub) => Files(Join(path, e.name), sub)
  }

  /** The paths of the directories below `path`. */
  function Directories(path: string, es: seq<Entry>): multiset<string>
    decreases es
  {
    if es == [] then multiset{} else DirectoriesOf(path, es[0]) + Directories(path, es[1..])
  }

  function DirectoriesOf(path: string, e: Entry): multiset<string>
    decreases e
  {
    match e.node
    case File => multiset{}
    case Dir(sub) => multiset{Join(path, e.name)} + Directories(Join(path, e.name), sub)
  }

  /** Following the names down from the listing ends at a file, or at a directory. */
  predicate Leads(es: seq<Entry>, names: seq<string>, directory: bool)
    decreases |names|
  {
    names != [] &&
    exists i | 0 <= i < |es| ::
      && es[i].name == names[0]
      && if |names| == 1 then es[i].node.Dir? == directory
         else es[i].node.Dir? && Leads(es[i].node.entries, names[1..], directory)
  }

  /** The path that the names make, each behind a slash. */
  function Along(path: string, names: seq<string>): string
    decreases |names|
  {
    if names == [] then path else Along(path + "/" + names[0], names[1..])
  }

  /** How many files and directories are below. */
  function Size(es: seq<Entry>): nat
    decreases es
  {
    if es == [] then 0 else SizeOf(es[0]) + Size(es[1..])
  }

  function SizeOf(e: Entry): nat
    decreases e
  {
    match e.node
    case File => 1
    case Dir(sub) => 1 + Size(sub)
  }

  // ----- The order of the walk -----

  /** A directory waiting on the stack, with what is in it. */
  datatype Waiting = Waiting(path: string, entries: seq<Entry>)

  /** The files listed in the directory itself, in order. */
  function Here(path: string, es: seq<Entry>): seq<string> {
    if es == [] then [] else HereOf(path, es[0]) + Here(path, es[1..])
  }

  function HereOf(path: string, e: Entry): seq<string> {
    if e.node.File? then [Join(path, e.name)] else []
  }

  /** The directories listed in it, in order. */
  function Subdirectories(path: string, es: seq<Entry>): seq<Waiting> {
    if es == [] then [] else SubdirectoriesOf(path, es[0]) + Subdirectories(path, es[1..])
  }

  function SubdirectoriesOf(path: string, e: Entry): seq<Waiting> {
    if e.node.Dir? then [Waiting(Join(path, e.name), e.node.entries)] else []
  }

  /** The files below `path` in the order of the walk: first those of the directory itself, then those of
      its directories, the last directory first. */
  function Registration(path: string, es: seq<Entry>): seq<string>
    decreases es, 1
  {
    Here(path, es) + Deeper(path, es)
  }

  function Deeper(path: string, es: seq<Entry>): seq<string>
    decreases es, 0
  {
    if es == [] then [] else Deeper(path, es[1..]) + DeeperOf(path, es[0])
  }

  function DeeperOf(path: string, e: Entry): seq<string>
    decreases e, 0
  {
    if e.node.Dir? then Registration(Join(path, e.name), e.node.entries) else []
  }

  /** The directories in the order of the walk. */
  function Visits(path: string, es: seq<Entry>): seq<string>
    decreases es, 1
  {
    [path] + DeeperVisits(path, es)
  }

  function DeeperVisits(path: string, es: seq<Entry>): seq<string>
    decreases es, 0
  {
    if es == [] then []
    else
      DeeperVisits(path, es[1..])
      + if es[0].node.Dir? then Visits(Join(path, es[0].name), es[0].node.entries) else []
  }

  lemma {:induction false} RegistrationIsFiles(path: string, es: seq<Entry>)
    ensures multiset(Registration(path, es)) == Files(path, es)
    decreases es
  {
    if es != [] {
      RegistrationIsFiles(path, es[1..]);
      RegistrationFirst(path, es);
      if es[0].node.Dir? {
        RegistrationIsFiles(Join(path, es[0].name), es[0].node.entries);
      }
      assert multiset(HereOf(path, es[0])) + multiset(DeeperOf(path, es[0])) == FilesOf(path, es[0]);
    }
  }

  lemma RegistrationFirst(path: string, es: seq<Entry>)
    requires es != []
    ensures multiset(Registration(path, es))
         == multiset(HereOf(path, es[0])) + multiset(DeeperOf(path, es[0])) + multiset(Registration(path, es[1..]))
  {
    FourParts(HereOf(path, es[0]), Here(path, es[1..]), Deeper(path, es[1..]), DeeperOf(path, es[0]));
  }

  lemma FourParts(a: seq<string>, b: seq<string>, c: seq<string>, d: seq<string>)
    ensures multiset((a + b) + (c + d)) == multiset(a) + multiset(d) + multiset(b + c)
  {
  }

  lemma {:induction false} VisitsAreDirectories(path: string, es: seq<Entry>)
    ensures multiset(Visits(path, es)) == multiset{path} + Directories(path, es)
    ensures multiset(DeeperVisits(path, es)) == Directories(path, es)
    decreases es
  {
    if es != [] {
      VisitsAreDirectories(path, es[1..]);
      if es[0].node.Dir? {
        VisitsAreDirectories(Join(path, es[0].name), es[0].node.entries);
      }
      DeeperVisitsFirst(path, es);
    }
  }

  lemma DeeperVisitsFirst(path: string, es: seq<Entry>)
    requires es != []
    ensures multiset(DeeperVisits(path, es))
         == multiset(DeeperVisits(path, es[1..]))
            + if es[0].node.Dir? then multiset(Visits(Join(path, es[0].name), es[0].node.entries)) else multiset{}
  {
  }

  /** One file is registered before the other. */
  ghost predicate Before(s: seq<string>, f: string, g: string) {
    exists p, q | 0 <= p < q < |s| :: s[p] == f && s[q] == g
  }

  lemma BeforeAcross(a: seq<string>, b: seq<string>, f: string, g: string)
    requires f in a && g in b
    ensures Before(a + b, f, g)
  {
    var p :| 0 <= p < |a| && a[p] == f;
    var q :| 0 <= q < |b| && b[q] == g;
    assert (a + b)[p] == f && (a + b)[|a| + q] == g;
  }

  lemma BeforeEither(a: seq<string>, b: seq<string>, f: string, g: string)
    requires Before(a, f, g) || Before(b, f, g)
    ensures Before(a + b, f, g)
  {
    if p, q :| 0 <= p < q < |a| && a[p] == f && a[q] == g {
      assert (a + b)[p] == f && (a + b)[q] == g;
    } else {
      var p, q :| 0 <= p < q < |b| && b[p] == f && b[q] == g;
      assert (a + b)[|a| + p] == f && (a + b)[|a| + q] == g;
    }
  }

  lemma {:induction false} HereHas(path: string, es: seq<Entry>, i: nat, f: string)
    requires i < |es| && f in HereOf(path, es[i])
    ensures f in Here(path, es)
  {
    if i > 0 {
      HereHas(path, es[1..], i - 1, f);
    }
  }

  lemma {:induction false} HereOrder(path: string, es: seq<Entry>, i: nat, j: nat, f: string, g: string)
    requires i < j < |es| && f in HereOf(path, es[i]) && g in HereOf(path, es[j])
    ensures Before(Here(path, es), f, g)
    decreases i
  {
    if i == 0 {
      HereHas(path, es[1..], j - 1, g);
      BeforeAcross(HereOf(path, es[0]), Here(path, es[1..]), f, g);
    } else {
      HereOrder(path, es[1..], i - 1, j - 1, f, g);
      BeforeEither(HereOf(path, es[0]), Here(path, es[1..]), f, g);
    }
  }

  lemma {:induction false} DeeperHas(path: string, es: seq<Entry>, i: nat, f: string)
    requires i < |es| && f in DeeperOf(path, es[i])
    ensures f in Deeper(path, es)
    decreases i
  {
    if i > 0 {
      DeeperHas(path, es[1..], i - 1, f);
    }
    assert Deeper(path, es) == Deeper(path, es[1..]) + DeeperOf(path, es[0]);
  }

  lemma {:induction false} DeeperKeeps(path: string, es: seq<Entry>, i: nat, f: string, g: string)
    requires i < |es| && Before(DeeperOf(path, es[i]), f, g)
    ensures Before(Deeper(path, es), f, g)
    decreases i
  {
    if i > 0 {
      DeeperKeeps(path, es[1..], i - 1, f, g);
    }
    BeforeEither(Deeper(path, es[1..]), DeeperOf(path, es[0]), f, g);
  }

  lemma {:induction false} DeeperOrder(path: string, es: seq<Entry>, i: nat, j: nat, f: string, g: string)
    requires i < j < |es| && f in DeeperOf(path, es[i]) && g in DeeperOf(path, es[j])
    ensures Before(Deeper(path, es), g, f)
    decreases i
  {
    var tail, last := Deeper(path, es[1..]), DeeperOf(path, es[0]);
    assert Before(tail + last, g, f) by {
      if i == 0 {
        DeeperHas(path, es[1..], j - 1, g);
        BeforeAcross(tail, last, g, f);
      } else {
        DeeperOrder(path, es[1..], i - 1, j - 1, f, g);
        BeforeEither(tail, last, g, f);
      }
    }
  }

  /** Files listed in a directory are registered in the order listed. */
  lemma FilesInOrder(path: string, es: seq<Entry>, i: nat, j: nat)
    requires i < j < |es| && es[i].node.File? && es[j].node.File?
    ensures Before(Registration(path, es), Join(path, es[i].name), Join(path, es[j].name))
  {
    var f, g := Join(path, es[i].name), Join(path, es[j].name);
    HereOrder(path, es, i, j, f, g);
    BeforeEither(Here(path, es), Deeper(path, es), f, g);
  }

  /** They come before everything that is in directories listed there. */
  lemma FilesFirst(path: string, es: seq<Entry>, i: nat, j: nat, g: string)
    requires i < |es| && j < |es| && es[i].node.File? && es[j].node.Dir?
    requires g in Registration(Join(path, es[j].name), es[j].node.entries)
    ensures Before(Registration(path, es), Join(path, es[i].name), g)
  {
    HereHas(path, es, i, Join(path, es[i].name));
    DeeperHas(path, es, j, g);
    BeforeAcross(Here(path, es), Deeper(path, es), Join(path, es[i].name), g);
  }

  /** Of two directories listed, what is in the later one is registered first, and what is in one keeps its
      order. */
  lemma LaterDirectoryFirst(path: string, es: seq<Entry>, i: nat, j: nat, f: string, g: string)
    requires i <= j < |es| && es[i].node.Dir? && es[j].node.Dir?
    requires f in Registration(Join(path, es[i].name), es[i].node.entries)
    requires g in Registration(Join(path, es[j].name), es[j].node.entries)
    ensures i < j ==> Before(Registration(path, es), g, f)
    ensures i == j && Before(Registration(Join(path, es[i].name), es[i].node.entries), g, f) ==>
              Before(Registration(path, es), g, f)
  {
    if i < j {
      DeeperOrder(path, es, i, j, f, g);
      BeforeEither(Here(path, es), Deeper(path, es), g, f);
    } else if Before(DeeperOf(path, es[i]), g, f) {
      DeeperKeeps(path, es, i, g, f);
      BeforeEither(Here(path, es), Deeper(path, es), g, f);
    }
  }

  // ----- The stack of the walk -----

  /** The files that the walk finds from the stack, the top first. */
  function StackFiles(stack: seq<Waiting>): seq<string> {
    if stack == [] then []
    else Registration(stack[|stack| - 1].path, stack[|stack| - 1].entries) + StackFiles(stack[..|stack| - 1])
  }

  function StackVisits(stack: seq<Waiting>): seq<string> {
    if stack == [] then []
    else Visits(stack[|stack| - 1].path, stack[|stack| - 1].entries) + StackVisits(stack[..|stack| - 1])
  }

  /** Nodes still to be seen from the stack; each waiting directory counts as one. */
  function StackSize(stack: seq<Waiting>): nat {
    if stack == [] then 0
    else StackSize(stack[..|stack| - 1]) + 1 + Size(stack[|stack| - 1].entries)
  }

  lemma StackTop(stack: seq<Waiting>, w: Waiting)
    ensures StackFiles(stack + [w]) == Registration(w.path, w.entries) + StackFiles(stack)
    ensures StackVisits(stack + [w]) == Visits(w.path, w.entries) + StackVisits(stack)
    ensures StackSize(stack + [w]) == StackSize(stack) + 1 + Size(w.entries)
  {
    assert (stack + [w])[..|stack|] == stack;
  }

  lemma PushFirst(stack: seq<Waiting>, path: string, es: seq<Entry>)
    requires es != []
    ensures var rest, e := Subdirectories(path, es[1..]), es[0];
            stack + Subdirectories(path, es)
            == (if e.node.Dir? then stack + [Waiting(Join(path, e.name), e.node.entries)] else stack) + rest
  {
    if es[0].node.Dir? {
      Associates(stack, [Waiting(Join(path, es[0].name), es[0].node.entries)], Subdirectories(path, es[1..]));
    } else {
      assert [] + Subdirectories(path, es[1..]) == Subdirectories(path, es[1..]);
    }
  }

  /** Putting the directories of a directory on the stack puts what is deeper in it first. */
  lemma {:induction false} StackSubdirectories(stack: seq<Waiting>, path: string, es: seq<Entry>)
    ensures StackFiles(stack + Subdirectories(path, es)) == Deeper(path, es) + StackFiles(stack)
    ensures StackVisits(stack + Subdirectories(path, es)) == DeeperVisits(path, es) + StackVisits(stack)
    ensures StackSize(stack + Subdirectories(path, es)) <= StackSize(stack) + Size(es)
    decreases |es|
  {
    if es == [] {
      assert stack + [] == stack;
    } else {
      PushFirst(stack, path, es);
      if es[0].node.Dir? {
        var w := Waiting(Join(path, es[0].name), es[0].node.entries);
        StackSubdirectories(stack + [w], path, es[1..]);
        StackTop(stack, w);
        Associates(Deeper(path, es[1..]), Registration(w.path, w.entries), StackFiles(stack));
        Associates(DeeperVisits(path, es[1..]), Visits(w.path, w.entries), StackVisits(stack));
      } else {
        StackSubdirectories(stack, path, es[1..]);
        assert Deeper(path, es[1..]) + [] == Deeper(path, es[1..]);
        assert DeeperVisits(path, es[1..]) + [] == DeeperVisits(path, es[1..]);
      }
    }
  }

  lemma {:induction false} HereSnoc(path: string, es: seq<Entry>, e: Entry)
    ensures Here(path, es + [e]) == Here(path, es) + HereOf(path, e)
  {
    if es == [] {
      assert [e][1..] == [] && [] + [e] == [e];
    } else {
      assert (es + [e])[1..] == es[1..] + [e];
      HereSnoc(path, es[1..], e);
      Associates(HereOf(path, es[0]), Here(path, es[1..]), HereOf(path, e));
    }
  }

  lemma {:induction false} SubdirectoriesSnoc(path: string, es: seq<Entry>, e: Entry)
    ensures Subdirectories(path, es + [e]) == Subdirectories(path, es) + SubdirectoriesOf(path, e)
  {
    if es == [] {
      assert [e][1..] == [] && [] + [e] == [e];
    } else {
      assert (es + [e])[1..] == es[1..] + [e];
      SubdirectoriesSnoc(path, es[1..], e);
      Associates(SubdirectoriesOf(path, es[0]), Subdirectories(path, es[1..]), SubdirectoriesOf(path, e));
    }
  }

  /** One more entry of a directory adds to the files found or to the stack. */
  lemma SeeEntry(path: string, es: seq<Entry>, i: nat, registered: seq<string>, stack: seq<Waiting>)
    requires i < |es|
    ensures registered + Here(path, es[..i + 1]) == registered + Here(path, es[..i]) + HereOf(path, es[i])
    ensures stack + Subdirectories(path, es[..i + 1])
         == stack + Subdirectories(path, es[..i]) + SubdirectoriesOf(path, es[i])
  {
    assert es[..i + 1] == es[..i] + [es[i]];
    HereSnoc(path, es[..i], es[i]);
    SubdirectoriesSnoc(path, es[..i], es[i]);
    Associates(registered, Here(path, es[..i]), HereOf(path, es[i]));
    Associates(stack, Subdirectories(path, es[..i]), SubdirectoriesOf(path, es[i]));
  }

  // ----- What is in the tree -----

  /** Names lead to a file, or to a directory, whose path this is. */
  ghost predicate Reaches(path: string, es: seq<Entry>, directory: bool, f: string) {
    exists names :: Leads(es, names, directory) && f == Along(path, names)
  }

  /** The files below a plain path are those that names lead to, and so are the directories. */
  lemma {:induction false} FilesExactly(path: string, es: seq<Entry>, f: string)
    requires Plain(path) && Listable(es)
    ensures f in Files(path, es) <==> Reaches(path, es, false, f)
    ensures f in Directories(path, es) <==> Reaches(path, es, true, f)
    decreases es
  {
    if es != [] {
      FilesExactly(path, es[1..], f);
      EntryExactly(path, es[0], f);
      ReachesFirst(path, es, false, f);
      ReachesFirst(path, es, true, f);
    }
  }

  lemma EntryExactly(path: string, e: Entry, f: string)
    requires Plain(path) && IsName(e.name) && (e.node.Dir? ==> Listable(e.node.entries))
    ensures f in FilesOf(path, e) <==> Reaches(path, [e], false, f)
    ensures f in DirectoriesOf(path, e) <==> Reaches(path, [e], true, f)
    decreases e
  {
    JoinName(path, e.name);
    match e.node
    case File =>
      ReachesFile(path, e, false, f);
      ReachesFile(path, e, true, f);
    case Dir(sub) =>
      FilesExactly(path + "/" + e.name, sub, f);
      ReachesInside(path, e, false, f);
      ReachesInside(path, e, true, f);
  }

  lemma ReachesFirst(path: string, es: seq<Entry>, directory: bool, f: string)
    requires es != []
    ensures Reaches(path, es, directory, f)
       <==> Reaches(path, [es[0]], directory, f) || Reaches(path, es[1..], directory, f)
  {
    forall names
      ensures Leads(es, names, directory) <==> Leads([es[0]], names, directory) || Leads(es[1..], names, directory)
    {
      LeadsFirst(es, names, directory);
    }
  }

  lemma LeadsFirst(es: seq<Entry>, names: seq<string>, directory: bool)
    requires es != []
    ensures Leads(es, names, directory) <==> Leads([es[0]], names, directory) || Leads(es[1..], names, directory)
  {
    assert forall i | 0 <= i < |es[1..]| :: es[1..][i] == es[i + 1];
    assert forall i | 1 <= i < |es| :: es[i] == es[1..][i - 1];
    assert [es[0]][0] == es[0];
  }

  /** What leads into a listing of one entry. */
  lemma LeadsOne(e: Entry, names: seq<string>, directory: bool)
    ensures Leads([e], names, directory)
       <==> && names != [] && names[0] == e.name
            && if |names| == 1 then e.node.Dir? == directory
               else e.node.Dir? && Leads(e.node.entries, names[1..], directory)
  {
    assert [e][0] == e;
  }

  lemma AlongFirst(path: string, name: string, names: seq<string>)
    ensures Along(path, [name] + names) == Along(path + "/" + name, names)
  {
    assert ([name] + names)[1..] == names;
  }

  lemma ReachesFile(path: string, e: Entry, directory: bool, f: string)
    requires e.node.File?
    ensures Reaches(path, [e], directory, f) <==> !directory && f == path + "/" + e.name
  {
    LeadsOne(e, [e.name], directory);
    AlongFirst(path, e.name, []);
    assert [e.name] + [] == [e.name];
    if Reaches(path, [e], directory, f) {
      var names :| Leads([e], names, directory) && f == Along(path, names);
      LeadsOne(e, names, directory);
      assert names == [e.name];
    }
  }

  lemma ReachesInside(path: string, e: Entry, directory: bool, f: string)
    requires e.node.Dir?
    ensures var below := path + "/" + e.name;
            Reaches(path, [e], directory, f)
            <==> (directory && f == below) || Reaches(below, e.node.entries, directory, f)
  {
    var below := path + "/" + e.name;
    assert [e.name] + [] == [e.name];
    LeadsOne(e, [e.name], directory);
    AlongFirst(path, e.name, []);
    if Reaches(path, [e], directory, f) {
      var names :| Leads([e], names, directory) && f == Along(path, names);
      LeadsOne(e, names, directory);
      assert names == [e.name] + names[1..];
      AlongFirst(path, e.name, names[1..]);
    }
    if Reaches(below, e.node.entries, directory, f) {
      var names :| Leads(e.node.entries, names, directory) && f == Along(below, names);
      IntoDirectory(path, e, names, directory);
    }
  }

  lemma IntoDirectory(path: string, e: Entry, names: seq<string>, directory: bool)
    requires e.node.Dir? && Leads(e.node.entries, names, directory)
    ensures Leads([e], [e.name] + names, directory)
    ensures Along(path, [e.name] + names) == Along(path + "/" + e.name, names)
  {
    LeadsOne(e, [e.name] + names, directory);
    AlongFirst(path, e.name, names);
    assert ([e.name] + names)[1..] == names;
  }

  /** A path directly below the directory is a file of the tree exactly when the directory lists a regular
      file of that name. */
  lemma TopFile(path: string, es: seq<Entry>, name: string)
    requires Plain(path) && Listable(es) && IsName(name)
    ensures path + "/" + name in Files(path, es) <==> Entry(name, File) in es
  {
    var f := path + "/" + name;
    FilesExactly(path, es, f);
    if Entry(name, File) in es {
      var i :| 0 <= i < |es| && es[i] == Entry(name, File);
      assert Leads(es, [name], false);
      AlongFirst(path, name, []);
      assert [name] + [] == [name];
    }
    if f in Files(path, es) {
      var names :| Leads(es, names, false) && f == Along(path, names);
      OneNameAlong(path, es, names, name);
      var i :| 0 <= i < |es| && es[i].name == name && es[i].node.Dir? == false;
      assert es[i] == Entry(name, File);
    }
  }

  lemma OneNameAlong(path: string, es: seq<Entry>, names: seq<string>, name: string)
    requires names != [] && Along(path, names) == path + "/" + name
    ensures names == [name] || '/' in name
  {
    var below, f := path + "/" + names[0], path + "/" + name;
    AlongExtends(below, names[1..]);
    assert below[|path| + 1..] == names[0] && f[|path| + 1..] == name;
    if names[1..] != [] {
      assert f[|below|] == (below + "/")[|below|] && f[|below|] == name[|names[0]|];
    }
  }

  lemma {:induction false} AlongExtends(path: string, names: seq<string>)
    ensures path <= Along(path, names) && (names != [] ==> path + "/" <= Along(path, names))
    ensures names == [] ==> Along(path, names) == path
    decreases |names|
  {
    if names != [] {
      AlongExtends(path + "/" + names[0], names[1..]);
    }
  }

  // ----- Every node has its own path -----

  /** `f` lies in the entry called `name` of the directory `path`. */
  predicate Within(path: string, name: string, f: string) {
    f == path + "/" + name || Below(path + "/" + name, f)
  }

  lemma WithinOne(path: string, m: string, n: string, f: string)
    requires '/' !in m && '/' !in n && Within(path, m, f) && Within(path, n, f)
    ensures m == n
  {
    if |m| < |n| {
      WithinShorter(path, m, n, f);
    } else if |n| < |m| {
      WithinShorter(path, n, m, f);
    }
    assert f[..|path + "/" + m|] == path + "/" + m && f[..|path + "/" + n|] == path + "/" + n;
    assert m == f[|path| + 1..|path| + 1 + |m|] && n == f[|path| + 1..|path| + 1 + |n|];
  }

  lemma WithinShorter(path: string, m: string, n: string, f: string)
    requires |m| < |n| && Within(path, m, f) && Within(path, n, f)
    ensures '/' in n
  {
    assert f[|path| + 1 + |m|] == '/';
    assert f[..|path + "/" + n|] == path + "/" + n;
    assert n[|m|] == f[|path| + 1 + |m|];
  }

  /** A file or directory below `path` lies within one of its entries and has a plain path below it;
      no path is counted twice, or both as a file and as a directory. */
  lemma {:induction false} FileFacts(path: string, es: seq<Entry>, f: string)
    requires Plain(path) && Listable(es)
    ensures Files(path, es)[f] + Directories(path, es)[f] <= 1
    ensures f in Files(path, es) || f in Directories(path, es) ==>
              Plain(f) && Below(path, f) && exists i :: 0 <= i < |es| && Within(path, es[i].name, f)
    decreases es
  {
    if es != [] {
      EntryFacts(path, es[0], f);
      FileFacts(path, es[1..], f);
      assert forall i | 0 <= i < |es[1..]| :: es[1..][i] == es[i + 1];
      if f in FilesOf(path, es[0]) || f in DirectoriesOf(path, es[0]) {
        NotLater(path, es, f);
        assert Within(path, es[0].name, f);
      } else if f in Files(path, es[1..]) || f in Directories(path, es[1..]) {
        var i :| 0 <= i < |es[1..]| && Within(path, es[1..][i].name, f);
        assert Within(path, es[i + 1].name, f);
      }
    }
  }

  lemma NotLater(path: string, es: seq<Entry>, f: string)
    requires es != [] && Listable(es) && Within(path, es[0].name, f)
    ensures forall i | 0 <= i < |es[1..]| :: !Within(path, es[1..][i].name, f)
  {
    forall i | 0 <= i < |es[1..]|
      ensures !Within(path, es[1..][i].name, f)
    {
      if Within(path, es[i + 1].name, f) {
        WithinOne(path, es[0].name, es[i + 1].name, f);
      }
    }
  }

  lemma EntryFacts(path: string, e: Entry, f: string)
    requires Plain(path) && IsName(e.name) && (e.node.Dir? ==> Listable(e.node.entries))
    ensures FilesOf(path, e)[f] + DirectoriesOf(path, e)[f] <= 1
    ensures f in FilesOf(path, e) || f in DirectoriesOf(path, e) ==>
              Plain(f) && Below(path, f) && Within(path, e.name, f)
    decreases e
  {
    JoinName(path, e.name);
    match e.node
    case File =>
    case Dir(sub) =>
      FileFacts(path + "/" + e.name, sub, f);
      if Below(path + "/" + e.name, f) {
        BelowBelow(path, e.name, f);
      }
  }

  lemma BelowBelow(path: string, name: string, f: string)
    requires Below(path + "/" + name, f)
    ensures Below(path, f)
  {
    assert f[..|path + "/" + name|] == path + "/" + name;
    assert f[|path|] == (path + "/" + name)[|path|];
    assert f[..|path|] == (path + "/" + name)[..|path|];
  }
}
