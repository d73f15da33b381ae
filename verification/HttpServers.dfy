/** The public files of an HTTP server: the walk that registers them and the handlers that serve them
    (http/httpServer.js:250-334). */
module HttpServers {
  import opened Options
  import opened Paths
  import opened DirectoryTrees
  import opened PublicFiles
  import opened FileCache

  class HttpServer {
    const public_path: string
    const public_index: string
    /** From URLs to file paths. */
    var public_files: map<string, string>
    /** The handlers that are suspended, and the URLs they serve. */
    var handlers: map<nat, Phase>
    /** What each finished handler sent: a file, or status 404. */
    var responses: map<nat, Option<string>>

    constructor (public_path: string, public_index: string)
      ensures this.public_path == public_path && this.public_index == public_index
      ensures public_files == map[] && handlers == map[] && responses == map[]
    {
      this.public_path, this.public_index := public_path, public_index;
      public_files, handlers, responses := map[], map[], map[];
    }

    function Home(): Site {
      Site(public_path, public_index)
    }

    /** The server and the files around it. */
    function View(disk: set<string>): Web
      reads this
    {
      Web(disk, public_files, handlers, responses)
    }

    method AddPublicFile(url: string, filepath: string)
      modifies this`public_files
      ensures public_files == old(public_files)[url := filepath]
    {
      public_files := public_files[url := filepath];
    }

    /** Registers every file below `start`, whose contents are `listing`, from a stack of directories.
        Each directory is visited once and each file registered once, in the order of the walk. */
    method FindPublicFiles(start: string, listing: seq<Entry>)
      returns (ghost visited: seq<string>, ghost registered: seq<string>)
      modifies this`public_files
      ensures visited == Visits(start, listing) && multiset(visited) == multiset{start} + Directories(start, listing)
      ensures registered == Registration(start, listing) && multiset(registered) == Files(start, listing)
      ensures public_files == Indexed(old(public_files)["/" := Home().IndexPath()], public_path, registered)
      ensures start == public_path && Plain(public_path) && IsName(public_index) && Listable(listing) ==>
                "/" in public_files && public_files["/"] == public_path + "/" + public_index
    {
      var directories: seq<Waiting> := [];
      AddPublicFile("/", Join(public_path, public_index));
      ghost var first := public_files;
      var path, files := start, listing;
      visited, registered := [], [];
      StackTop([], Waiting(start, listing));
      while true
        invariant public_files == Indexed(first, public_path, registered)
        invariant visited + StackVisits(directories + [Waiting(path, files)]) == Visits(start, listing)
        invariant registered + StackFiles(directories + [Waiting(path, files)]) == Registration(start, listing)
        decreases StackSize(directories + [Waiting(path, files)])
      {
        DirectoryVisited(visited, registered, directories, path, files);
        visited := visited + [path];
        directories, registered := ScanDirectory(path, files, directories, registered, first);
        if directories == [] {
          break;
        }
        TopOfStack(directories);
        path, files := directories[|directories| - 1].path, directories[|directories| - 1].entries;
        directories := directories[..|directories| - 1];
      }
      VisitsAreDirectories(start, listing);
      RegistrationIsFiles(start, listing);
      if start == public_path && Plain(public_path) && IsName(public_index) && Listable(listing) {
        JoinName(public_path, public_index);
        SlashKept(first, public_path, registered, listing);
      }
    }

    /** The inner loop of the walk: goes through the files of one directory, registers the regular ones
        and puts the directories on the stack. */
    method ScanDirectory(path: string, files: seq<Entry>, directories: seq<Waiting>,
                         ghost registered: seq<string>, ghost first: map<string, string>)
      returns (deeper: seq<Waiting>, ghost found: seq<string>)
      requires public_files == Indexed(first, public_path, registered)
      modifies this`public_files
      ensures deeper == directories + Subdirectories(path, files)
      ensures found == registered + Here(path, files)
      ensures public_files == Indexed(first, public_path, found)
    {
      deeper, found := directories, registered;
      for i := 0 to |files|
        invariant deeper == directories + Subdirectories(path, files[..i])
        invariant found == registered + Here(path, files[..i])
        invariant public_files == Indexed(first, public_path, found)
      {
        var file := files[i];
        var filepath := Join(path, file.name);
        SeeEntry(path, files, i, registered, directories);
        if file.node.Dir? {
          deeper := deeper + [Waiting(filepath, file.node.entries)];
        } else {
          IndexedSnoc(first, public_path, found, filepath);
          AddPublicFile(Url(public_path, filepath), filepath);
          found := found + [filepath];
        }
      }
      assert files[..|files|] == files;
    }

    /** Looks in the map. In the index of a walk, an answer is a file that the URL belongs to, or the
        index file for "/"; without an answer no file of the tree has the URL. */
    method GetPublicFile(url: string) returns (filepath: Option<string>)
      ensures filepath == Looked(public_files, url)
      ensures forall files | IndexesFiles(public_files, public_path, Home().IndexPath(), files) ::
                if url == "/" then filepath == Some(Home().IndexPath())
                else if filepath.Some? then filepath.value in files && Url(public_path, filepath.value) == url
                else forall f | f in files :: Url(public_path, f) != url
    {
      filepath := if url in public_files then Some(public_files[url]) else None;
    }

    /** Ends the search for a file that was not in the map and has been probed: the file is found
        exactly if it exists, and from then on the map has it. */
    method FindPublicFile(url: string, exists_: bool) returns (found: Option<string>)
      modifies this`public_files
      ensures found == if exists_ then Some(Join(public_path, url)) else None
      ensures public_files == Remembered(Home(), old(public_files), url, exists_)
      ensures exists_ ==> Looked(public_files, url) == found
      ensures forall other | other != url :: Looked(public_files, other) == Looked(old(public_files), other)
    {
      var filepath := Join(public_path, url);
      if exists_ {
        AddPublicFile(url, filepath);
        return Some(filepath);
      }
      return None;
    }

    method Respond(id: nat, filepath: Option<string>)
      modifies this`responses
      ensures responses == old(responses)[id := filepath]
    {
      responses := responses[id := filepath];
    }

    /** The handler of a new request runs until it answers from the map or waits for a probe. */
    method RoutePublicFile(id: nat, url: string, ghost disk: set<string>)
      requires !Known(View(disk), id)
      modifies this
      ensures View(disk) == Step(Home(), old(View(disk)), Arrive(id, url))
    {
      var filepath := GetPublicFile(url);
      if filepath.Some? {
        Respond(id, filepath);
      } else {
        handlers := handlers[id := Missed(url)];
      }
    }

    /** The file system answers the probe of a waiting handler. */
    method FileExists(id: nat, disk: set<string>)
      requires id in handlers && handlers[id].Missed?
      modifies this`handlers
      ensures View(disk) == Step(Home(), old(View(disk)), Probe(id))
    {
      var url := handlers[id].url;
      handlers := handlers[id := Probed(url, Join(public_path, url) in disk)];
    }

    /** The handler goes on with the outcome of its probe and answers. */
    method ResumeRoute(id: nat, ghost disk: set<string>)
      requires id in handlers && handlers[id].Probed?
      modifies this
      ensures View(disk) == Step(Home(), old(View(disk)), Finish(id))
    {
      var handler := handlers[id];
      var filepath := FindPublicFile(handler.url, handler.exists_);
      Respond(id, filepath);
      handlers := handlers - {id};
    }
  }

  // ----- The walk -----

  /** Visiting the directory on top replaces it by its files, found at once, and its directories. */
  lemma DirectoryVisited(visited: seq<string>, registered: seq<string>, stack: seq<Waiting>,
                         path: string, files: seq<Entry>)
    ensures var whole, deeper := stack + [Waiting(path, files)], stack + Subdirectories(path, files);
            && visited + StackVisits(whole) == (visited + [path]) + StackVisits(deeper)
            && registered + StackFiles(whole) == (registered + Here(path, files)) + StackFiles(deeper)
            && StackSize(deeper) < StackSize(whole)
  {
    StackTop(stack, Waiting(path, files));
    StackSubdirectories(stack, path, files);
    VisitFirst(visited, path, DeeperVisits(path, files), StackVisits(stack));
    HereFirst(registered, Here(path, files), Deeper(path, files), StackFiles(stack));
  }

  lemma VisitFirst(visited: seq<string>, path: string, deeper: seq<string>, rest: seq<string>)
    ensures visited + (([path] + deeper) + rest) == (visited + [path]) + (deeper + rest)
  {
  }

  lemma HereFirst(registered: seq<string>, here: seq<string>, deeper: seq<string>, rest: seq<string>)
    ensures registered + ((here + deeper) + rest) == (registered + here) + (deeper + rest)
  {
  }

  lemma TopOfStack(stack: seq<Waiting>)
    requires stack != []
    ensures var top := stack[|stack| - 1]; stack[..|stack| - 1] + [Waiting(top.path, top.entries)] == stack
  {
  }

  // ----- The index as a cache -----

  /** The walked index of the tree, before any request. */
  function Walked(site: Site, es: seq<Entry>, disk: set<string>): Web {
    Web(disk, Indexed(map["/" := site.IndexPath()], site.root, Registration(site.root, es)), map[], map[])
  }

  /** No path that the index keeps holds a backslash below the public path. */
  ghost predicate BackslashFree(site: Site, cache: map<string, string>) {
    forall u | u in cache && u != "/" && |site.root| <= |cache[u]| :: '\\' !in cache[u][|site.root|..]
  }

  /** Below a plain public path, the index that the walk leaves leads the URLs to the files they stand for,
      and is a coherent cache, exactly when no path that it keeps holds a backslash. */
  lemma WalkedIndexIsCoherent(site: Site, es: seq<Entry>, disk: set<string>)
    requires Plain(site.root) && Listable(es)
    ensures var w := Walked(site, es, disk);
            && (Joined(site, w.cache) <==> BackslashFree(site, w.cache))
            && ((forall f | f in Files(site.root, es) :: f in disk) ==>
                  (Coherent(site, w) <==> BackslashFree(site, w.cache)))
  {
    var cache := Walked(site, es, disk).cache;
    RegistrationIsFiles(site.root, es);
    WalkIndexes(site.root, site.IndexPath(), es, Registration(site.root, es));
    forall u | u in cache && u != "/"
      ensures Below(site.root, cache[u])
      ensures cache[u] == Join(site.root, u) <==> '\\' !in cache[u][|site.root|..]
    {
      FileFacts(site.root, es, cache[u]);
      UrlInverse(site.root, cache[u]);
    }
  }

  /** In particular it is coherent when no name holds a backslash. */
  lemma NoBackslashCoherent(site: Site, es: seq<Entry>, disk: set<string>)
    requires Plain(site.root) && Listable(es)
    requires forall f | f in Files(site.root, es) :: f in disk && |site.root| <= |f| && '\\' !in f[|site.root|..]
    ensures Coherent(site, Walked(site, es, disk))
  {
    RegistrationIsFiles(site.root, es);
    WalkIndexes(site.root, site.IndexPath(), es, Registration(site.root, es));
    WalkedIndexIsCoherent(site, es, disk);
  }

  /** From the walk on, whatever the public path, the tree and the disk, in every run of requests, probes and
      changes to the files, every request is served as without the index exactly when none hits an entry
      whose file is gone or is not the one that the URL stands for. Below a plain public path and without
      backslashes only files that are gone can cause that. */
  lemma WalkThenRun(site: Site, es: seq<Entry>, disk: set<string>, run: seq<FileCache.Event>)
    ensures var w := Walked(site, es, disk);
            && (Transparent(site, w, run)
                <==> forall k | 0 <= k < |run| :: !WrongHit(site, Run(site, w, run[..k]), run[k]))
            && (Plain(site.root) && Listable(es) && BackslashFree(site, w.cache) ==>
                  (Transparent(site, w, run)
                   <==> forall k | 0 <= k < |run| :: !StaleHit(Run(site, w, run[..k]), run[k])))
  {
    var w := Walked(site, es, disk);
    IndexedEntries(map["/" := site.IndexPath()], site.root, Registration(site.root, es), "/");
    TransparentExactly(site, w, run);
    if Plain(site.root) && Listable(es) && BackslashFree(site, w.cache) {
      WalkedIndexIsCoherent(site, es, disk);
      StaleExactly(site, w, run);
    }
  }

  // ----- The index file -----

  /** Below a plain public path, with a name for the index file, "/" leads to the file of that name in the
      public directory. It is a file of the tree exactly when the directory lists a regular one. */
  lemma IndexAnswers(site: Site, es: seq<Entry>, disk: set<string>)
    requires Plain(site.root) && IsName(site.index) && Listable(es)
    ensures var w := Walked(site, es, disk); var path := site.root + "/" + site.index;
            && Looked(w.cache, "/") == Some(path)
            && (path in Files(site.root, es) <==> Entry(site.index, File) in es)
  {
    JoinName(site.root, site.index);
    RegistrationIsFiles(site.root, es);
    SlashKept(map["/" := site.IndexPath()], site.root, Registration(site.root, es), es);
    TopFile(site.root, es, site.index);
  }

  /** So every request for "/" that is answered after the walk is answered with that path. */
  lemma RootAnswered(site: Site, es: seq<Entry>, disk: set<string>, run: seq<FileCache.Event>, id: nat, a: nat, f: nat)
    requires Plain(site.root) && IsName(site.index) && Listable(es)
    requires FirstArrival(run, id, a) && run[a].url == "/" && AnsweredAt(site, Walked(site, es, disk), run, id, f)
    ensures Run(site, Walked(site, es, disk), run[..f + 1]).answers[id] == Some(site.root + "/" + site.index)
  {
    var w := Walked(site, es, disk);
    IndexAnswers(site, es, disk);
    JoinName(site.root, site.index);
    RunGrounded(site, w, run[..a]);
    RequestTransparentExactly(site, w, run, id, a, f);
  }
}
