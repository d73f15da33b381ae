/** The index of public files as a cache in front of the file system, step by step as the asynchronous
    handlers of requests interleave (http/httpServer.js:298-334). */
module FileCache {
  import opened Options
  import Paths

  /** Where public files are, and which of them answers "/". */
  datatype Site = Site(root: string, index: string) {
    function IndexPath(): string { Paths.Join(root, index) }

    /** The file that a URL stands for. */
    function PathFor(url: string): string { if url == "/" then IndexPath() else Paths.Join(root, url) }
  }

  /** A request that missed the cache: its file is still to be probed, or was probed. */
  datatype Phase = Missed(url: string) | Probed(url: string, exists_: bool)

  /** `disk` holds the paths that exist. An answer is a path to send, or `None` for status 404. */
  datatype Web = Web(
    disk: set<string>, cache: map<string, string>,
    pending: map<nat, Phase>, answers: map<nat, Option<string>>)

  /** A request arrives and looks in the cache; its file is probed; its handler finishes.
      In between, files appear and disappear. */
  datatype Event =
    | Arrive(id: nat, url: string)
    | Probe(id: nat)
    | Finish(id: nat)
    | AddFile(path: string)
    | RemoveFile(path: string)

  function Looked(cache: map<string, string>, url: string): Option<string> {
    if url in cache then Some(cache[url]) else None
  }

  function Remembered(site: Site, cache: map<string, string>, url: string, exists_: bool): map<string, string> {
    if exists_ then cache[url := Paths.Join(site.root, url)] else cache
  }

  function Found(site: Site, url: string, exists_: bool): Option<string> {
    if exists_ then Some(Paths.Join(site.root, url)) else None
  }

  function Step(site: Site, w: Web, e: Event): Web {
    match e
    case Arrive(id, url) =>
      if id in w.pending || id in w.answers then w
      else if Looked(w.cache, url).Some? then w.(answers := w.answers[id := Looked(w.cache, url)])
      else w.(pending := w.pending[id := Missed(url)])
    case Probe(id) =>
      if id in w.pending && w.pending[id].Missed? then
        var url := w.pending[id].url;
        w.(pending := w.pending[id := Probed(url, Paths.Join(site.root, url) in w.disk)])
      else w
    case Finish(id) =>
      if id in w.pending && w.pending[id].Probed? then
        var p := w.pending[id];
        w.(cache := Remembered(site, w.cache, p.url, p.exists_),
           pending := w.pending - {id},
           answers := w.answers[id := Found(site, p.url, p.exists_)])
      else w
    case AddFile(path) => w.(disk := w.disk + {path})
    case RemoveFile(path) => w.(disk := w.disk - {path})
  }

  function Run(site: Site, w: Web, es: seq<Event>): Web {
    if es == [] then w else Step(site, Run(site, w, es[..|es| - 1]), es[|es| - 1])
  }

  /** What a lookup without any cache gives: the index file for "/", otherwise the joined path if it exists. */
  function Uncached(site: Site, disk: set<string>, url: string): Option<string> {
    if url == "/" then Some(site.IndexPath())
    else if Paths.Join(site.root, url) in disk then Some(Paths.Join(site.root, url))
    else None
  }

  // ----- Coherence -----

  /** The cache answers "/" with the index file and every other URL it knows with the path that the URL
      joins to, which exists; so does every positive probe whose handler has yet to finish. */
  ghost predicate Coherent(site: Site, w: Web) {
    && "/" in w.cache && w.cache["/"] == site.IndexPath()
    && (forall u | u in w.cache && u != "/" :: w.cache[u] == Paths.Join(site.root, u) && w.cache[u] in w.disk)
    && (forall id | id in w.pending ::
          w.pending[id].url != "/"
          && (w.pending[id].Probed? && w.pending[id].exists_ ==> Paths.Join(site.root, w.pending[id].url) in w.disk))
  }

  /** The paths whose existence the cache or a handler relies on. */
  ghost predicate ReliesOn(site: Site, w: Web, path: string) {
    || (exists u :: u in w.cache && u != "/" && w.cache[u] == path)
    || (exists id :: id in w.pending && w.pending[id].Probed? && w.pending[id].exists_
                     && Paths.Join(site.root, w.pending[id].url) == path)
  }

  /** Every step keeps the cache coherent, except the removal of a path relied on, which never does. */
  lemma StepCoherent(site: Site, w: Web, e: Event)
    requires Coherent(site, w)
    ensures Coherent(site, Step(site, w, e)) <==> !(e.RemoveFile? && ReliesOn(site, w, e.path))
  {
    var w' := Step(site, w, e);
    if e.RemoveFile? {
      if ReliesOn(site, w, e.path) {
        if u :| u in w.cache && u != "/" && w.cache[u] == e.path {
          assert u in w'.cache;
        } else {
          var id :| id in w.pending && w.pending[id].Probed? && w.pending[id].exists_
                    && Paths.Join(site.root, w.pending[id].url) == e.path;
          assert id in w'.pending;
        }
      }
    }
  }

  /** No removal in the run takes away a path that was relied on at that moment. In particular, nothing
      is ever removed. */
  ghost predicate Undisturbed(site: Site, w: Web, es: seq<Event>) {
    forall k | 0 <= k < |es| && es[k].RemoveFile? :: !ReliesOn(site, Run(site, w, es[..k]), es[k].path)
  }

  lemma UndisturbedBefore(site: Site, w: Web, es: seq<Event>)
    requires es != [] && Undisturbed(site, w, es)
    ensures Undisturbed(site, w, es[..|es| - 1])
    ensures es[|es| - 1].RemoveFile? ==> !ReliesOn(site, Run(site, w, es[..|es| - 1]), es[|es| - 1].path)
  {
    var before := es[..|es| - 1];
    assert forall k | 0 <= k <= |before| :: before[..k] == es[..k];
  }

  lemma {:induction false} RunCoherent(site: Site, w: Web, es: seq<Event>)
    requires Coherent(site, w) && Undisturbed(site, w, es)
    ensures Coherent(site, Run(site, w, es))
  {
    if es != [] {
      UndisturbedBefore(site, w, es);
      RunCoherent(site, w, es[..|es| - 1]);
      StepCoherent(site, Run(site, w, es[..|es| - 1]), es[|es| - 1]);
    }
  }

  // ----- The course of a request -----

  /** The cache has an answer for "/", so that no handler waits for it. Nothing can end this. */
  ghost predicate Grounded(w: Web) {
    "/" in w.cache && forall id | id in w.pending :: w.pending[id].url != "/"
  }

  /** The cache leads every URL it knows to the file that the URL stands for, existing or not. */
  ghost predicate Joined(site: Site, cache: map<string, string>) {
    forall u | u in cache :: cache[u] == site.PathFor(u)
  }

  lemma StepGrounded(site: Site, w: Web, e: Event)
    requires Grounded(w)
    ensures Grounded(Step(site, w, e)) && Looked(Step(site, w, e).cache, "/") == Looked(w.cache, "/")
    ensures Joined(site, w.cache) ==> Joined(site, Step(site, w, e).cache)
  {
  }

  lemma {:induction false} RunGrounded(site: Site, w: Web, es: seq<Event>)
    requires Grounded(w)
    ensures Grounded(Run(site, w, es)) && Looked(Run(site, w, es).cache, "/") == Looked(w.cache, "/")
    ensures Joined(site, w.cache) ==> Joined(site, Run(site, w, es).cache)
  {
    if es != [] {
      RunGrounded(site, w, es[..|es| - 1]);
      StepGrounded(site, Run(site, w, es[..|es| - 1]), es[|es| - 1]);
    }
  }

  /** No request has been made yet. */
  predicate Idle(w: Web) {
    w.pending == map[] && w.answers == map[]
  }

  predicate Known(w: Web, id: nat) {
    id in w.pending || id in w.answers
  }

  /** A new request arrives whose URL is in the cache. */
  predicate Hit(w: Web, e: Event) {
    e.Arrive? && !Known(w, e.id) && e.url in w.cache
  }

  /** A new request is answered from the cache with a path that no longer exists. */
  predicate StaleHit(w: Web, e: Event) {
    Hit(w, e) && e.url != "/" && w.cache[e.url] !in w.disk
  }

  /** The same, or with another path than that of the file that the URL stands for. */
  predicate WrongHit(site: Site, w: Web, e: Event) {
    StaleHit(w, e) || (Hit(w, e) && w.cache[e.url] != site.PathFor(e.url))
  }

  lemma Prefix<T>(s: seq<T>, n: nat, k: nat)
    requires k <= n <= |s|
    ensures s[..n][..k] == s[..k]
  {
  }

  /** Request `id` arrived at event `a`; later arrivals under the same id are not requests. */
  ghost predicate FirstArrival(es: seq<Event>, id: nat, a: nat) {
    && a < |es| && es[a].Arrive? && es[a].id == id
    && forall j | 0 <= j < a :: !(es[j].Arrive? && es[j].id == id)
  }

  /** Request `id` was answered by event `f`. */
  ghost predicate AnsweredAt(site: Site, w: Web, es: seq<Event>, id: nat, f: nat) {
    f < |es| && id !in Run(site, w, es[..f]).answers && id in Run(site, w, es[..f + 1]).answers
  }

  /** What one step does to a request. */
  lemma RequestStep(site: Site, w: Web, e: Event, id: nat)
    requires !(id in w.pending && id in w.answers)
    ensures var w' := Step(site, w, e);
            if id in w.answers then id !in w'.pending && id in w'.answers && w'.answers[id] == w.answers[id]
            else if id in w.pending then
              if w.pending[id].Probed? && e == Finish(id) then
                id !in w'.pending && id in w'.answers
                && w'.answers[id] == Found(site, w.pending[id].url, w.pending[id].exists_)
              else
                id in w'.pending && id !in w'.answers
                && w'.pending[id] == if w.pending[id].Missed? && e == Probe(id)
                                     then Probed(w.pending[id].url, Paths.Join(site.root, w.pending[id].url) in w.disk)
                                     else w.pending[id]
            else if e.Arrive? && e.id == id then
              if e.url in w.cache then id !in w'.pending && id in w'.answers && w'.answers[id] == Some(w.cache[e.url])
              else id in w'.pending && id !in w'.answers && w'.pending[id] == Missed(e.url)
            else !Known(w', id)
  {
  }

  lemma {:induction false} NeverBoth(site: Site, w: Web, es: seq<Event>, id: nat)
    requires Idle(w)
    ensures !(id in Run(site, w, es).pending && id in Run(site, w, es).answers)
  {
    if es != [] {
      NeverBoth(site, w, es[..|es| - 1], id);
      RequestStep(site, Run(site, w, es[..|es| - 1]), es[|es| - 1], id);
    }
  }

  /** Answers are final: nothing that happens later takes one back or changes it. */
  lemma {:induction false} AnswersFinal(site: Site, w: Web, es: seq<Event>, k: nat, id: nat)
    requires Idle(w) && k <= |es|
    requires id in Run(site, w, es[..k]).answers
    ensures id in Run(site, w, es).answers
    ensures Run(site, w, es).answers[id] == Run(site, w, es[..k]).answers[id]
    decreases |es|
  {
    if k == |es| {
      assert es[..k] == es;
    } else {
      var before := es[..|es| - 1];
      assert before[..k] == es[..k];
      AnswersFinal(site, w, before, k, id);
      NeverBoth(site, w, before, id);
      RequestStep(site, Run(site, w, before), es[|es| - 1], id);
    }
  }

  /** A request is answered by one event only. */
  lemma AnsweredOnce(site: Site, w: Web, es: seq<Event>, id: nat, f: nat, k: nat)
    requires Idle(w) && AnsweredAt(site, w, es, id, f) && k <= |es|
    ensures id in Run(site, w, es[..k]).answers <==> f < k
  {
    if f < k {
      assert es[..k][..f + 1] == es[..f + 1];
      AnswersFinal(site, w, es[..k], f + 1, id);
    } else if id in Run(site, w, es[..k]).answers {
      assert es[..f][..k] == es[..k];
      AnswersFinal(site, w, es[..f], k, id);
    }
  }

  /** Every answered request arrived once and was answered once. */
  lemma {:induction false} AnsweredArrived(site: Site, w: Web, es: seq<Event>, id: nat) returns (a: nat, f: nat)
    requires Grounded(w) && Idle(w)
    requires id in Run(site, w, es).answers
    ensures FirstArrival(es, id, a) && AnsweredAt(site, w, es, id, f)
    decreases |es|
  {
    var n := |es| - 1;
    if id in Run(site, w, es[..n]).answers {
      a, f := AnsweredArrived(site, w, es[..n], id);
      Prefix(es, n, f);
      Prefix(es, n, f + 1);
    } else {
      a := Arrived(site, w, es, id);
      f := n;
      assert es[..f + 1] == es;
    }
  }

  lemma Arrived(site: Site, w: Web, es: seq<Event>, id: nat) returns (a: nat)
    requires Grounded(w) && Idle(w) && Known(Run(site, w, es), id)
    ensures FirstArrival(es, id, a)
  {
    var m: nat;
    a, m := RequestFate(site, w, es, id);
  }

  // ----- Transparency -----

  /** At event `m`, not before the arrival at `a` and before any answer, a lookup without a cache would
      have given this answer. */
  ghost predicate LookedUpAt(site: Site, w: Web, es: seq<Event>, id: nat, a: nat, m: nat, answer: Option<string>) {
    && a <= m < |es| && es[a].Arrive?
    && id !in Run(site, w, es[..m]).answers
    && answer == Uncached(site, Run(site, w, es[..m]).disk, es[a].url)
  }

  /** A request that did not hit a wrong entry on arrival at `a` waits with its URL, or with the outcome
      of its probe at `m`, or was answered as at `m`. */
  ghost predicate Served(site: Site, w: Web, es: seq<Event>, id: nat, a: nat, m: nat)
    requires a < |es| && es[a].Arrive?
  {
    var now := Run(site, w, es);
    && (id in now.pending) != (id in now.answers)
    && (id in now.pending ==> now.pending[id].url == es[a].url)
    && (id in now.pending && now.pending[id].Probed? ==>
          LookedUpAt(site, w, es, id, a, m, Found(site, es[a].url, now.pending[id].exists_)))
    && (id in now.answers ==> LookedUpAt(site, w, es, id, a, m, now.answers[id]))
  }

  /** A request that hit a wrong entry on arrival at `a` was answered at once, with that entry. */
  ghost predicate ServedFromCache(site: Site, w: Web, es: seq<Event>, id: nat, a: nat)
    requires a < |es| && es[a].Arrive?
  {
    var now := Run(site, w, es);
    && id in Run(site, w, es[..a + 1]).answers
    && id !in now.pending && id in now.answers
    && now.answers[id] == Looked(Run(site, w, es[..a]).cache, es[a].url)
  }

  ghost predicate Fate(site: Site, w: Web, es: seq<Event>, id: nat, a: nat, m: nat) {
    && FirstArrival(es, id, a)
    && if WrongHit(site, Run(site, w, es[..a]), es[a]) then ServedFromCache(site, w, es, id, a)
       else Served(site, w, es, id, a, m)
  }

  lemma LookedUpLonger(site: Site, w: Web, es: seq<Event>, id: nat, a: nat, m: nat, answer: Option<string>)
    requires es != [] && LookedUpAt(site, w, es[..|es| - 1], id, a, m, answer)
    ensures LookedUpAt(site, w, es, id, a, m, answer)
  {
    Prefix(es, |es| - 1, m);
  }

  /** One more event keeps the fate of a request; a probe looks the file up itself. */
  lemma ServedStep(site: Site, w: Web, es: seq<Event>, id: nat, a: nat, m: nat) returns (m': nat)
    requires es != [] && Grounded(Run(site, w, es[..|es| - 1]))
    requires a < |es| - 1 && es[a].Arrive? && Served(site, w, es[..|es| - 1], id, a, m)
    ensures Served(site, w, es, id, a, m')
  {
    var n := |es| - 1;
    var prior := Run(site, w, es[..n]);
    RequestStep(site, prior, es[n], id);
    m' := m;
    if id in prior.answers {
      LookedUpLonger(site, w, es, id, a, m, prior.answers[id]);
    } else if prior.pending[id].Probed? {
      LookedUpLonger(site, w, es, id, a, m, Found(site, es[a].url, prior.pending[id].exists_));
    } else if es[n] == Probe(id) {
      m' := n;
    }
  }

  lemma ServedFromCacheStep(site: Site, w: Web, es: seq<Event>, id: nat, a: nat)
    requires es != [] && a < |es| - 1 && es[a].Arrive? && ServedFromCache(site, w, es[..|es| - 1], id, a)
    ensures ServedFromCache(site, w, es, id, a)
  {
    var n := |es| - 1;
    Prefix(es, n, a);
    Prefix(es, n, a + 1);
    RequestStep(site, Run(site, w, es[..n]), es[n], id);
  }

  lemma FateStep(site: Site, w: Web, es: seq<Event>, id: nat, a: nat, m: nat) returns (m': nat)
    requires es != [] && Grounded(Run(site, w, es[..|es| - 1]))
    requires Fate(site, w, es[..|es| - 1], id, a, m)
    ensures Fate(site, w, es, id, a, m')
  {
    var n := |es| - 1;
    assert FirstArrival(es, id, a);
    Prefix(es, n, a);
    if WrongHit(site, Run(site, w, es[..a]), es[a]) {
      ServedFromCacheStep(site, w, es, id, a);
      m' := m;
    } else {
      m' := ServedStep(site, w, es, id, a, m);
    }
  }

  /** A new request is a wrong hit, or is answered as the uncached lookup would, or waits. */
  lemma NewFate(site: Site, w: Web, es: seq<Event>, id: nat)
    requires es != [] && Grounded(Run(site, w, es[..|es| - 1]))
    requires !Known(Run(site, w, es[..|es| - 1]), id) && Known(Run(site, w, es), id)
    requires forall j | 0 <= j < |es| - 1 :: !(es[j].Arrive? && es[j].id == id)
    ensures Fate(site, w, es, id, |es| - 1, |es| - 1)
  {
    assert es[..|es|] == es;
    RequestStep(site, Run(site, w, es[..|es| - 1]), es[|es| - 1], id);
  }

  /** A request that has arrived is known from then on. */
  lemma {:induction false} ArrivedKnown(site: Site, w: Web, es: seq<Event>, j: nat)
    requires Idle(w) && j < |es| && es[j].Arrive?
    ensures Known(Run(site, w, es), es[j].id)
    decreases |es|
  {
    var before := es[..|es| - 1];
    NeverBoth(site, w, before, es[j].id);
    RequestStep(site, Run(site, w, before), es[|es| - 1], es[j].id);
    if j < |es| - 1 {
      ArrivedKnown(site, w, before, j);
    }
  }

  lemma {:induction false} RequestFate(site: Site, w: Web, es: seq<Event>, id: nat) returns (a: nat, m: nat)
    requires Grounded(w) && Idle(w)
    requires Known(Run(site, w, es), id)
    ensures Fate(site, w, es, id, a, m)
    decreases |es|
  {
    var before := es[..|es| - 1];
    RunGrounded(site, w, before);
    if Known(Run(site, w, before), id) {
      a, m := RequestFate(site, w, before, id);
      m := FateStep(site, w, es, id, a, m);
    } else {
      forall j | 0 <= j < |es| - 1
        ensures !(es[j].Arrive? && es[j].id == id)
      {
        if es[j].Arrive? {
          ArrivedKnown(site, w, before, j);
        }
      }
      NewFate(site, w, es, id);
      a, m := |es| - 1, |es| - 1;
    }
  }

  /** The answer to a request is what a lookup without a cache would have given at some event from its
      arrival to its answer. */
  ghost predicate ServedAsUncached(site: Site, w: Web, es: seq<Event>, id: nat, a: nat, f: nat)
    requires AnsweredAt(site, w, es, id, f) && a < |es| && es[a].Arrive?
  {
    exists m | a <= m <= f ::
      Run(site, w, es[..f + 1]).answers[id] == Uncached(site, Run(site, w, es[..m]).disk, es[a].url)
  }

  /** A request is served as without a cache exactly when it did not hit a wrong entry on arrival,
      whatever files came and went and however the handlers interleaved. */
  lemma RequestTransparentExactly(site: Site, w: Web, es: seq<Event>, id: nat, a: nat, f: nat)
    requires Grounded(w) && Idle(w)
    requires FirstArrival(es, id, a) && AnsweredAt(site, w, es, id, f)
    ensures a <= f
    ensures ServedAsUncached(site, w, es, id, a, f) <==> !WrongHit(site, Run(site, w, es[..a]), es[a])
  {
    var a', m := RequestFate(site, w, es[..f + 1], id);
    SameArrival(es, id, a, f + 1, a');
    Prefix(es, f + 1, a);
    if WrongHit(site, Run(site, w, es[..a]), es[a]) {
      Prefix(es, f + 1, a + 1);
      AnsweredOnce(site, w, es, id, f, a + 1);
      WrongNotUncached(site, w, es, id, a);
    } else {
      RightServed(site, w, es, id, a, f, m);
    }
  }

  lemma RightServed(site: Site, w: Web, es: seq<Event>, id: nat, a: nat, f: nat, m: nat)
    requires AnsweredAt(site, w, es, id, f) && a < |es| && es[a].Arrive? && a <= f
    requires Served(site, w, es[..f + 1], id, a, m)
    ensures ServedAsUncached(site, w, es, id, a, f)
  {
    Prefix(es, f + 1, m);
  }

  lemma SameArrival(es: seq<Event>, id: nat, a: nat, n: nat, a': nat)
    requires n <= |es| && FirstArrival(es, id, a) && FirstArrival(es[..n], id, a')
    ensures a' == a
  {
    assert FirstArrival(es, id, a');
  }

  lemma WrongNotUncached(site: Site, w: Web, es: seq<Event>, id: nat, a: nat)
    requires Grounded(w) && Idle(w)
    requires AnsweredAt(site, w, es, id, a) && FirstArrival(es, id, a) && WrongHit(site, Run(site, w, es[..a]), es[a])
    ensures !ServedAsUncached(site, w, es, id, a, a)
  {
    RunGrounded(site, w, es[..a]);
    Prefix(es, a + 1, a);
  }

  /** Every request of the run is served as without a cache. */
  ghost predicate Transparent(site: Site, w: Web, es: seq<Event>) {
    forall id, a: nat, f: nat | FirstArrival(es, id, a) && AnsweredAt(site, w, es, id, f) ::
      ServedAsUncached(site, w, es, id, a, f)
  }

  /** The cache is invisible in a run, removals of files included, exactly when no arriving request hits
      an entry whose file is gone or is not the one that the URL stands for. */
  lemma TransparentExactly(site: Site, w: Web, es: seq<Event>)
    requires Grounded(w) && Idle(w)
    ensures Transparent(site, w, es) <==> forall k | 0 <= k < |es| :: !WrongHit(site, Run(site, w, es[..k]), es[k])
  {
    if forall k | 0 <= k < |es| :: !WrongHit(site, Run(site, w, es[..k]), es[k]) {
      forall id, a: nat, f: nat | FirstArrival(es, id, a) && AnsweredAt(site, w, es, id, f)
        ensures ServedAsUncached(site, w, es, id, a, f)
      {
        RequestTransparentExactly(site, w, es, id, a, f);
      }
    } else {
      var k :| 0 <= k < |es| && WrongHit(site, Run(site, w, es[..k]), es[k]);
      HitAnswered(site, w, es, k);
      RequestTransparentExactly(site, w, es, es[k].id, k, k);
    }
  }

  /** From a cache that leads every URL to the file it stands for, a request can only go wrong by hitting
      an entry whose file is gone. */
  lemma StaleExactly(site: Site, w: Web, es: seq<Event>)
    requires Grounded(w) && Joined(site, w.cache) && Idle(w)
    ensures Transparent(site, w, es) <==> forall k | 0 <= k < |es| :: !StaleHit(Run(site, w, es[..k]), es[k])
  {
    TransparentExactly(site, w, es);
    forall k | 0 <= k < |es|
      ensures WrongHit(site, Run(site, w, es[..k]), es[k]) <==> StaleHit(Run(site, w, es[..k]), es[k])
    {
      RunGrounded(site, w, es[..k]);
    }
  }

  lemma HitAnswered(site: Site, w: Web, es: seq<Event>, k: nat)
    requires Idle(w) && k < |es| && WrongHit(site, Run(site, w, es[..k]), es[k])
    ensures FirstArrival(es, es[k].id, k) && AnsweredAt(site, w, es, es[k].id, k)
  {
    forall j | 0 <= j < k
      ensures !(es[j].Arrive? && es[j].id == es[k].id)
    {
      if es[j].Arrive? {
        ArrivedKnown(site, w, es[..k], j);
      }
    }
    Prefix(es, k + 1, k);
  }

  /** In particular the cache is invisible as long as no file it relies on is removed. */
  lemma CacheTransparent(site: Site, w: Web, es: seq<Event>)
    requires Coherent(site, w) && Idle(w)
    requires Undisturbed(site, w, es)
    ensures Transparent(site, w, es)
  {
    forall k | 0 <= k < |es|
      ensures !WrongHit(site, Run(site, w, es[..k]), es[k])
    {
      forall j | 0 <= j < k
        ensures es[..k][..j] == es[..j]
      {
        Prefix(es, k, j);
      }
      RunCoherent(site, w, es[..k]);
    }
    TransparentExactly(site, w, es);
  }

  /** Taking away a cached file and then asking for it is a stale hit. */
  lemma RemovalShows(site: Site, w: Web, u: string, id: nat)
    requires Coherent(site, w) && u in w.cache && u != "/" && !Known(w, id)
    ensures var remove := RemoveFile(w.cache[u]); var w' := Run(site, w, [remove, Arrive(id, u)]);
            && StaleHit(Step(site, w, remove), Arrive(id, u))
            && id in w'.answers && w'.answers[id] == Some(w.cache[u])
            && Uncached(site, w'.disk, u) == None
  {
    var remove, arrive := RemoveFile(w.cache[u]), Arrive(id, u);
    assert [remove, arrive][..1] == [remove] && [remove][..0] == [];
    assert Run(site, w, [remove]) == Step(site, w, remove);
    assert Run(site, w, [remove, arrive]) == Step(site, Run(site, w, [remove]), arrive);
  }
}
