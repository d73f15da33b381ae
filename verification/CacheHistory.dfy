/** What the state of the file cache says about the events of a run (http/httpServer.js:298-334). */
module CacheHistory {
  import opened Options
  import opened FileCache

  // ----- Which requests are answered -----

  ghost predicate ProbedAfter(es: seq<Event>, id: nat, a: nat) {
    exists p | a < p < |es| :: es[p] == Probe(id)
  }

  /** The file of the request is probed after event `a`, and its handler finishes after that. */
  ghost predicate FinishedAfter(es: seq<Event>, id: nat, a: nat) {
    exists p, f | a < p < f < |es| :: es[p] == Probe(id) && es[f] == Finish(id)
  }

  /** How far a request that arrived at `a` has come. */
  ghost predicate Come(site: Site, w: Web, es: seq<Event>, id: nat, a: nat)
    requires a < |es| && es[a].Arrive?
  {
    var now := Run(site, w, es);
    if es[a].url in Run(site, w, es[..a]).cache || FinishedAfter(es, id, a) then
      id in now.answers && id !in now.pending
    else
      id !in now.answers && id in now.pending && (now.pending[id].Probed? <==> ProbedAfter(es, id, a))
  }

  lemma AfterStep(es: seq<Event>, id: nat, a: nat)
    requires a < |es| - 1
    ensures var before, e := es[..|es| - 1], es[|es| - 1];
            && (ProbedAfter(es, id, a) <==> ProbedAfter(before, id, a) || e == Probe(id))
            && (FinishedAfter(es, id, a) <==>
                  FinishedAfter(before, id, a) || (e == Finish(id) && ProbedAfter(before, id, a)))
  {
    var n := |es| - 1;
    assert forall k | 0 <= k < n :: es[..n][k] == es[k];
    if es[n] == Probe(id) {
      assert es[n] == Probe(id) && a < n < |es|;
    }
  }

  lemma {:induction false} RequestCome(site: Site, w: Web, es: seq<Event>, id: nat, a: nat)
    requires Idle(w) && FirstArrival(es, id, a)
    ensures Come(site, w, es, id, a)
    decreases |es|
  {
    var n := |es| - 1;
    var before := es[..n];
    NeverBoth(site, w, before, id);
    RequestStep(site, Run(site, w, before), es[n], id);
    if a < n {
      assert FirstArrival(before, id, a);
      RequestCome(site, w, before, id, a);
      Prefix(es, n, a);
      AfterStep(es, id, a);
    } else {
      NotArrived(site, w, before, id);
    }
  }

  lemma {:induction false} NotArrived(site: Site, w: Web, es: seq<Event>, id: nat)
    requires Idle(w) && forall j | 0 <= j < |es| :: !(es[j].Arrive? && es[j].id == id)
    ensures !Known(Run(site, w, es), id)
  {
    if es != [] {
      var n := |es| - 1;
      NotArrived(site, w, es[..n], id);
      RequestStep(site, Run(site, w, es[..n]), es[n], id);
    }
  }

  /** A request is answered exactly when it arrived and its URL was in the cache at that moment, or its file
      was probed since and its handler finished after that. */
  lemma AnsweredExactly(site: Site, w: Web, es: seq<Event>, id: nat)
    requires Idle(w)
    ensures id in Run(site, w, es).answers
       <==> exists a: nat :: FirstArrival(es, id, a)
              && (es[a].url in Run(site, w, es[..a]).cache || FinishedAfter(es, id, a))
  {
    if exists j :: 0 <= j < |es| && es[j].Arrive? && es[j].id == id {
      var j :| 0 <= j < |es| && es[j].Arrive? && es[j].id == id;
      var a := FirstOf(es, id, j);
      RequestCome(site, w, es, id, a);
      assert forall b: nat | FirstArrival(es, id, b) :: b == a;
    } else {
      NotArrived(site, w, es, id);
    }
  }

  lemma {:induction false} FirstOf(es: seq<Event>, id: nat, j: nat) returns (a: nat)
    requires j < |es| && es[j].Arrive? && es[j].id == id
    ensures FirstArrival(es, id, a)
  {
    if i :| 0 <= i < j && es[i].Arrive? && es[i].id == id {
      a := FirstOf(es, id, i);
    } else {
      a := j;
    }
  }

  // ----- What the cache and the disk hold -----

  /** Event `f` finishes the handler of a request for `u` whose file existed when it was probed. */
  ghost predicate Remembers(site: Site, w: Web, es: seq<Event>, u: string, f: nat) {
    && f < |es| && es[f].Finish?
    && es[f].id in Run(site, w, es[..f]).pending
    && Run(site, w, es[..f]).pending[es[f].id] == Probed(u, true)
  }

  /** The cache leads a URL to the path it joins to once a request has found its file, and until then to what
      it led it to at first. */
  lemma {:induction false} CacheIsHistory(site: Site, w: Web, es: seq<Event>, u: string)
    ensures Looked(Run(site, w, es).cache, u)
         == if exists f: nat :: Remembers(site, w, es, u, f) then Some(Paths.Join(site.root, u)) else Looked(w.cache, u)
  {
    if es != [] {
      var n := |es| - 1;
      CacheIsHistory(site, w, es[..n], u);
      RemembersStep(site, w, es, u);
      CacheStep(site, Run(site, w, es[..n]), es[n], u);
    }
  }

  lemma RemembersStep(site: Site, w: Web, es: seq<Event>, u: string)
    requires es != []
    ensures var n := |es| - 1;
            (exists f: nat :: Remembers(site, w, es, u, f))
            <==> FoundNow(Run(site, w, es[..n]), es[n], u) || exists f: nat :: Remembers(site, w, es[..n], u, f)
  {
    var n := |es| - 1;
    forall f: nat | f < n
      ensures Remembers(site, w, es, u, f) <==> Remembers(site, w, es[..n], u, f)
    {
      Prefix(es, n, f);
    }
    assert Remembers(site, w, es, u, n) <==> FoundNow(Run(site, w, es[..n]), es[n], u);
    assert forall f: nat :: Remembers(site, w, es[..n], u, f) ==> f < n;
  }

  predicate FoundNow(w: Web, e: Event, u: string) {
    e.Finish? && e.id in w.pending && w.pending[e.id] == Probed(u, true)
  }

  lemma CacheStep(site: Site, w: Web, e: Event, u: string)
    ensures Looked(Step(site, w, e).cache, u)
         == if FoundNow(w, e, u) then Some(Paths.Join(site.root, u)) else Looked(w.cache, u)
  {
  }

  predicate About(e: Event, path: string) {
    (e.AddFile? || e.RemoveFile?) && e.path == path
  }

  /** A path exists exactly when the last change of it added it, or it existed and was never changed. */
  lemma {:induction false} DiskIsHistory(site: Site, w: Web, es: seq<Event>, path: string)
    ensures path in Run(site, w, es).disk
       <==> || (path in w.disk && forall k | 0 <= k < |es| :: !About(es[k], path))
            || exists k: nat | k < |es| :: es[k] == AddFile(path) && forall j | k < j < |es| :: !About(es[j], path)
  {
    if es != [] {
      var n := |es| - 1;
      DiskIsHistory(site, w, es[..n], path);
      assert forall k | 0 <= k < n :: es[..n][k] == es[k];
      if es[n] == AddFile(path) {
        assert n < |es| && es[n] == AddFile(path);
      } else if es[n] != RemoveFile(path) {
        assert !About(es[n], path);
        if k: nat :| k < n && es[..n][k] == AddFile(path) && forall j | k < j < n :: !About(es[..n][j], path) {
          assert es[k] == AddFile(path) && forall j | k < j < |es| :: !About(es[j], path);
        }
      }
    }
  }
}
