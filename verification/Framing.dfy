/** Cutting a stream into messages at the leftmost delimiter, and the laws this obeys.
    The element type is a byte in buffer mode and a UTF-16 code unit in string mode.
    `d` is what the search looks for; `adv` is how far past the start of a match the cut resumes. */
module Framing {
  import opened Search
  import opened Sequences

  datatype Cut<T> = Cut(lines: seq<seq<T>>, rest: seq<T>)

  function Split<T(==)>(s: seq<T>, d: seq<T>, adv: nat): Cut<T>
    requires 0 < adv <= |d|
    decreases |s|
  {
    var p := IndexOf(s, d);
    if p < 0 then Cut([], s)
    else
      var t := Split(s[p + adv..], d, adv);
      Cut([s[..p]] + t.lines, t.rest)
  }

  function Concat<T>(ss: seq<seq<T>>): seq<T> {
    if ss == [] then [] else ss[0] + Concat(ss[1..])
  }

  /** Every line followed by `sep`. */
  function Unsplit<T>(lines: seq<seq<T>>, sep: seq<T>): seq<T> {
    if lines == [] then [] else lines[0] + sep + Unsplit(lines[1..], sep)
  }

  /** What a receiver emits and holds back when the chunks arrive one at a time
      and `held` was left over from before. */
  function Feed<T(==)>(held: seq<T>, chunks: seq<seq<T>>, d: seq<T>, adv: nat): Cut<T>
    requires 0 < adv <= |d|
    decreases |chunks|
  {
    if chunks == [] then Cut([], held)
    else
      var c := Split(held + chunks[0], d, adv);
      var t := Feed(c.rest, chunks[1..], d, adv);
      Cut(c.lines + t.lines, t.rest)
  }

  // ----- Sequences of chunks -----

  lemma {:induction false} ConcatAppend<T>(a: seq<seq<T>>, b: seq<seq<T>>)
    ensures Concat(a + b) == Concat(a) + Concat(b)
  {
    if a == [] {
      assert a + b == b;
    } else {
      assert (a + b)[1..] == a[1..] + b;
      ConcatAppend(a[1..], b);
    }
  }

  // ----- Chunking invariance -----

  /** One step of `Split`, with its pieces named. */
  lemma CutFirst<T>(s: seq<T>, line: seq<T>, tail: seq<T>, d: seq<T>, adv: nat)
    requires 0 < adv <= |d|
    requires IndexOf(s, d) == |line| && s[..|line|] == line && s[|line| + adv..] == tail
    ensures Split(s, d, adv) == Cut([line] + Split(tail, d, adv).lines, Split(tail, d, adv).rest)
  {
  }

  /** More input after a buffer changes neither the messages already cut from it nor the order
      in which the rest is cut. */
  lemma {:induction false} SplitAppend<T>(s: seq<T>, x: seq<T>, d: seq<T>, adv: nat)
    requires 0 < adv <= |d|
    ensures var c := Split(s, d, adv); var t := Split(c.rest + x, d, adv);
            Split(s + x, d, adv) == Cut(c.lines + t.lines, t.rest)
    decreases |s|
  {
    if !Contains(s, d) {
      assert Split(s, d, adv) == Cut([], s);
    } else {
      var line, rest := FoundInBoth(s, x, d, adv);
      SplitAppend(rest, x, d, adv);
      CutFirst(s, line, rest, d, adv);
      CutFirst(s + x, line, rest + x, d, adv);
      var u := Split(rest, d, adv);
      var v := Split(u.rest + x, d, adv);
      Associates([line], u.lines, v.lines);
    }
  }

  lemma ConcatSnoc<T>(ss: seq<seq<T>>, x: seq<T>)
    ensures Concat(ss + [x]) == Concat(ss) + x
  {
    ConcatAppend(ss, [x]);
    assert Concat([x]) == x + Concat([]) == x;
  }

  /** What one more chunk adds to a split of everything received before it. */
  lemma SplitExtended<T>(origin: seq<T>, received: seq<seq<T>>, x: seq<T>, d: seq<T>, adv: nat,
                         log: seq<seq<T>>, held: seq<T>)
    requires 0 < adv <= |d|
    requires if received == [] then log == [] && held == origin
             else Split(origin + Concat(received), d, adv) == Cut(log, held)
    ensures var t := Split(held + x, d, adv);
            Split(origin + Concat(received + [x]), d, adv) == Cut(log + t.lines, t.rest)
  {
    ConcatSnoc(received, x);
    Associates(origin, Concat(received), x);
    if received == [] {
      assert origin + Concat(received) == held;
      NoLinesBefore(Split(held + x, d, adv));
    } else {
      SplitAppend(origin + Concat(received), x, d, adv);
    }
  }

  lemma NoLinesBefore<T>(c: Cut<T>)
    ensures Cut([] + c.lines, c.rest) == c
  {
  }

  lemma FoundInBoth<T>(s: seq<T>, x: seq<T>, d: seq<T>, adv: nat) returns (line: seq<T>, rest: seq<T>)
    requires 0 < adv <= |d| && Contains(s, d)
    ensures |line| == IndexOf(s, d) == IndexOf(s + x, d) && |rest| < |s|
    ensures s[..|line|] == line && s[|line| + adv..] == rest
    ensures (s + x)[..|line|] == line && (s + x)[|line| + adv..] == rest + x
  {
    var p := IndexOf(s, d);
    line, rest := s[..p], s[p + adv..];
    IndexOfPrefix(s, x, d);
  }

  /** However a stream is cut into chunks, what is emitted and what is held back are those of one
      split of everything received. `held` may be any leftover, even one that itself holds `d`. */
  lemma {:induction false} ChunkingInvariance<T>(held: seq<T>, chunks: seq<seq<T>>, d: seq<T>, adv: nat)
    requires 0 < adv <= |d|
    requires chunks != [] || !Contains(held, d)
    ensures Feed(held, chunks, d, adv) == Split(held + Concat(chunks), d, adv)
    decreases |chunks|
  {
    if chunks == [] {
      assert held + Concat(chunks) == held;
    } else {
      var c := Split(held + chunks[0], d, adv);
      SplitRestFree(held + chunks[0], d, adv);
      ChunkingInvariance(c.rest, chunks[1..], d, adv);
      SplitAppend(held + chunks[0], Concat(chunks[1..]), d, adv);
      Associates(held, chunks[0], Concat(chunks[1..]));
    }
  }

  /** The messages emitted after some of the chunks are the first messages of the whole run. */
  lemma {:induction false} EmittedPrefix<T>(held: seq<T>, early: seq<seq<T>>, late: seq<seq<T>>, d: seq<T>, adv: nat)
    requires 0 < adv <= |d|
    ensures var a := Feed(held, early, d, adv); var b := Feed(a.rest, late, d, adv);
            Feed(held, early + late, d, adv) == Cut(a.lines + b.lines, b.rest)
    ensures Feed(held, early, d, adv).lines <= Feed(held, early + late, d, adv).lines
    decreases |early|
  {
    if early == [] {
      assert early + late == late;
    } else {
      var c := Split(held + early[0], d, adv);
      assert (early + late)[1..] == early[1..] + late;
      EmittedPrefix(c.rest, early[1..], late, d, adv);
      var a := Feed(c.rest, early[1..], d, adv);
      var b := Feed(a.rest, late, d, adv);
      assert c.lines + (a.lines + b.lines) == (c.lines + a.lines) + b.lines;
    }
  }

  // ----- Conservation and canonicity -----

  lemma {:induction false} SplitRestFree<T>(s: seq<T>, d: seq<T>, adv: nat)
    requires 0 < adv <= |d|
    ensures !Contains(Split(s, d, adv).rest, d)
    decreases |s|
  {
    var p := IndexOf(s, d);
    if p >= 0 {
      SplitRestFree(s[p + adv..], d, adv);
    }
  }

  /** `p` is a position of `d` in `s` and no earlier position is. */
  ghost predicate FirstAt<T>(s: seq<T>, d: seq<T>, p: nat) {
    OccursAt(s, d, p) && forall q: nat | q < p :: !OccursAt(s, d, q)
  }

  /** A cutting of `s` in which nothing is lost, every cut is at the first delimiter of what is
      left at that point, and no delimiter remains. */
  ghost predicate LeftmostCutting<T>(s: seq<T>, d: seq<T>, adv: nat, c: Cut<T>)
    requires adv <= |d|
  {
    && s == Unsplit(c.lines, d[..adv]) + c.rest
    && (forall i | 0 <= i < |c.lines| :: FirstAt(Unsplit(c.lines[i..], d[..adv]) + c.rest, d, |c.lines[i]|))
    && forall q: nat :: !OccursAt(c.rest, d, q)
  }

  /** `Split` is the one and only leftmost cutting: nothing received is lost, invented or reordered. */
  lemma SplitCanonical<T>(s: seq<T>, d: seq<T>, adv: nat, c: Cut<T>)
    requires 0 < adv <= |d|
    ensures LeftmostCutting(s, d, adv, c) <==> c == Split(s, d, adv)
  {
    SplitIsCutting(s, d, adv);
    if LeftmostCutting(s, d, adv, c) {
      CuttingIsSplit(s, d, adv, c);
    }
  }

  lemma SplitIsCutting<T>(s: seq<T>, d: seq<T>, adv: nat)
    requires 0 < adv <= |d|
    ensures LeftmostCutting(s, d, adv, Split(s, d, adv))
  {
    var c := Split(s, d, adv);
    SplitConserves(s, d, adv);
    SplitRestFree(s, d, adv);
    forall i | 0 <= i < |c.lines|
      ensures FirstAt(Unsplit(c.lines[i..], d[..adv]) + c.rest, d, |c.lines[i]|)
    {
      SplitCutsFirst(s, d, adv, i);
    }
  }

  /** The emitted messages, each with the part of the delimiter that was skipped, and then what is
      held back, are everything received. */
  lemma {:induction false} SplitConserves<T>(s: seq<T>, d: seq<T>, adv: nat)
    requires 0 < adv <= |d|
    ensures var c := Split(s, d, adv); s == Unsplit(c.lines, d[..adv]) + c.rest
    decreases |s|
  {
    if Contains(s, d) {
      var line, tail := FoundPieces(s, d, adv);
      SplitConserves(tail, d, adv);
      CutFirst(s, line, tail, d, adv);
      UnsplitCons(line, Split(tail, d, adv), d[..adv]);
    } else {
      assert Split(s, d, adv) == Cut([], s);
    }
  }

  lemma FoundPieces<T>(s: seq<T>, d: seq<T>, adv: nat) returns (line: seq<T>, tail: seq<T>)
    requires 0 < adv <= |d| && Contains(s, d)
    ensures |line| == IndexOf(s, d) && s[..|line|] == line && s[|line| + adv..] == tail && |tail| < |s|
    ensures s == line + d[..adv] + tail
  {
    var p := IndexOf(s, d);
    line, tail := s[..p], s[p + adv..];
    assert s[p..p + adv] == s[p..p + |d|][..adv];
  }

  lemma UnsplitCons<T>(line: seq<T>, t: Cut<T>, sep: seq<T>)
    ensures Unsplit([line] + t.lines, sep) + t.rest == line + sep + (Unsplit(t.lines, sep) + t.rest)
  {
    assert ([line] + t.lines)[1..] == t.lines;
  }

  lemma {:induction false} SplitCutsFirst<T>(s: seq<T>, d: seq<T>, adv: nat, i: nat)
    requires 0 < adv <= |d|
    requires i < |Split(s, d, adv).lines|
    ensures var c := Split(s, d, adv);
            FirstAt(Unsplit(c.lines[i..], d[..adv]) + c.rest, d, |c.lines[i]|)
    decreases i
  {
    var p := IndexOf(s, d);
    if i == 0 {
      SplitConserves(s, d, adv);
      var c := Split(s, d, adv);
      assert c.lines[0..] == c.lines;
    } else {
      var t := Split(s[p + adv..], d, adv);
      SplitCutsFirst(s[p + adv..], d, adv, i - 1);
      assert ([s[..p]] + t.lines)[i..] == t.lines[i - 1..];
    }
  }

  lemma {:induction false} CuttingIsSplit<T>(s: seq<T>, d: seq<T>, adv: nat, c: Cut<T>)
    requires 0 < adv <= |d|
    requires LeftmostCutting(s, d, adv, c)
    ensures c == Split(s, d, adv)
    decreases |c.lines|
  {
    if c.lines == [] {
      assert s == c.rest;
    } else {
      var line, t := c.lines[0], Cut(c.lines[1..], c.rest);
      var tail := Unsplit(t.lines, d[..adv]) + t.rest;
      CuttingTail(s, d, adv, c);
      CuttingIsSplit(tail, d, adv, t);
      CutFirst(s, line, tail, d, adv);
      assert [line] + t.lines == c.lines;
    }
  }

  lemma CuttingTail<T>(s: seq<T>, d: seq<T>, adv: nat, c: Cut<T>)
    requires 0 < adv <= |d| && c.lines != []
    requires LeftmostCutting(s, d, adv, c)
    ensures var line, t := c.lines[0], Cut(c.lines[1..], c.rest);
            var tail := Unsplit(t.lines, d[..adv]) + t.rest;
            && |line| == IndexOf(s, d) && s[..|line|] == line
            && |line| + adv <= |s| && s[|line| + adv..] == tail
            && LeftmostCutting(tail, d, adv, t)
  {
    var line, t := c.lines[0], Cut(c.lines[1..], c.rest);
    var sep, tail := d[..adv], Unsplit(c.lines[1..], d[..adv]) + c.rest;
    assert s == line + sep + tail by {
      assert [line] + t.lines == c.lines;
      UnsplitCons(line, t, sep);
    }
    assert |line| == IndexOf(s, d) by {
      assert c.lines[0..] == c.lines;
      assert FirstAt(s, d, |line|);
    }
    Pieces(line, sep, tail);
    LaterCuts(c, d, sep);
  }

  lemma LaterCuts<T>(c: Cut<T>, d: seq<T>, sep: seq<T>)
    requires c.lines != []
    requires forall i | 0 <= i < |c.lines| :: FirstAt(Unsplit(c.lines[i..], sep) + c.rest, d, |c.lines[i]|)
    ensures forall i | 0 <= i < |c.lines[1..]| ::
              FirstAt(Unsplit(c.lines[1..][i..], sep) + c.rest, d, |c.lines[1..][i]|)
  {
    forall i | 0 <= i < |c.lines[1..]|
      ensures FirstAt(Unsplit(c.lines[1..][i..], sep) + c.rest, d, |c.lines[1..][i]|)
    {
      assert c.lines[1..][i..] == c.lines[i + 1..] && c.lines[1..][i] == c.lines[i + 1];
    }
  }

  lemma Pieces<T>(a: seq<T>, b: seq<T>, c: seq<T>)
    ensures var s := a + b + c; s[..|a|] == a && s[|a| + |b|..] == c
  {
  }

  lemma {:induction false} UnsplitLength<T>(lines: seq<seq<T>>, sep: seq<T>)
    ensures |Unsplit(lines, sep)| == |Concat(lines)| + |lines| * |sep|
  {
    if lines != [] {
      UnsplitLength(lines[1..], sep);
      assert |lines| * |sep| == |sep| + |lines[1..]| * |sep|;
    }
  }

  /** Every byte is accounted for: the messages, `adv` bytes for each cut, and what is held back.
      With `adv == |d|` one split yields at most as many messages as delimiters fit in the buffer. */
  lemma SplitLengths<T>(s: seq<T>, d: seq<T>, adv: nat)
    requires 0 < adv <= |d|
    ensures var c := Split(s, d, adv);
            |s| == |Concat(c.lines)| + |c.lines| * adv + |c.rest|
    ensures |Split(s, d, adv).lines| * adv <= |s|
  {
    var c := Split(s, d, adv);
    SplitConserves(s, d, adv);
    UnsplitLength(c.lines, d[..adv]);
  }

  // ----- Round trip -----

  predicate AllFree<T(==)>(ms: seq<seq<T>>, d: seq<T>) {
    forall i | 0 <= i < |ms| :: !Contains(ms[i], d)
  }

  /** Every list of delimiter-free messages, each sent with `d` after it, is received unchanged. */
  ghost predicate RoundTrips<T(!new)>(d: seq<T>, adv: nat)
    requires 0 < adv <= |d|
  {
    forall ms: seq<seq<T>> | AllFree(ms, d) :: Split(Unsplit(ms, d), d, adv) == Cut(ms, [])
  }

  /** One list of messages survives exactly when no message, followed by `d`, shows an earlier `d`. */
  lemma {:induction false} RoundTripOfList<T>(ms: seq<seq<T>>, d: seq<T>)
    requires d != []
    ensures Split(Unsplit(ms, d), d, |d|) == Cut(ms, [])
       <==> forall i | 0 <= i < |ms| :: IndexOf(ms[i] + d, d) == |ms[i]|
  {
    if ms != [] {
      var m, tail := ms[0], Unsplit(ms[1..], d);
      var s := Unsplit(ms, d);
      assert s == (m + d) + tail;
      assert OccursAt(m + d, d, |m|);
      IndexOfPrefix(m + d, tail, d);
      var p := IndexOf(s, d);
      assert p == IndexOf(m + d, d);
      if p == |m| {
        RoundTripOfList(ms[1..], d);
        CutFirst(s, m, tail, d, |d|);
        ConsEquals(m, Split(tail, d, |d|).lines, ms);
        AllCons(ms, d);
      } else {
        FirstLine(s, d, p);
      }
    }
  }

  lemma FirstLine<T>(s: seq<T>, d: seq<T>, p: nat)
    requires d != [] && IndexOf(s, d) == p
    ensures Split(s, d, |d|).lines != [] && |Split(s, d, |d|).lines[0]| == p
  {
  }

  lemma AllCons<T>(ms: seq<seq<T>>, d: seq<T>)
    requires ms != []
    ensures (forall i | 0 <= i < |ms| :: IndexOf(ms[i] + d, d) == |ms[i]|)
       <==> IndexOf(ms[0] + d, d) == |ms[0]|
            && forall i | 0 <= i < |ms[1..]| :: IndexOf(ms[1..][i] + d, d) == |ms[1..][i]|
  {
    assert forall i | 0 <= i < |ms[1..]| :: ms[1..][i] == ms[i + 1];
    assert forall i | 1 <= i < |ms| :: ms[i] == ms[1..][i - 1];
  }

  lemma ConsEquals<T>(x: T, xs: seq<T>, ys: seq<T>)
    requires ys != [] && ys[0] == x
    ensures [x] + xs == ys <==> xs == ys[1..]
  {
    assert ([x] + xs)[1..] == xs;
    assert ys == [x] + ys[1..];
  }

  /** The round trip holds for all delimiter-free messages exactly when the delimiter has no border
      and the cut resumes right after it. */
  lemma RoundTripExactly<T(!new)>(d: seq<T>, adv: nat)
    requires 0 < adv <= |d|
    ensures RoundTrips(d, adv) <==> Borderless(d) && adv == |d|
  {
    if Borderless(d) && adv == |d| {
      forall ms: seq<seq<T>> | AllFree(ms, d)
        ensures Split(Unsplit(ms, d), d, adv) == Cut(ms, [])
      {
        forall i | 0 <= i < |ms|
          ensures IndexOf(ms[i] + d, d) == |ms[i]|
        {
          BorderlessFirst(ms[i], d);
        }
        RoundTripOfList(ms, d);
      }
    } else if adv < |d| {
      EarlyResumeBreaks(d, adv);
    } else {
      var k: nat :| 0 < k < |d| && IsBorder(d, k);
      BorderCounterexample(d, k);
    }
  }

  /** With a border of length `k`, the message `d[..|d| - k]` is received as an empty message. */
  lemma BorderCounterexample<T>(d: seq<T>, k: nat)
    requires IsBorder(d, k)
    ensures var ms := [d[..|d| - k]]; var lines := Split(Unsplit(ms, d), d, |d|).lines;
            AllFree(ms, d) && lines != [] && |lines[0]| == 0 < |ms[0]|
  {
    var m := d[..|d| - k];
    BorderBreaks(d, k);
    UnsplitOne(m, d);
    FirstLine(m + d, d, 0);
  }

  lemma UnsplitOne<T>(m: seq<T>, sep: seq<T>)
    ensures Unsplit([m], sep) == m + sep
  {
    assert [m][1..] == [];
  }

  /** When the cut resumes inside the delimiter, its tail stays behind. */
  lemma EarlyResumeBreaks<T>(d: seq<T>, adv: nat)
    requires 0 < adv < |d|
    ensures AllFree([[]], d) && Split(Unsplit([[]], d), d, adv) == Cut([[]], d[adv..])
  {
    assert Unsplit([[]], d) == d;
    assert Split(d[adv..], d, adv) == Cut([], d[adv..]);
  }
}
