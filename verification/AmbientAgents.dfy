/** The daemon's list of SSH agent sockets offered by clients. */
module AmbientAgents {
  import opened Wrappers

  const MAX_AGENTS := 32

  datatype Path = Path(text: string)

  datatype Candidate = Candidate(generation: nat, path: Path)

  datatype State = State(nextGeneration: nat, candidates: seq<Candidate>)

  function Without(cs: seq<Candidate>, path: Path): (r: seq<Candidate>)
    ensures |r| <= |cs|
  {
    if cs == [] then []
    else if cs[0].path == path then Without(cs[1..], path)
    else [cs[0]] + Without(cs[1..], path)
  }

  function Newest<T>(cs: seq<T>): seq<T> {
    if |cs| > MAX_AGENTS then cs[|cs| - MAX_AGENTS..] else cs
  }

  /** `remember`: an old entry for the path goes, the path joins as newest, and the
      oldest entries make room. */
  function Remembered(s: State, path: Path): State {
    var g := s.nextGeneration + 1;
    State(g, Newest(Without(s.candidates, path) + [Candidate(g, path)]))
  }

  /** After a failed probe: the newest entry goes if it is still the probed one. */
  function Dropped(s: State, probed: Candidate): State {
    if s.candidates != [] && s.candidates[|s.candidates| - 1].generation == probed.generation
    then s.(candidates := s.candidates[..|s.candidates| - 1])
    else s
  }

  method Retain(cs: seq<Candidate>, path: Path) returns (kept: seq<Candidate>)
    ensures kept == Without(cs, path)
  {
    kept := [];
    assert cs[0..] == cs;
    for i := 0 to |cs|
      invariant kept + Without(cs[i..], path) == Without(cs, path)
    {
      assert cs[i..][1..] == cs[i + 1..];
      if cs[i].path != path {
        kept := kept + [cs[i]];
      }
    }
  }

  class AmbientSshAgents {
    var nextGeneration: nat
    var candidates: seq<Candidate>

    function View(): State
      reads this
    {
      State(nextGeneration, candidates)
    }

    constructor ()
      ensures View() == State(0, [])
    {
      nextGeneration, candidates := 0, [];
    }

    method Remember(path: Path)
      modifies this
      ensures View() == Remembered(old(View()), path)
    {
      hide Without;
      var kept := Retain(candidates, path);
      nextGeneration := nextGeneration + 1;
      candidates := kept + [Candidate(nextGeneration, path)];
      if |candidates| > MAX_AGENTS {
        var excess := |candidates| - MAX_AGENTS;
        candidates := candidates[excess..];
      }
    }

    /** The locked section after a failed probe. */
    method DropLatest(probed: Candidate)
      modifies this
      ensures View() == Dropped(old(View()), probed)
    {
      if candidates != [] && candidates[|candidates| - 1].generation == probed.generation {
        candidates := candidates[..|candidates| - 1];
      }
    }

    /** `connect_latest_live` while nobody else touches the list and the sockets in
        `live` answer: the newest live candidate is found, the dead ones newer than it
        go, and everything else stays. */
    method ConnectLatestLive(live: set<Path>) returns (found: Option<Candidate>)
      modifies this
      ensures nextGeneration == old(nextGeneration) && candidates <= old(candidates)
      ensures forall i :: |candidates| <= i < |old(candidates)| ==> old(candidates)[i].path !in live
      ensures found.None? ==> candidates == []
      ensures found.Some? ==> candidates != [] && found.value == candidates[|candidates| - 1] && found.value.path in live
    {
      while candidates != []
        invariant nextGeneration == old(nextGeneration) && candidates <= old(candidates)
        invariant forall i :: |candidates| <= i < |old(candidates)| ==> old(candidates)[i].path !in live
        decreases |candidates|
      {
        var candidate := candidates[|candidates| - 1];
        if candidate.path in live {
          return Some(candidate);
        }
        DropLatest(candidate);
      }
      found := None;
    }
  }

  // ---- every run ---------------------------------------------------------------

  /** Any interleaving of locked sections. */
  datatype Event = Remember(path: Path) | ProbeFailed(probed: Candidate)

  function Next(s: State, e: Event): State {
    match e
    case Remember(p) => Remembered(s, p)
    case ProbeFailed(c) => Dropped(s, c)
  }

  /** Oldest first: generations strictly increase up to `n`, and paths are distinct. */
  ghost predicate Increasing(cs: seq<Candidate>, n: nat) {
    && (forall i, j :: 0 <= i < j < |cs| ==> cs[i].generation < cs[j].generation && cs[i].path != cs[j].path)
    && (forall i :: 0 <= i < |cs| ==> 0 < cs[i].generation <= n)
  }

  ghost predicate Ordered(s: State) {
    |s.candidates| <= MAX_AGENTS && Increasing(s.candidates, s.nextGeneration)
  }

  lemma {:induction false} WithoutMembers(cs: seq<Candidate>, path: Path)
    ensures forall c :: c in Without(cs, path) <==> c in cs && c.path != path
  {
    if cs != [] {
      WithoutMembers(cs[1..], path);
    }
  }

  lemma {:induction false} WithoutIncreasing(cs: seq<Candidate>, path: Path, n: nat)
    requires Increasing(cs, n)
    ensures Increasing(Without(cs, path), n)
  {
    if cs != [] {
      SuffixIncreasing(cs, 1, n);
      WithoutIncreasing(cs[1..], path, n);
      var r := Without(cs[1..], path);
      forall i | 0 <= i < |r| ensures cs[0].generation < r[i].generation && cs[0].path != r[i].path {
        WithoutMembers(cs[1..], path);
        assert r[i] in cs[1..];
      }
    }
  }

  lemma SuffixIncreasing(cs: seq<Candidate>, d: nat, n: nat)
    requires Increasing(cs, n) && d <= |cs|
    ensures Increasing(cs[d..], n)
  {
  }

  lemma AppendIncreasing(cs: seq<Candidate>, path: Path, n: nat)
    requires Increasing(cs, n) && forall c :: c in cs ==> c.path != path
    ensures Increasing(cs + [Candidate(n + 1, path)], n + 1)
  {
  }

  lemma PrefixIncreasing(cs: seq<Candidate>, k: nat, n: nat)
    requires Increasing(cs, n) && k <= |cs|
    ensures Increasing(cs[..k], n)
  {
  }

  lemma RememberedOrdered(s: State, p: Path)
    requires Ordered(s)
    ensures Ordered(Remembered(s, p))
  {
    hide Increasing, Without;
    var n := s.nextGeneration;
    var kept := Without(s.candidates, p);
    WithoutIncreasing(s.candidates, p, n);
    WithoutMembers(s.candidates, p);
    AppendIncreasing(kept, p, n);
    var all := kept + [Candidate(n + 1, p)];
    SuffixIncreasing(all, |all| - |Newest(all)|, n + 1);
  }

  /** Generations strictly increase, paths are distinct, and at most 32 entries remain. */
  lemma NextOrdered(s: State, e: Event)
    requires Ordered(s)
    ensures Ordered(Next(s, e))
  {
    match e
    case Remember(p) => RememberedOrdered(s, p);
    case ProbeFailed(_) =>
      if s.candidates != [] {
        PrefixIncreasing(s.candidates, |s.candidates| - 1, s.nextGeneration);
      }
  }

  function Run(s: State, es: seq<Event>): State
    decreases |es|
  {
    if es == [] then s else Run(Next(s, es[0]), es[1..])
  }

  lemma {:induction false} RunOrdered(s: State, es: seq<Event>)
    requires Ordered(s)
    ensures Ordered(Run(s, es)) && |Run(s, es).candidates| <= 32
    decreases |es|
  {
    if es != [] {
      NextOrdered(s, es[0]);
      RunOrdered(Next(s, es[0]), es[1..]);
    }
  }

  /** A candidate seen later with an old generation is one that was already there. */
  lemma {:induction false} NoForgery(s: State, es: seq<Event>, c: Candidate)
    requires Ordered(s) && c in Run(s, es).candidates && c.generation <= s.nextGeneration
    ensures c in s.candidates
    decreases |es|
  {
    if es != [] {
      var t := Next(s, es[0]);
      NextOrdered(s, es[0]);
      NoForgery(t, es[1..], c);
      if es[0].Remember? {
        WithoutMembers(s.candidates, es[0].path);
      }
    }
  }

  lemma SameCandidate(s: State, c: Candidate, d: Candidate)
    requires Ordered(s) && c in s.candidates && d in s.candidates && c.generation == d.generation
    ensures c == d
  {
  }

  /** Whatever happened since the snapshot, a failed probe removes the candidate it
      probed or nothing, never one remembered later. */
  lemma ProbeRemovesOnlyProbed(s: State, es: seq<Event>)
    requires Ordered(s) && s.candidates != []
    ensures var probed := s.candidates[|s.candidates| - 1];
            var before := Run(s, es);
            var after := Dropped(before, probed);
            after == before || before.candidates == after.candidates + [probed]
  {
    var probed := s.candidates[|s.candidates| - 1];
    var before := Run(s, es);
    RunOrdered(s, es);
    hide Run;
    if Dropped(before, probed) != before {
      var last := before.candidates[|before.candidates| - 1];
      NoForgery(s, es, last);
      SameCandidate(s, last, probed);
      assert before.candidates == before.candidates[..|before.candidates| - 1] + [last];
    }
  }

  // ---- without failed probes ------------------------------------------------------

  /** The history without every entry that occurs again later. */
  function LastOccurrences(h: seq<Path>): seq<Path> {
    if h == [] then []
    else if h[0] in h[1..] then LastOccurrences(h[1..])
    else [h[0]] + LastOccurrences(h[1..])
  }

  function Remove(ps: seq<Path>, p: Path): seq<Path> {
    if ps == [] then [] else if ps[0] == p then Remove(ps[1..], p) else [ps[0]] + Remove(ps[1..], p)
  }

  function Paths(cs: seq<Candidate>): (r: seq<Path>)
    ensures |r| == |cs|
  {
    if cs == [] then [] else [cs[0].path] + Paths(cs[1..])
  }

  /** A run in which every probe succeeds. */
  function Remembers(h: seq<Path>): (es: seq<Event>)
    ensures |es| == |h|
  {
    seq(|h|, i requires 0 <= i < |h| => Event.Remember(h[i]))
  }

  lemma {:induction false} RunLast(s: State, es: seq<Event>, e: Event)
    ensures Run(s, es + [e]) == Next(Run(s, es), e)
    decreases |es|
  {
    if es == [] {
      assert es + [e] == [e];
    } else {
      assert (es + [e])[1..] == es[1..] + [e];
      RunLast(Next(s, es[0]), es[1..], e);
    }
  }

  lemma {:induction false} OccurrencesAppend(h: seq<Path>, p: Path)
    ensures LastOccurrences(h + [p]) == Remove(LastOccurrences(h), p) + [p]
  {
    if h == [] {
      assert h + [p] == [p];
    } else {
      assert (h + [p])[1..] == h[1..] + [p];
      OccurrencesAppend(h[1..], p);
    }
  }

  lemma {:induction false} OccurrencesDistinct(h: seq<Path>)
    ensures forall p :: p in LastOccurrences(h) <==> p in h
    ensures forall i, j :: 0 <= i < j < |LastOccurrences(h)| ==> LastOccurrences(h)[i] != LastOccurrences(h)[j]
  {
    if h != [] {
      OccurrencesDistinct(h[1..]);
    }
  }

  lemma {:induction false} PathsWithout(cs: seq<Candidate>, p: Path)
    ensures Paths(Without(cs, p)) == Remove(Paths(cs), p)
  {
    if cs != [] {
      PathsWithout(cs[1..], p);
    }
  }

  lemma {:induction false} PathsAt(cs: seq<Candidate>)
    ensures forall i :: 0 <= i < |cs| ==> Paths(cs)[i] == cs[i].path
  {
    if cs != [] {
      PathsAt(cs[1..]);
    }
  }

  lemma {:induction false} RemoveSplit(a: seq<Path>, b: seq<Path>, p: Path)
    ensures Remove(a + b, p) == Remove(a, p) + Remove(b, p)
  {
    if a == [] {
      assert a + b == b;
    } else {
      assert (a + b)[1..] == a[1..] + b;
      RemoveSplit(a[1..], b, p);
    }
  }

  lemma {:induction false} RemoveAbsent(a: seq<Path>, p: Path)
    requires p !in a
    ensures Remove(a, p) == a
  {
    if a != [] {
      RemoveAbsent(a[1..], p);
    }
  }

  lemma {:induction false} RemoveOnce(a: seq<Path>, p: Path)
    requires forall i, j :: 0 <= i < j < |a| ==> a[i] != a[j]
    ensures |Remove(a, p)| >= |a| - 1
  {
    if a != [] {
      if a[0] == p {
        RemoveAbsent(a[1..], p);
      } else {
        RemoveOnce(a[1..], p);
      }
    }
  }

  lemma NewestBehind(a: seq<Path>, b: seq<Path>)
    requires |b| >= MAX_AGENTS
    ensures Newest(a + b) == Newest(b)
  {
  }

  /** Trimming to the newest 32 before or after a new entry makes no difference. */
  lemma NewestAfterTrim(a: seq<Path>, p: Path)
    requires forall i, j :: 0 <= i < j < |a| ==> a[i] != a[j]
    ensures Newest(Remove(Newest(a), p) + [p]) == Newest(Remove(a, p) + [p])
  {
    if |a| > MAX_AGENTS {
      var older, kept := a[..|a| - MAX_AGENTS], a[|a| - MAX_AGENTS..];
      assert a == older + kept;
      RemoveSplit(older, kept, p);
      RemoveOnce(kept, p);
      hide Remove;
      assert Remove(a, p) + [p] == Remove(older, p) + (Remove(kept, p) + [p]);
      NewestBehind(Remove(older, p), Remove(kept, p) + [p]);
    }
  }

  lemma PathsRemembered(s: State, p: Path)
    ensures Paths(Remembered(s, p).candidates) == Newest(Remove(Paths(s.candidates), p) + [p])
  {
    hide Newest, Without, Remove, Paths;
    var kept, c := Without(s.candidates, p), Candidate(s.nextGeneration + 1, p);
    PathsWithout(s.candidates, p);
    PathsAppend(kept, c);
    PathsTrim(kept + [c]);
  }

  /** Without failed probes the list is the last 32 distinct paths, by last use. */
  lemma {:induction false} RememberedHistory(h: seq<Path>)
    ensures var last := LastOccurrences(h);
            Paths(Run(State(0, []), Remembers(h)).candidates) == if |last| > 32 then last[|last| - 32..] else last
  {
    HistoryNewest(h);
  }

  lemma {:induction false} HistoryNewest(h: seq<Path>)
    ensures Paths(Run(State(0, []), Remembers(h)).candidates) == Newest(LastOccurrences(h))
  {
    if h != [] {
      hide Newest, Remembered, Remove, LastOccurrences, Paths, Run;
      var g, p := h[..|h| - 1], h[|h| - 1];
      var s := Run(State(0, []), Remembers(g));
      HistoryNewest(g);
      assert Remembers(h) == Remembers(g) + [Event.Remember(p)];
      RunLast(State(0, []), Remembers(g), Event.Remember(p));
      PathsRemembered(s, p);
      OccurrencesDistinct(g);
      NewestAfterTrim(LastOccurrences(g), p);
      OccurrencesAppend(g, p);
      assert h == g + [p];
    }
  }

  lemma {:induction false} PathsAppend(cs: seq<Candidate>, c: Candidate)
    ensures Paths(cs + [c]) == Paths(cs) + [c.path]
  {
    PathsAt(cs);
    PathsAt(cs + [c]);
  }

  lemma PathsTrim(cs: seq<Candidate>)
    ensures Paths(Newest(cs)) == Newest(Paths(cs))
  {
    PathsAt(cs);
    PathsAt(Newest(cs));
  }
}
