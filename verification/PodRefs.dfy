/** Pod names, the refs a pod may push, and the branch list of a fork. */
module PodRefs {
  import opened Wrappers

  const NAMESPACE := "refs/rumpelpod/"

  predicate NameChar(c: char) {
    'a' <= c <= 'z' || 'A' <= c <= 'Z' || '0' <= c <= '9' || c == '-' || c == '_' || c == '.'
  }

  /** `validate_pod_name`. */
  predicate ValidName(name: string) {
    name != [] && forall i :: 0 <= i < |name| ==> NameChar(name[i])
  }

  predicate Starts(s: string, p: string) {
    |p| <= |s| && s[..|p|] == p
  }

  predicate Ends(s: string, p: string) {
    |p| <= |s| && s[|s| - |p|..] == p
  }

  /** `check_push_access` with the pod's bearer token; without one nothing is allowed. */
  predicate Allowed(refname: string, pod: Option<string>) {
    pod.Some? &&
    ((Starts(refname, NAMESPACE) && Ends(refname, "@" + pod.value)) || refname == NAMESPACE + pod.value)
  }

  /** `rsplit_once('@')`. */
  function SplitLastAt(s: string): (r: Option<(string, string)>)
    ensures r.Some? ==> s == r.value.0 + "@" + r.value.1 && '@' !in r.value.1 && '@' in s
    ensures r.None? ==> '@' !in s
  {
    if s == [] then None
    else if s[|s| - 1] == '@' then Some((s[..|s| - 1], []))
    else
      var r := SplitLastAt(s[..|s| - 1]);
      if r.None? then None else Some((r.value.0, r.value.1 + [s[|s| - 1]]))
  }

  /** The alphabet of pod names, by character code. */
  lemma NameAlphabet(name: string)
    ensures ValidName(name) <==> name != "" && forall i :: 0 <= i < |name| ==>
              (48 <= name[i] as int <= 57 || 65 <= name[i] as int <= 90 || 97 <= name[i] as int <= 122
               || name[i] as int in {45, 46, 95})
  {
  }

  lemma NoAt(name: string)
    requires ValidName(name)
    ensures '@' !in name && '/' !in name
  {
  }

  /** Splitting at the last `@` gives branch and pod back, whatever the branch holds. */
  lemma SplitExact(branch: string, pod: string)
    requires '@' !in pod
    ensures SplitLastAt(branch + "@" + pod) == Some((branch, pod))
  {
    var s := branch + "@" + pod;
    assert s[|branch|] == '@';
    var r := SplitLastAt(s).value;
    SameSplit(branch, pod, r.0, r.1);
  }

  lemma SameSplit(a: string, p: string, b: string, q: string)
    requires a + "@" + p == b + "@" + q && '@' !in p && '@' !in q
    ensures a == b && p == q
  {
    var s, t := a + "@" + p, b + "@" + q;
    assert s[|a|] == '@' && t[|b|] == '@';
    assert forall i :: |a| < i < |s| ==> s[i] == p[i - |a| - 1];
    assert forall i :: |b| < i < |t| ==> t[i] == q[i - |b| - 1];
    assert |a| == |b|;
    assert a == s[..|a|] && b == t[..|b|] && p == s[|a| + 1..] && q == t[|b| + 1..];
  }

  /** What a pod may push: its branches in the namespace and its shortcut, no more. */
  lemma AllowedIff(refname: string, pod: string)
    requires ValidName(pod)
    ensures Allowed(refname, Some(pod)) <==>
            refname == "refs/rumpelpod/" + pod || exists branch :: refname == "refs/rumpelpod/" + branch + "@" + pod
  {
    NoAt(pod);
    if Starts(refname, NAMESPACE) && Ends(refname, "@" + pod) {
      var n := |refname| - |pod| - 1;
      assert refname[n] == refname[n..][0] && refname[n..][0] == '@';
      assert n >= |NAMESPACE| by {
        assert forall i :: 0 <= i < |NAMESPACE| ==> refname[i] == refname[..|NAMESPACE|][i] && NAMESPACE[i] != '@';
      }
      var branch := refname[|NAMESPACE|..n];
      assert refname == refname[..|NAMESPACE|] + branch + refname[n..];
      assert refname == NAMESPACE + branch + "@" + pod;
    }
    forall branch | refname == NAMESPACE + branch + "@" + pod ensures Allowed(refname, Some(pod)) {
      assert refname[..|NAMESPACE|] == NAMESPACE && refname[|refname| - |pod| - 1..] == "@" + pod;
    }
  }

  /** Two valid names never may push the same ref. */
  lemma PushableDisjoint(refname: string, a: string, b: string)
    requires ValidName(a) && ValidName(b) && Allowed(refname, Some(a)) && Allowed(refname, Some(b))
    ensures a == b
  {
    NoAt(a);
    NoAt(b);
    AllowedIff(refname, a);
    AllowedIff(refname, b);
    assert '@' !in NAMESPACE;
    if refname == NAMESPACE + a {
      assert '@' !in refname;
      assert forall branch: string :: (NAMESPACE + branch + "@" + b)[|NAMESPACE + branch|] == '@';
      assert refname == NAMESPACE + b;
      assert a == refname[|NAMESPACE|..] && b == refname[|NAMESPACE|..];
    } else {
      var x :| refname == NAMESPACE + x + "@" + a;
      assert refname[|NAMESPACE + x|] == '@';
      assert '@' !in NAMESPACE + b;
      var y :| refname == NAMESPACE + y + "@" + b;
      SameSplit(NAMESPACE + x, a, NAMESPACE + y, b);
    }
  }

  // ---- runs of pushes ---------------------------------------------------------------

  /** A ref gets a commit, or none when it is deleted. */
  datatype Update = Update(refname: string, commit: Option<nat>)

  /** One push arriving at the pre-receive hook. */
  datatype Push = Push(pod: Option<string>, updates: seq<Update>)

  /** One ref the pod may not push refuses the whole push. */
  ghost predicate Accepted(p: Push) {
    forall i :: 0 <= i < |p.updates| ==> Allowed(p.updates[i].refname, p.pod)
  }

  method HostPreReceive(p: Push) returns (ok: bool)
    ensures ok <==> Accepted(p)
  {
    hide Allowed;
    for i := 0 to |p.updates|
      invariant forall j :: 0 <= j < i ==> Allowed(p.updates[j].refname, p.pod)
    {
      if !Allowed(p.updates[i].refname, p.pod) {
        return false;
      }
    }
    ok := true;
  }

  function Applied(refs: map<string, nat>, us: seq<Update>): map<string, nat>
    decreases |us|
  {
    if us == [] then refs
    else Applied(if us[0].commit.Some? then refs[us[0].refname := us[0].commit.value] else refs - {us[0].refname}, us[1..])
  }

  ghost function Received(refs: map<string, nat>, p: Push): map<string, nat> {
    if Accepted(p) then Applied(refs, p.updates) else refs
  }

  ghost function AllReceived(refs: map<string, nat>, ps: seq<Push>): map<string, nat>
    decreases |ps|
  {
    if ps == [] then refs else AllReceived(Received(refs, ps[0]), ps[1..])
  }

  ghost predicate SameAt(refs: map<string, nat>, after: map<string, nat>, r: string) {
    (r in refs <==> r in after) && (r in refs ==> refs[r] == after[r])
  }

  lemma {:induction false} AppliedAlike(refs: map<string, nat>, other: map<string, nat>, us: seq<Update>, r: string)
    requires SameAt(other, refs, r)
    ensures SameAt(Applied(other, us), Applied(refs, us), r)
    decreases |us|
  {
    if us != [] {
      var u := us[0];
      AppliedAlike(if u.commit.Some? then refs[u.refname := u.commit.value] else refs - {u.refname},
                   if u.commit.Some? then other[u.refname := u.commit.value] else other - {u.refname}, us[1..], r);
    }
  }

  lemma {:induction false} AppliedElsewhere(refs: map<string, nat>, other: map<string, nat>, us: seq<Update>, r: string)
    requires SameAt(other, refs, r) && forall i :: 0 <= i < |us| ==> us[i].refname != r
    ensures SameAt(other, Applied(refs, us), r)
    decreases |us|
  {
    if us != [] {
      var u := us[0];
      AppliedElsewhere(if u.commit.Some? then refs[u.refname := u.commit.value] else refs - {u.refname}, other, us[1..], r);
    }
  }

  /** An accepted push leaves every ref in it as its last update says; a refused one
      changes nothing. */
  lemma PushTakesEffect(refs: map<string, nat>, p: Push, i: nat)
    requires i < |p.updates|
    requires forall j :: i < j < |p.updates| ==> p.updates[j].refname != p.updates[i].refname
    ensures var u, after := p.updates[i], Received(refs, p);
            if Accepted(p) then
              if u.commit.Some? then u.refname in after && after[u.refname] == u.commit.value else u.refname !in after
            else after == refs
  {
    hide Accepted;
    AppliedLast(refs, p.updates, i);
  }

  lemma {:induction false} AppliedLast(refs: map<string, nat>, us: seq<Update>, i: nat)
    requires i < |us| && forall j :: i < j < |us| ==> us[j].refname != us[i].refname
    ensures var u, after := us[i], Applied(refs, us);
            if u.commit.Some? then u.refname in after && after[u.refname] == u.commit.value else u.refname !in after
    decreases |us|
  {
    var u := us[0];
    var next := if u.commit.Some? then refs[u.refname := u.commit.value] else refs - {u.refname};
    if i > 0 {
      AppliedLast(next, us[1..], i - 1);
    } else {
      AppliedElsewhere(next, next, us[1..], u.refname);
    }
  }

  /** An accepted push of another pod leaves the ref alone. */
  lemma ForeignPush(refs: map<string, nat>, other: map<string, nat>, p: Push, a: string, r: string)
    requires ValidName(a) && Allowed(r, Some(a)) && p.pod != Some(a) && SameAt(other, refs, r)
    requires p.pod.Some? ==> ValidName(p.pod.value)
    ensures SameAt(other, Received(refs, p), r)
  {
    hide Allowed, ValidName;
    if Accepted(p) {
      forall i | 0 <= i < |p.updates| ensures p.updates[i].refname != r {
        NeedsPod(p.updates[i].refname, p.pod);
        if p.updates[i].refname == r {
          PushableDisjoint(r, a, p.pod.value);
        }
      }
      AppliedElsewhere(refs, other, p.updates, r);
    }
  }

  /** The pushes of one pod. */
  function Own(ps: seq<Push>, a: string): seq<Push> {
    if ps == [] then [] else (if ps[0].pod == Some(a) then [ps[0]] else []) + Own(ps[1..], a)
  }

  /** Over any run of pushes by valid pods, what a ref of pod A holds is what A's own
      pushes made of it; so it stays when A does not push. */
  lemma OnlyOwnerChanges(refs: map<string, nat>, ps: seq<Push>, a: string, refname: string)
    requires ValidName(a) && Allowed(refname, Some(a))
    requires forall i :: 0 <= i < |ps| && ps[i].pod.Some? ==> ValidName(ps[i].pod.value)
    ensures SameAt(AllReceived(refs, Own(ps, a)), AllReceived(refs, ps), refname)
    ensures (forall i :: 0 <= i < |ps| ==> ps[i].pod != Some(a)) ==> SameAt(refs, AllReceived(refs, ps), refname)
  {
    hide Allowed, AllReceived, ValidName;
    OwnDecides(refs, refs, ps, a, refname);
    if forall i :: 0 <= i < |ps| ==> ps[i].pod != Some(a) {
      OwnNothing(ps, a);
      assert AllReceived(refs, []) == refs by { NothingReceived(refs); }
    }
  }

  lemma {:induction false} OwnDecides(refs: map<string, nat>, other: map<string, nat>, ps: seq<Push>, a: string, refname: string)
    requires ValidName(a) && Allowed(refname, Some(a)) && SameAt(other, refs, refname)
    requires forall i :: 0 <= i < |ps| && ps[i].pod.Some? ==> ValidName(ps[i].pod.value)
    ensures SameAt(AllReceived(other, Own(ps, a)), AllReceived(refs, ps), refname)
    decreases |ps|
  {
    hide Allowed, ValidName, Applied, Accepted;
    if ps != [] {
      var p := ps[0];
      if p.pod == Some(a) {
        assert Own(ps, a)[0] == p && Own(ps, a)[1..] == Own(ps[1..], a);
        AppliedAlike(refs, other, p.updates, refname);
        OwnDecides(Received(refs, p), Received(other, p), ps[1..], a, refname);
      } else {
        ForeignPush(refs, other, p, a, refname);
        assert Own(ps, a) == Own(ps[1..], a);
        OwnDecides(Received(refs, p), other, ps[1..], a, refname);
      }
    }
  }

  lemma {:induction false} OwnNothing(ps: seq<Push>, a: string)
    requires forall i :: 0 <= i < |ps| ==> ps[i].pod != Some(a)
    ensures Own(ps, a) == []
  {
    if ps != [] {
      OwnNothing(ps[1..], a);
    }
  }

  lemma NothingReceived(refs: map<string, nat>)
    ensures AllReceived(refs, []) == refs
  {
  }

  lemma NeedsPod(refname: string, pod: Option<string>)
    requires Allowed(refname, pod)
    ensures pod.Some?
  {
  }

  // ---- forks ------------------------------------------------------------------------

  datatype Branch = Branch(name: string, upstream: Option<string>)

  datatype ForkBranch = ForkBranch(name: string, base: string, upstream: Option<string>)

  function Rewrite(upstream: Option<string>, source: string, target: string, branches: set<string>): Option<string> {
    if upstream.None? then None
    else
      var u := upstream.value;
      if Starts(u, "host/") then Some(u)
      else if Starts(u, "rumpelpod/") then
        var rest := u[|"rumpelpod/"|..];
        var split := SplitLastAt(rest);
        var pod := if split.Some? then split.value.1 else rest;
        if pod != source then Some(u)
        else if split.Some? then Some("rumpelpod/" + split.value.0 + "@" + target)
        else Some("rumpelpod/" + target)
      else if u == source then Some(target)
      else if u in branches then Some(u)
      else None
  }

  /** References to the source pod follow the fork; other pods' branches stay. */
  lemma RewriteRemote(branch: string, pod: string, source: string, target: string, branches: set<string>)
    requires ValidName(pod)
    ensures Rewrite(Some("rumpelpod/" + branch + "@" + pod), source, target, branches) ==
            Some("rumpelpod/" + branch + "@" + (if pod == source then target else pod))
    ensures Rewrite(Some("rumpelpod/" + pod), source, target, branches) ==
            Some("rumpelpod/" + (if pod == source then target else pod))
  {
    NoAt(pod);
    var p := "rumpelpod/";
    var u := p + branch + "@" + pod;
    assert u[|p|..] == branch + "@" + pod && u[..|p|] == p && u[0] == 'r';
    assert !Starts(u, "host/") by { assert u[..5][0] == 'r'; }
    SplitExact(branch, pod);
    var v := p + pod;
    assert v[|p|..] == pod && v[..|p|] == p && v[0] == 'r';
    assert !Starts(v, "host/") by { assert v[..5][0] == 'r'; }
  }

  /** What becomes of every other upstream: a host branch stays, the primary follows the
      fork, a branch that is copied stays, and anything else is dropped. */
  lemma RewriteRest(u: string, source: string, target: string, branches: set<string>)
    ensures Rewrite(None, source, target, branches) == None
    ensures Rewrite(Some("host/" + u), source, target, branches) == Some("host/" + u)
    ensures (forall x :: u != "host/" + x && u != "rumpelpod/" + x) ==>
              Rewrite(Some(u), source, target, branches) ==
              if u == source then Some(target) else if u in branches then Some(u) else None
  {
    assert ("host/" + u)[..5] == "host/";
    if Starts(u, "host/") {
      assert u == "host/" + u[5..];
    }
    if Starts(u, "rumpelpod/") {
      assert u == "rumpelpod/" + u[10..];
    }
  }

  function NameSet(bs: seq<Branch>): set<string> {
    set i | 0 <= i < |bs| :: bs[i].name
  }

  function NewName(b: Branch, primary: string, target: string): string {
    if b.name == primary then target else b.name
  }

  function Forked(bs: seq<Branch>, primary: string, target: string): (r: seq<ForkBranch>)
    ensures |r| == |bs|
  {
    seq(|bs|, i requires 0 <= i < |bs| =>
      ForkBranch(NewName(bs[i], primary, target), "source-pod/" + bs[i].name,
                 Rewrite(bs[i].upstream, primary, target, NameSet(bs))))
  }

  method ForkBranches(bs: seq<Branch>, primary: string, target: string) returns (out: seq<ForkBranch>)
    ensures out == Forked(bs, primary, target)
  {
    hide Rewrite;
    out := [];
    for i := 0 to |bs|
      invariant out == Forked(bs, primary, target)[..i]
    {
      var base := "source-pod/" + bs[i].name;
      var upstream := Rewrite(bs[i].upstream, primary, target, NameSet(bs));
      out := out + [ForkBranch(NewName(bs[i], primary, target), base, upstream)];
    }
  }

  /** Every branch is copied in order from the source pod's branch of the same name, under
      its own name or, for the primary, the new one. */
  lemma ForkedBranch(bs: seq<Branch>, primary: string, target: string, i: nat)
    requires i < |bs|
    ensures var f := Forked(bs, primary, target)[i];
            && f.base == "source-pod/" + bs[i].name
            && f.name == (if bs[i].name == primary then target else bs[i].name)
            && f.upstream == Rewrite(bs[i].upstream, primary, target, set j | 0 <= j < |bs| :: bs[j].name)
  {
    hide Rewrite;
  }

  ghost predicate DistinctNames(bs: seq<Branch>) {
    forall i, j :: 0 <= i < j < |bs| ==> bs[i].name != bs[j].name
  }

  ghost predicate DistinctForked(fs: seq<ForkBranch>) {
    forall i, j :: 0 <= i < j < |fs| ==> fs[i].name != fs[j].name
  }

  /** Branch names stay distinct exactly when no other branch has the new name. */
  lemma ForkNamesDistinct(bs: seq<Branch>, primary: string, target: string)
    requires DistinctNames(bs) && primary in NameSet(bs)
    ensures DistinctForked(Forked(bs, primary, target)) <==> target == primary || target !in NameSet(bs)
  {
    hide Rewrite;
    var fs := Forked(bs, primary, target);
    var p :| 0 <= p < |bs| && bs[p].name == primary;
    if target != primary && target in NameSet(bs) {
      var t :| 0 <= t < |bs| && bs[t].name == target;
      assert fs[p].name == target && fs[t].name == target;
    }
    if target == primary || target !in NameSet(bs) {
      forall i, j | 0 <= i < j < |fs| ensures fs[i].name != fs[j].name {
        assert bs[i].name in NameSet(bs) && bs[j].name in NameSet(bs);
      }
    }
  }

  /** A bare branch name, not a remote-tracking one. */
  predicate Local(u: string) {
    !Starts(u, "host/") && !Starts(u, "rumpelpod/")
  }

  ghost predicate UpstreamsForked(fs: seq<ForkBranch>) {
    forall i :: 0 <= i < |fs| && fs[i].upstream.Some? && Local(fs[i].upstream.value) ==>
      exists j :: 0 <= j < |fs| && fs[j].name == fs[i].upstream.value
  }

  /** Every kept local upstream names a forked branch, exactly when the source lists its
      primary, or has a branch of the new name, or nothing tracks the primary. */
  lemma ForkUpstreamsForked(bs: seq<Branch>, primary: string, target: string)
    requires Local(primary) && Local(target)
    ensures UpstreamsForked(Forked(bs, primary, target)) <==>
            primary in NameSet(bs) || target in NameSet(bs) ||
            forall i :: 0 <= i < |bs| ==> bs[i].upstream != Some(primary)
  {
    var fs := Forked(bs, primary, target);
    assert forall j :: 0 <= j < |bs| ==> bs[j].name in NameSet(bs);
    if primary in NameSet(bs) || target in NameSet(bs) {
      var p :| 0 <= p < |bs| && (bs[p].name == primary || bs[p].name == target);
      assert fs[p].name == target;
    }
    forall i | 0 <= i < |fs| && fs[i].upstream.Some? && Local(fs[i].upstream.value) && bs[i].upstream != Some(primary)
      ensures exists j :: 0 <= j < |fs| && fs[j].name == fs[i].upstream.value
    {
      var u := bs[i].upstream.value;
      RewriteLocal(u, primary, target, NameSet(bs));
      var j :| 0 <= j < |bs| && bs[j].name == u;
      assert fs[j].name == u;
    }
    forall i | 0 <= i < |fs| && bs[i].upstream == Some(primary) ensures fs[i].upstream == Some(target) {
    }
  }

  lemma RewriteLocal(u: string, primary: string, target: string, branches: set<string>)
    requires var r := Rewrite(Some(u), primary, target, branches); r.Some? && Local(r.value)
    ensures var r := Rewrite(Some(u), primary, target, branches).value;
            if u == primary then r == target else r == u && u in branches
  {
    RemoteStays(u, primary, target, branches);
  }

  lemma RemoteStays(u: string, primary: string, target: string, branches: set<string>)
    ensures Starts(u, "rumpelpod/") && !Starts(u, "host/") ==>
              var r := Rewrite(Some(u), primary, target, branches); r.Some? && Starts(r.value, "rumpelpod/")
  {
    var p := "rumpelpod/";
    if Starts(u, p) && !Starts(u, "host/") {
      var split := SplitLastAt(u[|p|..]);
      if split.Some? {
        assert (p + split.value.0 + "@" + target)[..|p|] == p;
      }
      assert (p + target)[..|p|] == p;
    }
  }
}
