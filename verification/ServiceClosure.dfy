/** `Model::services_started_with`: the services a compose start brings up. */
module ServiceClosure {
  import opened Wrappers
  import opened Bytes
  import opened JsonFingerprint

  const COLON: Byte := 0x3a

  /** `split(':').next()`. */
  function BeforeColon(s: Bytes): Bytes {
    if s == [] || s[0] == COLON then [] else [s[0]] + BeforeColon(s[1..])
  }

  // ---- the references of one service; None where the code reports an error ---

  function Names(items: seq<Json>): Option<seq<Bytes>> {
    if items == [] then Some([])
    else if !items[0].String? then None
    else
      var rest := Names(items[1..]);
      if rest.None? then None else Some([items[0].bytes] + rest.value)
  }

  /** The services a list of links or volume references points to. */
  function Targets(refs: seq<Bytes>, volumes: bool): seq<Bytes> {
    if refs == [] then []
    else if volumes && StripPrefix(refs[0], Ascii("container:")).Some? then Targets(refs[1..], volumes)
    else [BeforeColon(refs[0])] + Targets(refs[1..], volumes)
  }

  ghost function DependsOn(v: Option<Json>): Option<set<Bytes>> {
    if v.None? then Some({})
    else match v.value
      case Object(m) => Some(m.Keys)
      case Array(items) => if Names(items).None? then None else Some(Elements(Names(items).value))
      case Null => Some({})
      case _ => None
  }

  ghost function Listed(v: Option<Json>, volumes: bool): Option<set<Bytes>> {
    if v.None? then Some({})
    else match v.value
      case Array(items) =>
        if Names(items).None? then None else Some(Elements(Targets(Names(items).value, volumes)))
      case Null => Some({})
      case _ => None
  }

  ghost function Shared(v: Option<Json>): Option<set<Bytes>> {
    if v.None? then Some({})
    else match v.value
      case String(s) =>
        var d := StripPrefix(s, Ascii("service:"));
        Some(if d.Some? then {d.value} else {})
      case Null => Some({})
      case _ => None
  }

  ghost function Join(a: Option<set<Bytes>>, b: Option<set<Bytes>>): Option<set<Bytes>> {
    if a.None? || b.None? then None else Some(a.value + b.value)
  }

  function Field(service: Json, name: string): Option<Json>
    requires service.Object?
  {
    if Ascii(name) in service.fields then Some(service.fields[Ascii(name)]) else None
  }

  /** Everything one service needs, or None when the model is malformed. */
  ghost function References(service: Json): Option<set<Bytes>> {
    if !service.Object? then None
    else
      Join(DependsOn(Field(service, "depends_on")),
      Join(Listed(Field(service, "links"), false),
      Join(Listed(Field(service, "volumes_from"), true),
      Join(Shared(Field(service, "ipc")),
      Join(Shared(Field(service, "network_mode")), Shared(Field(service, "pid")))))))
  }

  // ---- the start set ---------------------------------------------------------

  ghost predicate Good(services: map<Bytes, Json>, n: Bytes) {
    n in services && References(services[n]).Some?
  }

  ghost function Needs(services: map<Bytes, Json>, n: Bytes): set<Bytes> {
    if Good(services, n) then References(services[n]).value else {}
  }

  /** A chain of references from a selected service to `n`. */
  ghost predicate Chain(services: map<Bytes, Json>, selected: seq<Bytes>, p: seq<Bytes>, n: Bytes) {
    && p != [] && p[0] in selected && p[|p| - 1] == n
    && forall i :: 0 < i < |p| ==> p[i] in Needs(services, p[i - 1])
  }

  ghost predicate Reachable(services: map<Bytes, Json>, selected: seq<Bytes>, n: Bytes) {
    exists p :: Chain(services, selected, p, n)
  }

  /** Contains the selection and everything its members need. */
  ghost predicate Closed(services: map<Bytes, Json>, selected: seq<Bytes>, c: set<Bytes>) {
    Elements(selected) <= c && forall n :: n in c ==> Needs(services, n) <= c
  }

  lemma ExtendChain(services: map<Bytes, Json>, selected: seq<Bytes>, n: Bytes, m: Bytes)
    requires Reachable(services, selected, n) && m in Needs(services, n)
    ensures Reachable(services, selected, m)
  {
    var p :| Chain(services, selected, p, n);
    assert Chain(services, selected, p + [m], m);
  }

  lemma {:induction false} ClosedHolds(services: map<Bytes, Json>, selected: seq<Bytes>, c: set<Bytes>, p: seq<Bytes>, n: Bytes)
    requires Closed(services, selected, c) && Chain(services, selected, p, n)
    ensures n in c
    decreases |p|
  {
    if |p| == 1 {
      assert n in Elements(selected);
    } else {
      var q := p[..|p| - 1];
      assert Chain(services, selected, q, q[|q| - 1]);
      ClosedHolds(services, selected, c, q, q[|q| - 1]);
    }
  }

  /** The reachable services lie in every closed set. */
  lemma ReachableLeast(services: map<Bytes, Json>, selected: seq<Bytes>, c: set<Bytes>, n: Bytes)
    requires Closed(services, selected, c) && Reachable(services, selected, n)
    ensures n in c
  {
    var p :| Chain(services, selected, p, n);
    ClosedHolds(services, selected, c, p, n);
  }

  // ---- the code ----------------------------------------------------------------

  /** The pushed names are exactly the expected ones, and errors agree. */
  ghost predicate Pushed(r: Option<seq<Bytes>>, expected: Option<set<Bytes>>) {
    (r.None? <==> expected.None?) && (r.Some? ==> Elements(r.value) == expected.value)
  }

  method PushNames(items: seq<Json>) returns (r: Option<seq<Bytes>>)
    ensures r == Names(items)
  {
    var names: seq<Bytes> := [];
    assert items[0..] == items;
    for i := 0 to |items|
      invariant Names(items).None? <==> Names(items[i..]).None?
      invariant Names(items).Some? ==> Names(items).value == names + Names(items[i..]).value
    {
      assert items[i..][1..] == items[i + 1..];
      if !items[i].String? {
        return None;
      }
      names := names + [items[i].bytes];
    }
    assert names + [] == names;
    return Some(names);
  }

  method PushTargets(refs: seq<Bytes>, volumes: bool) returns (r: seq<Bytes>)
    ensures r == Targets(refs, volumes)
  {
    hide BeforeColon;
    r := [];
    assert refs[0..] == refs;
    for i := 0 to |refs|
      invariant Targets(refs, volumes) == r + Targets(refs[i..], volumes)
    {
      assert refs[i..][1..] == refs[i + 1..];
      if volumes && StripPrefix(refs[i], Ascii("container:")).Some? {
        continue;
      }
      r := r + [BeforeColon(refs[i])];
    }
  }

  method PushDependsOn(v: Option<Json>) returns (r: Option<seq<Bytes>>)
    ensures Pushed(r, DependsOn(v))
  {
    if v.None? {
      return Some([]);
    }
    match v.value {
      case Object(m) =>
        var keys := SortKeys(m);
        return Some(keys);
      case Array(items) =>
        r := PushNames(items);
      case Null =>
        return Some([]);
      case _ =>
        return None;
    }
  }

  method PushListed(v: Option<Json>, volumes: bool) returns (r: Option<seq<Bytes>>)
    ensures Pushed(r, Listed(v, volumes))
  {
    if v.None? {
      return Some([]);
    }
    match v.value {
      case Array(items) =>
        r := PushNames(items);
        if r.Some? {
          var targets := PushTargets(r.value, volumes);
          r := Some(targets);
        }
      case Null =>
        return Some([]);
      case _ =>
        return None;
    }
  }

  method PushShared(v: Option<Json>) returns (r: Option<seq<Bytes>>)
    ensures Pushed(r, Shared(v))
  {
    if v.None? {
      return Some([]);
    }
    match v.value {
      case String(s) =>
        var d := StripPrefix(s, Ascii("service:"));
        return Some(if d.Some? then [d.value] else []);
      case Null =>
        return Some([]);
      case _ =>
        return None;
    }
  }

  method Both(a: Option<seq<Bytes>>, b: Option<seq<Bytes>>, ghost x: Option<set<Bytes>>, ghost y: Option<set<Bytes>>)
    returns (r: Option<seq<Bytes>>)
    requires Pushed(a, x) && Pushed(b, y)
    ensures Pushed(r, Join(x, y))
  {
    if a.None? || b.None? {
      return None;
    }
    assert Elements(a.value + b.value) == Elements(a.value) + Elements(b.value);
    return Some(a.value + b.value);
  }

  /** The body of the loop for one service object. */
  method PushReferences(service: Json) returns (r: Option<seq<Bytes>>)
    requires service.Object?
    ensures Pushed(r, References(service))
  {
    hide DependsOn, Listed, Shared, Pushed, Join;
    var a := PushDependsOn(Field(service, "depends_on"));
    var b := PushListed(Field(service, "links"), false);
    var c := PushListed(Field(service, "volumes_from"), true);
    var d := PushShared(Field(service, "ipc"));
    var e := PushShared(Field(service, "network_mode"));
    var f := PushShared(Field(service, "pid"));
    ghost var x := Shared(Field(service, "network_mode"));
    ghost var y := Shared(Field(service, "pid"));
    r := Both(e, f, x, y);
    r := Both(d, r, Shared(Field(service, "ipc")), Join(x, y));
    ghost var z := Join(Shared(Field(service, "ipc")), Join(x, y));
    r := Both(c, r, Listed(Field(service, "volumes_from"), true), z);
    z := Join(Listed(Field(service, "volumes_from"), true), z);
    r := Both(b, r, Listed(Field(service, "links"), false), z);
    z := Join(Listed(Field(service, "links"), false), z);
    r := Both(a, r, DependsOn(Field(service, "depends_on")), z);
  }

  /** Ends on every graph, cycles included.  On success the result is exactly the set
      reachable from the selection: all of it exists, it is closed, and it is the least
      closed set.  It fails exactly when something reachable is missing or malformed. */
  method ServicesStartedWith(services: map<Bytes, Json>, selected: seq<Bytes>) returns (r: Option<set<Bytes>>)
    ensures r.Some? ==> forall n :: n in r.value <==> Reachable(services, selected, n)
    ensures r.Some? ==> Closed(services, selected, r.value) && forall n :: n in r.value ==> Good(services, n)
    ensures r.Some? ==> forall c: set<Bytes> :: Closed(services, selected, c) ==> r.value <= c
    ensures r.None? <==> exists n :: Reachable(services, selected, n) && !Good(services, n)
  {
    hide References, Reachable, Closed;
    var started: set<Bytes> := {};
    var pending := selected;
    SelectedReachable(services, selected);
    while pending != []
      invariant forall n :: n in started || n in pending ==> Reachable(services, selected, n)
      invariant forall n :: n in started ==> Good(services, n)
      invariant forall n, m :: n in started && m in Needs(services, n) ==> m in started || m in pending
      invariant forall n :: n in selected ==> n in started || n in pending
      decreases services.Keys - started, |pending|
    {
      var name := pending[|pending| - 1];
      assert name in pending;
      ghost var was := pending;
      pending := pending[..|pending| - 1];
      assert was == pending + [name];
      if name !in services {
        return None;
      }
      if name in started {
        continue;
      }
      started := started + {name};
      if !services[name].Object? {
        assert References(services[name]).None? by { NotObject(services[name]); }
        return None;
      }
      var refs := PushReferences(services[name]);
      if refs.None? {
        return None;
      }
      assert Elements(refs.value) == Needs(services, name);
      forall m | m in refs.value ensures Reachable(services, selected, m) {
        assert m in Elements(refs.value);
        ExtendChain(services, selected, name, m);
      }
      pending := pending + refs.value;
    }
    StartedLeast(services, selected, started);
    return Some(started);
  }

  lemma SelectedReachable(services: map<Bytes, Json>, selected: seq<Bytes>)
    ensures forall n :: n in selected ==> Reachable(services, selected, n)
  {
    forall n | n in selected ensures Reachable(services, selected, n) {
      assert Chain(services, selected, [n], n);
    }
  }

  /** A closed set of reachable services is the reachable set, and the least closed set. */
  lemma StartedLeast(services: map<Bytes, Json>, selected: seq<Bytes>, started: set<Bytes>)
    requires forall n :: n in selected ==> n in started
    requires forall n :: n in started ==> Reachable(services, selected, n)
    requires forall n, m :: n in started && m in Needs(services, n) ==> m in started
    ensures Closed(services, selected, started)
    ensures forall n :: n in started <==> Reachable(services, selected, n)
    ensures forall c: set<Bytes> :: Closed(services, selected, c) ==> started <= c
  {
    hide Reachable, Needs;
    assert Closed(services, selected, started);
    forall n | Reachable(services, selected, n) ensures n in started {
      ReachableLeast(services, selected, started, n);
    }
    forall c: set<Bytes> | Closed(services, selected, c) ensures started <= c {
      forall n | n in started ensures n in c {
        ReachableLeast(services, selected, c, n);
      }
    }
  }

  lemma NotObject(v: Json)
    requires !v.Object?
    ensures References(v).None?
  {
  }

  // ---- what a service refers to, field by field ----------------------------------

  ghost predicate HasField(service: Json, name: Bytes, v: Json) {
    service.Object? && name in service.fields && service.fields[name] == v
  }

  /** A key or an item of `depends_on`. */
  ghost predicate NamedIn(v: Json, n: Bytes) {
    || (v.Object? && n in v.fields)
    || (v.Array? && String(n) in v.items)
  }

  /** An entry of a list that is `n`, or `n` and something behind a colon. */
  ghost predicate EntryFor(e: Bytes, n: Bytes) {
    Ascii(":")[0] !in n && (e == n || exists x :: e == n + Ascii(":") + x)
  }

  /** Not `container:` and a name. */
  ghost predicate OfService(e: Bytes) {
    forall x :: e != Ascii("container:") + x
  }

  /** Some entry of the list is for `n`; volumes of plain containers do not count. */
  ghost predicate ListedFor(v: Json, n: Bytes, volumes: bool) {
    v.Array? && exists e :: String(e) in v.items && EntryFor(e, n) && (volumes ==> OfService(e))
  }

  /** The names, keys, entries and `service:` texts of the six fields. */
  ghost predicate RefersTo(service: Json, n: Bytes) {
    || (exists v :: HasField(service, Ascii("depends_on"), v) && NamedIn(v, n))
    || (exists v :: HasField(service, Ascii("links"), v) && ListedFor(v, n, false))
    || (exists v :: HasField(service, Ascii("volumes_from"), v) && ListedFor(v, n, true))
    || HasField(service, Ascii("ipc"), String(Ascii("service:") + n))
    || HasField(service, Ascii("network_mode"), String(Ascii("service:") + n))
    || HasField(service, Ascii("pid"), String(Ascii("service:") + n))
  }

  ghost predicate Strings(v: Json) {
    v.Array? && forall i :: 0 <= i < |v.items| ==> v.items[i].String?
  }

  /** A field is absent, null, or of a shape the code reads. */
  ghost predicate WellFormed(service: Json) {
    && service.Object?
    && (forall v :: HasField(service, Ascii("depends_on"), v) ==> v.Null? || v.Object? || Strings(v))
    && (forall v :: HasField(service, Ascii("links"), v) ==> v.Null? || Strings(v))
    && (forall v :: HasField(service, Ascii("volumes_from"), v) ==> v.Null? || Strings(v))
    && (forall v :: HasField(service, Ascii("ipc"), v) ==> v.Null? || v.String?)
    && (forall v :: HasField(service, Ascii("network_mode"), v) ==> v.Null? || v.String?)
    && (forall v :: HasField(service, Ascii("pid"), v) ==> v.Null? || v.String?)
  }

  /** A service can be read exactly when its fields are well-formed, and then needs
      exactly what its fields refer to. */
  lemma ReferencesIff(service: Json, n: Bytes)
    ensures References(service).Some? <==> WellFormed(service)
    ensures References(service).Some? ==> (n in References(service).value <==> RefersTo(service, n))
  {
    if service.Object? {
      hide DependsOn, Listed, Shared, Ascii, NamedIn, ListedFor, Strings;
      DependsOnIff(service, n);
      ListedIff(service, "links", false, n);
      ListedIff(service, "volumes_from", true, n);
      SharedIff(service, "ipc", n);
      SharedIff(service, "network_mode", n);
      SharedIff(service, "pid", n);
    }
  }

  lemma DependsOnIff(service: Json, n: Bytes)
    requires service.Object?
    ensures var r := DependsOn(Field(service, "depends_on"));
            && (r.Some? <==> forall v :: HasField(service, Ascii("depends_on"), v) ==> v.Null? || v.Object? || Strings(v))
            && (r.Some? ==>
                  (n in r.value <==> exists v :: HasField(service, Ascii("depends_on"), v) && NamedIn(v, n)))
  {
    hide Ascii, Names;
    var f := Field(service, "depends_on");
    if f.Some? {
      assert HasField(service, Ascii("depends_on"), f.value);
      if f.value.Array? {
        NamesIff(f.value.items, n);
      }
    }
  }

  lemma {:induction false} NamesIff(items: seq<Json>, n: Bytes)
    ensures Names(items).Some? <==> Strings(Array(items))
    ensures Names(items).Some? ==> (n in Names(items).value <==> String(n) in items)
  {
    if items != [] {
      NamesIff(items[1..], n);
      assert items == [items[0]] + items[1..];
      if Names(items[1..]).Some? && items[0].String? {
        assert forall i :: 0 <= i < |items| ==> items[i].String? by {
          forall i | 0 <= i < |items| ensures items[i].String? {
            assert i == 0 || items[i] == items[1..][i - 1];
          }
        }
      }
      if Strings(Array(items)) {
        forall i | 0 <= i < |items[1..]| ensures items[1..][i].String? {
          assert items[1..][i] == items[i + 1];
        }
      }
    }
  }

  lemma ListedIff(service: Json, name: string, volumes: bool, n: Bytes)
    requires service.Object?
    ensures var r := Listed(Field(service, name), volumes);
            && (r.Some? <==> forall v :: HasField(service, Ascii(name), v) ==> v.Null? || Strings(v))
            && (r.Some? ==> (n in r.value <==> exists v :: HasField(service, Ascii(name), v) && ListedFor(v, n, volumes)))
  {
    hide Ascii, Names, Targets, ListedFor;
    var f := Field(service, name);
    if f.Some? {
      assert HasField(service, Ascii(name), f.value);
      if f.value.Array? {
        NamesIff(f.value.items, n);
        if Names(f.value.items).Some? {
          TargetsIff(f.value.items, volumes, n);
        }
      } else {
        NoList(f.value, n, volumes);
      }
    }
  }

  lemma NoList(v: Json, n: Bytes, volumes: bool)
    requires !v.Array?
    ensures !ListedFor(v, n, volumes)
  {
  }

  lemma TargetsIff(items: seq<Json>, volumes: bool, n: Bytes)
    requires Names(items).Some?
    ensures n in Targets(Names(items).value, volumes) <==> ListedFor(Array(items), n, volumes)
  {
    hide Ascii, Names, Targets, EntryFor, OfService;
    var refs := Names(items).value;
    TargetsHave(refs, volumes, n);
    forall e ensures e in refs <==> String(e) in items {
      NamesIff(items, e);
    }
  }

  lemma {:induction false} TargetsHave(refs: seq<Bytes>, volumes: bool, n: Bytes)
    ensures n in Targets(refs, volumes) <==>
            exists e :: e in refs && EntryFor(e, n) && (volumes ==> OfService(e))
  {
    hide Ascii, EntryFor, OfService;
    if refs != [] {
      TargetsHave(refs[1..], volumes, n);
      BeforeColonIff(refs[0], n);
      NotContainer(refs[0]);
      assert refs == [refs[0]] + refs[1..];
    }
  }

  lemma NotContainer(e: Bytes)
    ensures StripPrefix(e, Ascii("container:")).None? <==> OfService(e)
  {
    hide Ascii;
    var p := Ascii("container:");
    if StripPrefix(e, p).Some? {
      StripPrefixIff(e, p, StripPrefix(e, p).value);
    }
    forall x | e == p + x ensures StripPrefix(e, p).Some? {
      StripPrefixIff(e, p, x);
    }
  }

  /** Up to the first colon. */
  lemma {:induction false} BeforeColonIff(e: Bytes, n: Bytes)
    ensures BeforeColon(e) == n <==> EntryFor(e, n)
  {
    assert Ascii(":") == [COLON];
    hide Ascii;
    var k := Find(e, COLON);
    ColonCut(e);
    if k.None? {
      forall x ensures e != n + [COLON] + x {
        assert (n + [COLON] + x)[|n|] == COLON;
      }
    } else {
      var c := k.value;
      assert e == e[..c] + [COLON] + e[c + 1..];
      if EntryFor(e, n) {
        EntryCut(e, n, c);
      }
    }
  }

  lemma {:induction false} ColonCut(e: Bytes)
    ensures var k := Find(e, COLON);
            BeforeColon(e) == if k.None? then e else e[..k.value]
    ensures COLON !in BeforeColon(e)
  {
    if e != [] && e[0] != COLON {
      ColonCut(e[1..]);
      var k := Find(e[1..], COLON);
      assert e == [e[0]] + e[1..];
      if k.Some? {
        assert e[..k.value + 1] == [e[0]] + e[1..][..k.value];
      }
    }
  }

  lemma EntryCut(e: Bytes, n: Bytes, c: nat)
    requires EntryFor(e, n) && Ascii(":") == [COLON] && Find(e, COLON) == Some(c)
    ensures n == e[..c]
  {
    hide Find, Ascii;
    assert e != n by {
      assert e[c] in e;
    }
    var x :| e == n + Ascii(":") + x;
    assert e[|n|] == COLON;
    assert forall j :: 0 <= j < |n| ==> e[j] == n[j] && n[j] in n;
    assert c == |n| && e[..|n|] == n;
  }

  lemma SharedIff(service: Json, name: string, n: Bytes)
    requires service.Object?
    ensures var r := Shared(Field(service, name));
            && (r.Some? <==> forall v :: HasField(service, Ascii(name), v) ==> v.Null? || v.String?)
            && (r.Some? ==> (n in r.value <==> HasField(service, Ascii(name), String(Ascii("service:") + n))))
  {
    hide Ascii;
    var f := Field(service, name);
    if f.Some? {
      assert HasField(service, Ascii(name), f.value);
      if f.value.String? {
        var p := Ascii("service:");
        var d := StripPrefix(f.value.bytes, p);
        StripPrefixIff(f.value.bytes, p, n);
      }
    }
  }
}
