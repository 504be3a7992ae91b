/** The per-service section of `Model::build_cache_tags`: what the project digest is
    fed before the first "context" or "dockerfile" marker. */
module ServiceFingerprint {
  import opened Wrappers
  import opened Bytes
  import opened JsonFingerprint

  /** What one built service contributes. */
  datatype Service = Service(name: Bytes, build: Json, platform: Option<Json>)

  const KEY_BUILD: Bytes := [0x62, 0x75, 0x69, 0x6c, 0x64]
  const KEY_PLATFORM: Bytes := [0x70, 0x6c, 0x61, 0x74, 0x66, 0x6f, 0x72, 0x6d]
  const TAG_PLATFORM: Bytes :=
    [0x73, 0x65, 0x72, 0x76, 0x69, 0x63, 0x65, 0x20, 0x70, 0x6c, 0x61, 0x74, 0x66, 0x6f, 0x72, 0x6d]
  // "rumpelpod compose build cache v1"
  const DOMAIN: Bytes :=
    [0x72, 0x75, 0x6d, 0x70, 0x65, 0x6c, 0x70, 0x6f, 0x64, 0x20, 0x63, 0x6f, 0x6d, 0x70, 0x6f, 0x73,
     0x65, 0x20, 0x62, 0x75, 0x69, 0x6c, 0x64, 0x20, 0x63, 0x61, 0x63, 0x68, 0x65, 0x20, 0x76, 0x31]

  /** `Value::get`: a field of an object, nothing for any other value. */
  function Get(v: Json, key: Bytes): Option<Json> {
    if v.Object? && key in v.fields then Some(v.fields[key]) else None
  }

  predicate HasBuild(v: Json) {
    var b := Get(v, KEY_BUILD);
    b.Some? && !b.value.Null?
  }

  function Built(services: map<Bytes, Json>): map<Bytes, Json> {
    map n | n in services && HasBuild(services[n]) :: services[n]
  }

  function ServiceOf(name: Bytes, v: Json): Service
    requires HasBuild(v)
  {
    Service(name, Get(v, KEY_BUILD).value, Get(v, KEY_PLATFORM))
  }

  /** The services with a build, in name order. */
  ghost function Selected(services: map<Bytes, Json>): seq<Service> {
    var names := SortedKeys(Built(services).Keys);
    seq(|names|, i requires 0 <= i < |names| =>
      assert names[i] in Elements(names);
      ServiceOf(names[i], services[names[i]]))
  }

  ghost function PlatformPart(p: Option<Json>): Bytes {
    if p.Some? then TAG_PLATFORM + Encode(p.value) else []
  }

  ghost function ServiceBytes(s: Service): Bytes {
    Encode(String(s.name)) + Encode(s.build) + PlatformPart(s.platform)
  }

  ghost function Section(ss: seq<Service>): Bytes {
    if ss == [] then [] else ServiceBytes(ss[0]) + Section(ss[1..])
  }

  /** How the loop body ends for one service: hashed and on to the next, not cacheable
      (the call returns no tags), or an error. */
  datatype Outcome = Hashed | NotCacheable | Invalid

  /** `rest` is what the checks behind the hashing decide: secrets, build arguments and
      contexts, which look at the file system. */
  function OutcomeOf(s: Service, rest: Service -> Outcome): Outcome {
    if !s.build.Object? then Invalid else rest(s)
  }

  method HashService(hasher: Hasher, s: Service)
    modifies hasher
    ensures hasher.fed == old(hasher.fed) + ServiceBytes(s)
  {
    hide Encode;
    ghost var fed, name, build := hasher.fed, Encode(String(s.name)), Encode(s.build);
    HashJsonValue(hasher, String(s.name));
    HashJsonValue(hasher, s.build);
    Assoc(fed, name, build);
    if s.platform.Some? {
      hasher.Update(TAG_PLATFORM);
      HashJsonValue(hasher, s.platform.value);
      Assoc(fed + name + build, TAG_PLATFORM, Encode(s.platform.value));
      Assoc(fed, name + build, PlatformPart(s.platform));
    } else {
      assert name + build + [] == name + build;
    }
  }

  /** The loop over the built services.  It ends as the first service in name order that
      is not hashed and passed, and when there is none, all of them have been fed. */
  method HashServices(hasher: Hasher, services: map<Bytes, Json>, rest: Service -> Outcome) returns (r: Outcome)
    modifies hasher
    ensures r.Hashed? <==> forall s :: s in Selected(services) ==> OutcomeOf(s, rest).Hashed?
    ensures !r.Hashed? ==>
              exists i :: 0 <= i < |Selected(services)| && r == OutcomeOf(Selected(services)[i], rest)
                && forall j :: 0 <= j < i ==> OutcomeOf(Selected(services)[j], rest).Hashed?
    ensures r.Hashed? ==> hasher.fed == old(hasher.fed) + (DOMAIN + Section(Selected(services)))
  {
    hide ServiceBytes, Section, Sorted, SortedKeys, Selected, ServiceOf, Built, HasBuild;
    hasher.Update(DOMAIN);
    var names := SortKeys(Built(services));
    ghost var all := Selected(services);
    SelectedAt(services);
    var i := 0;
    assert all[0..] == all;
    while i < |names|
      invariant i <= |names| == |all|
      invariant forall j :: 0 <= j < i ==> OutcomeOf(all[j], rest).Hashed?
      invariant hasher.fed + Section(all[i..]) == old(hasher.fed) + (DOMAIN + Section(all))
    {
      var s := ServiceOf(names[i], services[names[i]]);
      assert s == all[i] && all[i] in all;
      if !s.build.Object? {
        return Invalid;
      }
      SectionAt(all, i, hasher.fed);
      HashService(hasher, s);
      if !rest(s).Hashed? {
        return rest(s);
      }
      i := i + 1;
    }
    SectionEmpty(hasher.fed);
    assert all[i..] == [];
    r := Hashed;
  }

  lemma SelectedAt(services: map<Bytes, Json>)
    ensures var names := SortedKeys(Built(services).Keys);
            |Selected(services)| == |names| && forall i :: 0 <= i < |names| ==>
              names[i] in services && HasBuild(services[names[i]])
              && Selected(services)[i] == ServiceOf(names[i], services[names[i]])
  {
    hide Sorted, SortedKeys;
    var names := SortedKeys(Built(services).Keys);
    assert forall i :: 0 <= i < |names| ==> names[i] in Elements(names);
  }

  lemma SectionAt(ss: seq<Service>, i: nat, fed: Bytes)
    requires i < |ss|
    ensures fed + Section(ss[i..]) == fed + ServiceBytes(ss[i]) + Section(ss[i + 1..])
  {
    hide ServiceBytes;
    assert ss[i..][1..] == ss[i + 1..];
    Assoc(fed, ServiceBytes(ss[i]), Section(ss[i + 1..]));
  }

  lemma SectionEmpty(fed: Bytes)
    ensures fed + Section([]) == fed
  {
  }

  // ---- unique decoding -----------------------------------------------------

  ghost predicate ServiceSized(s: Service) {
    |s.name| < MAX_LENGTH && Sized(s.build) && (s.platform.Some? ==> Sized(s.platform.value))
  }

  /** What may follow the section: nothing, "context..." or "dockerfile...". */
  ghost predicate Follows(t: Bytes) {
    t == [] || t[0] == 0x63 || t[0] == 0x64
  }

  lemma StringHead(b: Bytes, r: Bytes)
    ensures var x := Encode(String(b)) + r; |x| > 1 && x[0] == 0x73 && x[1] == 0x74
  {
  }

  lemma SectionHead(ss: seq<Service>, r: Bytes)
    requires Follows(r)
    ensures var x := Section(ss) + r;
            if ss == [] then x == r else |x| > 1 && x[0] == 0x73 && x[1] == 0x74
  {
    if ss == [] {
      assert Section(ss) + r == r;
    } else {
      hide Encode, PlatformPart, Section;
      var s := ss[0];
      ServiceSplit(ss, r);
      StringHead(s.name, Encode(s.build) + (PlatformPart(s.platform) + (Section(ss[1..]) + r)));
    }
  }

  lemma PlatformFree(p: Option<Json>, o: Option<Json>, x: Bytes, y: Bytes)
    requires (p.Some? ==> Sized(p.value)) && (o.Some? ==> Sized(o.value))
    requires x == [] || x[0] != 0x73 || (|x| > 1 && x[1] == 0x74)
    requires y == [] || y[0] != 0x73 || (|y| > 1 && y[1] == 0x74)
    requires PlatformPart(p) + x == PlatformPart(o) + y
    ensures p == o && x == y
  {
    hide Encode, PlatformPart, Sized;
    PlatformHead(p, x);
    PlatformHead(o, y);
    if p.Some? {
      Cancel(TAG_PLATFORM, TAG_PLATFORM, Encode(p.value) + x, Encode(o.value) + y);
      PrefixFree(p.value, o.value, x, y);
    }
  }

  lemma PlatformHead(p: Option<Json>, x: Bytes)
    ensures var a := PlatformPart(p) + x;
            if p.None? then a == x
            else |a| > 1 && a[0] == 0x73 && a[1] == 0x65 && a == TAG_PLATFORM + (Encode(p.value) + x)
  {
    hide Encode;
    if p.Some? {
      assert PlatformPart(p) + x == TAG_PLATFORM + (Encode(p.value) + x);
    }
  }

  /** The section determines the services and the bytes after it. */
  lemma {:induction false} SectionFree(ss: seq<Service>, tt: seq<Service>, r: Bytes, q: Bytes)
    requires Follows(r) && Follows(q)
    requires (forall s :: s in ss ==> ServiceSized(s)) && (forall s :: s in tt ==> ServiceSized(s))
    requires Section(ss) + r == Section(tt) + q
    ensures ss == tt && r == q
  {
    hide Encode, PlatformPart;
    SectionHead(ss, r);
    SectionHead(tt, q);
    if ss != [] {
      var s, t := ss[0], tt[0];
      assert s in ss && t in tt;
      var x, y := Section(ss[1..]) + r, Section(tt[1..]) + q;
      ServiceSplit(ss, r);
      ServiceSplit(tt, q);
      PrefixFree(String(s.name), String(t.name),
                 Encode(s.build) + (PlatformPart(s.platform) + x), Encode(t.build) + (PlatformPart(t.platform) + y));
      PrefixFree(s.build, t.build, PlatformPart(s.platform) + x, PlatformPart(t.platform) + y);
      SectionHead(ss[1..], r);
      SectionHead(tt[1..], q);
      PlatformFree(s.platform, t.platform, x, y);
      SectionFree(ss[1..], tt[1..], r, q);
      assert ss == [s] + ss[1..] && tt == [t] + tt[1..];
    }
  }

  lemma ServiceSplit(ss: seq<Service>, r: Bytes)
    requires ss != []
    ensures Section(ss) + r == Encode(String(ss[0].name))
            + (Encode(ss[0].build) + (PlatformPart(ss[0].platform) + (Section(ss[1..]) + r)))
  {
    hide Encode, PlatformPart;
    Regroup(Encode(String(ss[0].name)), Encode(ss[0].build), PlatformPart(ss[0].platform), Section(ss[1..]), r);
  }

  // ---- what of a compose model is hashed -------------------------------------

  lemma KeysSpelled()
    ensures KEY_BUILD == Ascii("build") && KEY_PLATFORM == Ascii("platform")
  {
    assert |Ascii("build")| == 5 && |Ascii("platform")| == 8;
  }

  lemma TagSpelled()
    ensures TAG_PLATFORM == Ascii("service platform")
  {
    assert |Ascii("service platform")| == 16;
  }

  lemma DomainSpelled()
    ensures DOMAIN == Ascii("rumpelpod compose build cache v1")
  {
    assert |Ascii("rumpelpod compose build cache v1")| == 32;
  }

  /** A service object with a build that is not null. */
  ghost predicate Builds(v: Json) {
    v.Object? && Ascii("build") in v.fields && !v.fields[Ascii("build")].Null?
  }

  ghost function Platform(v: Json): Option<Json>
    requires v.Object?
  {
    if Ascii("platform") in v.fields then Some(v.fields[Ascii("platform")]) else None
  }

  /** The hashed services are those of the model that have a build, each with its own
      name, build and platform. */
  lemma SelectedIff(services: map<Bytes, Json>, s: Service)
    ensures s in Selected(services) <==>
            && s.name in services && Builds(services[s.name])
            && s.build == services[s.name].fields[Ascii("build")]
            && s.platform == Platform(services[s.name])
  {
    KeysSpelled();
    SelectedAt(services);
    hide Selected, Sorted, SortedKeys, Ascii;
    var names := SortedKeys(Built(services).Keys);
    if s.name in services && Builds(services[s.name]) {
      assert s.name in Elements(names);
      var i :| 0 <= i < |names| && names[i] == s.name;
      assert Selected(services)[i] in Selected(services);
    }
  }

  /** They come in name order. */
  lemma SelectedInOrder(services: map<Bytes, Json>, i: nat, j: nat)
    requires i < j < |Selected(services)|
    ensures Less(Selected(services)[i].name, Selected(services)[j].name)
  {
    SelectedAt(services);
    hide Selected, SortedKeys;
  }

  ghost predicate ModelSized(services: map<Bytes, Json>) {
    forall n :: n in services && Builds(services[n]) ==>
      |n| < MAX_LENGTH && Sized(services[n].fields[Ascii("build")])
      && (Platform(services[n]).Some? ==> Sized(Platform(services[n]).value))
  }

  /** The same services have a build, with the same build and platform. */
  ghost predicate SameBuilt(m: map<Bytes, Json>, n: map<Bytes, Json>) {
    forall k ::
      && (k in m && Builds(m[k]) <==> k in n && Builds(n[k]))
      && (k in m && Builds(m[k]) ==>
            m[k].fields[Ascii("build")] == n[k].fields[Ascii("build")] && Platform(m[k]) == Platform(n[k]))
  }

  /** Two models feed the same section exactly when their built services agree in name,
      build and platform, whatever allowed bytes follow. */
  lemma ModelDetermined(m: map<Bytes, Json>, n: map<Bytes, Json>, r: Bytes, q: Bytes)
    requires ModelSized(m) && ModelSized(n) && Follows(r) && Follows(q)
    ensures Section(Selected(m)) + r == Section(Selected(n)) + q <==> SameBuilt(m, n) && r == q
  {
    hide Section, Selected, Follows;
    SelectedSized(m);
    SelectedSized(n);
    hide ModelSized, SameBuilt;
    if Section(Selected(m)) + r == Section(Selected(n)) + q {
      SectionFree(Selected(m), Selected(n), r, q);
      SameSelected(m, n);
    }
    if SameBuilt(m, n) {
      SameOrder(m, n);
    }
  }

  lemma SelectedSized(services: map<Bytes, Json>)
    requires ModelSized(services)
    ensures forall s :: s in Selected(services) ==> ServiceSized(s)
  {
    hide Selected, Ascii, Sized;
    forall s | s in Selected(services) ensures ServiceSized(s) {
      SelectedIff(services, s);
    }
  }

  lemma SameSelected(m: map<Bytes, Json>, n: map<Bytes, Json>)
    requires Selected(m) == Selected(n)
    ensures SameBuilt(m, n)
  {
    hide Selected, Ascii;
    forall k
      ensures k in m && Builds(m[k]) <==> k in n && Builds(n[k])
      ensures k in m && Builds(m[k]) ==>
                m[k].fields[Ascii("build")] == n[k].fields[Ascii("build")] && Platform(m[k]) == Platform(n[k])
    {
      if k in m && Builds(m[k]) {
        var s := Service(k, m[k].fields[Ascii("build")], Platform(m[k]));
        SelectedIff(m, s);
        SelectedIff(n, s);
      } else if k in n && Builds(n[k]) {
        var s := Service(k, n[k].fields[Ascii("build")], Platform(n[k]));
        SelectedIff(m, s);
        SelectedIff(n, s);
      }
    }
  }

  lemma SameOrder(m: map<Bytes, Json>, n: map<Bytes, Json>)
    requires SameBuilt(m, n)
    ensures Selected(m) == Selected(n)
  {
    SelectedAt(m);
    SelectedAt(n);
    BuiltKeys(m);
    BuiltKeys(n);
    hide Selected, Ascii, Sorted, SortedKeys, Built, HasBuild, Builds, ServiceOf, Platform;
    assert Built(m).Keys == Built(n).Keys;
    var names := SortedKeys(Built(m).Keys);
    forall i | 0 <= i < |names| ensures Selected(m)[i] == Selected(n)[i] {
      PartsOf(names[i], m[names[i]]);
      PartsOf(names[i], n[names[i]]);
    }
  }

  lemma BuiltKeys(services: map<Bytes, Json>)
    ensures forall k :: k in Built(services).Keys <==> k in services && Builds(services[k])
  {
    KeysSpelled();
    hide Ascii;
  }

  lemma PartsOf(name: Bytes, v: Json)
    requires HasBuild(v)
    ensures Builds(v) && ServiceOf(name, v) == Service(name, v.fields[Ascii("build")], Platform(v))
  {
    KeysSpelled();
    hide Ascii;
  }
}
