/** The byte stream `hash_context_dir` feeds for a build context.  File names and
    link targets are UTF-8, where the lossy conversion is the identity. */
module ContextFingerprint {
  import opened Wrappers
  import opened Bytes

  datatype Node =
    | File(mode: nat, content: Bytes)
    | Directory(entries: map<Bytes, Node>)
    | Symlink(target: Bytes)
    | Special

  type Path = seq<Bytes>

  datatype Kind = FileKind(mode: nat, content: Bytes) | DirectoryKind | SymlinkKind(target: Bytes) | SpecialKind

  datatype Entry = Entry(path: Path, kind: Kind)

  const GIT: Bytes := [0x2e, 0x67, 0x69, 0x74]
  const SLASH: Byte := 0x2f

  function KindOf(n: Node): Kind {
    match n
    case File(m, c) => FileKind(m, c)
    case Directory(_) => DirectoryKind
    case Symlink(t) => SymlinkKind(t)
    case Special => SpecialKind
  }

  /** `WalkDir` sorted by file name: each directory before its contents. */
  ghost function Walk(base: Path, d: Node): seq<Entry>
    requires d.Directory?
    decreases d, 1, 0
  {
    WalkFrom(base, d, SortedKeys(d.entries.Keys), 0)
  }

  ghost function WalkFrom(base: Path, d: Node, ks: seq<Bytes>, i: nat): seq<Entry>
    requires d.Directory? && i <= |ks|
    decreases d, 0, |ks| - i
  {
    if i == |ks| then []
    else if ks[i] !in d.entries then WalkFrom(base, d, ks, i + 1)
    else
      var n := d.entries[ks[i]];
      [Entry(base + [ks[i]], KindOf(n))]
      + (if n.Directory? then Walk(base + [ks[i]], n) else [])
      + WalkFrom(base, d, ks, i + 1)
  }

  /** `.git` at the context root is not entered. */
  function Visible(root: map<Bytes, Node>): map<Bytes, Node> {
    root - {GIT}
  }

  function Join(p: Path): Bytes {
    if p == [] then [] else if |p| == 1 then p[0] else p[0] + [SLASH] + Join(p[1..])
  }

  function KindBytes(k: Kind): Bytes {
    match k
    case FileKind(m, c) => [0x66] + LittleEndian(m, 8) + Prefixed(c)
    case DirectoryKind => [0x64]
    case SymlinkKind(t) => [0x6c] + Prefixed(t)
    case SpecialKind => []
  }

  /** One walked entry, with the context root stripped from its path. */
  function EntryBytes(e: Entry, depth: nat): Bytes
    requires depth <= |e.path|
  {
    Prefixed(Join(e.path[depth..])) + KindBytes(e.kind)
  }

  ghost predicate Below(es: seq<Entry>, base: Path) {
    forall i :: 0 <= i < |es| ==> |base| < |es[i].path| && es[i].path[..|base|] == base
  }

  function Stream(es: seq<Entry>, depth: nat): Bytes {
    if es == [] then []
    else (if |es[0].path| <= depth then [] else EntryBytes(es[0], depth)) + Stream(es[1..], depth)
  }

  // ---- the code ------------------------------------------------------------

  method WalkDir(base: Path, d: Node) returns (es: seq<Entry>)
    requires d.Directory?
    ensures es == Walk(base, d)
    decreases d
  {
    hide SortedKeys, Sorted, Walk, WalkFrom, KindOf;
    es := [];
    var names := SortKeys(d.entries);
    WalkBegins(base, d);
    for i := 0 to |names|
      invariant es + WalkFrom(base, d, names, i) == Walk(base, d)
    {
      var n := d.entries[names[i]];
      WalkAdvance(es, base, d, names, i);
      es := es + [Entry(base + [names[i]], KindOf(n))];
      if n.Directory? {
        var inner := WalkDir(base + [names[i]], n);
        es := es + inner;
      }
    }
    WalkEnds(base, d, names);
  }

  lemma WalkBegins(base: Path, d: Node)
    requires d.Directory?
    ensures var ks := SortedKeys(d.entries.Keys);
            [] + WalkFrom(base, d, ks, 0) == Walk(base, d) && forall i :: 0 <= i < |ks| ==> ks[i] in d.entries
  {
    hide WalkFrom, SortedKeys, Sorted;
    var ks := SortedKeys(d.entries.Keys);
    assert forall i :: 0 <= i < |ks| ==> ks[i] in Elements(ks);
  }

  lemma WalkAdvance(es: seq<Entry>, base: Path, d: Node, ks: seq<Bytes>, i: nat)
    requires d.Directory? && i < |ks| && ks[i] in d.entries
    ensures var n := d.entries[ks[i]];
            var here := es + [Entry(base + [ks[i]], KindOf(n))];
            es + WalkFrom(base, d, ks, i) ==
            (if n.Directory? then here + Walk(base + [ks[i]], n) else here) + WalkFrom(base, d, ks, i + 1)
  {
    hide KindOf;
    var n := d.entries[ks[i]];
    var inner := if n.Directory? then Walk(base + [ks[i]], n) else [];
    hide Walk;
    Grouped(es, [Entry(base + [ks[i]], KindOf(n))], inner, WalkFrom(base, d, ks, i + 1));
  }

  lemma Grouped(a: seq<Entry>, b: seq<Entry>, c: seq<Entry>, d: seq<Entry>)
    ensures a + (b + c + d) == a + b + c + d && a + b + [] + d == a + b + d
  {
  }

  lemma WalkEnds(base: Path, d: Node, ks: seq<Bytes>)
    requires d.Directory?
    ensures WalkFrom(base, d, ks, |ks|) == []
  {
  }

  method HashKind(hasher: Hasher, kind: Kind)
    requires !kind.SpecialKind?
    modifies hasher
    ensures hasher.fed == old(hasher.fed) + KindBytes(kind)
  {
    hide LittleEndian, KindBytes;
    match kind {
      case FileKind(mode, content) =>
        FileBytes(hasher.fed, mode, content);
        hasher.Update([0x66]);
        hasher.Update(LittleEndian(mode, 8));
        hasher.Update(LittleEndian(|content|, 8));
        hasher.Update(content);
      case DirectoryKind =>
        hasher.Update([0x64]);
        assert KindBytes(kind) == [0x64] by { DirectoryBytes(); }
      case SymlinkKind(target) =>
        LinkBytes(hasher.fed, target);
        hasher.Update([0x6c]);
        hasher.Update(LittleEndian(|target|, 8));
        hasher.Update(target);
    }
  }

  lemma FileBytes(fed: Bytes, mode: nat, content: Bytes)
    ensures fed + KindBytes(FileKind(mode, content)) ==
            fed + [0x66] + LittleEndian(mode, 8) + LittleEndian(|content|, 8) + content
  {
    hide LittleEndian;
    Regroup(fed, [0x66], LittleEndian(mode, 8), LittleEndian(|content|, 8), content);
    Regroup([], [0x66], LittleEndian(mode, 8), LittleEndian(|content|, 8), content);
  }

  lemma DirectoryBytes()
    ensures KindBytes(DirectoryKind) == [0x64]
  {
  }

  lemma LinkBytes(fed: Bytes, target: Bytes)
    ensures fed + KindBytes(SymlinkKind(target)) == fed + [0x6c] + LittleEndian(|target|, 8) + target
  {
    hide LittleEndian;
    Assoc(fed, [0x6c], Prefixed(target));
    Assoc(fed + [0x6c], LittleEndian(|target|, 8), target);
  }

  /** Everything the walk yields: the context root itself, then its contents. */
  ghost function Walked(base: Path, root: map<Bytes, Node>): seq<Entry> {
    [Entry(base, DirectoryKind)] + Walk(base, Directory(Visible(root)))
  }

  /** The loop over the walk.  False when it meets a file type that is neither file,
      directory nor symlink. */
  method HashContextDir(hasher: Hasher, base: Path, root: map<Bytes, Node>) returns (ok: bool)
    modifies hasher
    ensures ok <==> forall e :: e in Walked(base, root) ==> !e.kind.SpecialKind?
    ensures ok ==> hasher.fed == old(hasher.fed) + Stream(Walked(base, root), |base|)
  {
    hide Walk, KindBytes, LittleEndian;
    var inside := WalkDir(base, Directory(Visible(root)));
    var es := [Entry(base, DirectoryKind)] + inside;
    WalkBelow(base, Directory(Visible(root)));
    ghost var start := hasher.fed;
    assert es[0..] == es;
    for i := 0 to |es|
      invariant forall j :: 0 <= j < i ==> !es[j].kind.SpecialKind?
      invariant hasher.fed + Stream(es[i..], |base|) == start + Stream(es, |base|)
    {
      assert es[i..][1..] == es[i + 1..];
      var rel := es[i].path[|base|..];
      if rel == [] {
        assert i == 0;
        continue;
      }
      if es[i].kind.SpecialKind? {
        assert es[i] in es;
        return false;
      }
      ghost var fed := hasher.fed;
      hasher.Update(LittleEndian(|Join(rel)|, 8));
      hasher.Update(Join(rel));
      HashKind(hasher, es[i].kind);
      StreamAdvance(es, i, |base|, fed, hasher.fed);
    }
    ok := true;
  }

  lemma StreamAdvance(es: seq<Entry>, i: nat, depth: nat, fed: Bytes, next: Bytes)
    requires i < |es| && depth < |es[i].path|
    requires next == fed + LittleEndian(|Join(es[i].path[depth..])|, 8) + Join(es[i].path[depth..]) + KindBytes(es[i].kind)
    ensures next + Stream(es[i + 1..], depth) == fed + Stream(es[i..], depth)
  {
    hide KindBytes, LittleEndian;
    assert es[i..][1..] == es[i + 1..];
    Regroup(fed, LittleEndian(|Join(es[i].path[depth..])|, 8), Join(es[i].path[depth..]), KindBytes(es[i].kind), Stream(es[i + 1..], depth));
    Regroup([], LittleEndian(|Join(es[i].path[depth..])|, 8), Join(es[i].path[depth..]), KindBytes(es[i].kind), Stream(es[i + 1..], depth));
  }

  // ---- what a walk contains ------------------------------------------------

  lemma {:induction false} WalkBelow(base: Path, d: Node)
    requires d.Directory?
    ensures Below(Walk(base, d), base)
    decreases d, 1, 0
  {
    WalkFromBelow(base, d, SortedKeys(d.entries.Keys), 0);
  }

  lemma {:induction false} WalkFromBelow(base: Path, d: Node, ks: seq<Bytes>, i: nat)
    requires d.Directory? && i <= |ks|
    ensures Below(WalkFrom(base, d, ks, i), base)
    decreases d, 0, |ks| - i
  {
    hide Walk;
    if i < |ks| {
      WalkFromBelow(base, d, ks, i + 1);
      if ks[i] in d.entries && d.entries[ks[i]].Directory? {
        var inner := base + [ks[i]];
        WalkBelow(inner, d.entries[ks[i]]);
        forall e | e in Walk(inner, d.entries[ks[i]]) ensures |base| < |e.path| && e.path[..|base|] == base {
          assert e.path[..|base|] == e.path[..|inner|][..|base|];
        }
      }
    }
  }

  /** The kind of the node at a path below a directory. */
  function Look(d: Node, p: Path): Option<Kind>
    decreases |p|
  {
    if p == [] || !d.Directory? || p[0] !in d.entries then None
    else if |p| == 1 then Some(KindOf(d.entries[p[0]]))
    else Look(d.entries[p[0]], p[1..])
  }

  /** The walk lists exactly the nodes below the directory. */
  lemma {:induction false} WalkHas(base: Path, d: Node, p: Path, k: Kind)
    requires d.Directory?
    ensures Entry(base + p, k) in Walk(base, d) <==> Look(d, p) == Some(k)
    decreases d, 1, 0
  {
    var ks := SortedKeys(d.entries.Keys);
    WalkFromHas(base, d, ks, 0, p, k);
    if p != [] && p[0] in d.entries {
      assert p[0] in Elements(ks);
    }
  }

  lemma {:induction false} WalkFromHas(base: Path, d: Node, ks: seq<Bytes>, i: nat, p: Path, k: Kind)
    requires d.Directory? && i <= |ks|
    ensures Entry(base + p, k) in WalkFrom(base, d, ks, i) <==> p != [] && p[0] in ks[i..] && Look(d, p) == Some(k)
    decreases d, 0, |ks| - i
  {
    hide Walk;
    if i < |ks| {
      WalkFromHas(base, d, ks, i + 1, p, k);
      assert ks[i..] == [ks[i]] + ks[i + 1..];
      if ks[i] in d.entries {
        HeadHas(base, d, ks[i], p, k);
      }
    }
  }

  lemma {:induction false} HeadHas(base: Path, d: Node, x: Bytes, p: Path, k: Kind)
    requires d.Directory? && x in d.entries
    ensures var n := d.entries[x];
            var head := [Entry(base + [x], KindOf(n))] + (if n.Directory? then Walk(base + [x], n) else []);
            Entry(base + p, k) in head <==> p != [] && p[0] == x && Look(d, p) == Some(k)
    decreases d, 0, 0
  {
    hide Walk;
    var n := d.entries[x];
    assert base + p == base + [x] ==> p == [x] by {
      if base + p == base + [x] {
        assert p == (base + p)[|base|..] && [x] == (base + [x])[|base|..];
      }
    }
    if n.Directory? {
      WalkBelow(base + [x], n);
      forall e | e in Walk(base + [x], n) ensures |base| < |e.path| && e.path[|base|] == x {
        assert e.path[..|base| + 1][|base|] == x;
      }
      if p != [] && p[0] == x {
        assert base + p == base + [x] + p[1..];
        WalkHas(base + [x], n, p[1..], k);
      }
    }
  }

  // ---- location independence -----------------------------------------------

  function Strip(es: seq<Entry>, n: nat): seq<Entry> {
    if es == [] then []
    else [Entry(if n <= |es[0].path| then es[0].path[n..] else [], es[0].kind)] + Strip(es[1..], n)
  }

  lemma {:induction false} StripAppend(es: seq<Entry>, fs: seq<Entry>, n: nat)
    ensures Strip(es + fs, n) == Strip(es, n) + Strip(fs, n)
  {
    if es == [] {
      assert es + fs == fs;
    } else {
      assert (es + fs)[1..] == es[1..] + fs;
      StripAppend(es[1..], fs, n);
    }
  }

  lemma {:induction false} Rebase(b: Path, c: Path, d: Node)
    requires d.Directory?
    ensures Strip(Walk(b + c, d), |b|) == Walk(c, d)
    decreases d, 1, 0
  {
    RebaseFrom(b, c, d, SortedKeys(d.entries.Keys), 0);
  }

  lemma {:induction false} RebaseFrom(b: Path, c: Path, d: Node, ks: seq<Bytes>, i: nat)
    requires d.Directory? && i <= |ks|
    ensures Strip(WalkFrom(b + c, d, ks, i), |b|) == WalkFrom(c, d, ks, i)
    decreases d, 0, |ks| - i
  {
    hide Walk;
    if i < |ks| {
      RebaseFrom(b, c, d, ks, i + 1);
      if ks[i] in d.entries {
        var n := d.entries[ks[i]];
        assert b + c + [ks[i]] == b + (c + [ks[i]]);
        var head := [Entry(b + c + [ks[i]], KindOf(n))];
        var inner := if n.Directory? then Walk(b + c + [ks[i]], n) else [];
        if n.Directory? {
          Rebase(b, c + [ks[i]], n);
        }
        StripAppend(head + inner, WalkFrom(b + c, d, ks, i + 1), |b|);
        StripAppend(head, inner, |b|);
        assert (b + (c + [ks[i]]))[|b|..] == c + [ks[i]];
      }
    }
  }

  lemma {:induction false} StreamOfStrip(es: seq<Entry>, n: nat)
    ensures Stream(es, n) == Stream(Strip(es, n), 0)
  {
    hide EntryBytes;
    if es != [] {
      StreamOfStrip(es[1..], n);
      var s := Strip(es, n);
      assert s[1..] == Strip(es[1..], n);
      if |es[0].path| > n {
        SameEntryBytes(es[0], s[0], n);
      }
    }
  }

  lemma SameEntryBytes(e: Entry, f: Entry, n: nat)
    requires n <= |e.path| && f == Entry(e.path[n..], e.kind)
    ensures EntryBytes(e, n) == EntryBytes(f, 0)
  {
    assert f.path[0..] == f.path;
  }

  /** The stream does not depend on where the context lives on disk. */
  lemma StreamAnywhere(base: Path, root: map<Bytes, Node>)
    ensures Stream(Walked(base, root), |base|) == Stream(Walk([], Directory(Visible(root))), 0)
  {
    hide Walk;
    var d := Directory(Visible(root));
    assert base + [] == base;
    Rebase(base, [], d);
    StreamOfStrip(Walk(base, d), |base|);
    assert Walked(base, root)[1..] == Walk(base, d);
  }

  // ---- unique decoding -----------------------------------------------------

  ghost predicate KindSized(k: Kind) {
    match k
    case FileKind(m, c) => m < 0x1_0000_0000 && |c| < MAX_LENGTH
    case DirectoryKind => true
    case SymlinkKind(t) => |t| < MAX_LENGTH
    case SpecialKind => false
  }

  /** A path component: not empty and without a slash. */
  ghost predicate NameOk(n: Bytes) {
    n != [] && SLASH !in n
  }

  ghost predicate EntryOk(e: Entry) {
    e.path != [] && (forall n :: n in e.path ==> NameOk(n)) && |Join(e.path)| < MAX_LENGTH && KindSized(e.kind)
  }

  function KindTag(k: Kind): Byte {
    match k
    case FileKind(_, _) => 0x66
    case DirectoryKind => 0x64
    case SymlinkKind(_) => 0x6c
    case SpecialKind => 0
  }

  function KindRest(k: Kind, x: Bytes): Bytes {
    match k
    case FileKind(m, c) => LittleEndian(m, 8) + (Prefixed(c) + x)
    case DirectoryKind => x
    case SymlinkKind(t) => Prefixed(t) + x
    case SpecialKind => x
  }

  lemma KindSplit(k: Kind, x: Bytes)
    requires !k.SpecialKind?
    ensures KindBytes(k) + x == [KindTag(k)] + KindRest(k, x)
  {
    hide LittleEndian, Prefixed;
  }

  lemma KindFree(k: Kind, l: Kind, x: Bytes, y: Bytes)
    requires KindSized(k) && KindSized(l) && KindBytes(k) + x == KindBytes(l) + y
    ensures k == l && x == y
  {
    hide LittleEndian, Prefixed, KindBytes;
    KindSplit(k, x);
    KindSplit(l, y);
    assert [KindTag(k)][0] == [KindTag(l)][0] by {
      assert ([KindTag(k)] + KindRest(k, x))[0] == ([KindTag(l)] + KindRest(l, y))[0];
    }
    Cancel([KindTag(k)], [KindTag(l)], KindRest(k, x), KindRest(l, y));
    match k {
      case FileKind(m, c) =>
        LengthCancel(m, l.mode, Prefixed(c) + x, Prefixed(l.content) + y);
        PrefixedCancel(c, l.content, x, y);
      case DirectoryKind =>
      case SymlinkKind(t) =>
        PrefixedCancel(t, l.target, x, y);
    }
  }

  lemma HeadNotShorter(p: Path, q: Path)
    requires p != [] && q != [] && Join(p) == Join(q) && NameOk(q[0])
    ensures |q[0]| <= |p[0]|
  {
    JoinHead(p);
    JoinHead(q);
    assert forall i :: 0 <= i < |q[0]| ==> Join(q)[i] == q[0][i] && q[0][i] != SLASH;
  }

  lemma {:induction false} JoinInjective(p: Path, q: Path)
    requires p != [] && q != [] && Join(p) == Join(q)
    requires (forall n :: n in p ==> NameOk(n)) && (forall n :: n in q ==> NameOk(n))
    ensures p == q
  {
    assert p[0] in p && q[0] in q;
    JoinHead(p);
    JoinHead(q);
    HeadNotShorter(p, q);
    HeadNotShorter(q, p);
    if |p| > 1 {
      JoinInjective(p[1..], q[1..]);
    }
    assert p == [p[0]] + p[1..] && q == [q[0]] + q[1..];
  }

  lemma JoinHead(p: Path)
    requires p != []
    ensures |p[0]| <= |Join(p)| && Join(p)[..|p[0]|] == p[0]
    ensures |p| == 1 ==> |Join(p)| == |p[0]|
    ensures |p| > 1 ==> |Join(p)| > |p[0]| && Join(p)[|p[0]|] == SLASH && Join(p)[|p[0]| + 1..] == Join(p[1..])
  {
  }

  /** Equal streams list equal entries. */
  lemma {:induction false} StreamFree(es: seq<Entry>, fs: seq<Entry>)
    requires (forall e :: e in es ==> EntryOk(e)) && (forall f :: f in fs ==> EntryOk(f))
    requires Stream(es, 0) == Stream(fs, 0)
    ensures es == fs
  {
    hide KindBytes, Prefixed, Join, Stream;
    StreamSplit(es);
    StreamSplit(fs);
    if es != [] && fs != [] {
      var e, f := es[0], fs[0];
      var x, y := Stream(es[1..], 0), Stream(fs[1..], 0);
      PrefixedCancel(Join(e.path), Join(f.path), KindBytes(e.kind) + x, KindBytes(f.kind) + y);
      JoinInjective(e.path, f.path);
      KindFree(e.kind, f.kind, x, y);
      StreamFree(es[1..], fs[1..]);
      assert es == [e] + es[1..] && fs == [f] + fs[1..];
    }
  }

  lemma StreamSplit(es: seq<Entry>)
    requires forall e :: e in es ==> EntryOk(e)
    ensures es == [] <==> Stream(es, 0) == []
    ensures es != [] ==> EntryOk(es[0])
    ensures es != [] ==> Stream(es, 0) == Prefixed(Join(es[0].path)) + (KindBytes(es[0].kind) + Stream(es[1..], 0))
  {
    hide KindBytes, Join, LittleEndian, EntryOk;
    if es != [] {
      assert es[0] in es && EntryOk(es[0]);
      EntryHead(es);
    }
  }

  lemma EntryHead(es: seq<Entry>)
    requires es != [] && EntryOk(es[0])
    ensures Stream(es, 0) == Prefixed(Join(es[0].path)) + (KindBytes(es[0].kind) + Stream(es[1..], 0))
  {
    hide KindBytes, Join, Prefixed;
    assert es[0].path[0..] == es[0].path;
    Regroup([], Prefixed(Join(es[0].path)), KindBytes(es[0].kind), Stream(es[1..], 0), []);
  }

  /** Directories whose nodes agree at every path are equal. */
  lemma {:induction false} LookDetermines(d: Node, c: Node)
    requires d.Directory? && c.Directory?
    requires forall p :: Look(d, p) == Look(c, p)
    ensures d == c
    decreases d
  {
    forall n ensures n in d.entries <==> n in c.entries {
      assert Look(d, [n]) == Look(c, [n]);
    }
    assert d.entries.Keys == c.entries.Keys;
    forall n | n in d.entries ensures d.entries[n] == c.entries[n] {
      assert Look(d, [n]) == Look(c, [n]);
      var x, y := d.entries[n], c.entries[n];
      if x.Directory? {
        forall p ensures Look(x, p) == Look(y, p) {
          assert Look(d, [n] + p) == Look(c, [n] + p) && ([n] + p)[1..] == p;
        }
        LookDetermines(x, y);
      }
    }
    assert d.entries == c.entries;
  }

  // ---- what of a context is hashed ------------------------------------------

  lemma GitSpelled()
    ensures Ascii(".git") == GIT
  {
    assert |Ascii(".git")| == 4;
  }

  /** Below the context root everything is looked at but a root entry named `.git`. */
  lemma LookVisible(root: map<Bytes, Node>, p: Path)
    ensures Look(Directory(Visible(root)), p) ==
            if p != [] && p[0] == Ascii(".git") then None else Look(Directory(root), p)
  {
    GitSpelled();
    hide Ascii;
  }

  /** The walk yields the root and every node below it that is not at or under a root
      entry named `.git`. */
  lemma WalkedIff(base: Path, root: map<Bytes, Node>, e: Entry)
    ensures e in Walked(base, root) <==>
            || e == Entry(base, DirectoryKind)
            || exists p: Path :: p != [] && p[0] != Ascii(".git") && e.path == base + p
                 && Look(Directory(root), p) == Some(e.kind)
  {
    hide Walk, Look, Visible, Ascii;
    var d := Directory(Visible(root));
    WalkBelow(base, d);
    if e in Walk(base, d) {
      var p := e.path[|base|..];
      assert e.path == base + p && p != [];
      WalkHas(base, d, p, e.kind);
      LookVisible(root, p);
    }
    forall p: Path | p != [] && p[0] != Ascii(".git") && e.path == base + p && Look(Directory(root), p) == Some(e.kind)
      ensures e in Walked(base, root)
    {
      WalkHas(base, d, p, e.kind);
      LookVisible(root, p);
    }
  }

  /** Names are path components, and lengths and modes fit their fields, apart from a
      root entry named `.git`. */
  ghost predicate ContextOk(root: map<Bytes, Node>) {
    forall p: Path :: p != [] && p[0] != Ascii(".git") && Look(Directory(root), p).Some? ==>
      EntryOk(Entry(p, Look(Directory(root), p).value))
  }

  ghost predicate SameButGit(r: map<Bytes, Node>, q: map<Bytes, Node>) {
    forall n :: n != Ascii(".git") ==> (n in r <==> n in q) && (n in r ==> r[n] == q[n])
  }

  /** Two contexts hash alike exactly when they are equal apart from a root `.git`. */
  lemma ContextDetermined(b: Path, c: Path, r: map<Bytes, Node>, q: map<Bytes, Node>)
    requires ContextOk(r) && ContextOk(q)
    ensures Stream(Walked(b, r), |b|) == Stream(Walked(c, q), |c|) <==> SameButGit(r, q)
  {
    hide Walk, Walked, Stream, Visible, ContextOk, SameButGit;
    var x, y := Directory(Visible(r)), Directory(Visible(q));
    StreamAnywhere(b, r);
    StreamAnywhere(c, q);
    WalkOk(r);
    WalkOk(q);
    VisibleSame(r, q);
    if Stream(Walk([], x), 0) == Stream(Walk([], y), 0) {
      StreamFree(Walk([], x), Walk([], y));
      WalkDetermines(x, y);
    }
  }

  lemma WalkDetermines(x: Node, y: Node)
    requires x.Directory? && y.Directory? && Walk([], x) == Walk([], y)
    ensures x == y
  {
    hide Walk, Look;
    forall p ensures Look(x, p) == Look(y, p) {
      assert [] + p == p;
      if Look(x, p).Some? {
        WalkHas([], x, p, Look(x, p).value);
        WalkHas([], y, p, Look(x, p).value);
      } else if Look(y, p).Some? {
        WalkHas([], x, p, Look(y, p).value);
        WalkHas([], y, p, Look(y, p).value);
      }
    }
    LookDetermines(x, y);
  }

  lemma WalkOk(root: map<Bytes, Node>)
    requires ContextOk(root)
    ensures forall e :: e in Walk([], Directory(Visible(root))) ==> EntryOk(e)
  {
    hide Walk, Look, Visible, EntryOk, Ascii;
    var d := Directory(Visible(root));
    WalkBelow([], d);
    forall e | e in Walk([], d) ensures EntryOk(e) {
      assert [] + e.path == e.path;
      WalkHas([], d, e.path, e.kind);
      LookVisible(root, e.path);
      assert e == Entry(e.path, Look(Directory(root), e.path).value);
    }
  }

  lemma VisibleSame(r: map<Bytes, Node>, q: map<Bytes, Node>)
    ensures Visible(r) == Visible(q) <==> SameButGit(r, q)
  {
    GitSpelled();
    hide Ascii;
    if Visible(r) == Visible(q) {
      forall n | n != Ascii(".git") ensures (n in r <==> n in q) && (n in r ==> r[n] == q[n]) {
        assert n in Visible(r) <==> n in r;
        assert n in Visible(q) <==> n in q;
        if n in r {
          assert Visible(r)[n] == Visible(q)[n];
        }
      }
    }
  }

  // ---- the order and the format of the entries --------------------------------

  /** A path comes before its extensions, and siblings come by name. */
  ghost predicate Before(p: Path, q: Path) {
    || (|p| < |q| && q[..|p|] == p)
    || exists k :: 0 <= k < |p| && k < |q| && p[..k] == q[..k] && Less(p[k], q[k])
  }

  ghost predicate InOrder(es: seq<Entry>) {
    forall i, j :: 0 <= i < j < |es| ==> Before(es[i].path, es[j].path)
  }

  /** Every directory comes before its contents, and siblings come in byte order. */
  lemma {:induction false} WalkInOrder(base: Path, d: Node)
    requires d.Directory?
    ensures InOrder(Walk(base, d))
    decreases d, 1, 0
  {
    WalkFromInOrder(base, d, SortedKeys(d.entries.Keys), 0);
  }

  lemma {:induction false} WalkFromInOrder(base: Path, d: Node, ks: seq<Bytes>, i: nat)
    requires d.Directory? && i <= |ks| && Sorted(ks)
    ensures InOrder(WalkFrom(base, d, ks, i))
    decreases d, 0, |ks| - i
  {
    hide Walk, Sorted;
    if i < |ks| {
      WalkFromInOrder(base, d, ks, i + 1);
      if ks[i] in d.entries {
        var x, n := ks[i], d.entries[ks[i]];
        var head, rest := [Entry(base + [x], KindOf(n))], WalkFrom(base, d, ks, i + 1);
        var inner := if n.Directory? then Walk(base + [x], n) else [];
        if n.Directory? {
          WalkInOrder(base + [x], n);
          WalkBelow(base + [x], n);
        }
        HeadInOrder(base + [x], KindOf(n), inner);
        FromLater(base, d, ks, i + 1);
        JoinedInOrder(base, x, head + inner, rest) by { LaterIsAfter(ks, i, rest, base); }
      }
    }
  }

  lemma HeadInOrder(p: Path, k: Kind, inner: seq<Entry>)
    requires InOrder(inner) && Below(inner, p)
    ensures InOrder([Entry(p, k)] + inner)
    ensures forall i :: 0 <= i < |inner| + 1 ==> |p| <= |([Entry(p, k)] + inner)[i].path| && ([Entry(p, k)] + inner)[i].path[..|p|] == p
  {
  }

  /** Every entry from key `i` on goes through one of the remaining keys. */
  ghost predicate Through(es: seq<Entry>, base: Path, ks: seq<Bytes>, i: nat) {
    forall e :: e in es ==> |base| < |e.path| && e.path[..|base|] == base && (i <= |ks| && e.path[|base|] in ks[i..])
  }

  lemma {:induction false} FromLater(base: Path, d: Node, ks: seq<Bytes>, i: nat)
    requires d.Directory? && i <= |ks|
    ensures Through(WalkFrom(base, d, ks, i), base, ks, i)
    decreases |ks| - i
  {
    hide Walk, Look;
    WalkFromBelow(base, d, ks, i);
    forall e | e in WalkFrom(base, d, ks, i)
      ensures |base| < |e.path| && e.path[..|base|] == base && e.path[|base|] in ks[i..]
    {
      var p := e.path[|base|..];
      assert e.path == base + p;
      WalkFromHas(base, d, ks, i, p, e.kind);
    }
  }

  lemma LaterIsAfter(ks: seq<Bytes>, i: nat, rest: seq<Entry>, base: Path)
    requires i < |ks| && Sorted(ks) && Through(rest, base, ks, i + 1)
    ensures forall e :: e in rest ==> |base| < |e.path| && e.path[..|base|] == base && Less(ks[i], e.path[|base|])
  {
    forall e | e in rest ensures |base| < |e.path| && e.path[..|base|] == base && Less(ks[i], e.path[|base|]) {
      var j :| 0 <= j < |ks[i + 1..]| && ks[i + 1..][j] == e.path[|base|];
      assert ks[i + 1 + j] == e.path[|base|];
    }
  }

  lemma JoinedInOrder(base: Path, x: Bytes, front: seq<Entry>, rest: seq<Entry>)
    requires InOrder(front) && InOrder(rest)
    requires forall i :: 0 <= i < |front| ==> |base| < |front[i].path| && front[i].path[..|base| + 1] == base + [x]
    requires forall e :: e in rest ==> |base| < |e.path| && e.path[..|base|] == base && Less(x, e.path[|base|])
    ensures InOrder(front + rest)
  {
    var es := front + rest;
    forall i, j | 0 <= i < j < |es| ensures Before(es[i].path, es[j].path) {
      if i < |front| <= j {
        var p, q := es[i].path, es[j].path;
        assert es[j] in rest && p[..|base|] == p[..|base| + 1][..|base|] && p[|base|] == p[..|base| + 1][|base|];
        assert p[..|base|] == q[..|base|] && Less(p[|base|], q[|base|]);
      }
    }
  }

  /** A letter for the kind, then a file's mode, length and content or a link's length
      and target. */
  function Format(n: Node): Bytes {
    match n
    case File(m, c) => Ascii("f") + LittleEndian(m, 8) + LittleEndian(|c|, 8) + c
    case Directory(_) => Ascii("d")
    case Symlink(t) => Ascii("l") + LittleEndian(|t|, 8) + t
    case Special => []
  }

  lemma FormatIs(n: Node)
    ensures KindBytes(KindOf(n)) == Format(n)
  {
    assert Ascii("f") == [0x66] && Ascii("d") == [0x64] && Ascii("l") == [0x6c];
    hide LittleEndian, Ascii;
    match n
    case File(m, c) => Assoc([0x66] + LittleEndian(m, 8), LittleEndian(|c|, 8), c);
    case Symlink(t) => Assoc([0x6c], LittleEndian(|t|, 8), t);
    case _ =>
  }

  /** What one entry feeds: the length of its path and the path, then its node. */
  lemma OneEntryFormat(base: Path, root: map<Bytes, Node>, name: Bytes, n: Node)
    requires root == map[name := n] && name != Ascii(".git") && !n.Special? && (n.Directory? ==> n.entries == map[])
    ensures Stream(Walked(base, root), |base|) == LittleEndian(|name|, 8) + name + Format(n)
  {
    VisibleAll(root);
    hide LittleEndian, Walked, Walk, Stream, KindBytes, KindOf, Visible, Ascii, Format;
    StreamAnywhere(base, root);
    OneWalked(name, n);
    OneStreamed(name, KindOf(n));
    FormatIs(n);
  }

  lemma VisibleAll(root: map<Bytes, Node>)
    requires Ascii(".git") !in root
    ensures Visible(root) == root
  {
    GitSpelled();
    hide Ascii;
  }

  lemma OneWalked(name: Bytes, n: Node)
    requires n.Directory? ==> n.entries == map[]
    ensures Walk([], Directory(map[name := n])) == [Entry([name], KindOf(n))]
  {
    hide SortedKeys;
    var d := Directory(map[name := n]);
    var ks := SortedKeys(d.entries.Keys);
    assert d.entries.Keys == {name} == Elements([name]);
    assert Sorted([name]);
    SortedUnique(ks, [name]);
    assert [] + [name] == [name];
    if n.Directory? {
      assert n.entries.Keys == {};
      assert SortedKeys(n.entries.Keys) == [];
      assert Walk([name], n) == [];
    }
    assert WalkFrom([], d, [name], 1) == [];
  }

  lemma OneStreamed(name: Bytes, k: Kind)
    ensures Stream([Entry([name], k)], 0) == Prefixed(name) + KindBytes(k)
  {
    hide Prefixed, KindBytes;
    var e := Entry([name], k);
    assert e.path[0..] == [name] && Join([name]) == name && [e][1..] == [];
    assert Stream([e], 0) == EntryBytes(e, 0) + [];
  }
}
