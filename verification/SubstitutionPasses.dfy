/** `resolve_devcontainer_vars` substitutes the workspace folder twice: first with
    what is known before the container path, then with everything. */
module SubstitutionPasses {
  import opened Wrappers
  import opened Bytes
  import opened Substitution

  /** `b` knows everything `a` knows, with the same values. */
  ghost predicate Extends(a: Context, b: Context) {
    && (a.localEnv.Some? ==> b.localEnv == a.localEnv)
    && (a.localWorkspaceFolder.Some? ==> b.localWorkspaceFolder == a.localWorkspaceFolder)
    && (a.localWorkspaceFolderBasename.Some? ==> b.localWorkspaceFolderBasename == a.localWorkspaceFolderBasename)
    && (a.containerWorkspaceFolder.Some? ==> b.containerWorkspaceFolder == a.containerWorkspaceFolder)
    && (a.containerWorkspaceFolderBasename.Some? ==>
          b.containerWorkspaceFolderBasename == a.containerWorkspaceFolderBasename)
    && (a.devcontainerId.Some? ==> b.devcontainerId == a.devcontainerId)
  }

  /** Every replacement made in `s` satisfies `ok`. */
  ghost predicate Replacements(s: Bytes, ctx: Context, ok: Bytes -> bool)
    decreases |s|
  {
    if s == [] then true
    else if !StartsRef(s) then Replacements(s[1..], ctx, ok)
    else CloseOf(s).Some? ==>
      (Resolve(Inner(s), ctx).Some? ==> ok(Resolve(Inner(s), ctx).value)) && Replacements(After(s), ctx, ok)
  }

  /** No reference starts inside `v` when `t` follows. */
  ghost predicate NoneIn(v: Bytes, t: Bytes) {
    forall i :: 0 <= i < |v| ==> !RefAt(v + t, i)
  }

  /** The first pass forms no reference: none starts at a literal byte or inside an
      inserted value, read with what the pass leaves behind it. */
  ghost predicate FormsNone(s: Bytes, a: Context)
    decreases |s|
  {
    if s == [] then true
    else if !StartsRef(s) then NoneIn([s[0]], Subst(s[1..], a)) && FormsNone(s[1..], a)
    else CloseOf(s).Some? ==>
      && (Resolve(Inner(s), a).Some? ==> NoneIn(Resolve(Inner(s), a).value, Subst(After(s), a)))
      && FormsNone(After(s), a)
  }

  /** Not empty, and unable to form a new `${` with its surroundings. */
  predicate Clean(v: Bytes) {
    v != [] && v[0] != OPEN && DOLLAR !in v
  }

  predicate SingleByte(v: Bytes) {
    forall i :: 0 <= i < |v| ==> !IsContinuation(v[i])
  }

  lemma ResolveExtends(inner: Bytes, a: Context, b: Context)
    requires Extends(a, b) && Resolve(inner, a).Some?
    ensures Resolve(inner, b) == Resolve(inner, a)
  {
    hide LookUp, EnvRest;
  }

  lemma FirstByte(s: Bytes, ctx: Context)
    requires s != [] && Replacements(s, ctx, Clean)
    ensures Subst(s, ctx) != [] && (Subst(s, ctx)[0] == s[0] || Subst(s, ctx)[0] != OPEN)
  {
    hide Resolve;
  }

  lemma NoDollar(v: Bytes, t: Bytes)
    requires DOLLAR !in v
    ensures NoneIn(v, t)
  {
    assert forall i :: 0 <= i < |v| ==> (v + t)[i] == v[i] && v[i] in v;
  }

  /** Clean replacements form no reference, whatever the text. */
  lemma {:induction false} CleanFormsNone(s: Bytes, a: Context)
    requires Replacements(s, a, Clean)
    ensures FormsNone(s, a)
    decreases |s|
  {
    hide Resolve, CloseOf, Subst, NoneIn;
    if s == [] {
    } else if !StartsRef(s) {
      CleanFormsNone(s[1..], a);
      LiteralStays(s, a);
    } else if CloseOf(s).Some? {
      CleanFormsNone(After(s), a);
      var v := Resolve(Inner(s), a);
      if v.Some? {
        NoDollar(v.value, Subst(After(s), a));
      }
    }
  }

  lemma LiteralStays(s: Bytes, a: Context)
    requires s != [] && !StartsRef(s) && Replacements(s[1..], a, Clean)
    ensures NoneIn([s[0]], Subst(s[1..], a))
  {
    hide Resolve, CloseOf;
    var t := Subst(s[1..], a);
    if s[1..] != [] {
      FirstByte(s[1..], a);
    }
    assert !RefAt([s[0]] + t, 0);
  }

  /** Text in which no reference starts passes through, and is stepped over byte by byte. */
  lemma {:induction false} PlainText(v: Bytes, t: Bytes, ctx: Context)
    requires NoneIn(v, t)
    ensures Subst(v + t, ctx) == v + Subst(t, ctx)
    ensures SafeLiteral(v + t) <==> SingleByte(v) && SafeLiteral(t)
  {
    hide Subst, SafeLiteral;
    if v == [] {
      assert v + t == t && [] + Subst(t, ctx) == Subst(t, ctx);
    } else {
      var s, w := v + t, v[1..];
      assert !RefAt(s, 0) && s[0] == v[0] && s[1..] == w + t;
      LiteralByte(s, ctx);
      assert NoneIn(w, t) by {
        assert forall i :: 0 <= i < |w| ==> RefAt(w + t, i) == RefAt(s, i + 1);
      }
      PlainText(w, t, ctx);
      SingleByteCons(v);
      assert v == [v[0]] + w;
      Assoc([v[0]], w, Subst(t, ctx));
    }
  }

  lemma SingleByteCons(v: Bytes)
    requires v != []
    ensures SingleByte(v) <==> !IsContinuation(v[0]) && SingleByte(v[1..])
  {
    assert v == [v[0]] + v[1..];
  }

  /** A kept reference is the same reference in front of any other text. */
  lemma KeptReference(s: Bytes, t: Bytes)
    requires Closed(s)
    ensures var u := s[..CloseOf(s).value + 1] + t;
            Closed(u) && CloseOf(u) == CloseOf(s) && Inner(u) == Inner(s) && After(u) == t
            && u[..CloseOf(s).value + 1] == s[..CloseOf(s).value + 1]
  {
    var c := CloseOf(s).value;
    var u := s[..c + 1] + t;
    assert u[2..][..c - 2] == s[2..][..c - 2];
    FindFirst(u[2..], CLOSE, c - 2);
  }

  /** When the first pass forms no reference, two passes give the text of one pass with
      the larger context, and panic exactly when the literal text or a value inserted by
      the first pass is not single-byte. */
  lemma {:induction false} TwoPasses(s: Bytes, a: Context, b: Context)
    requires Extends(a, b) && FormsNone(s, a)
    ensures Subst(Subst(s, a), b) == Subst(s, b)
    ensures SafeLiteral(Subst(s, a)) <==> SafeLiteral(s) && Replacements(s, a, SingleByte)
    decreases |s|
  {
    hide Resolve, CloseOf, Subst, SafeLiteral, NoneIn, Extends, SingleByte;
    if s == [] {
      Nothing(a);
      Nothing(b);
    } else if !StartsRef(s) {
      var t := Subst(s[1..], a);
      TwoPasses(s[1..], a, b);
      LiteralByte(s, a);
      LiteralByte(s, b);
      PlainText([s[0]], t, b);
      OneByte(s[0]);
    } else if CloseOf(s).Some? {
      var t := Subst(After(s), a);
      TwoPasses(After(s), a, b);
      Reference(s, a);
      Reference(s, b);
      var v := Resolve(Inner(s), a);
      if v.Some? {
        ResolveExtends(Inner(s), a, b);
        PlainText(v.value, t, b);
      } else {
        KeptReference(s, t);
        Reference(s[..CloseOf(s).value + 1] + t, b);
      }
    } else {
      Unterminated(s, a);
      Unterminated(s, b);
    }
  }

  lemma OneByte(b: Byte)
    ensures SingleByte([b]) <==> !IsContinuation(b)
  {
    assert [b][0] == b;
  }

  /** The workspace folder as the daemon computes it, for every folder; under the
      conditions of `TwoPasses` that is one pass with the larger context. */
  method ResolveWorkspaceFolder(folder: Bytes, a: Context, b: Context) returns (r: Option<Bytes>)
    requires Utf8(folder) && CtxUtf8(a) && CtxUtf8(b)
    ensures r.Some? <==> SafeLiteral(folder) && SafeLiteral(Subst(folder, a))
    ensures r.Some? ==> r.value == Subst(Subst(folder, a), b)
    ensures Extends(a, b) && FormsNone(folder, a) ==>
              r == if SafeLiteral(folder) && Replacements(folder, a, SingleByte) then Some(Subst(folder, b)) else None
  {
    hide Resolve, Subst, SafeLiteral, Replacements, CtxUtf8, Extends, FormsNone;
    if Extends(a, b) && FormsNone(folder, a) {
      TwoPasses(folder, a, b);
    }
    r := SubstituteVars(folder, a);
    if r.Some? {
      r := SubstituteVars(r.value, b);
    }
  }

  /** A checkout path with a non-ASCII character makes the second pass panic. */
  lemma NonAsciiFolderPanics(v: Bytes, a: Context, b: Context)
    requires Extends(a, b) && a.localWorkspaceFolder == Some(v) && DOLLAR !in v && !SingleByte(v)
    ensures var s := [DOLLAR, OPEN] + Ascii("localWorkspaceFolder") + [CLOSE];
            Run(s, a) == Some(v) && Run(v, b) == None
  {
    var inner := Ascii("localWorkspaceFolder");
    FolderInner(inner);
    hide Ascii, EnvRest, SafeLiteral;
    OneReferenceRun(inner, a, v);
    NoDollar(v, []);
    PlainText(v, [], b);
    assert v + [] == v;
  }

  lemma FolderInner(inner: Bytes)
    requires inner == Ascii("localWorkspaceFolder")
    ensures CLOSE !in inner && EnvRest(inner).None?
  {
    assert forall i :: 0 <= i < |inner| ==> inner[i] != CLOSE;
    assert inner[5] == 0x57 && Ascii("localEnv:")[5] == 0x45 && Ascii("env:")[0] == 0x65;
    assert inner[..9][5] == 0x57 && inner[..4][0] == 0x6c;
  }

  lemma OneReferenceRun(inner: Bytes, ctx: Context, v: Bytes)
    requires CLOSE !in inner && Resolve(inner, ctx) == Some(v)
    ensures Run([DOLLAR, OPEN] + inner + [CLOSE], ctx) == Some(v)
  {
    hide Resolve;
    OneReference(inner);
    Nothing(ctx);
    assert v + [] == v;
  }

  // ---- when the first pass does form a reference ---------------------------------

  /** An empty replacement splices a `$` onto a `{`. */
  lemma EmptyReplacementSplices(env: Bytes, id: Bytes, a: Context, b: Context)
    requires CLOSE !in env && Resolve(env, a) == Resolve(env, b) == Some([])
    requires CLOSE !in id && DOLLAR !in id && Resolve(id, b).Some? && |Resolve(id, b).value| != |id| + 3
    ensures var s := [DOLLAR] + (Ref(env) + ([OPEN] + id + [CLOSE]));
            Subst(Subst(s, a), b) != Subst(s, b)
  {
    hide Resolve, Subst, CloseOf;
    var tail: Bytes := [OPEN] + id + [CLOSE];
    SpliceStep(env, [], tail, a);
    SpliceStep(env, [], tail, b);
    assert [DOLLAR] + ([] + tail) == Ref(id);
    OneReferenceRun(id, b, Resolve(id, b).value);
  }

  /** So does a replacement that starts with `{`. */
  lemma BraceReplacementSplices(env: Bytes, id: Bytes, a: Context, b: Context)
    requires CLOSE !in env && Resolve(env, a) == Resolve(env, b) == Some([OPEN] + id + [CLOSE])
    requires CLOSE !in id && Resolve(id, b).Some? && |Resolve(id, b).value| != |id| + 3
    ensures var s := [DOLLAR] + (Ref(env) + []);
            Subst(Subst(s, a), b) != Subst(s, b)
  {
    hide Resolve, Subst, CloseOf;
    var v: Bytes := [OPEN] + id + [CLOSE];
    SpliceStep(env, v, [], a);
    SpliceStep(env, v, [], b);
    assert [DOLLAR] + (v + []) == Ref(id);
    OneReferenceRun(id, b, Resolve(id, b).value);
  }

  /** A replacement that holds a reference is scanned again by the second pass, although
      each pass alone never rescans what it inserts. */
  lemma ReferenceReplacementRescanned(env: Bytes, id: Bytes, a: Context, b: Context)
    requires CLOSE !in env && Resolve(env, a) == Resolve(env, b) == Some(Ref(id))
    requires CLOSE !in id && Resolve(id, b).Some? && Resolve(id, b).value != Ref(id)
    ensures var s := Ref(env);
            Subst(s, b) == Ref(id) && Subst(Subst(s, a), b) == Resolve(id, b).value
  {
    hide Resolve, Subst;
    OneReferenceRun(env, a, Ref(id));
    OneReferenceRun(env, b, Ref(id));
    OneReferenceRun(id, b, Resolve(id, b).value);
  }

  lemma SpliceStep(env: Bytes, v: Bytes, tail: Bytes, ctx: Context)
    requires CLOSE !in env && DOLLAR !in tail && Resolve(env, ctx) == Some(v)
    ensures Subst([DOLLAR] + (Ref(env) + tail), ctx) == [DOLLAR] + (v + tail)
  {
    hide Resolve;
    OneReference(env);
    KeptReference(Ref(env), tail);
    assert Ref(env)[..CloseOf(Ref(env)).value + 1] == Ref(env);
    var u := Ref(env) + tail;
    hide CloseOf, Subst;
    NoDollar(tail, []);
    PlainText(tail, [], ctx);
    Nothing(ctx);
    assert tail + [] == tail;
    Reference(u, ctx);
    assert Subst(u, ctx) == v + tail;
    assert ([DOLLAR] + u)[1..] == u && !StartsRef([DOLLAR] + u);
    LiteralByte([DOLLAR] + u, ctx);
  }
}
