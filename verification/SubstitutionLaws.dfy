/** What each variable of devcontainer.json stands for, and what becomes of any other
    text, piece by piece from the left. */
module SubstitutionLaws {
  import opened Wrappers
  import opened Bytes
  import opened Substitution

  /** The text of the rest with `x` in front; nothing when the rest panics. */
  function Then(x: Bytes, r: Option<Bytes>): Option<Bytes> {
    if r.Some? then Some(x + r.value) else None
  }

  /** The value when it is known, else the reference as it stands. */
  function OrKept(v: Option<Bytes>, inner: Bytes): Bytes {
    if v.Some? then v.value else Ref(inner)
  }

  lemma Spelled()
    ensures Ascii("${") == [DOLLAR, OPEN] && Ascii("}") == [CLOSE] && Ascii(":") == [COLON]
  {
  }

  lemma RefSpelled(inner: Bytes)
    ensures Ref(inner) == Ascii("${") + inner + Ascii("}")
  {
    Spelled();
  }

  lemma RefParts(inner: Bytes, t: Bytes)
    requires CLOSE !in inner
    ensures var s := Ref(inner) + t;
            Closed(s) && Inner(s) == inner && After(s) == t && s[..CloseOf(s).value + 1] == Ref(inner)
  {
    var s := Ref(inner) + t;
    assert s[0] == DOLLAR && s[1] == OPEN;
    var u := s[2..];
    assert u == inner + [CLOSE] + t;
    forall i | 0 <= i < |inner| ensures u[i] != CLOSE {
      assert u[i] == inner[i];
    }
    FindFirst(u, CLOSE, |inner|);
    assert s[2..2 + |inner|] == inner && s[3 + |inner|..] == t && s[..3 + |inner|] == Ref(inner);
  }

  lemma RefThen(inner: Bytes, t: Bytes, ctx: Context)
    requires CLOSE !in inner
    ensures Run(Ref(inner) + t, ctx) == Then(OrKept(Resolve(inner, ctx), inner), Run(t, ctx))
  {
    hide Resolve, Subst, SafeLiteral, CloseOf, Inner, After, Ref;
    RefParts(inner, t);
    Reference(Ref(inner) + t, ctx);
  }

  // ---- the five names ---------------------------------------------------------------

  lemma NotEnv(inner: Bytes)
    requires |inner| > 5 && inner[0] != 0x65 && inner[5] != 0x45
    ensures EnvRest(inner).None?
  {
    assert Ascii("localEnv:")[5] == 0x45 && Ascii("env:")[0] == 0x65;
    if |inner| >= 9 {
      assert inner[..9][5] == inner[5];
    }
    assert inner[..4][0] == inner[0];
  }

  lemma NameLengths()
    ensures |Ascii("localWorkspaceFolder")| == 20 && |Ascii("localWorkspaceFolderBasename")| == 28
    ensures |Ascii("containerWorkspaceFolder")| == 24 && |Ascii("containerWorkspaceFolderBasename")| == 32
    ensures |Ascii("devcontainerId")| == 14
  {
  }

  lemma NoClose(name: string)
    requires forall i :: 0 <= i < |name| ==> 'A' <= name[i] <= 'z'
    ensures CLOSE !in Ascii(name)
  {
  }

  lemma LocalFolder(ctx: Context)
    ensures CLOSE !in Ascii("localWorkspaceFolder") && CLOSE !in Ascii("localWorkspaceFolderBasename")
    ensures Resolve(Ascii("localWorkspaceFolder"), ctx) == ctx.localWorkspaceFolder
    ensures Resolve(Ascii("localWorkspaceFolderBasename"), ctx) == ctx.localWorkspaceFolderBasename
  {
    NoClose("localWorkspaceFolder");
    NoClose("localWorkspaceFolderBasename");
    assert Ascii("localWorkspaceFolder")[0] == 0x6c && Ascii("localWorkspaceFolder")[5] == 0x57;
    assert Ascii("localWorkspaceFolderBasename")[0] == 0x6c && Ascii("localWorkspaceFolderBasename")[5] == 0x57;
    NameLengths();
    hide Ascii, EnvRest;
    NotEnv(Ascii("localWorkspaceFolder"));
    NotEnv(Ascii("localWorkspaceFolderBasename"));
  }

  lemma ContainerFolder(ctx: Context)
    ensures CLOSE !in Ascii("containerWorkspaceFolder") && CLOSE !in Ascii("containerWorkspaceFolderBasename")
    ensures Resolve(Ascii("containerWorkspaceFolder"), ctx) == ctx.containerWorkspaceFolder
    ensures Resolve(Ascii("containerWorkspaceFolderBasename"), ctx) == ctx.containerWorkspaceFolderBasename
  {
    NoClose("containerWorkspaceFolder");
    NoClose("containerWorkspaceFolderBasename");
    assert Ascii("containerWorkspaceFolder")[0] == 0x63 && Ascii("containerWorkspaceFolder")[5] == 0x69;
    assert Ascii("containerWorkspaceFolderBasename")[0] == 0x63 && Ascii("containerWorkspaceFolderBasename")[5] == 0x69;
    NameLengths();
    hide Ascii, EnvRest;
    NotEnv(Ascii("containerWorkspaceFolder"));
    NotEnv(Ascii("containerWorkspaceFolderBasename"));
  }

  lemma ContainerId(ctx: Context)
    ensures CLOSE !in Ascii("devcontainerId") && Resolve(Ascii("devcontainerId"), ctx) == ctx.devcontainerId
  {
    NoClose("devcontainerId");
    assert Ascii("devcontainerId")[0] == 0x64 && Ascii("devcontainerId")[5] == 0x6e;
    NameLengths();
    hide Ascii, EnvRest;
    NotEnv(Ascii("devcontainerId"));
  }

  /** Each name gives its own value where it is known, and stays where it is not. */
  lemma NamedVariables(t: Bytes, ctx: Context)
    ensures Run(Ref(Ascii("localWorkspaceFolder")) + t, ctx) ==
            Then(OrKept(ctx.localWorkspaceFolder, Ascii("localWorkspaceFolder")), Run(t, ctx))
    ensures Run(Ref(Ascii("localWorkspaceFolderBasename")) + t, ctx) ==
            Then(OrKept(ctx.localWorkspaceFolderBasename, Ascii("localWorkspaceFolderBasename")), Run(t, ctx))
    ensures Run(Ref(Ascii("containerWorkspaceFolder")) + t, ctx) ==
            Then(OrKept(ctx.containerWorkspaceFolder, Ascii("containerWorkspaceFolder")), Run(t, ctx))
    ensures Run(Ref(Ascii("containerWorkspaceFolderBasename")) + t, ctx) ==
            Then(OrKept(ctx.containerWorkspaceFolderBasename, Ascii("containerWorkspaceFolderBasename")), Run(t, ctx))
    ensures Run(Ref(Ascii("devcontainerId")) + t, ctx) ==
            Then(OrKept(ctx.devcontainerId, Ascii("devcontainerId")), Run(t, ctx))
  {
    hide Resolve, Ascii, Run, Ref;
    LocalFolder(ctx);
    ContainerFolder(ctx);
    ContainerId(ctx);
    RefThen(Ascii("localWorkspaceFolder"), t, ctx);
    RefThen(Ascii("localWorkspaceFolderBasename"), t, ctx);
    RefThen(Ascii("containerWorkspaceFolder"), t, ctx);
    RefThen(Ascii("containerWorkspaceFolderBasename"), t, ctx);
    RefThen(Ascii("devcontainerId"), t, ctx);
  }

  // ---- the environment --------------------------------------------------------------

  /** `localEnv:` and `env:` mean the same. */
  ghost predicate EnvPrefix(p: Bytes) {
    p == Ascii("localEnv:") || p == Ascii("env:")
  }

  lemma EnvParts(p: Bytes, x: Bytes)
    requires EnvPrefix(p)
    ensures EnvRest(p + x) == Some(x) && (CLOSE !in x ==> CLOSE !in p + x)
  {
    assert Ascii("localEnv:") == [0x6c, 0x6f, 0x63, 0x61, 0x6c, 0x45, 0x6e, 0x76, 0x3a];
    assert Ascii("env:") == [0x65, 0x6e, 0x76, 0x3a];
    assert (p + x)[..|p|] == p && (p + x)[|p|..] == x;
    if p == Ascii("env:") && |p + x| >= 9 {
      assert (p + x)[..9][0] == 0x65;
    }
  }

  /** A variable gives its value, else the empty text, when the environment is known. */
  lemma EnvVariable(p: Bytes, name: Bytes, t: Bytes, ctx: Context)
    requires EnvPrefix(p) && COLON !in name && CLOSE !in name
    ensures Run(Ref(p + name) + t, ctx) ==
            Then(if ctx.localEnv.None? then Ref(p + name)
                 else if name in ctx.localEnv.value then ctx.localEnv.value[name] else [], Run(t, ctx))
  {
    hide EnvRest, Run, EnvPrefix, Ref;
    EnvParts(p, name);
    RefThen(p + name, t, ctx);
  }

  /** With a default behind a second colon the default takes the place of the empty text. */
  lemma EnvDefault(p: Bytes, name: Bytes, default: Bytes, t: Bytes, ctx: Context)
    requires EnvPrefix(p) && COLON !in name && CLOSE !in name && CLOSE !in default
    ensures var inner := p + (name + Ascii(":") + default);
            Run(Ref(inner) + t, ctx) ==
            Then(if ctx.localEnv.None? then Ref(inner)
                 else if name in ctx.localEnv.value then ctx.localEnv.value[name] else default, Run(t, ctx))
  {
    Spelled();
    hide EnvRest, Run, EnvPrefix, Ref, Ascii;
    var rest := name + [COLON] + default;
    EnvParts(p, rest);
    DefaultSplit(name, default);
    RefThen(p + rest, t, ctx);
  }

  lemma DefaultSplit(name: Bytes, default: Bytes)
    requires COLON !in name
    ensures SplitDefault(name + [COLON] + default) == (name, Some(default))
  {
    var rest := name + [COLON] + default;
    forall i | 0 <= i < |name| ensures rest[i] != COLON {
      assert rest[i] == name[i];
    }
    FindFirst(rest, COLON, |name|);
    assert rest[..|name|] == name && rest[|name| + 1..] == default;
  }

  // ---- everything else ----------------------------------------------------------------

  /** Any other reference stays as it is. */
  lemma OtherKept(inner: Bytes, t: Bytes, ctx: Context)
    requires CLOSE !in inner
    requires inner != Ascii("localWorkspaceFolder") && inner != Ascii("localWorkspaceFolderBasename")
    requires inner != Ascii("containerWorkspaceFolder") && inner != Ascii("containerWorkspaceFolderBasename")
    requires inner != Ascii("devcontainerId")
    requires forall p, x :: EnvPrefix(p) ==> inner != p + x
    ensures Run(Ref(inner) + t, ctx) == Then(Ref(inner), Run(t, ctx))
  {
    hide Run, Ref, Ascii;
    assert EnvRest(inner).None? by {
      var a, b := Ascii("localEnv:"), Ascii("env:");
      assert EnvPrefix(a) && EnvPrefix(b);
      if EnvRest(inner).Some? {
        StripPrefixIff(inner, a, EnvRest(inner).value);
        StripPrefixIff(inner, b, EnvRest(inner).value);
      }
    }
    RefThen(inner, t, ctx);
  }

  /** A byte that starts no reference stays, but a continuation byte panics. */
  lemma LiteralThen(b: Byte, t: Bytes, ctx: Context)
    requires !(b == '$' as int && t != [] && t[0] == '{' as int)
    ensures Run([b] + t, ctx) == if 0x80 <= b < 0xc0 then None else Then([b], Run(t, ctx))
  {
    hide Subst, SafeLiteral;
    assert ([b] + t)[1..] == t;
    LiteralByte([b] + t, ctx);
  }

  /** A reference without its `}` ends the scan, and the rest stays. */
  lemma UnterminatedKept(t: Bytes, ctx: Context)
    requires CLOSE !in t
    ensures Run(Ascii("${") + t, ctx) == Some(Ascii("${") + t)
  {
    Spelled();
    hide Ascii, Subst, SafeLiteral;
    var s := [DOLLAR, OPEN] + t;
    assert s[2..] == t;
    Unterminated(s, ctx);
  }

  lemma NothingRun(ctx: Context)
    ensures Run([], ctx) == Some([])
  {
    Nothing(ctx);
  }
}
