/** Variable substitution in devcontainer.json text (Dev Container specification,
    devcontainer.json reference, "Variables in devcontainer.json").

    Text is UTF-8 bytes.  Slicing a Rust string off a character boundary panics, and
    `substitute_vars` slices at every byte it steps over. */
module Substitution {
  import opened Wrappers
  import opened Bytes

  const DOLLAR: Byte := 0x24
  const OPEN: Byte := 0x7b
  const CLOSE: Byte := 0x7d
  const COLON: Byte := 0x3a

  datatype Context = Context(
    localEnv: Option<map<Bytes, Bytes>>,
    localWorkspaceFolder: Option<Bytes>,
    localWorkspaceFolderBasename: Option<Bytes>,
    containerWorkspaceFolder: Option<Bytes>,
    containerWorkspaceFolderBasename: Option<Bytes>,
    devcontainerId: Option<Bytes>)

  function OnlyEnv(env: map<Bytes, Bytes>): Context {
    Context(Some(env), None, None, None, None, None)
  }

  predicate IsContinuation(b: Byte) {
    0x80 <= b < 0xc0
  }

  /** `str::is_char_boundary`. */
  predicate IsBoundary(s: Bytes, i: nat) {
    i == |s| || (i < |s| && !IsContinuation(s[i]))
  }

  /** What valid UTF-8 guarantees here: a continuation byte never follows an ASCII byte. */
  ghost predicate Utf8(s: Bytes) {
    forall i :: 0 <= i < |s| && IsContinuation(s[i]) ==> i > 0 && s[i - 1] >= 0x80
  }

  predicate RefAt(s: Bytes, i: nat) {
    i + 1 < |s| && s[i] == DOLLAR && s[i + 1] == OPEN
  }

  predicate StartsRef(s: Bytes) {
    RefAt(s, 0)
  }

  function FindRef(s: Bytes): (r: Option<nat>)
    ensures r.Some? ==> RefAt(s, r.value) && forall j :: 0 <= j < r.value ==> !RefAt(s, j)
    ensures r.None? ==> forall j :: 0 <= j < |s| ==> !RefAt(s, j)
  {
    if s == [] then None
    else if StartsRef(s) then Some(0)
    else
      var r := FindRef(s[1..]);
      assert forall j :: 0 < j < |s| ==> RefAt(s, j) == RefAt(s[1..], j - 1);
      if r.None? then None else Some(r.value + 1)
  }

  /** The index of the `}` that ends a reference starting at 0. */
  function CloseOf(s: Bytes): (r: Option<nat>)
    requires StartsRef(s)
    ensures r.Some? ==> 2 <= r.value < |s| && s[r.value] == CLOSE
  {
    var r := Find(s[2..], CLOSE);
    if r.None? then None else Some(r.value + 2)
  }

  /** The text after `localEnv:` or `env:`. */
  function EnvRest(inner: Bytes): Option<Bytes> {
    var r := StripPrefix(inner, Ascii("localEnv:"));
    if r.Some? then r else StripPrefix(inner, Ascii("env:"))
  }

  function SplitDefault(s: Bytes): (Bytes, Option<Bytes>) {
    var c := Find(s, COLON);
    if c.None? then (s, None) else (s[..c.value], Some(s[c.value + 1..]))
  }

  function LookUp(env: map<Bytes, Bytes>, rest: Bytes): Bytes {
    var (name, default) := SplitDefault(rest);
    if name in env then env[name] else if default.Some? then default.value else []
  }

  function Resolve(inner: Bytes, ctx: Context): Option<Bytes> {
    var rest := EnvRest(inner);
    if rest.Some? then
      if ctx.localEnv.None? then None else Some(LookUp(ctx.localEnv.value, rest.value))
    else if inner == Ascii("localWorkspaceFolder") then ctx.localWorkspaceFolder
    else if inner == Ascii("localWorkspaceFolderBasename") then ctx.localWorkspaceFolderBasename
    else if inner == Ascii("containerWorkspaceFolder") then ctx.containerWorkspaceFolder
    else if inner == Ascii("containerWorkspaceFolderBasename") then ctx.containerWorkspaceFolderBasename
    else if inner == Ascii("devcontainerId") then ctx.devcontainerId
    else None
  }

  predicate Closed(s: Bytes) {
    StartsRef(s) && CloseOf(s).Some?
  }

  /** The text between `${` and `}`. */
  function Inner(s: Bytes): Bytes
    requires Closed(s)
  {
    s[2..CloseOf(s).value]
  }

  /** The text after the `}`. */
  function After(s: Bytes): (r: Bytes)
    requires Closed(s)
    ensures |r| < |s|
  {
    s[CloseOf(s).value + 1..]
  }

  /** The replacement, or the reference itself when there is none. */
  function Kept(v: Option<Bytes>, s: Bytes): Bytes
    requires Closed(s)
  {
    if v.Some? then v.value else s[..CloseOf(s).value + 1]
  }

  /** One left-to-right pass over the original text. */
  function Subst(s: Bytes, ctx: Context): Bytes
    decreases |s|
  {
    if s == [] then []
    else if !StartsRef(s) then [s[0]] + Subst(s[1..], ctx)
    else
      if CloseOf(s).None? then s
      else Kept(Resolve(Inner(s), ctx), s) + Subst(After(s), ctx)
  }

  /** No continuation byte in the text the scan steps over one byte at a time: outside
      references and before an unterminated one. */
  predicate SafeLiteral(s: Bytes)
    decreases |s|
  {
    if s == [] then true
    else if !StartsRef(s) then !IsContinuation(s[0]) && SafeLiteral(s[1..])
    else CloseOf(s).Some? ==> SafeLiteral(After(s))
  }

  /** `substitute_vars` as a partial function: None is the slicing panic. */
  function Run(s: Bytes, ctx: Context): Option<Bytes> {
    if SafeLiteral(s) then Some(Subst(s, ctx)) else None
  }

  ghost predicate CtxUtf8(ctx: Context) {
    forall inner :: Utf8(inner) && Resolve(inner, ctx).Some? ==> Utf8(Resolve(inner, ctx).value)
  }

  /** Contexts whose values are strings resolve strings to strings. */
  lemma Utf8Values(ctx: Context)
    requires ctx.localEnv.Some? ==> forall k :: k in ctx.localEnv.value ==> Utf8(ctx.localEnv.value[k])
    requires ctx.localWorkspaceFolder.Some? ==> Utf8(ctx.localWorkspaceFolder.value)
    requires ctx.localWorkspaceFolderBasename.Some? ==> Utf8(ctx.localWorkspaceFolderBasename.value)
    requires ctx.containerWorkspaceFolder.Some? ==> Utf8(ctx.containerWorkspaceFolder.value)
    requires ctx.containerWorkspaceFolderBasename.Some? ==> Utf8(ctx.containerWorkspaceFolderBasename.value)
    requires ctx.devcontainerId.Some? ==> Utf8(ctx.devcontainerId.value)
    ensures CtxUtf8(ctx)
  {
    hide Utf8, EnvRest, LookUp;
    forall inner | Utf8(inner) && Resolve(inner, ctx).Some? ensures Utf8(Resolve(inner, ctx).value) {
      if EnvRest(inner).Some? {
        EnvRestUtf8(inner);
        LookUpUtf8(ctx.localEnv.value, EnvRest(inner).value);
      }
    }
  }

  lemma LookUpUtf8(env: map<Bytes, Bytes>, rest: Bytes)
    requires Utf8(rest) && forall k :: k in env ==> Utf8(env[k])
    ensures Utf8(LookUp(env, rest))
  {
    hide Utf8;
    var c := Find(rest, COLON);
    if c.Some? {
      SuffixUtf8(rest, c.value + 1);
    }
    assert Utf8([]) by { NothingUtf8(); }
  }

  lemma NothingUtf8()
    ensures Utf8([])
  {
  }

  lemma SuffixUtf8(s: Bytes, i: nat)
    requires Utf8(s) && 0 < i <= |s| && s[i - 1] < 0x80
    ensures Utf8(s[i..])
  {
    var t := s[i..];
    forall j | 0 <= j < |t| && IsContinuation(t[j]) ensures j > 0 && t[j - 1] >= 0x80 {
      assert t[j] == s[i + j];
    }
  }

  lemma EnvRestUtf8(inner: Bytes)
    requires Utf8(inner) && EnvRest(inner).Some?
    ensures Utf8(EnvRest(inner).value)
  {
    var p := if StripPrefix(inner, Ascii("localEnv:")).Some? then Ascii("localEnv:") else Ascii("env:");
    assert |p| > 0 && p[|p| - 1] == COLON && inner[..|p|] == p;
    assert inner[|p| - 1] == inner[..|p|][|p| - 1];
    SuffixUtf8(inner, |p|);
  }

  // ---- the in-place loop ---------------------------------------------------

  /** The text before `i` is final and the rest still has to be scanned. */
  ghost predicate Scanned(value: Bytes, result: Bytes, i: int, ctx: Context) {
    && 0 <= i <= |result|
    && SafeLiteral(value) == SafeLiteral(result[i..])
    && Subst(value, ctx) == result[..i] + Subst(result[i..], ctx)
  }

  method SubstituteVars(value: Bytes, ctx: Context) returns (r: Option<Bytes>)
    requires Utf8(value) && CtxUtf8(ctx)
    ensures r == Run(value, ctx)
    ensures r.Some? ==> Utf8(r.value)
  {
    hide Resolve, CloseOf, Kept, After, Inner, Utf8, CtxUtf8, Scanned, Run;
    var result := value;
    var i := 0;
    ScanBegins(value, ctx);
    while i < |result|
      invariant 0 <= i <= |result|
      invariant Utf8(result) && Scanned(value, result, i, ctx)
      decreases |result| - i
    {
      var rest := result[i..];
      if !IsBoundary(result, i) {
        OffBoundary(value, result, i, ctx);
        return None;
      }
      if !StartsRef(rest) {
        LiteralStep(value, result, i, ctx);
        i := i + 1;
        continue;
      }
      var close := CloseOf(rest);
      if close.None? {
        ScanEnds(value, result, i, ctx);
        return Some(result);
      }
      // both slice positions follow an ASCII byte
      assert IsBoundary(result, i + 2) && IsBoundary(result, i + close.value + 1) by {
        Boundaries(result, i, i + close.value);
      }
      var end := i + close.value;
      var val := Resolve(Inner(rest), ctx);
      if val.Some? {
        ReplaceStep(value, result, i, ctx);
        result := result[..i] + val.value + result[end + 1..];
        i := i + |val.value|;
      } else {
        KeepStep(value, result, i, ctx);
        i := end + 1;
      }
    }
    ScanEnds(value, result, i, ctx);
    return Some(result);
  }

  lemma Nothing(ctx: Context)
    ensures Subst([], ctx) == [] && SafeLiteral([])
  {
  }

  lemma ScanBegins(value: Bytes, ctx: Context)
    ensures Scanned(value, value, 0, ctx)
  {
    hide Subst, SafeLiteral;
    assert value[0..] == value && value[..0] + Subst(value, ctx) == Subst(value, ctx);
  }

  lemma OffBoundary(value: Bytes, result: Bytes, i: nat, ctx: Context)
    requires Scanned(value, result, i, ctx) && i < |result| && IsContinuation(result[i])
    ensures Run(value, ctx) == None
  {
    hide Subst, SafeLiteral;
    LiteralByte(result[i..], ctx);
  }

  lemma ScanEnds(value: Bytes, result: Bytes, i: nat, ctx: Context)
    requires Scanned(value, result, i, ctx)
    requires i == |result| || (StartsRef(result[i..]) && CloseOf(result[i..]).None?)
    ensures Run(value, ctx) == Some(result)
  {
    hide Subst, SafeLiteral, CloseOf;
    var rest := result[i..];
    Nothing(ctx);
    if i < |result| {
      Unterminated(rest, ctx);
    }
    assert result == result[..i] + rest;
  }

  lemma Unterminated(rest: Bytes, ctx: Context)
    requires StartsRef(rest) && CloseOf(rest).None?
    ensures SafeLiteral(rest) && Subst(rest, ctx) == rest
  {
  }

  lemma LiteralByte(s: Bytes, ctx: Context)
    requires s != [] && !StartsRef(s)
    ensures Subst(s, ctx) == [s[0]] + Subst(s[1..], ctx)
    ensures SafeLiteral(s) <==> !IsContinuation(s[0]) && SafeLiteral(s[1..])
  {
    hide Resolve, CloseOf;
  }

  lemma Reference(s: Bytes, ctx: Context)
    requires Closed(s)
    ensures Subst(s, ctx) == Kept(Resolve(Inner(s), ctx), s) + Subst(After(s), ctx)
    ensures SafeLiteral(s) <==> SafeLiteral(After(s))
  {
    hide Resolve, CloseOf, Inner, After, Kept;
  }

  lemma Boundaries(s: Bytes, i: nat, end: nat)
    requires Utf8(s) && RefAt(s, i) && i + 2 <= end < |s| && s[end] == CLOSE
    ensures IsBoundary(s, i + 2) && IsBoundary(s, end + 1)
  {
    assert s[i + 1] == OPEN;
  }

  lemma LiteralStep(value: Bytes, result: Bytes, i: nat, ctx: Context)
    requires Scanned(value, result, i, ctx) && i < |result| && IsBoundary(result, i) && !StartsRef(result[i..])
    ensures Scanned(value, result, i + 1, ctx)
  {
    hide Subst, SafeLiteral;
    var rest := result[i..];
    LiteralByte(rest, ctx);
    assert rest[1..] == result[i + 1..] && result[..i + 1] == result[..i] + [rest[0]];
    Assoc(result[..i], [rest[0]], Subst(rest[1..], ctx));
  }

  lemma KeepStep(value: Bytes, result: Bytes, i: nat, ctx: Context)
    requires Scanned(value, result, i, ctx) && i < |result| && Closed(result[i..])
    requires Resolve(Inner(result[i..]), ctx).None?
    ensures Scanned(value, result, i + CloseOf(result[i..]).value + 1, ctx)
  {
    hide Resolve, CloseOf, Subst, SafeLiteral;
    var rest := result[i..];
    var k := CloseOf(rest).value + 1;
    Reference(rest, ctx);
    assert After(rest) == result[i + k..] && result[..i + k] == result[..i] + rest[..k];
    Assoc(result[..i], rest[..k], Subst(After(rest), ctx));
  }

  lemma ReplaceStep(value: Bytes, result: Bytes, i: nat, ctx: Context)
    requires Scanned(value, result, i, ctx) && i < |result| && Closed(result[i..]) && Utf8(result) && CtxUtf8(ctx)
    requires Resolve(Inner(result[i..]), ctx).Some?
    ensures var v := Resolve(Inner(result[i..]), ctx).value;
            var next := result[..i] + v + result[i + CloseOf(result[i..]).value + 1..];
            Utf8(next) && Scanned(value, next, i + |v|, ctx)
  {
    hide Resolve, CloseOf, CtxUtf8, Utf8, Subst, SafeLiteral;
    var rest := result[i..];
    var end := i + CloseOf(rest).value;
    var v := Resolve(Inner(rest), ctx).value;
    assert Inner(rest) == result[i + 2..end] && After(rest) == result[end + 1..];
    Spliced(result, i, end, v, ctx);
    var next := result[..i] + v + result[end + 1..];
    assert next[i + |v|..] == result[end + 1..] && next[..i + |v|] == result[..i] + v;
    Reference(rest, ctx);
    Assoc(result[..i], v, Subst(After(rest), ctx));
  }

  lemma Spliced(s: Bytes, i: nat, end: nat, v: Bytes, ctx: Context)
    requires Utf8(s) && CtxUtf8(ctx) && i + 2 <= end < |s| && RefAt(s, i) && s[end] == CLOSE
    requires Resolve(s[i + 2..end], ctx) == Some(v)
    ensures Utf8(s[..i] + v + s[end + 1..])
  {
    hide Resolve;
    var inner := s[i + 2..end];
    assert Utf8(inner) by {
      forall j | 0 <= j < |inner| && IsContinuation(inner[j]) ensures j > 0 && inner[j - 1] >= 0x80 {
        assert inner[j] == s[i + 2 + j] && s[i + 1] == OPEN;
      }
    }
    var t := s[..i] + v + s[end + 1..];
    forall j | 0 <= j < |t| && IsContinuation(t[j]) ensures j > 0 && t[j - 1] >= 0x80 {
      if j >= i + |v| {
        assert t[j] == s[end + 1 + (j - i - |v|)];
      }
    }
  }

  // ---- the copying scanner -------------------------------------------------

  /** What `resolve_local_env_from_map` puts in place of a reference. */
  function EnvValue(inner: Bytes, env: map<Bytes, Bytes>): Option<Bytes> {
    var rest := EnvRest(inner);
    if rest.Some? then Some(LookUp(env, rest.value)) else None
  }

  /** `resolve_local_env_from_map`: copy up to each reference, then its replacement. */
  function Copied(s: Bytes, env: map<Bytes, Bytes>): Bytes
    decreases |s|
  {
    var k := FindRef(s);
    if k.None? then s
    else
      var t := s[k.value..];
      if CloseOf(t).None? then s
      else s[..k.value] + Kept(EnvValue(Inner(t), env), t) + Copied(After(t), env)
  }

  method ResolveLocalEnvFromMap(value: Bytes, env: map<Bytes, Bytes>) returns (result: Bytes)
    ensures result == Copied(value, env)
  {
    hide EnvValue, Kept, Copied;
    result := [];
    var rest := value;
    var start := FindRef(rest);
    assert [] + Copied(value, env) == Copied(value, env);
    while start.Some?
      invariant start == FindRef(rest)
      invariant Copied(value, env) == result + Copied(rest, env)
      decreases |rest|
    {
      var t := rest[start.value..];
      var end := CloseOf(t);
      if end.None? {
        CopiedWhole(rest, env);
        Assoc(result, rest[..start.value], t);
        return result + rest[..start.value] + t;
      }
      CopiedStep(rest, env, result);
      result := result + rest[..start.value] + Kept(EnvValue(Inner(t), env), t);
      rest := After(t);
      start := FindRef(rest);
    }
    CopiedWhole(rest, env);
    result := result + rest;
  }

  lemma CopiedWhole(s: Bytes, env: map<Bytes, Bytes>)
    ensures FindRef(s).None? ==> Copied(s, env) == s
    ensures FindRef(s).Some? && CloseOf(s[FindRef(s).value..]).None? ==>
              Copied(s, env) == s[..FindRef(s).value] + s[FindRef(s).value..]
  {
    hide FindRef, CloseOf;
  }

  lemma CopiedStep(s: Bytes, env: map<Bytes, Bytes>, done: Bytes)
    requires FindRef(s).Some? && Closed(s[FindRef(s).value..])
    ensures var k := FindRef(s).value;
            var t := s[k..];
            done + Copied(s, env) == done + s[..k] + Kept(EnvValue(Inner(t), env), t) + Copied(After(t), env)
  {
    hide EnvValue, Kept, After;
    var k := FindRef(s).value;
    var t := s[k..];
    Regroup(done, s[..k], Kept(EnvValue(Inner(t), env), t), Copied(After(t), env), []);
    Regroup([], s[..k], Kept(EnvValue(Inner(t), env), t), Copied(After(t), env), []);
  }

  // ---- the two resolvers agree ---------------------------------------------

  /** Literal text before the first reference passes through. */
  lemma {:induction false} SkipLiteral(s: Bytes, k: nat, ctx: Context)
    requires k <= |s| && forall j :: 0 <= j < k ==> !RefAt(s, j)
    ensures Subst(s, ctx) == s[..k] + Subst(s[k..], ctx)
  {
    hide Subst;
    if k == 0 {
      assert s[0..] == s && s[..0] + Subst(s, ctx) == Subst(s, ctx);
    } else {
      assert forall j :: 0 <= j < k - 1 ==> RefAt(s[1..], j) == RefAt(s, j + 1);
      SkipLiteral(s[1..], k - 1, ctx);
      assert !RefAt(s, 0);
      LiteralByte(s, ctx);
      assert s[1..][k - 1..] == s[k..] && s[..k] == [s[0]] + s[1..][..k - 1];
      Assoc([s[0]], s[1..][..k - 1], Subst(s[k..], ctx));
    }
  }

  /** With only `local_env` known, scanning in place and copying give the same text. */
  lemma {:induction false} CopiedIsSubst(s: Bytes, env: map<Bytes, Bytes>)
    ensures Copied(s, env) == Subst(s, OnlyEnv(env))
    ensures Run(s, OnlyEnv(env)) == if SafeLiteral(s) then Some(Copied(s, env)) else None
    decreases |s|
  {
    hide Copied, Subst, SafeLiteral, CloseOf, Kept, EnvValue, Resolve, Inner, After;
    var ctx := OnlyEnv(env);
    CopiedWhole(s, env);
    var k := FindRef(s);
    if k.None? {
      SkipLiteral(s, |s|, ctx);
      Nothing(ctx);
      assert s[..|s|] == s && s[|s|..] == [] && s + [] == s;
    } else {
      SkipLiteral(s, k.value, ctx);
      var t := s[k.value..];
      if CloseOf(t).Some? {
        CopiedIsSubst(After(t), env);
        SameResolver(Inner(t), env);
        Reference(t, ctx);
        CopiedStep(s, env, []);
        Assoc(s[..k.value], Kept(Resolve(Inner(t), ctx), t), Subst(After(t), ctx));
        assert [] + Copied(s, env) == Copied(s, env) && [] + s[..k.value] == s[..k.value];
      } else {
        Unterminated(t, ctx);
      }
    }
  }

  lemma SameResolver(inner: Bytes, env: map<Bytes, Bytes>)
    ensures EnvValue(inner, env) == Resolve(inner, OnlyEnv(env))
  {
    hide EnvRest, LookUp;
  }

  /** A replacement is copied verbatim, whatever references its text contains. */
  lemma NotRescanned(pre: Bytes, t: Bytes, ctx: Context)
    requires Closed(t) && forall j :: 0 <= j < |pre| ==> !RefAt(pre + t, j)
    ensures Subst(pre + t, ctx) == pre + (Kept(Resolve(Inner(t), ctx), t) + Subst(After(t), ctx))
  {
    SkipLiteral(pre + t, |pre|, ctx);
    assert (pre + t)[..|pre|] == pre && (pre + t)[|pre|..] == t;
  }

  // ---- the name collector --------------------------------------------------

  /** The variable name a reference looks up, if it is not empty. */
  function NameIn(inner: Bytes): set<Bytes> {
    var rest := EnvRest(inner);
    if rest.Some? && SplitDefault(rest.value).0 != [] then {SplitDefault(rest.value).0} else {}
  }

  function Names(s: Bytes): set<Bytes>
    decreases |s|
  {
    var k := FindRef(s);
    if k.None? then {}
    else
      var t := s[k.value..];
      if CloseOf(t).None? then {} else NameIn(Inner(t)) + Names(After(t))
  }

  method CollectLocalEnvVarNames(raw: Bytes) returns (vars: set<Bytes>)
    ensures vars == Names(raw)
  {
    hide NameIn;
    vars := {};
    var rest := raw;
    var start := FindRef(rest);
    while start.Some?
      invariant start == FindRef(rest)
      invariant Names(raw) == vars + Names(rest)
      decreases |rest|
    {
      var t := rest[start.value..];
      if CloseOf(t).None? {
        break;
      }
      vars := vars + NameIn(Inner(t));
      rest := After(t);
      start := FindRef(rest);
    }
  }

  ghost predicate Agree(m: map<Bytes, Bytes>, n: map<Bytes, Bytes>, x: Bytes) {
    (x in m <==> x in n) && (x in m ==> m[x] == n[x])
  }

  /** For environments that agree at the empty name, only the collected names matter. */
  lemma {:induction false} NamesSuffice(s: Bytes, ctx: Context, m: map<Bytes, Bytes>, n: map<Bytes, Bytes>)
    requires Agree(m, n, []) && forall x :: x in Names(s) ==> Agree(m, n, x)
    ensures Subst(s, ctx.(localEnv := Some(m))) == Subst(s, ctx.(localEnv := Some(n)))
    decreases |s|
  {
    var a, b := ctx.(localEnv := Some(m)), ctx.(localEnv := Some(n));
    var k := if FindRef(s).Some? then FindRef(s).value else |s|;
    SkipLiteral(s, k, a);
    SkipLiteral(s, k, b);
    hide FindRef, CloseOf, Subst, Resolve, NameIn, Inner, After;
    var t := s[k..];
    if k < |s| && Closed(t) {
      Reference(t, a);
      Reference(t, b);
      NameSuffices(Inner(t), ctx, m, n);
      NamesSuffice(After(t), ctx, m, n);
    } else {
      NoReference(t, a, b);
    }
  }

  lemma NameSuffices(inner: Bytes, ctx: Context, m: map<Bytes, Bytes>, n: map<Bytes, Bytes>)
    requires Agree(m, n, []) && forall x :: x in NameIn(inner) ==> Agree(m, n, x)
    ensures Resolve(inner, ctx.(localEnv := Some(m))) == Resolve(inner, ctx.(localEnv := Some(n)))
  {
    hide EnvRest, SplitDefault;
    var rest := EnvRest(inner);
    if rest.Some? {
      var name := SplitDefault(rest.value).0;
      assert name == [] || name in NameIn(inner);
      assert Agree(m, n, name);
    }
  }

  /** Every collected name is really looked up: a longer value gives a longer text. */
  lemma {:induction false} NamesMatter(s: Bytes, ctx: Context, m: map<Bytes, Bytes>, x: Bytes, v: Bytes, w: Bytes)
    requires |v| < |w|
    ensures |Subst(s, ctx.(localEnv := Some(m[x := v])))| <= |Subst(s, ctx.(localEnv := Some(m[x := w])))|
    ensures x in Names(s) ==>
              |Subst(s, ctx.(localEnv := Some(m[x := v])))| < |Subst(s, ctx.(localEnv := Some(m[x := w])))|
    decreases |s|
  {
    var a, b := ctx.(localEnv := Some(m[x := v])), ctx.(localEnv := Some(m[x := w]));
    var k := if FindRef(s).Some? then FindRef(s).value else |s|;
    SkipLiteral(s, k, a);
    SkipLiteral(s, k, b);
    hide FindRef, CloseOf, Subst, Resolve, Kept, NameIn, Inner, After;
    var t := s[k..];
    if k < |s| && Closed(t) {
      Reference(t, a);
      Reference(t, b);
      ReplacementGrows(t, ctx, m, x, v, w);
      NamesMatter(After(t), ctx, m, x, v, w);
    } else {
      NoReference(t, a, b);
    }
  }

  lemma NoReference(s: Bytes, a: Context, b: Context)
    requires s == [] || (StartsRef(s) && CloseOf(s).None?)
    ensures Subst(s, a) == Subst(s, b)
  {
  }

  lemma ReplacementGrows(s: Bytes, ctx: Context, m: map<Bytes, Bytes>, x: Bytes, v: Bytes, w: Bytes)
    requires Closed(s) && |v| < |w|
    ensures var a := Kept(Resolve(Inner(s), ctx.(localEnv := Some(m[x := v]))), s);
            var b := Kept(Resolve(Inner(s), ctx.(localEnv := Some(m[x := w]))), s);
            |a| <= |b| && (x in NameIn(Inner(s)) ==> |a| < |b|)
  {
    hide CloseOf, EnvRest, SplitDefault, Inner;
  }

  /** `${inner}`. */
  function Ref(inner: Bytes): Bytes {
    [DOLLAR, OPEN] + inner + [CLOSE]
  }

  /** A text that is one reference. */
  lemma OneReference(inner: Bytes)
    requires CLOSE !in inner
    ensures var s := [DOLLAR, OPEN] + inner + [CLOSE];
            FindRef(s) == Some(0) && s[0..] == s && Closed(s) && Inner(s) == inner && After(s) == []
  {
    var s := [DOLLAR, OPEN] + inner + [CLOSE];
    assert s[2..] == inner + [CLOSE] && s[2..][..|inner|] == inner;
    FindFirst(s[2..], CLOSE, |inner|);
  }

  /** The collected names decide the result for every text exactly when the environments
      agree at the empty name, which is looked up but never collected. */
  lemma NamesExact(ctx: Context, m: map<Bytes, Bytes>, n: map<Bytes, Bytes>)
    ensures Agree(m, n, []) <==>
            forall s :: (forall x :: x in Names(s) ==> Agree(m, n, x)) ==>
              Subst(s, ctx.(localEnv := Some(m))) == Subst(s, ctx.(localEnv := Some(n)))
  {
    hide Names, Subst;
    if Agree(m, n, []) {
      forall s | forall x :: x in Names(s) ==> Agree(m, n, x)
        ensures Subst(s, ctx.(localEnv := Some(m))) == Subst(s, ctx.(localEnv := Some(n)))
      {
        NamesSuffice(s, ctx, m, n);
      }
    } else {
      var s := EmptyKeyCounts(ctx, m, n);
    }
  }

  /** Environments that disagree at the empty name give different texts for a reference
      from which no name is collected. */
  lemma EmptyKeyCounts(ctx: Context, m: map<Bytes, Bytes>, n: map<Bytes, Bytes>) returns (s: Bytes)
    requires !Agree(m, n, [])
    ensures Names(s) == {} && Subst(s, ctx.(localEnv := Some(m))) != Subst(s, ctx.(localEnv := Some(n)))
  {
    hide Names, Subst;
    // a default that differs from the value of the map that has the key
    var value := if [] in m then m[[]] else n[[]];
    var default: Bytes := if value == [] then [0x78] else [];
    s := Nameless(default);
    NamelessNames(default);
    NamelessValue(default, ctx, m);
    NamelessValue(default, ctx, n);
  }

  /** `${env::default}`. */
  function Nameless(default: Bytes): Bytes {
    [DOLLAR, OPEN] + (Ascii("env:") + [COLON] + default) + [CLOSE]
  }

  lemma NamelessReference(default: Bytes)
    requires CLOSE !in default
    ensures var inner := Ascii("env:") + [COLON] + default;
            && CLOSE !in inner && EnvRest(inner) == Some([COLON] + default)
            && SplitDefault([COLON] + default) == ([], Some(default))
  {
    var e := Ascii("env:");
    assert e == [0x65, 0x6e, 0x76, 0x3a];
    var inner := e + [COLON] + default;
    assert inner[..4] == e && inner[4..] == [COLON] + default;
    assert Ascii("localEnv:")[0] == 0x6c && inner[0] == 0x65;
    if |inner| >= 9 {
      assert inner[..9][0] == 0x65;
    }
    var rest := [COLON] + default;
    assert rest[..0] == [] && rest[1..] == default;
  }

  lemma NamelessNames(default: Bytes)
    requires CLOSE !in default
    ensures Names(Nameless(default)) == {}
  {
    hide EnvRest, SplitDefault, CloseOf, FindRef, Inner, After, Ascii;
    NamelessReference(default);
    OneReference(Ascii("env:") + [COLON] + default);
    NoRefs();
  }

  lemma NamelessValue(default: Bytes, ctx: Context, m: map<Bytes, Bytes>)
    requires CLOSE !in default
    ensures Subst(Nameless(default), ctx.(localEnv := Some(m))) == if [] in m then m[[]] else default
  {
    hide EnvRest, SplitDefault, CloseOf, FindRef, Inner, After, Subst, Ascii;
    var env := ctx.(localEnv := Some(m));
    NamelessReference(default);
    OneReference(Ascii("env:") + [COLON] + default);
    Reference(Nameless(default), env);
    Nothing(env);
    var v := LookUp(m, [COLON] + default);
    assert v + [] == v;
  }

  lemma NoRefs()
    ensures FindRef([]).None?
  {
  }
}
