/** Managed blocks in the host repository's git hooks. */
module HostHooks {
  import opened Wrappers

  type Text = string

  const PREFIX: Text := "# Installed by rumpelpod (host"
  const SHELL: Text := "#!/bin/sh"

  datatype Placement = BeforeUser | AfterUser

  predicate Starts(s: Text, p: Text) {
    |p| <= |s| && s[..|p|] == p
  }

  predicate EndsNewline(s: Text) {
    s != [] && s[|s| - 1] == '\n'
  }

  function Newline(s: Text): Text {
    if EndsNewline(s) then "\n" else ""
  }

  /** Unicode White_Space, as `str::trim` uses it. */
  predicate IsWhite(c: char) {
    '\t' <= c <= '\r' || c == ' ' || c == '\U{85}' || c == '\U{A0}' || c == '\U{1680}'
    || '\U{2000}' <= c <= '\U{200A}' || c == '\U{2028}' || c == '\U{2029}' || c == '\U{202F}'
    || c == '\U{205F}' || c == '\U{3000}'
  }

  function TrimEnd(s: Text): Text {
    if s != [] && IsWhite(s[|s| - 1]) then TrimEnd(s[..|s| - 1]) else s
  }

  function TrimStart(s: Text): Text {
    if s != [] && IsWhite(s[0]) then TrimStart(s[1..]) else s
  }

  /** A line that opens a managed block. */
  predicate Managed(line: Text) {
    Starts(TrimStart(TrimEnd(line)), PREFIX)
  }

  function StripCr(s: Text): Text {
    if s != [] && s[|s| - 1] == '\r' then s[..|s| - 1] else s
  }

  /** `str::lines`. */
  function Lines(s: Text): seq<Text>
    decreases |s|
  {
    if s == [] then []
    else
      var k := Find(s, '\n');
      if k.None? then [s] else [StripCr(s[..k.value])] + Lines(s[k.value + 1..])
  }

  function Join(ls: seq<Text>): Text {
    if ls == [] then "" else if |ls| == 1 then ls[0] else ls[0] + "\n" + Join(ls[1..])
  }

  /** The user's lines: everything but a managed comment and the line after it. */
  function Kept(ls: seq<Text>): seq<Text> {
    if ls == [] then []
    else if Managed(ls[0]) then (if |ls| == 1 then [] else Kept(ls[2..]))
    else [ls[0]] + Kept(ls[1..])
  }

  function Stripped(s: Text): Text {
    Join(Kept(Lines(s))) + Newline(s)
  }

  method StripHostHooks(content: Text) returns (out: Text)
    ensures out == Stripped(content)
  {
    hide Managed, Lines, Join;
    var result: seq<Text> := [];
    var lines := Lines(content);
    var i := 0;
    assert lines[0..] == lines;
    while i < |lines|
      invariant i <= |lines|
      invariant result + Kept(lines[i..]) == Kept(lines)
    {
      if Managed(lines[i]) {
        // skip the invocation line that follows
        assert i + 1 < |lines| ==> lines[i..][2..] == lines[i + 2..];
        i := if i + 1 < |lines| then i + 2 else i + 1;
      } else {
        assert lines[i..][1..] == lines[i + 1..];
        result := result + [lines[i]];
        i := i + 1;
      }
    }
    assert lines[i..] == [] && result + [] == result;
    out := Join(result);
    if EndsNewline(content) {
      out := out + "\n";
    } else {
      assert out + "" == out;
    }
  }

  /** `combine_host_hook`. */
  function Combined(cleaned: Text, block: Text, placement: Placement): Text {
    match placement
    case BeforeUser =>
      var b := TrimEnd(block);
      var k := Find(cleaned, '\n');
      if k.Some? && Starts(cleaned[..k.value], "#!") then
        cleaned[..k.value] + "\n" + b + "\n" + cleaned[k.value + 1..]
      else if Starts(cleaned, "#!") then cleaned + "\n" + b + "\n"
      else SHELL + "\n" + b + "\n" + cleaned
    case AfterUser =>
      cleaned + (if EndsNewline(cleaned) then "\n" else "\n\n") + block
  }

  /** The content `install_host_hook` writes over an existing hook. */
  function Installed(existing: Text, block: Text, placement: Placement): Text {
    Combined(Stripped(existing), block, placement)
  }

  // ---- lines ---------------------------------------------------------------------

  lemma LinesCons(l: Text, rest: Text)
    requires '\n' !in l
    ensures Lines(l + "\n" + rest) == [StripCr(l)] + Lines(rest)
  {
    var s := l + "\n" + rest;
    assert s[..|l|] == l && s[|l| + 1..] == rest;
    FindFirst(s, '\n', |l|);
  }

  lemma {:induction false} LinesFlat(s: Text)
    ensures forall i :: 0 <= i < |Lines(s)| ==> '\n' !in Lines(s)[i]
    decreases |s|
  {
    if s != [] && Find(s, '\n').Some? {
      LinesFlat(s[Find(s, '\n').value + 1..]);
    }
  }

  // ---- managed lines ---------------------------------------------------------------

  lemma NotManaged(l: Text)
    ensures Managed(StripCr(l)) <==> Managed(l)
    ensures !Managed("")
  {
  }

  lemma {:induction false} TrimStartAt(s: Text, k: nat)
    requires k < |s| && !IsWhite(s[k]) && forall i :: 0 <= i < k ==> IsWhite(s[i])
    ensures TrimStart(s) == s[k..]
  {
    hide IsWhite;
    if k > 0 {
      TrimStartAt(s[1..], k - 1);
    }
  }

  lemma {:induction false} TrimStartCuts(s: Text) returns (k: nat)
    ensures k <= |s| && TrimStart(s) == s[k..] && forall i :: 0 <= i < k ==> IsWhite(s[i])
  {
    hide IsWhite;
    if s != [] && IsWhite(s[0]) {
      k := TrimStartCuts(s[1..]);
      k := k + 1;
    } else {
      k := 0;
    }
  }

  lemma {:induction false} TrimEndCuts(s: Text)
    ensures |TrimEnd(s)| <= |s| && TrimEnd(s) == s[..|TrimEnd(s)|]
  {
    hide IsWhite;
    if s != [] && IsWhite(s[|s| - 1]) {
      TrimEndCuts(s[..|s| - 1]);
    }
  }

  ghost predicate Blank(s: Text) {
    forall i :: 0 <= i < |s| ==> IsWhite(s[i])
  }

  lemma PrefixEnds()
    ensures PREFIX == "# Installed by rumpelpod (host"
    ensures |PREFIX| > 0 && PREFIX[0] == '#' && PREFIX[|PREFIX| - 1] == 't' && !IsWhite('#') && !IsWhite('t')
  {
  }

  /** A managed comment is, behind any white space, the marker and anything. */
  lemma ManagedIff(l: Text)
    ensures Managed(l) <==> exists pre: Text, rest: Text :: Blank(pre) && l == pre + "# Installed by rumpelpod (host" + rest
  {
    PrefixEnds();
    hide IsWhite, PREFIX, TrimStart, TrimEnd;
    if Managed(l) {
      TrimEndCuts(l);
      var t := TrimEnd(l);
      var k := TrimStartCuts(t);
      var pre, rest := l[..k], l[k + |PREFIX|..];
      assert t[k..][..|PREFIX|] == PREFIX && l[k..k + |PREFIX|] == PREFIX;
      assert l == pre + PREFIX + rest && Blank(pre);
    }
    forall pre: Text, rest: Text | Blank(pre) && l == pre + PREFIX + rest ensures Managed(l) {
      ManagedBehind(pre, rest);
    }
  }

  lemma ManagedBehind(pre: Text, rest: Text)
    requires Blank(pre)
    ensures Managed(pre + PREFIX + rest)
  {
    PrefixEnds();
    hide IsWhite, PREFIX, TrimStart, TrimEnd;
    var l, m := pre + PREFIX + rest, |pre| + |PREFIX|;
    assert l[m - 1] == PREFIX[|PREFIX| - 1];
    TrimEndKeeps(l, m);
    var t := TrimEnd(l);
    assert t[..m] == pre + PREFIX;
    forall i | 0 <= i < m ensures t[i] == (pre + PREFIX)[i] {
      assert t[i] == t[..m][i];
    }
    TrimStartAt(t, |pre|);
    assert t[|pre|..][..|PREFIX|] == t[..m][|pre|..] == PREFIX;
  }

  /** Among the ASCII characters. */
  lemma WhiteAscii(c: char)
    requires c < '\U{80}'
    ensures IsWhite(c) <==> c == ' ' || c == '\t' || c == '\n' || c == '\r' || c == '\U{0B}' || c == '\U{0C}'
  {
  }

  lemma ShebangNotManaged(l: Text)
    requires Starts(l, "#!")
    ensures !Managed(l)
  {
    TrimEndKeeps(l, 2);
    var t := TrimEnd(l);
    assert t[0] == l[..2][0] && t[1] == l[..2][1];
    assert TrimStart(t) == t;
    assert t[1] == '!' && PREFIX[1] == ' ';
  }

  /** Trimming the end keeps a front that ends in a non-blank character. */
  lemma {:induction false} TrimEndKeeps(l: Text, n: nat)
    requires 0 < n <= |l| && !IsWhite(l[n - 1])
    ensures n <= |TrimEnd(l)| && TrimEnd(l)[..n] == l[..n]
  {
    if IsWhite(l[|l| - 1]) {
      TrimEndKeeps(l[..|l| - 1], n);
    }
  }

  ghost predicate NoneManaged(ls: seq<Text>) {
    forall i :: 0 <= i < |ls| ==> !Managed(ls[i])
  }

  lemma {:induction false} KeptUnmanaged(ls: seq<Text>)
    ensures NoneManaged(Kept(ls))
    ensures forall l :: l in Kept(ls) ==> l in ls
  {
    hide Managed;
    if ls != [] {
      if Managed(ls[0]) {
        if |ls| > 1 {
          KeptUnmanaged(ls[2..]);
        }
      } else {
        KeptUnmanaged(ls[1..]);
      }
    }
  }

  /** Line `i` opens a block: it is managed and not itself the invocation of one. */
  predicate Opens(ls: seq<Text>, i: nat)
    requires i < |ls|
  {
    Managed(ls[i]) && (i == 0 || !Opens(ls, i - 1))
  }

  /** Neither the comment nor the invocation line of a block. */
  predicate Survives(ls: seq<Text>, i: nat)
    requires i < |ls|
  {
    !Opens(ls, i) && (i == 0 || !Opens(ls, i - 1))
  }

  function Surviving(ls: seq<Text>, i: nat): seq<Text>
    requires i <= |ls|
    decreases |ls| - i
  {
    if i == |ls| then [] else (if Survives(ls, i) then [ls[i]] else []) + Surviving(ls, i + 1)
  }

  /** The user's lines are those that belong to no block, in order. */
  lemma KeptIs(ls: seq<Text>)
    ensures Kept(ls) == Surviving(ls, 0)
  {
    assert ls[0..] == ls;
    KeptFrom(ls, 0);
  }

  lemma {:induction false} KeptFrom(ls: seq<Text>, i: nat)
    requires i <= |ls| && (i == 0 || !Opens(ls, i - 1))
    ensures Kept(ls[i..]) == Surviving(ls, i)
    decreases |ls| - i
  {
    hide Managed;
    if i < |ls| {
      assert ls[i..][0] == ls[i] && ls[i..][1..] == ls[i + 1..];
      if Managed(ls[i]) {
        if i + 1 < |ls| {
          assert ls[i..][2..] == ls[i + 2..];
          KeptFrom(ls, i + 2);
          assert Surviving(ls, i + 1) == Surviving(ls, i + 2);
        }
        assert Surviving(ls, i) == Surviving(ls, i + 1);
      } else {
        KeptFrom(ls, i + 1);
      }
    }
  }

  lemma {:induction false} KeptAll(ls: seq<Text>)
    requires NoneManaged(ls)
    ensures Kept(ls) == ls
  {
    hide Managed;
    if ls != [] {
      KeptAll(ls[1..]);
    }
  }

  /** Stripping leaves no managed comment line, whatever the text. */
  lemma StrippedUnmanaged(s: Text)
    ensures NoneManaged(Lines(Stripped(s)))
  {
    hide Managed, Lines, Join, Kept, Reread;
    KeptFlat(s);
    KeptUnmanaged(Lines(s));
    LinesOfJoin(Kept(Lines(s)), Newline(s));
    RereadUnmanaged(Kept(Lines(s)), EndsNewline(s));
  }

  // ---- what one pass writes -----------------------------------------------------------

  /** A block of a managed comment line and one invocation line. */
  ghost predicate TwoLines(comment: Text, call: Text) {
    && '\n' !in comment && Managed(comment) && StripCr(comment) == comment
    && '\n' !in call && call != [] && !IsWhite(call[|call| - 1]) && !Managed(call)
  }

  function Block(comment: Text, call: Text): Text {
    comment + "\n" + call + "\n"
  }

  const PRE_RECEIVE: Text := PREFIX + " pre-receive)"
  const POST_RECEIVE: Text := PREFIX + " post-receive)"

  /** A line from a visible character to a visible character is managed by its start. */
  lemma ManagedBare(l: Text)
    requires l != [] && !IsWhite(l[0]) && !IsWhite(l[|l| - 1])
    ensures Managed(l) <==> Starts(l, PREFIX)
  {
    hide IsWhite;
  }

  lemma IsTwoLines(comment: Text, call: Text)
    requires '\n' !in comment && Starts(comment, PREFIX) && comment[|comment| - 1] == ')'
    requires '\n' !in call && call != [] && !IsWhite(call[0]) && call[0] != '#' && !IsWhite(call[|call| - 1])
    ensures TwoLines(comment, call)
  {
    hide Managed;
    assert PREFIX[0] == '#' && comment[0] == comment[..|PREFIX|][0];
    if |PREFIX| <= |call| {
      assert call[..|PREFIX|][0] == call[0];
    }
    ManagedBare(comment);
    ManagedBare(call);
  }

  lemma CommentsManaged()
    ensures '\n' !in PRE_RECEIVE && Starts(PRE_RECEIVE, PREFIX) && PRE_RECEIVE[|PRE_RECEIVE| - 1] == ')'
    ensures '\n' !in POST_RECEIVE && Starts(POST_RECEIVE, PREFIX) && POST_RECEIVE[|POST_RECEIVE| - 1] == ')'
  {
    PrefixFlat();
    hide PREFIX;
    assert PRE_RECEIVE[..|PREFIX|] == PREFIX && POST_RECEIVE[..|PREFIX|] == PREFIX;
  }

  lemma PrefixFlat()
    ensures '\n' !in PREFIX
  {
    var a, b, c := "# Installed ", "by rumpelpod ", "(host";
    assert PREFIX == a + b + c;
  }

  function Quoted(s: Text): Text {
    if s == [] then [] else (if s[0] == '\'' then "'\\''" else [s[0]]) + Quoted(s[1..])
  }

  /** `shell_escape`. */
  function ShellEscape(s: Text): Text {
    "'" + Quoted(s) + "'"
  }

  /** How a shell reads one word with single quotes and backslashes; nothing when a quote
      is left open. */
  function ShellRead(t: Text, quoted: bool): Option<Text>
    decreases |t|
  {
    if t == [] then (if quoted then None else Some([]))
    else if t[0] == '\'' then ShellRead(t[1..], !quoted)
    else if !quoted && t[0] == '\\' && |t| > 1 then Put(t[1], ShellRead(t[2..], false))
    else Put(t[0], ShellRead(t[1..], quoted))
  }

  function Put(c: char, r: Option<Text>): Option<Text> {
    if r.Some? then Some([c] + r.value) else None
  }

  /** The shell reads an escaped path as the path. */
  lemma EscapeReadBack(s: Text)
    ensures ShellRead(ShellEscape(s), false) == Some(s)
  {
    var t := Quoted(s) + "'";
    assert ShellEscape(s)[1..] == t && ShellEscape(s)[0] == '\'';
    QuotedReadBack(s);
  }

  lemma {:induction false} QuotedReadBack(s: Text)
    ensures ShellRead(Quoted(s) + "'", true) == Some(s)
  {
    var t := Quoted(s) + "'";
    if s == [] {
      assert t == "'" && t[1..] == [];
    } else {
      var rest := Quoted(s[1..]) + "'";
      QuotedReadBack(s[1..]);
      assert s == [s[0]] + s[1..];
      if s[0] == '\'' {
        var u, v := t[1..], t[1..][2..];
        assert t[0] == '\'' && u[0] == '\\' && u[1] == '\'' && v[0] == '\'' && v[1..] == rest;
        assert ShellRead(v, false) == ShellRead(rest, true);
        assert ShellRead(u, false) == Put('\'', ShellRead(v, false));
      } else {
        assert t[0] == s[0] && t[1..] == rest;
      }
    }
  }

  lemma {:induction false} QuotedNewline(s: Text)
    ensures '\n' in Quoted(s) <==> '\n' in s
  {
    if s != [] {
      QuotedNewline(s[1..]);
      assert s == [s[0]] + s[1..];
    }
  }

  function PreReceiveCall(exe: Text): Text {
    "exec " + ShellEscape(exe) + " git-hook host-pre-receive \"$@\""
  }

  const POST_ARGUMENTS: Text := " git-hook host-post-receive --repo-path "

  /** `warning` is the quoted message printed when the daemon cannot be notified. */
  function PostReceiveCall(exe: Text, repo: Text, warning: Text): Text {
    ShellEscape(exe) + POST_ARGUMENTS + ShellEscape(repo) + " || printf '%s\\n' " + warning + " >&2"
  }

  /** The blocks `install_host_hooks` writes are a managed comment and one invocation
      line exactly when the paths in them have no newline. */
  lemma WrittenBlocks(exe: Text, repo: Text, warning: Text)
    ensures TwoLines(PRE_RECEIVE, PreReceiveCall(exe)) <==> '\n' !in exe
    ensures '\n' !in warning ==>
              (TwoLines(POST_RECEIVE, PostReceiveCall(exe, repo, warning)) <==> '\n' !in exe && '\n' !in repo)
  {
    QuotedNewline(exe);
    QuotedNewline(repo);
    hide Managed, Quoted, PRE_RECEIVE, POST_RECEIVE, PREFIX, PreReceiveCall, PostReceiveCall;
    CommentsManaged();
    PreReceiveLine(exe);
    PostReceiveLine(exe, repo, warning);
    if '\n' !in exe {
      IsTwoLines(PRE_RECEIVE, PreReceiveCall(exe));
    }
    if '\n' !in exe && '\n' !in repo && '\n' !in warning {
      IsTwoLines(POST_RECEIVE, PostReceiveCall(exe, repo, warning));
    }
  }

  lemma PreReceiveLine(exe: Text)
    ensures var l := PreReceiveCall(exe);
            l != [] && l[0] == 'e' && l[|l| - 1] == '"' && ('\n' in l <==> '\n' in Quoted(exe))
  {
    hide Quoted;
  }

  lemma PostReceiveLine(exe: Text, repo: Text, warning: Text)
    ensures var l := PostReceiveCall(exe, repo, warning);
            l != [] && l[0] == '\'' && l[|l| - 1] == '2'
            && ('\n' in l <==> '\n' in Quoted(exe) || '\n' in Quoted(repo) || '\n' in warning)
  {
    hide Quoted;
    PostArgumentsFlat();
    hide POST_ARGUMENTS;
    var front, back := ShellEscape(exe) + POST_ARGUMENTS, " || printf '%s\\n' " + warning + " >&2";
    assert '\n' in front <==> '\n' in Quoted(exe);
    assert '\n' in back <==> '\n' in warning;
    assert PostReceiveCall(exe, repo, warning) == front + ShellEscape(repo) + back;
  }

  lemma PostArgumentsFlat()
    ensures '\n' !in POST_ARGUMENTS
  {
    var a, b := " git-hook host-post-", "receive --repo-path ";
    assert POST_ARGUMENTS == a + b;
  }

  lemma BlockTrimmed(comment: Text, call: Text)
    requires call != [] && !IsWhite(call[|call| - 1])
    ensures TrimEnd(Block(comment, call)) == comment + "\n" + call
  {
    var b := Block(comment, call);
    assert b[..|b| - 1] == comment + "\n" + call;
  }

  /** The shebang line the block goes behind, and the text after it. */
  function Head(cleaned: Text): Text {
    var k := Find(cleaned, '\n');
    if k.Some? && Starts(cleaned[..k.value], "#!") then cleaned[..k.value]
    else if Starts(cleaned, "#!") then cleaned
    else SHELL
  }

  function Body(cleaned: Text): Text {
    var k := Find(cleaned, '\n');
    if k.Some? && Starts(cleaned[..k.value], "#!") then cleaned[k.value + 1..]
    else if Starts(cleaned, "#!") then ""
    else cleaned
  }

  function Wrapped(head: Text, comment: Text, call: Text, body: Text): Text {
    head + "\n" + (comment + "\n" + (call + "\n" + body))
  }

  lemma HeadIsShebang(cleaned: Text)
    ensures Starts(Head(cleaned), "#!") && '\n' !in Head(cleaned)
  {
    var k := Find(cleaned, '\n');
    if k.Some? && Starts(cleaned, "#!") {
      assert k.value >= 2 by { assert cleaned[..2] == "#!" && cleaned[0] == '#' && cleaned[1] == '!'; }
      assert cleaned[..k.value][..2] == cleaned[..2];
    }
    assert SHELL[..2] == "#!";
  }

  lemma CombinedWraps(cleaned: Text, comment: Text, call: Text)
    requires call != [] && !IsWhite(call[|call| - 1])
    ensures Combined(cleaned, Block(comment, call), BeforeUser) == Wrapped(Head(cleaned), comment, call, Body(cleaned))
  {
    BlockTrimmed(comment, call);
    var b := comment + "\n" + call;
    assert Wrapped(Head(cleaned), comment, call, Body(cleaned)) == Head(cleaned) + "\n" + b + "\n" + Body(cleaned);
    assert cleaned + "\n" + b + "\n" + "" == cleaned + "\n" + b + "\n";
  }

  lemma WrappedLines(head: Text, comment: Text, call: Text, body: Text)
    requires TwoLines(comment, call) && '\n' !in head
    ensures Lines(Wrapped(head, comment, call, body)) == [StripCr(head), comment, call] + Lines(body)
  {
    hide Managed, Lines;
    LinesCons(head, comment + "\n" + (call + "\n" + body));
    LinesCons(comment, call + "\n" + body);
    LinesCons(call, body);
    assert [StripCr(head)] + ([comment] + ([call] + Lines(body))) == [StripCr(head), comment, call] + Lines(body);
  }

  /** Line ends rewritten to a bare newline. */
  function Normal(s: Text): Text {
    Join(Lines(s)) + Newline(s)
  }

  lemma NormalCons(l: Text, rest: Text)
    requires '\n' !in l
    ensures Normal(l + "\n" + rest) == StripCr(l) + "\n" + Normal(rest)
  {
    hide Lines, StripCr;
    LinesCons(l, rest);
    EmptyLines(rest);
    var s := l + "\n" + rest;
    if rest == [] {
      assert Join(Lines(s)) == StripCr(l);
    } else {
      assert s[|s| - 1] == rest[|rest| - 1];
      assert Lines(s)[1..] == Lines(rest);
    }
  }

  lemma ShebangStays(head: Text)
    requires Starts(head, "#!")
    ensures Starts(StripCr(head), "#!")
  {
    assert head[0] == head[..2][0] && head[1] == head[..2][1];
    assert StripCr(head)[..2] == head[..2];
  }

  lemma StripWrapped(head: Text, comment: Text, call: Text, body: Text)
    requires TwoLines(comment, call) && '\n' !in head && Starts(head, "#!") && NoneManaged(Lines(body))
    ensures Stripped(Wrapped(head, comment, call, body)) == StripCr(head) + "\n" + Normal(body)
  {
    hide Managed, Lines, Find;
    var w := Wrapped(head, comment, call, body);
    WrappedLines(head, comment, call, body);
    ShebangStays(head);
    ShebangNotManaged(StripCr(head));
    KeptAll(Lines(body));
    var ls := Lines(w);
    assert ls[1..][2..] == Lines(body) && ls[1] == comment;
    assert Kept(ls) == [StripCr(head)] + Lines(body);
    assert Kept(ls)[1..] == Lines(body);
    EmptyLines(body);
    if body == [] {
      assert EndsNewline(w);
    } else {
      assert w[|w| - 1] == body[|body| - 1];
    }
  }

  lemma EmptyLines(s: Text)
    ensures Lines(s) == [] <==> s == []
  {
  }

  ghost predicate NoCrLf(s: Text) {
    forall i :: 0 <= i < |s| - 1 && s[i] == '\r' ==> s[i + 1] != '\n'
  }

  lemma {:induction false} NormalIff(s: Text)
    ensures |Normal(s)| <= |s|
    ensures Normal(s) == s <==> NoCrLf(s)
    decreases |s|
  {
    var k := Find(s, '\n');
    if k.None? {
      assert Normal(s) == s;
    } else {
      var l, rest := s[..k.value], s[k.value + 1..];
      assert s == l + "\n" + rest;
      NormalCons(l, rest);
      NormalIff(rest);
      CrLfSplit(l, rest);
      if Normal(s) == s {
        assert |StripCr(l)| == |l| && |Normal(rest)| == |rest|;
        assert Normal(s)[|l| + 1..] == Normal(rest) && s[|l| + 1..] == rest;
      }
    }
  }

  lemma CrLfSplit(l: Text, rest: Text)
    requires '\n' !in l
    ensures NoCrLf(l + "\n" + rest) <==> StripCr(l) == l && NoCrLf(rest)
  {
    var s := l + "\n" + rest;
    assert forall i :: 0 <= i < |rest| ==> s[|l| + 1 + i] == rest[i];
    assert forall i :: 0 <= i < |l| ==> s[i] == l[i];
    if NoCrLf(s) {
      if l != [] {
        assert s[|l| - 1] == l[|l| - 1] && s[|l|] == '\n';
      }
      forall i | 0 <= i < |rest| - 1 && rest[i] == '\r' ensures rest[i + 1] != '\n' {
        assert s[|l| + 1 + i] == '\r' && s[|l| + 1 + i + 1] == rest[i + 1];
      }
    }
    if StripCr(l) == l && NoCrLf(rest) {
      forall i | 0 <= i < |s| - 1 && s[i] == '\r' ensures s[i + 1] != '\n' {
        if i > |l| {
          assert rest[i - |l| - 1] == '\r';
        } else if i < |l| - 1 {
          assert l[i + 1] in l;
        }
      }
    }
  }

  // ---- reinstalling -----------------------------------------------------------------

  lemma WrappedEqual(head: Text, body: Text, top: Text, tail: Text, comment: Text, call: Text)
    requires |top| <= |head| && |tail| <= |body|
    ensures Wrapped(head, comment, call, body) == Wrapped(top, comment, call, tail) <==> head == top && body == tail
  {
    var w, v := Wrapped(head, comment, call, body), Wrapped(top, comment, call, tail);
    if w == v {
      assert |top| == |head| && |tail| == |body|;
      assert w[..|head|] == head && v[..|top|] == top;
      assert w[|w| - |body|..] == body && v[|v| - |tail|..] == tail;
    }
  }

  lemma HeadBody(head: Text, body: Text)
    requires '\n' !in head && Starts(head, "#!")
    ensures Head(head + "\n" + body) == head && Body(head + "\n" + body) == body
  {
    var s := head + "\n" + body;
    assert s[..|head|] == head && s[|head| + 1..] == body;
    FindFirst(s, '\n', |head|);
  }

  lemma BodyUnmanaged(cleaned: Text)
    requires NoneManaged(Lines(cleaned))
    ensures NoneManaged(Lines(Body(cleaned)))
  {
    hide Managed, Lines, StripCr;
    EmptyLines("");
    var k := Find(cleaned, '\n');
    if k.Some? {
      var l, rest := cleaned[..k.value], cleaned[k.value + 1..];
      assert cleaned == l + "\n" + rest;
      LinesCons(l, rest);
      forall i | 0 <= i < |Lines(rest)| ensures !Managed(Lines(rest)[i]) {
        assert Lines(cleaned)[i + 1] == Lines(rest)[i];
      }
    }
  }

  /** Installing again changes nothing exactly when the first pass wrote no carriage
      return in front of a newline. */
  lemma ReinstallOnce(existing: Text, comment: Text, call: Text)
    requires TwoLines(comment, call)
    ensures var b := Block(comment, call);
            var once := Installed(existing, b, BeforeUser);
            var c := Stripped(existing);
            Installed(once, b, BeforeUser) == once <==> StripCr(Head(c)) == Head(c) && NoCrLf(Body(c))
  {
    hide Managed, Lines, Find, Stripped, Combined, Head, Body, NoCrLf, Wrapped, Starts, Normal;
    var cleaned := Stripped(existing);
    StrippedUnmanaged(existing);
    BodyUnmanaged(cleaned);
    HeadIsShebang(cleaned);
    var head, body := Head(cleaned), Body(cleaned);
    CombinedWraps(cleaned, comment, call);
    StripWrapped(head, comment, call, body);
    ShebangStays(head);
    HeadBody(StripCr(head), Normal(body));
    CombinedWraps(StripCr(head) + "\n" + Normal(body), comment, call);
    NormalIff(body);
    WrappedEqual(head, body, StripCr(head), Normal(body), comment, call);
  }

  /** No line that a newline will follow ends in a carriage return. */
  ghost predicate CleanEnds(ls: seq<Text>, ended: bool) {
    forall i :: 0 <= i < |ls| && (i < |ls| - 1 || ended) ==> StripCr(ls[i]) == ls[i]
  }

  predicate Shebang(ls: seq<Text>) {
    ls != [] && Starts(ls[0], "#!")
  }

  /** Installing before the user's code is idempotent exactly when no user line that is
      terminated ends in one more carriage return than its line end, nor a shebang line
      that is the whole unterminated rest. */
  lemma ReinstallIff(existing: Text, comment: Text, call: Text)
    requires TwoLines(comment, call)
    ensures var b := Block(comment, call);
            var once := Installed(existing, b, BeforeUser);
            var ks := Kept(Lines(existing));
            Installed(once, b, BeforeUser) == once <==>
            CleanEnds(ks, EndsNewline(existing) || (|ks| == 1 && Shebang(ks)))
  {
    hide Managed, Lines, Find, Join, Kept, NoCrLf, Head, Body, Starts, Installed, StripCr;
    var ks, nl := Kept(Lines(existing)), Newline(existing);
    var c := Stripped(existing);
    ReinstallOnce(existing, comment, call);
    KeptFlat(existing);
    HeadCrLf(c);
    JoinCrLf(ks, nl);
    JoinStart(ks, nl);
    JoinNewline(ks, nl);
  }

  /** Such hooks exist: a line that ends in two carriage returns loses one per pass. */
  lemma ReinstallChanges(l: Text, comment: Text, call: Text)
    requires TwoLines(comment, call) && '\n' !in l && !Managed(l)
    ensures var b := Block(comment, call);
            var once := Installed(l + "\r\r\n", b, BeforeUser);
            Installed(once, b, BeforeUser) != once
  {
    hide Managed, Installed, Lines, StripCr, TwoLines, Block;
    var s, cr := l + "\r\r\n", l + "\r";
    assert s == (cr + "\r") + "\n" + "" && EndsNewline(s);
    ExtraCr(l);
    ExtraCr(cr);
    NotManaged(cr);
    LinesCons(cr + "\r", "");
    EmptyLines("");
    assert Lines(s) == [cr];
    KeptAll([cr]);
    assert !CleanEnds([cr], true) by { assert StripCr([cr][0]) != [cr][0]; }
    ReinstallIff(s, comment, call);
  }

  lemma ExtraCr(l: Text)
    ensures StripCr(l + "\r") == l && l + "\r" != l
  {
  }

  lemma {:induction false} JoinCrLf(ls: seq<Text>, nl: Text)
    requires Flat(ls) && (nl == "" || nl == "\n")
    ensures NoCrLf(Join(ls) + nl) <==> CleanEnds(ls, nl == "\n")
  {
    hide StripCr, NoCrLf;
    if ls == [] {
      BlankNoCrLf();
      assert Join(ls) + nl == nl;
    } else if |ls| == 1 {
      if nl == "\n" {
        assert Join(ls) + nl == ls[0] + "\n" + "";
        BlankNoCrLf();
        CrLfSplit(ls[0], "");
      } else {
        FlatNoCrLf(ls[0]);
        assert Join(ls) + nl == ls[0];
      }
    } else {
      var rest := Join(ls[1..]) + nl;
      JoinCrLf(ls[1..], nl);
      CrLfSplit(ls[0], rest);
      assert Join(ls) + nl == ls[0] + "\n" + rest;
      CleanCons(ls, nl == "\n");
    }
  }

  lemma CleanCons(ls: seq<Text>, ended: bool)
    requires |ls| > 1
    ensures CleanEnds(ls, ended) <==> StripCr(ls[0]) == ls[0] && CleanEnds(ls[1..], ended)
  {
    hide StripCr;
    assert forall i :: 0 <= i < |ls| - 1 ==> ls[1..][i] == ls[i + 1];
    if StripCr(ls[0]) == ls[0] && CleanEnds(ls[1..], ended) {
      forall i | 0 <= i < |ls| && (i < |ls| - 1 || ended) ensures StripCr(ls[i]) == ls[i] {
        assert i == 0 || ls[i] == ls[1..][i - 1];
      }
    }
    if CleanEnds(ls, ended) {
      forall i | 0 <= i < |ls| - 1 && (i < |ls| - 2 || ended) ensures StripCr(ls[1..][i]) == ls[1..][i] {
        assert StripCr(ls[i + 1]) == ls[i + 1];
      }
    }
  }

  lemma BlankNoCrLf()
    ensures NoCrLf("") && NoCrLf("\n")
  {
  }

  lemma FlatNoCrLf(l: Text)
    requires '\n' !in l
    ensures NoCrLf(l)
  {
    forall i | 0 <= i < |l| ensures l[i] != '\n' {
      assert l[i] in l;
    }
  }

  /** What the head and the body of a cleaned text say about its line ends. */
  lemma HeadCrLf(c: Text)
    ensures StripCr(Head(c)) == Head(c) && NoCrLf(Body(c)) <==>
            NoCrLf(c) && ('\n' !in c && Starts(c, "#!") ==> StripCr(c) == c)
  {
    hide StripCr, NoCrLf;
    var k := Find(c, '\n');
    NoCr();
    if k.Some? {
      var l, rest := c[..k.value], c[k.value + 1..];
      assert c == l + "\n" + rest;
      CrLfSplit(l, rest);
      FirstLine(l, "\n" + rest);
      assert l + ("\n" + rest) == c;
    } else {
      BlankNoCrLf();
      FlatNoCrLf(c);
    }
  }

  lemma FirstLine(l: Text, rest: Text)
    requires rest == "" || rest[0] == '\n'
    ensures Starts(l + rest, "#!") <==> Starts(l, "#!")
  {
    var s := l + rest;
    if |l| >= 2 {
      assert s[..2] == l[..2];
    } else if |s| >= 2 {
      assert s[..2][|l|] == '\n';
    }
  }

  /** How a joined text starts. */
  lemma JoinStart(ls: seq<Text>, nl: Text)
    requires nl == "" || nl == "\n"
    ensures Starts(Join(ls) + nl, "#!") <==> Shebang(ls)
  {
    hide Starts;
    if |ls| <= 1 {
      var l := if ls == [] then "" else ls[0];
      FirstLine(l, nl);
      assert Join(ls) + nl == l + nl;
      assert !Starts("", "#!") by { NoShebang(); }
    } else {
      var rest := "\n" + Join(ls[1..]) + nl;
      assert Join(ls) + nl == ls[0] + rest;
      FirstLine(ls[0], rest);
    }
  }

  lemma NoShebang()
    ensures !Starts("", "#!")
  {
  }

  /** Whether a joined text holds a newline at all. */
  lemma JoinNewline(ls: seq<Text>, nl: Text)
    requires Flat(ls) && (nl == "" || nl == "\n")
    ensures '\n' !in Join(ls) + nl <==> |ls| <= 1 && nl == ""
    ensures |ls| == 1 && nl == "" ==> Join(ls) + nl == ls[0]
  {
    hide Join, Flat;
    if nl == "\n" {
      HasNewline(Join(ls), "");
      assert "\n" + "" == nl;
    } else {
      assert Join(ls) + nl == Join(ls);
      if |ls| <= 1 {
        JoinSole(ls);
      } else {
        JoinMany(ls);
      }
    }
  }

  lemma JoinSole(ls: seq<Text>)
    requires Flat(ls) && |ls| <= 1
    ensures Join(ls) == (if ls == [] then "" else ls[0]) && '\n' !in Join(ls)
  {
  }

  lemma JoinMany(ls: seq<Text>)
    requires |ls| > 1
    ensures '\n' in Join(ls)
  {
    HasNewline(ls[0], Join(ls[1..]));
    assert Join(ls) == ls[0] + ("\n" + Join(ls[1..]));
  }

  lemma HasNewline(l: Text, rest: Text)
    ensures '\n' in l + ("\n" + rest)
  {
    assert (l + ("\n" + rest))[|l|] == '\n';
  }

  /** The hook written where there was none is a fixed point too. */
  lemma FreshFixed(comment: Text, call: Text)
    requires TwoLines(comment, call)
    ensures var created := SHELL + "\n" + Block(comment, call);
            Installed(created, Block(comment, call), BeforeUser) == created
  {
    hide Managed, Find, Stripped, Combined, Head, Body;
    var created := SHELL + "\n" + Block(comment, call);
    assert created == Wrapped(SHELL, comment, call, "");
    EmptyLines("");
    NoCr();
    assert SHELL[..2] == "#!";
    StripWrapped(SHELL, comment, call, "");
    HeadBody(SHELL, "");
    assert Normal("") == "";
    CombinedWraps(SHELL + "\n" + "", comment, call);
  }

  /** No line ends in a carriage return once its line end is off; texts with `\n` or
      `\r\n` line ends qualify. */
  ghost predicate NoBareCr(ls: seq<Text>) {
    forall i :: 0 <= i < |ls| ==> StripCr(ls[i]) == ls[i] && '\n' !in ls[i]
  }

  /** Reinstalling over such a hook changes nothing. */
  lemma ReinstallFixed(existing: Text, comment: Text, call: Text)
    requires TwoLines(comment, call) && NoBareCr(Lines(existing))
    ensures var b := Block(comment, call);
            Installed(Installed(existing, b, BeforeUser), b, BeforeUser) == Installed(existing, b, BeforeUser)
  {
    hide Managed, Lines, Kept, StripCr, Installed;
    var ls := Lines(existing);
    KeptUnmanaged(ls);
    forall i | 0 <= i < |Kept(ls)| ensures StripCr(Kept(ls)[i]) == Kept(ls)[i] {
      assert Kept(ls)[i] in ls;
    }
    ReinstallIff(existing, comment, call);
  }

  lemma {:induction false} CrFreeLines(s: Text)
    requires '\r' !in s
    ensures NoBareCr(Lines(s))
    decreases |s|
  {
    var k := Find(s, '\n');
    if k.Some? {
      hide Lines, StripCr;
      var l, rest := s[..k.value], s[k.value + 1..];
      CrFreeLines(rest);
      CrFree(l);
      assert s == l + "\n" + rest;
      LinesCons(l, rest);
    } else if s != [] {
      CrFree(s);
    }
  }

  lemma CrFree(l: Text)
    requires '\r' !in l
    ensures StripCr(l) == l
  {
    if l != [] {
      assert l[|l| - 1] in l;
    }
  }

  // ---- the user's lines ---------------------------------------------------------------

  function NonBlank(ls: seq<Text>): seq<Text> {
    if ls == [] then [] else (if ls[0] == [] then [] else [ls[0]]) + NonBlank(ls[1..])
  }

  lemma {:induction false} NonBlankAppend(a: seq<Text>, b: seq<Text>)
    ensures NonBlank(a + b) == NonBlank(a) + NonBlank(b)
  {
    if a == [] {
      assert a + b == b;
    } else {
      assert (a + b)[1..] == a[1..] + b;
      NonBlankAppend(a[1..], b);
    }
  }

  lemma NoCr()
    ensures StripCr("") == "" && StripCr(SHELL) == SHELL
  {
    assert SHELL[|SHELL| - 1] == 'h';
  }

  ghost predicate Flat(ls: seq<Text>) {
    forall i :: 0 <= i < |ls| ==> '\n' !in ls[i]
  }

  lemma KeptFlat(s: Text)
    ensures Flat(Kept(Lines(s)))
  {
    hide Managed, Lines, Kept;
    var ls := Lines(s);
    LinesFlat(s);
    KeptUnmanaged(ls);
    forall i | 0 <= i < |Kept(ls)| ensures '\n' !in Kept(ls)[i] {
      assert Kept(ls)[i] in ls;
    }
  }

  /** The first `n` lines lose a carriage return at their end. */
  function Trimmed(ls: seq<Text>, n: int): (r: seq<Text>)
    ensures |r| == |ls|
  {
    seq(|ls|, i requires 0 <= i < |ls| => if i < n then StripCr(ls[i]) else ls[i])
  }

  /** The lines of a joined text, ended by a newline or not: a carriage return in front
      of a newline goes, a blank last line shows only if ended, and an ended text of no
      lines has a blank one. */
  function Reread(ls: seq<Text>, ended: bool): seq<Text> {
    if ended then (if ls == [] then [""] else Trimmed(ls, |ls|))
    else if ls != [] && ls[|ls| - 1] == "" then Trimmed(ls[..|ls| - 1], |ls| - 1)
    else Trimmed(ls, |ls| - 1)
  }

  /** Exactly when reading them again changes nothing. */
  lemma RereadSame(ls: seq<Text>, ended: bool)
    ensures Reread(ls, ended) == ls <==>
            CleanEnds(ls, ended) && if ended then ls != [] else ls == [] || ls[|ls| - 1] != ""
  {
    hide StripCr;
    var r := Reread(ls, ended);
    if r == ls {
      forall i | 0 <= i < |ls| && (i < |ls| - 1 || ended) ensures StripCr(ls[i]) == ls[i] {
        assert r[i] == StripCr(ls[i]);
      }
    }
  }

  lemma RereadCons(ls: seq<Text>, ended: bool)
    requires |ls| > 1
    ensures Reread(ls, ended) == [StripCr(ls[0])] + Reread(ls[1..], ended)
  {
    hide StripCr;
    var rest := ls[1..];
    assert forall i :: 0 <= i < |rest| ==> rest[i] == ls[i + 1];
    assert Reread(ls, ended) == [StripCr(ls[0])] + Reread(rest, ended);
  }

  lemma RereadUnmanaged(ls: seq<Text>, ended: bool)
    requires NoneManaged(ls)
    ensures NoneManaged(Reread(ls, ended))
  {
    hide Managed, StripCr;
    var r := Reread(ls, ended);
    forall i | 0 <= i < |r| ensures !Managed(r[i]) {
      NotManaged(if i < |ls| then ls[i] else "");
    }
  }

  lemma LinesOfLast(l: Text, nl: Text)
    requires '\n' !in l && (nl == "" || nl == "\n")
    ensures Lines(l + nl) == if nl == "\n" then [StripCr(l)] else if l == "" then [] else [l]
  {
    hide Find;
    if nl == "\n" {
      assert l + nl == l + "\n" + "";
      LinesCons(l, "");
    } else {
      assert l + nl == l;
    }
  }

  lemma {:induction false} LinesOfJoin(ls: seq<Text>, nl: Text)
    requires Flat(ls) && (nl == "" || nl == "\n")
    ensures Lines(Join(ls) + nl) == Reread(ls, nl == "\n")
  {
    hide Lines, StripCr;
    if |ls| <= 1 {
      var l := if ls == [] then "" else ls[0];
      NoCr();
      LinesOfLast(l, nl);
      assert Join(ls) + nl == l + nl && (ls == [] || ls == [l]);
    } else {
      hide Reread;
      LinesOfJoin(ls[1..], nl);
      assert Join(ls) + nl == ls[0] + "\n" + (Join(ls[1..]) + nl);
      LinesCons(ls[0], Join(ls[1..]) + nl);
      RereadCons(ls, nl == "\n");
    }
  }

  /** The lines left after stripping are the user's lines read again, for every text;
      they are the user's lines unchanged exactly when the terminated ones do not end in
      a carriage return and neither corner applies; and without stray carriage returns
      every line that is not blank stays. */
  lemma StrippedLines(s: Text)
    ensures var ks, ended := Kept(Lines(s)), EndsNewline(s);
            && Lines(Stripped(s)) == Reread(ks, ended)
            && (Lines(Stripped(s)) == ks <==>
                CleanEnds(ks, ended) && if ended then ks != [] else ks == [] || ks[|ks| - 1] != "")
            && (NoBareCr(Lines(s)) ==> NonBlank(Lines(Stripped(s))) == NonBlank(ks))
  {
    hide Managed, Lines, Join, Kept, StripCr, Reread;
    var ks, ended := Kept(Lines(s)), EndsNewline(s);
    KeptFlat(s);
    LinesOfJoin(ks, Newline(s));
    RereadSame(ks, ended);
    if NoBareCr(Lines(s)) {
      KeptUnmanaged(Lines(s));
      forall i | 0 <= i < |ks| ensures StripCr(ks[i]) == ks[i] {
        assert ks[i] in Lines(s);
      }
      NonBlankReread(ks, ended);
    }
  }

  ghost predicate NoCrEnds(ls: seq<Text>) {
    forall i :: 0 <= i < |ls| ==> StripCr(ls[i]) == ls[i]
  }

  lemma TrimmedSame(ls: seq<Text>, n: int)
    requires NoCrEnds(ls)
    ensures Trimmed(ls, n) == ls
  {
    hide StripCr;
  }

  /** Without stray carriage returns only blank lines come or go. */
  lemma RereadClean(ls: seq<Text>, ended: bool)
    requires NoCrEnds(ls)
    ensures Reread(ls, ended) ==
            if ended && ls == [] then [""] else if !ended && ls != [] && ls[|ls| - 1] == "" then ls[..|ls| - 1] else ls
  {
    hide StripCr, Trimmed;
    TrimmedSame(ls, |ls|);
    TrimmedSame(ls, |ls| - 1);
    if ls != [] {
      assert NoCrEnds(ls[..|ls| - 1]);
      TrimmedSame(ls[..|ls| - 1], |ls| - 1);
    }
  }

  lemma NonBlankReread(ls: seq<Text>, ended: bool)
    requires NoCrEnds(ls)
    ensures NonBlank(Reread(ls, ended)) == NonBlank(ls)
  {
    hide NonBlank, Reread, NoCrEnds;
    RereadClean(ls, ended);
    BlankLine();
    if ls != [] {
      BlankAppended(ls[..|ls| - 1]);
      assert ls == ls[..|ls| - 1] + [ls[|ls| - 1]];
    }
  }

  lemma {:induction false} LinesSplit(a: Text, b: Text)
    requires a == [] || EndsNewline(a)
    ensures Lines(a + b) == Lines(a) + Lines(b)
    decreases |a|
  {
    hide Lines, StripCr;
    if a == [] {
      assert a + b == b;
      EmptyLines(a);
      assert [] + Lines(b) == Lines(b);
    } else {
      var k := Find(a, '\n').value;
      var l, rest := a[..k], a[k + 1..];
      assert a == l + "\n" + rest && a + b == l + "\n" + (rest + b);
      LinesCons(l, rest);
      LinesCons(l, rest + b);
      assert rest == [] || rest[|rest| - 1] == a[|a| - 1];
      LinesSplit(rest, b);
      assert [StripCr(l)] + (Lines(rest) + Lines(b)) == Lines(a) + Lines(b);
    }
  }

  /** The lines of the content are `pre`, the block and `post`, with no other managed line. */
  ghost predicate OneBlock(content: Text, comment: Text, call: Text, pre: seq<Text>, post: seq<Text>) {
    Lines(content) == pre + [comment, call] + post && NoneManaged(pre) && NoneManaged(post)
  }

  /** For every text: one block, behind the user's shebang line or a new one, and then
      all other lines of the user in order. */
  lemma InstallBefore(existing: Text, comment: Text, call: Text)
    requires TwoLines(comment, call)
    ensures var ks := Kept(Lines(existing));
            var user := Reread(ks, EndsNewline(existing) || (|ks| == 1 && Shebang(ks)));
            var once := Installed(existing, Block(comment, call), BeforeUser);
            if Shebang(ks) then user != [] && OneBlock(once, comment, call, user[..1], user[1..])
            else OneBlock(once, comment, call, ["#!/bin/sh"], user)
  {
    hide Managed, Lines, Find, Combined, Wrapped, Kept, StripCr, Reread, Join, Starts;
    var ks, ended := Kept(Lines(existing)), EndsNewline(existing);
    var c := Stripped(existing);
    StrippedUnmanaged(existing);
    BodyUnmanaged(c);
    HeadIsShebang(c);
    CombinedWraps(c, comment, call);
    WrappedLines(Head(c), comment, call, Body(c));
    ShebangStays(Head(c));
    ShebangNotManaged(StripCr(Head(c)));
    var user := Reread(ks, ended || (|ks| == 1 && Shebang(ks)));
    HeadLines(existing);
    var all := [StripCr(Head(c))] + Lines(Body(c));
    assert [StripCr(Head(c)), comment, call] + Lines(Body(c)) == all[..1] + [comment, call] + all[1..];
    assert all[..1] == [StripCr(Head(c))] && all[1..] == Lines(Body(c));
    assert all == user || (all == [SHELL] + user && all[..1] == [SHELL] && all[1..] == user);
  }

  /** The shebang line and the body are the user's lines, after a new shebang line if
      the user has none. */
  lemma HeadLines(existing: Text)
    ensures var ks, c := Kept(Lines(existing)), Stripped(existing);
            var user := Reread(ks, EndsNewline(existing) || (|ks| == 1 && Shebang(ks)));
            [StripCr(Head(c))] + Lines(Body(c)) == if Shebang(ks) then user else [SHELL] + user
  {
    hide Lines, StripCr, Reread, Join, Kept, Flat, Starts;
    var ks, nl, c := Kept(Lines(existing)), Newline(existing), Stripped(existing);
    KeptFlat(existing);
    LinesOfJoin(ks, nl);
    JoinStart(ks, nl);
    JoinNewline(ks, nl);
    var k := Find(c, '\n');
    if !Shebang(ks) {
      NoCr();
      assert k.Some? ==> !Starts(c[..k.value], "#!") by {
        if k.Some? {
          assert c == c[..k.value] + ("\n" + c[k.value + 1..]);
          FirstLine(c[..k.value], "\n" + c[k.value + 1..]);
        }
      }
    } else if k.Some? {
      var l, rest := c[..k.value], c[k.value + 1..];
      assert c == l + "\n" + rest;
      LinesCons(l, rest);
      FirstLine(l, "\n" + rest);
      assert l + ("\n" + rest) == c;
    } else {
      EmptyLines("");
      LinesOfLast(ks[0], "\n");
      assert ks == [ks[0]] && Join(ks) + "\n" == ks[0] + "\n" by { JoinOne(ks[0]); }
      LinesOfJoin(ks, "\n");
    }
  }

  lemma JoinOne(l: Text)
    ensures Join([l]) == l
  {
  }

  /** For every text: one block, at the end, behind all lines of the user in order and
      a blank line. */
  lemma InstallAfter(existing: Text, comment: Text, call: Text)
    requires TwoLines(comment, call)
    ensures var ks := Kept(Lines(existing));
            var user := Reread(ks, EndsNewline(existing) || |ks| <= 1 || ks[|ks| - 1] != "");
            OneBlock(Installed(existing, Block(comment, call), AfterUser), comment, call, user + [""], [])
  {
    hide Managed, Lines, Find, Kept, StripCr, Stripped, Reread;
    var ks := Kept(Lines(existing));
    var user := Reread(ks, EndsNewline(existing) || |ks| <= 1 || ks[|ks| - 1] != "");
    var c, block := Stripped(existing), Block(comment, call);
    var front := c + (if EndsNewline(c) then "\n" else "\n\n");
    assert EndsNewline(front);
    LinesSplit(front, block);
    BlockLines(comment, call);
    FrontLines(existing);
    assert front + block == Installed(existing, block, AfterUser);
    assert (user + [""]) + [comment, call] + [] == Lines(front) + [comment, call];
    KeptUnmanaged(Lines(existing));
    RereadUnmanaged(ks, EndsNewline(existing) || |ks| <= 1 || ks[|ks| - 1] != "");
    NotManaged("");
  }

  lemma BlockLines(comment: Text, call: Text)
    requires TwoLines(comment, call)
    ensures Lines(Block(comment, call)) == [comment, call]
  {
    hide Managed;
    assert Block(comment, call) == comment + "\n" + (call + "\n" + "");
    LinesCons(comment, call + "\n" + "");
    LinesCons(call, "");
  }

  lemma FrontLines(existing: Text)
    ensures var ks, c := Kept(Lines(existing)), Stripped(existing);
            var user := Reread(ks, EndsNewline(existing) || |ks| <= 1 || ks[|ks| - 1] != "");
            Lines(c + (if EndsNewline(c) then "\n" else "\n\n")) == user + [""]
  {
    hide Managed, Lines, StripCr, Kept, Reread, Join;
    var ks, nl, c := Kept(Lines(existing)), Newline(existing), Stripped(existing);
    KeptFlat(existing);
    JoinEnds(ks, nl);
    BlankLine();
    if EndsNewline(c) {
      LinesSplit(c, "\n");
      LinesOfJoin(ks, nl);
    } else {
      var t := c + "\n";
      assert c == Join(ks) && c + "\n\n" == t + "\n";
      LinesSplit(t, "\n");
      LinesOfJoin(ks, "\n");
    }
  }

  lemma {:induction false} JoinEnds(ls: seq<Text>, nl: Text)
    requires Flat(ls) && (nl == "" || nl == "\n")
    ensures EndsNewline(Join(ls) + nl) <==> nl == "\n" || (|ls| > 1 && ls[|ls| - 1] == "")
  {
    var s := Join(ls) + nl;
    if nl == "\n" {
      assert s[|s| - 1] == '\n';
    } else if |ls| > 1 {
      var rest := Join(ls[1..]) + nl;
      JoinEnds(ls[1..], nl);
      assert s == ls[0] + "\n" + rest;
      assert rest != "" ==> s[|s| - 1] == rest[|rest| - 1];
      if rest == "" {
        JoinEmpty(ls[1..]);
      }
    } else if |ls| == 1 && ls[0] != "" {
      assert s == ls[0] && s[|s| - 1] in ls[0];
    }
  }

  lemma JoinEmpty(ls: seq<Text>)
    requires ls != [] && Join(ls) == ""
    ensures ls == [""]
  {
  }

  lemma BlankLine()
    ensures Lines("\n") == [""] && NonBlank([""]) == [] && NonBlank([]) == []
  {
    assert "\n" == "" + "\n" + "";
    LinesCons("", "");
  }

  lemma BlankAppended(ls: seq<Text>)
    ensures NonBlank(ls + [""]) == NonBlank(ls)
  {
    NonBlankAppend(ls, [""]);
    BlankLine();
  }
}
