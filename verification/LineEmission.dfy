/** `emit_output`: initializer output read in chunks and sent line by line. */
module LineEmission {
  import opened Wrappers
  import opened Bytes

  const NEWLINE: Byte := 0x0a
  const RETURN: Byte := 0x0d
  const BUFFER := 8192
  const LIMIT := 0x1_0000

  function DropReturn(line: Bytes): Bytes {
    if line != [] && line[|line| - 1] == RETURN then line[..|line| - 1] else line
  }

  /** The newline split: one trailing CR dropped from each terminated line. */
  function Split(s: Bytes): seq<Bytes>
    decreases |s|
  {
    var k := Find(s, NEWLINE);
    if k.None? then (if s == [] then [] else [s])
    else [DropReturn(s[..k.value])] + Split(s[k.value + 1..])
  }

  /** One chunk: the lines it completes, then a flush of an overlong rest. */
  function Feed(line: Bytes, chunk: Bytes): (seq<Bytes>, Bytes)
    decreases |chunk|
  {
    var k := Find(chunk, NEWLINE);
    if k.Some? then
      var (es, rest) := Feed([], chunk[k.value + 1..]);
      ([DropReturn(line + chunk[..k.value])] + es, rest)
    else if |line + chunk| >= LIMIT then ([line + chunk], [])
    else ([], line + chunk)
  }

  function Emit(chunks: seq<Bytes>, line: Bytes): seq<Bytes>
    decreases |chunks|
  {
    if chunks == [] then (if line == [] then [] else [line])
    else
      var (es, rest) := Feed(line, chunks[0]);
      es + Emit(chunks[1..], rest)
  }

  function Concat(chunks: seq<Bytes>): Bytes {
    if chunks == [] then [] else chunks[0] + Concat(chunks[1..])
  }

  /** What `read` into the buffer can return before the end of file. */
  ghost predicate Chunked(chunks: seq<Bytes>) {
    forall i :: 0 <= i < |chunks| ==> 0 < |chunks[i]| <= 8192
  }

  /** What arrives when the receiver goes away after `accept` lines. */
  function Accepted(ls: seq<Bytes>, accept: nat): seq<Bytes> {
    if accept < |ls| then ls[..accept] else ls
  }

  // ---- the code ----------------------------------------------------------------

  /** The inner loop over one chunk.  `line` and `sent` come and go as the caller's
      buffer and channel; `ok` is false once the receiver is gone. */
  method EmitChunk(chunk: Bytes, line0: Bytes, sent0: seq<Bytes>, accept: nat, peak0: nat)
    returns (sent: seq<Bytes>, line: Bytes, peak: nat, ok: bool)
    requires |chunk| <= BUFFER && |line0| < LIMIT && |sent0| <= accept && peak0 < LIMIT + BUFFER
    ensures sent == Accepted(sent0 + Feed(line0, chunk).0, accept)
    ensures ok <==> |sent0 + Feed(line0, chunk).0| <= accept
    ensures ok ==> line == Feed(line0, chunk).1 && |line| < LIMIT
    ensures peak < LIMIT + BUFFER
  {
    hide DropReturn, Feed;
    sent, line, peak := sent0, line0, peak0;
    var remaining := chunk;
    var newline := Find(remaining, NEWLINE);
    while newline.Some?
      invariant newline == Find(remaining, NEWLINE)
      invariant |sent| <= accept && |line| < LIMIT && |remaining| <= BUFFER && peak < LIMIT + BUFFER
      invariant sent0 + Feed(line0, chunk).0 == sent + Feed(line, remaining).0
      invariant Feed(line0, chunk).1 == Feed(line, remaining).1
      decreases |remaining|
    {
      FeedLine(sent, line, remaining);
      line := line + remaining[..newline.value];
      peak := if peak < |line| then |line| else peak;
      var out := DropReturn(line);
      if |sent| == accept {
        ok := false;
        return;
      }
      sent := sent + [out];
      line := [];
      remaining := remaining[newline.value + 1..];
      newline := Find(remaining, NEWLINE);
    }
    FeedRest(sent, line, remaining);
    line := line + remaining;
    peak := if peak < |line| then |line| else peak;
    if |line| >= LIMIT {
      if |sent| == accept {
        ok := false;
        return;
      }
      sent := sent + [line];
      line := [];
    }
    ok := true;
  }

  /** A newline in the chunk completes a line. */
  lemma FeedLine(sent: seq<Bytes>, line: Bytes, chunk: Bytes)
    requires Find(chunk, NEWLINE).Some?
    ensures var k := Find(chunk, NEWLINE).value;
            var rest := Feed([], chunk[k + 1..]);
            sent + Feed(line, chunk).0 == sent + [DropReturn(line + chunk[..k])] + rest.0 && Feed(line, chunk).1 == rest.1
  {
    hide DropReturn, Find;
  }

  lemma FeedRest(sent: seq<Bytes>, line: Bytes, chunk: Bytes)
    requires Find(chunk, NEWLINE).None?
    ensures if |line + chunk| >= LIMIT then sent + Feed(line, chunk).0 == sent + [line + chunk] && Feed(line, chunk).1 == []
            else sent + Feed(line, chunk).0 == sent && Feed(line, chunk).1 == line + chunk
  {
    hide Find;
  }

  /** `peak` is the longest the line buffer ever gets. */
  method EmitOutput(chunks: seq<Bytes>, accept: nat) returns (sent: seq<Bytes>, peak: nat)
    requires Chunked(chunks)
    ensures sent == Accepted(Emit(chunks, []), accept)
    ensures peak < 65536 + 8192
  {
    hide Feed;
    var line: Bytes := [];
    sent, peak := [], 0;
    assert chunks[0..] == chunks;
    for i := 0 to |chunks|
      invariant |line| < LIMIT && peak < LIMIT + BUFFER && |sent| <= accept
      invariant Emit(chunks, []) == sent + Emit(chunks[i..], line)
    {
      assert chunks[i..][1..] == chunks[i + 1..];
      ghost var (es, rest) := Feed(line, chunks[i]);
      assert sent + (es + Emit(chunks[i + 1..], rest)) == (sent + es) + Emit(chunks[i + 1..], rest);
      var ok;
      sent, line, peak, ok := EmitChunk(chunks[i], line, sent, accept, peak);
      if !ok {
        return;
      }
    }
    if line != [] && |sent| < accept {
      sent := sent + [line];
    }
  }

  // ---- independence of the chunking ------------------------------------------------

  /** Terminated lines under 64 KiB with their CR, an unterminated last line up to it. */
  predicate Fits(s: Bytes)
    decreases |s|
  {
    var k := Find(s, NEWLINE);
    if k.None? then |s| <= LIMIT else k.value < LIMIT && Fits(s[k.value + 1..])
  }

  lemma PartsAfter(line: Bytes, s: Bytes, k: nat)
    requires k < |s|
    ensures (line + s)[..|line| + k] == line + s[..k] && (line + s)[|line| + k + 1..] == s[k + 1..]
  {
  }

  /** Where the first newline of `line + s` is, for a line without one. */
  lemma FindAfter(line: Bytes, s: Bytes)
    requires NEWLINE !in line
    ensures var k := Find(s, NEWLINE);
            Find(line + s, NEWLINE) == if k.None? then None else Some(|line| + k.value)
  {
    hide Find;
    var k := Find(s, NEWLINE);
    if k.Some? {
      FoundAfter(line, s, k.value);
    } else {
      assert NEWLINE !in line + s;
    }
  }

  lemma FoundAfter(line: Bytes, s: Bytes, k: nat)
    requires NEWLINE !in line && Find(s, NEWLINE) == Some(k)
    ensures Find(line + s, NEWLINE) == Some(|line| + k)
  {
    hide Find;
    var u := line + s;
    forall i | 0 <= i < |line| + k ensures u[i] != NEWLINE {
      if i < |line| {
        assert u[i] == line[i];
      } else {
        assert u[i] == s[i - |line|];
      }
    }
    assert u[|line| + k] == s[k];
    FindFirst(u, NEWLINE, |line| + k);
  }

  lemma LineDone(line: Bytes, t: Bytes)
    requires NEWLINE !in line
    ensures Split(line + ([NEWLINE] + t)) == [DropReturn(line)] + Split(t)
    ensures Fits(line + ([NEWLINE] + t)) <==> |line| < LIMIT && Fits(t)
  {
    hide DropReturn, Split, Fits;
    var s := line + ([NEWLINE] + t);
    LineAt(line, t);
    SplitFirst(s, line, t);
    FitsFirst(s, line, t);
  }

  /** `s` is a line, its newline and `t`. */
  ghost predicate Begins(s: Bytes, line: Bytes, t: Bytes) {
    Find(s, NEWLINE) == Some(|line|) && s[..|line|] == line && s[|line| + 1..] == t
  }

  lemma LineAt(line: Bytes, t: Bytes)
    requires NEWLINE !in line
    ensures Begins(line + ([NEWLINE] + t), line, t)
  {
    hide Find;
    var s := line + ([NEWLINE] + t);
    FindFirst(s, NEWLINE, |line|);
    assert s[..|line|] == line && s[|line| + 1..] == t;
  }

  lemma SplitFirst(s: Bytes, line: Bytes, t: Bytes)
    requires Begins(s, line, t)
    ensures Split(s) == [DropReturn(line)] + Split(t)
  {
    hide Find, DropReturn;
  }

  lemma FitsFirst(s: Bytes, line: Bytes, t: Bytes)
    requires Begins(s, line, t)
    ensures Fits(s) <==> |line| < LIMIT && Fits(t)
  {
    hide Find;
  }

  lemma Whole(line: Bytes)
    requires NEWLINE !in line
    ensures Fits(line) <==> |line| <= LIMIT
    ensures Split(line) == if line == [] then [] else [line]
  {
  }

  /** An overlong line that fits is the whole unterminated input. */
  lemma Overlong(line: Bytes, rest: Bytes)
    requires NEWLINE !in line && |line| >= LIMIT && Fits(line + rest)
    ensures rest == [] && |line| == LIMIT
  {
    FindAfter(line, rest);
  }

  /** A chunk in front of any rest of the input moves the split along. */
  lemma {:induction false} FeedSplits(line: Bytes, chunk: Bytes, rest: Bytes)
    requires NEWLINE !in line && |line| < LIMIT && Fits(line + chunk + rest)
    ensures var (es, left) := Feed(line, chunk);
            NEWLINE !in left && |left| < LIMIT && Fits(left + rest)
            && Split(line + chunk + rest) == es + Split(left + rest)
    decreases |chunk|
  {
    hide DropReturn, Split, Fits;
    var k := Find(chunk, NEWLINE);
    if k.Some? {
      var l, tail := line + chunk[..k.value], chunk[k.value + 1..];
      assert line + chunk + rest == l + ([NEWLINE] + (tail + rest));
      LineDone(l, tail + rest);
      assert [] + tail + rest == tail + rest;
      FeedSplits([], tail, rest);
      var (es, left) := Feed([], tail);
      assert [DropReturn(l)] + (es + Split(left + rest)) == ([DropReturn(l)] + es) + Split(left + rest);
    } else if |line + chunk| >= LIMIT {
      Overlong(line + chunk, rest);
      assert line + chunk + rest == line + chunk && [] + rest == [];
      Whole(line + chunk);
      Whole([]);
    } else {
      assert [] + Split(line + chunk + rest) == Split(line + chunk + rest);
    }
  }

  /** Lines that fit come out as the newline split, however the input was chunked. */
  lemma {:induction false} ChunkingIrrelevant(chunks: seq<Bytes>, line: Bytes)
    requires NEWLINE !in line && |line| < LIMIT && Fits(line + Concat(chunks))
    ensures Emit(chunks, line) == Split(line + Concat(chunks))
    decreases |chunks|
  {
    hide Feed;
    if chunks == [] {
      assert line + Concat(chunks) == line;
    } else {
      var rest := Concat(chunks[1..]);
      assert line + Concat(chunks) == line + chunks[0] + rest;
      FeedSplits(line, chunks[0], rest);
      ChunkingIrrelevant(chunks[1..], Feed(line, chunks[0]).1);
    }
  }

  function Bytewise(s: Bytes): seq<Bytes> {
    if s == [] then [] else [[s[0]]] + Bytewise(s[1..])
  }

  lemma {:induction false} BytewiseChunks(s: Bytes)
    ensures Chunked(Bytewise(s)) && Concat(Bytewise(s)) == s
  {
    if s != [] {
      BytewiseChunks(s[1..]);
    }
  }

  lemma SplitCount(line: Bytes, s: Bytes)
    requires NEWLINE !in line && s != []
    ensures |Split(line + s)| == |Split(s)|
  {
    hide Split, DropReturn, Find, Begins;
    var k := Find(s, NEWLINE);
    if k.Some? {
      BeginsAfter(line, s, k.value);
      SplitFirst(s, s[..k.value], s[k.value + 1..]);
      SplitFirst(line + s, line + s[..k.value], s[k.value + 1..]);
    } else {
      Whole(s);
      Whole(line + s);
    }
  }

  lemma BeginsAfter(line: Bytes, s: Bytes, k: nat)
    requires NEWLINE !in line && Find(s, NEWLINE) == Some(k)
    ensures Begins(s, s[..k], s[k + 1..]) && Begins(line + s, line + s[..k], s[k + 1..])
  {
    hide Find;
    FoundAfter(line, s, k);
    PartsAfter(line, s, k);
  }

  /** Reading byte by byte never emits fewer lines, and more when a line does not fit. */
  lemma {:induction false} BytewiseCount(s: Bytes, line: Bytes)
    requires NEWLINE !in line && |line| < LIMIT
    ensures |Emit(Bytewise(s), line)| >= |Split(line + s)|
    ensures !Fits(line + s) ==> |Emit(Bytewise(s), line)| > |Split(line + s)|
    decreases |s|
  {
    hide DropReturn, Fits, Split, Feed, Find, Emit, Bytewise;
    EmitByte(s, line);
    if s == [] {
      assert line + s == line;
      Whole(line);
    } else {
      var b, t := s[0], s[1..];
      assert [] + t == t;
      if b == NEWLINE {
        assert s == [NEWLINE] + t;
        BytewiseCount(t, []);
        LineDone(line, t);
      } else {
        assert line + s == (line + [b]) + t;
        if |line| + 1 < LIMIT {
          BytewiseCount(t, line + [b]);
        } else {
          BytewiseCount(t, []);
          FlushCount(line + [b], t);
        }
      }
    }
  }

  lemma EmitByte(s: Bytes, line: Bytes)
    ensures |Emit(Bytewise(s), line)| ==
            if s == [] then (if line == [] then 0 else 1)
            else if s[0] == NEWLINE then 1 + |Emit(Bytewise(s[1..]), [])|
            else if |line| + 1 >= LIMIT then 1 + |Emit(Bytewise(s[1..]), [])|
            else |Emit(Bytewise(s[1..]), line + [s[0]])|
  {
    hide DropReturn, Feed;
    if s != [] {
      assert Bytewise(s)[1..] == Bytewise(s[1..]) && Bytewise(s)[0] == [s[0]];
      FeedByte(line, s[0]);
    }
  }

  /** A flush at the limit costs a line unless it ends the input. */
  lemma FlushCount(line: Bytes, t: Bytes)
    requires NEWLINE !in line && |line| == LIMIT
    ensures if t == [] then Fits(line + t) && |Split(line + t)| == 1 + |Split(t)|
            else |Split(line + t)| < 1 + |Split(t)|
  {
    if t == [] {
      assert line + t == line;
      Whole(line);
      Whole(t);
    } else {
      SplitCount(line, t);
    }
  }

  lemma FeedByte(line: Bytes, b: Byte)
    ensures Feed(line, [b]) ==
            if b == NEWLINE then ([DropReturn(line)], [])
            else if |line| + 1 >= LIMIT then ([line + [b]], []) else ([], line + [b])
  {
    hide DropReturn;
    assert Find([b], NEWLINE) == if b == NEWLINE then Some(0) else None;
    if b == NEWLINE {
      NothingFed();
      assert line + [b][..0] == line && [b][1..] == [];
      assert [DropReturn(line)] + [] == [DropReturn(line)];
    }
  }

  lemma NothingFed()
    ensures Feed([], []) == ([], [])
  {
  }

  /** The output is the newline split for every chunking exactly when the lines fit. */
  lemma EmissionExact(input: Bytes)
    ensures (forall chunks :: Chunked(chunks) && Concat(chunks) == input ==> Emit(chunks, []) == Split(input)) <==> Fits(input)
  {
    assert [] + input == input;
    if Fits(input) {
      forall chunks | Chunked(chunks) && Concat(chunks) == input ensures Emit(chunks, []) == Split(input) {
        ChunkingIrrelevant(chunks, []);
      }
    } else {
      BytewiseChunks(input);
      BytewiseCount(input, []);
    }
  }

  // ---- the split, read backwards -------------------------------------------------

  /** Lines put back together: each of the first `|crs|` gets its carriage return, if it
      had one, and its newline. */
  function Unsplit(ls: seq<Bytes>, crs: seq<bool>): Bytes
    decreases |ls|
  {
    if ls == [] then []
    else if crs == [] then ls[0] + Unsplit(ls[1..], [])
    else ls[0] + (if crs[0] then [0x0d, 0x0a] else [0x0a]) + Unsplit(ls[1..], crs[1..])
  }

  ghost predicate EndsInCr(line: Bytes) {
    line != [] && line[|line| - 1] == 0x0d
  }

  /** These are the lines of `s`: all but an unterminated last one are followed by a
      newline, one carriage return before it is dropped and no more, no line holds a
      newline, and an unterminated line is not empty. */
  ghost predicate LinesOf(s: Bytes, ls: seq<Bytes>, crs: seq<bool>) {
    && |crs| <= |ls| <= |crs| + 1 && s == Unsplit(ls, crs)
    && (forall i :: 0 <= i < |ls| ==> 0x0a !in ls[i])
    && (forall i :: 0 <= i < |crs| && !crs[i] ==> !EndsInCr(ls[i]))
    && (|crs| < |ls| ==> ls[|crs|] != [])
  }

  /** The split undoes putting lines together, and nothing else does. */
  lemma SplitExact(s: Bytes) returns (crs: seq<bool>)
    ensures LinesOf(s, Split(s), crs)
    ensures forall ls, cs :: LinesOf(s, ls, cs) ==> ls == Split(s) && cs == crs
  {
    crs := Endings(s);
    EndingsFit(s);
    forall ls, cs | LinesOf(s, ls, cs) ensures ls == Split(s) && cs == crs {
      LinesUnique(s, ls, cs);
    }
  }

  /** Which terminated lines had a carriage return. */
  function Endings(s: Bytes): seq<bool>
    decreases |s|
  {
    var k := Find(s, NEWLINE);
    if k.None? then [] else [k.value > 0 && s[k.value - 1] == RETURN] + Endings(s[k.value + 1..])
  }

  lemma {:induction false} EndingsFit(s: Bytes)
    ensures LinesOf(s, Split(s), Endings(s))
    decreases |s|
  {
    hide Find, Split, Endings, Unsplit, DropReturn, LinesOf;
    var k := Find(s, NEWLINE);
    if k.Some? {
      var line, rest := s[..k.value], s[k.value + 1..];
      EndingsFit(rest);
      assert s == line + [NEWLINE] + rest && NEWLINE !in line;
      SplitHead(s, k.value);
      LinesMore(line, rest, Split(rest), Endings(rest));
    } else {
      LastLine(s);
    }
  }

  /** A text without a newline is at most one line. */
  lemma LastLine(s: Bytes)
    requires NEWLINE !in s
    ensures Split(s) == (if s == [] then [] else [s]) && Endings(s) == [] && LinesOf(s, Split(s), Endings(s))
  {
    Whole(s);
    if s != [] {
      assert [s][1..] == [] && Unsplit([s], []) == s + [];
    }
  }

  lemma SplitHead(s: Bytes, k: nat)
    requires Find(s, NEWLINE) == Some(k)
    ensures Split(s) == [DropReturn(s[..k])] + Split(s[k + 1..])
    ensures Endings(s) == [EndsInCr(s[..k])] + Endings(s[k + 1..])
  {
    hide Find, DropReturn;
  }

  lemma LinesMore(line: Bytes, rest: Bytes, ls: seq<Bytes>, crs: seq<bool>)
    requires LinesOf(rest, ls, crs) && NEWLINE !in line
    ensures LinesOf(line + [NEWLINE] + rest, [DropReturn(line)] + ls, [EndsInCr(line)] + crs)
  {
    var l, c := DropReturn(line), EndsInCr(line);
    var ms, cs := [l] + ls, [c] + crs;
    assert ms[1..] == ls && cs[1..] == crs;
    if c {
      assert line == l + [RETURN];
      assert line + [NEWLINE] + rest == l + [0x0d, 0x0a] + rest;
    }
    assert Unsplit(ms, cs) == l + (if c then [0x0d, 0x0a] else [0x0a]) + rest;
  }

  lemma {:induction false} LinesUnique(s: Bytes, ls: seq<Bytes>, crs: seq<bool>)
    requires LinesOf(s, ls, crs)
    ensures ls == Split(s) && crs == Endings(s)
    decreases |ls|
  {
    hide Find, Split, Endings, DropReturn, EndsInCr;
    if crs == [] {
      hide Unsplit;
      UnsplitLast(ls);
      LastLine(s);
    } else {
      var rest := Unsplit(ls[1..], crs[1..]);
      var line := ls[0] + (if crs[0] then [RETURN] else []);
      assert s == line + ([NEWLINE] + rest);
      LinesRest(s, ls, crs);
      hide LinesOf, Unsplit;
      LinesUnique(rest, ls[1..], crs[1..]);
      LineAt(line, rest);
      SplitHead(s, |line|);
      CrBack(ls[0], crs[0]);
      assert ls == [ls[0]] + ls[1..] && crs == [crs[0]] + crs[1..];
    }
  }

  lemma UnsplitLast(ls: seq<Bytes>)
    requires |ls| <= 1
    ensures Unsplit(ls, []) == (if ls == [] then [] else ls[0]) && (ls == [] || ls == [ls[0]])
  {
    if ls != [] {
      assert ls[1..] == [] && Unsplit(ls[1..], []) == [];
      assert Unsplit(ls, []) == ls[0] + [];
    }
  }

  lemma LinesRest(s: Bytes, ls: seq<Bytes>, crs: seq<bool>)
    requires LinesOf(s, ls, crs) && crs != []
    ensures LinesOf(Unsplit(ls[1..], crs[1..]), ls[1..], crs[1..])
    ensures NEWLINE !in ls[0] && (!crs[0] ==> !EndsInCr(ls[0]))
  {
    hide Unsplit;
    assert forall i :: 0 <= i < |ls| - 1 ==> ls[1..][i] == ls[i + 1];
    assert forall i :: 0 <= i < |crs| - 1 ==> crs[1..][i] == crs[i + 1];
  }

  lemma CrBack(l: Bytes, c: bool)
    requires !c ==> !EndsInCr(l)
    ensures var line := l + (if c then [RETURN] else []); DropReturn(line) == l && EndsInCr(line) == c
  {
    assert l + [] == l;
  }

  /** What fits: terminated lines under 64 KiB with their carriage return, and an
      unterminated one of up to 64 KiB. */
  lemma {:induction false} FitsIff(s: Bytes)
    ensures |Endings(s)| <= |Split(s)|
    ensures Fits(s) <==> Short(Split(s), Endings(s))
    decreases |s|
  {
    hide Find, Split, Endings;
    var k := Find(s, NEWLINE);
    if k.None? {
      LastLine(s);
    } else {
      var line, rest := s[..k.value], s[k.value + 1..];
      FitsIff(rest);
      SplitHead(s, k.value);
      FitsHead(s, k.value);
      hide Split, Endings, Fits, Short, LinesOf;
      assert |DropReturn(line)| + (if EndsInCr(line) then 1 else 0) == |line|;
      FitsCons(DropReturn(line), EndsInCr(line), Split(rest), Endings(rest));
    }
  }

  lemma FitsHead(s: Bytes, k: nat)
    requires Find(s, NEWLINE) == Some(k)
    ensures Fits(s) <==> |s[..k]| < LIMIT && Fits(s[k + 1..])
  {
    hide Find;
  }

  ghost predicate Short(ls: seq<Bytes>, crs: seq<bool>)
    requires |crs| <= |ls|
  {
    && (forall i :: 0 <= i < |crs| ==> |ls[i]| + (if crs[i] then 1 else 0) < 65536)
    && (forall i :: |crs| <= i < |ls| ==> |ls[i]| <= 65536)
  }

  lemma FitsCons(l: Bytes, c: bool, ls: seq<Bytes>, crs: seq<bool>)
    requires |crs| <= |ls|
    ensures Short([l] + ls, [c] + crs) <==> |l| + (if c then 1 else 0) < 65536 && Short(ls, crs)
  {
    var ms, cs := [l] + ls, [c] + crs;
    assert forall i :: 0 <= i < |ls| ==> ms[i + 1] == ls[i];
    assert forall i :: 0 <= i < |crs| ==> cs[i + 1] == crs[i];
    if Short(ms, cs) {
      assert ms[0] == l && cs[0] == c;
      forall i | 0 <= i < |crs| ensures |ls[i]| + (if crs[i] then 1 else 0) < 65536 {
        assert ms[i + 1] == ls[i] && cs[i + 1] == crs[i];
      }
      forall i | |crs| <= i < |ls| ensures |ls[i]| <= 65536 {
        assert ms[i + 1] == ls[i];
      }
    }
    if |l| + (if c then 1 else 0) < 65536 && Short(ls, crs) {
      forall i | 0 <= i < |cs| ensures |ms[i]| + (if cs[i] then 1 else 0) < 65536 {
        assert i == 0 || (ms[i] == ls[i - 1] && cs[i] == crs[i - 1]);
      }
      forall i | |cs| <= i < |ms| ensures |ms[i]| <= 65536 {
        assert ms[i] == ls[i - 1];
      }
    }
  }
}
