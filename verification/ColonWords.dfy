/** `merge_bash_colon_words`: Bash splits `POD:PATH` into three words; they are glued
    back together and the cursor follows. */
module ColonWords {

  type Word = string

  const COLON: Word := ":"

  /** Word `i` is a colon with a word on both sides, after the subcommand. */
  predicate Joins(args: seq<Word>, i: nat) {
    1 < i && i + 1 < |args| && args[i] == COLON
  }

  /** The words from `i` on, added to the groups that make up the words so far. */
  function Grouped(args: seq<Word>, i: nat, groups: seq<seq<Word>>): seq<seq<Word>>
    requires i <= |args| && (i > 0 ==> groups != [])
    decreases |args| - i
  {
    if i == |args| then groups
    else if Joins(args, i) then
      var n := |groups| - 1;
      Grouped(args, i + 2, groups[n := groups[n] + [COLON, args[i + 1]]])
    else Grouped(args, i + 1, groups + [[args[i]]])
  }

  function Glue(ws: seq<Word>): Word {
    if ws == [] then "" else ws[0] + Glue(ws[1..])
  }

  function Glued(groups: seq<seq<Word>>): (r: seq<Word>)
    ensures |r| == |groups|
  {
    seq(|groups|, g requires 0 <= g < |groups| => Glue(groups[g]))
  }

  function Flat(groups: seq<seq<Word>>): seq<Word> {
    if groups == [] then [] else Flat(groups[..|groups| - 1]) + groups[|groups| - 1]
  }

  lemma {:induction false} GlueAppend(a: seq<Word>, b: seq<Word>)
    ensures Glue(a + b) == Glue(a) + Glue(b)
  {
    if a == [] {
      assert a + b == b;
    } else {
      assert (a + b)[1..] == a[1..] + b;
      GlueAppend(a[1..], b);
    }
  }

  /** The original word `index` is one of the words glued into group `g`. */
  ghost predicate InGroup(groups: seq<seq<Word>>, g: int, index: int) {
    0 <= g < |groups| && |Flat(groups[..g])| <= index < |Flat(groups[..g + 1])|
  }

  lemma FlatLast(groups: seq<seq<Word>>, ws: seq<Word>)
    requires groups != []
    ensures var n := |groups| - 1;
            Flat(groups[n := groups[n] + ws]) == Flat(groups) + ws
  {
    var n := |groups| - 1;
    var next := groups[n := groups[n] + ws];
    assert next[..n] == groups[..n];
  }

  lemma FlatNew(groups: seq<seq<Word>>, w: Word)
    ensures Flat(groups + [[w]]) == Flat(groups) + [w]
  {
    assert (groups + [[w]])[..|groups|] == groups;
  }

  /** Groups that are closed or only grow at the end keep the words they hold. */
  lemma KeepsGroup(groups: seq<seq<Word>>, next: seq<seq<Word>>, g: int, index: int)
    requires InGroup(groups, g, index) && |groups| <= |next|
    requires forall i :: 0 <= i < |groups| - 1 ==> next[i] == groups[i]
    requires groups[|groups| - 1] <= next[|groups| - 1]
    ensures InGroup(next, g, index)
  {
    assert next[..g] == groups[..g];
    assert next[..g + 1][..g] == next[..g] && groups[..g + 1][..g] == groups[..g];
    assert |groups[g]| <= |next[g]|;
  }

  /** What holds when the words before `i` are done. */
  ghost predicate Done(args: seq<Word>, index: nat, i: nat, groups: seq<seq<Word>>, merged: seq<Word>, mergedIndex: nat) {
    && i <= |args| && (i > 0 ==> groups != []) && |groups| <= i
    && Grouped(args, 0, []) == Grouped(args, i, groups)
    && merged == Glued(groups) && Flat(groups) == args[..i]
    && (index < i ==> InGroup(groups, mergedIndex, index))
    && (index >= i ==> mergedIndex == |groups| + (index - i))
  }

  lemma GlueColon(ws: seq<Word>, w: Word)
    ensures Glue(ws + [COLON, w]) == Glue(ws) + COLON + w
  {
    GlueAppend(ws, [COLON, w]);
    var pair := [COLON, w];
    assert pair[1..] == [w] && [w][1..] == [];
    assert Glue([w]) == w + "" && w + "" == w;
  }

  lemma JoinStep(args: seq<Word>, index: nat, i: nat, groups: seq<seq<Word>>, merged: seq<Word>, at: nat)
    requires Done(args, index, i, groups, merged, at) && Joins(args, i)
    ensures var n := |groups| - 1;
            Done(args, index, i + 2, groups[n := groups[n] + [COLON, args[i + 1]]],
                 merged[n := merged[n] + COLON + args[i + 1]],
                 if index == i || index == i + 1 then n else if index > i + 1 then at - 2 else at)
  {
    hide Glue;
    var n := |groups| - 1;
    var next := groups[n := groups[n] + [COLON, args[i + 1]]];
    FlatLast(groups, [COLON, args[i + 1]]);
    assert args[..i + 2] == args[..i] + [COLON, args[i + 1]];
    GlueColon(groups[n], args[i + 1]);
    assert merged[n := merged[n] + COLON + args[i + 1]] == Glued(next);
    assert groups[..n + 1] == groups && next[..n + 1] == next && next[..n] == groups[..n];
    if index < i {
      KeepsGroup(groups, next, at, index);
    }
  }

  lemma WordStep(args: seq<Word>, index: nat, i: nat, groups: seq<seq<Word>>, merged: seq<Word>, at: nat)
    requires Done(args, index, i, groups, merged, at) && i < |args| && !Joins(args, i)
    ensures Done(args, index, i + 1, groups + [[args[i]]], merged + [args[i]], at)
  {
    var next := groups + [[args[i]]];
    FlatNew(groups, args[i]);
    assert args[..i + 1] == args[..i] + [args[i]];
    assert Glue([args[i]]) == args[i] by { assert [args[i]][1..] == [] && args[i] + "" == args[i]; }
    assert merged + [args[i]] == Glued(next);
    assert next[..|groups|] == groups && next[..|groups| + 1] == next;
    if index < i {
      KeepsGroup(groups, next, at, index);
    }
  }

  predicate IsCp(args: seq<Word>) {
    |args| > 1 && args[1] == "cp"
  }

  /** For `cp`, every result word glues consecutive words, none is lost or reordered,
      and the cursor lands on the word its own word went into; a cursor past the end
      stays as far past it.  The subtraction never saturates. */
  method MergeBashColonWords(args: seq<Word>, index: nat)
    returns (merged: seq<Word>, mergedIndex: nat)
    ensures !IsCp(args) ==> merged == args && mergedIndex == index
    ensures IsCp(args) ==> merged == Glued(Grouped(args, 0, [])) && Flat(Grouped(args, 0, [])) == args
    ensures IsCp(args) && index < |args| ==> InGroup(Grouped(args, 0, []), mergedIndex, index)
    ensures IsCp(args) && index >= |args| ==> mergedIndex == |merged| + (index - |args|)
  {
    if !IsCp(args) {
      return args, index;
    }
    hide Glue, Flat, Grouped, InGroup;
    merged, mergedIndex := [], index;
    ghost var groups: seq<seq<Word>> := [];
    assert Flat([]) == [] by { NoWords(); }
    var i := 0;
    while i < |args|
      invariant Done(args, index, i, groups, merged, mergedIndex)
    {
      if Joins(args, i) {
        JoinStep(args, index, i, groups, merged, mergedIndex);
        var n := |merged| - 1;
        groups := groups[n := groups[n] + [COLON, args[i + 1]]];
        merged := merged[n := merged[n] + COLON + args[i + 1]];
        if index == i || index == i + 1 {
          mergedIndex := n;
        } else if index > i + 1 {
          assert mergedIndex >= 2;
          mergedIndex := mergedIndex - 2;
        }
        i := i + 2;
      } else {
        WordStep(args, index, i, groups, merged, mergedIndex);
        groups := groups + [[args[i]]];
        merged := merged + [args[i]];
        i := i + 1;
      }
    }
    assert args[..i] == args;
    GroupedDone(args, groups);
  }

  lemma NoWords()
    ensures Flat([]) == []
  {
  }

  lemma GroupedDone(args: seq<Word>, groups: seq<seq<Word>>)
    requires args != [] ==> groups != []
    ensures Grouped(args, |args|, groups) == groups
  {
  }

  // ---- which splits the merge undoes -------------------------------------------

  /** The original words of each group: a first one that joins nothing, and then pairs
      of a joining colon and the word behind it. */
  ghost predicate Pairs(args: seq<Word>, groups: seq<seq<Word>>) {
    forall g :: 0 <= g < |groups| ==> PairsFrom(args, |Flat(groups[..g])|, groups[g])
  }

  ghost predicate PairsFrom(args: seq<Word>, start: nat, ws: seq<Word>) {
    && |ws| % 2 == 1 && !Joins(args, start)
    && forall p :: start <= p < start + |ws| && (p - start) % 2 == 1 ==> Joins(args, p)
  }

  /** The merge gives a line that was split into operands back exactly when every operand
      is one word, or words with joining colons between them. */
  lemma MergeUndoesSplit(line: seq<seq<Word>>)
    ensures Grouped(Flat(line), 0, []) == line <==> Pairs(Flat(line), line)
  {
    hide Flat, Grouped, PairsFrom;
    NoWords();
    GroupedPairs(Flat(line), 0, []);
    if Pairs(Flat(line), line) {
      PairsMerge(line);
    }
  }

  lemma PairsMerge(line: seq<seq<Word>>)
    requires Pairs(Flat(line), line)
    ensures Grouped(Flat(line), 0, []) == line
  {
    hide Flat, Grouped;
    NoWords();
    var args := Flat(line);
    if line == [] {
      GroupedDone(args, []);
    } else {
      assert line[..0] == [] && PairsFrom(args, |Flat(line[..0])|, line[0]);
      OperandAt(line, 0);
      assert args[|Flat(line[..0])| + 0] == line[0][0];
      GroupedWord(args, 0, []);
      MergesOn(line, 0, 1);
      assert [args[0]] == line[0][..1];
      assert [] + [[args[0]]] == line[..0] + [line[0][..1]];
    }
  }

  lemma GroupedWord(args: seq<Word>, i: nat, groups: seq<seq<Word>>)
    requires i < |args| && !Joins(args, i) && (i > 0 ==> groups != [])
    ensures Grouped(args, i, groups) == Grouped(args, i + 1, groups + [[args[i]]])
  {
  }

  lemma GroupedPair(args: seq<Word>, i: nat, groups: seq<seq<Word>>)
    requires Joins(args, i) && groups != []
    ensures var n := |groups| - 1;
            Grouped(args, i, groups) == Grouped(args, i + 2, groups[n := groups[n] + [COLON, args[i + 1]]])
  {
  }

  lemma {:induction false} GroupedPairs(args: seq<Word>, i: nat, groups: seq<seq<Word>>)
    requires i <= |args| && (i > 0 ==> groups != []) && Flat(groups) == args[..i] && Pairs(args, groups)
    ensures var r := Grouped(args, i, groups); Flat(r) == args && Pairs(args, r)
    decreases |args| - i
  {
    hide Flat, Pairs, Grouped;
    if i == |args| {
      GroupedDone(args, groups);
      assert args[..i] == args;
    } else if Joins(args, i) {
      GroupedPair(args, i, groups);
      PairAdded(args, i, groups);
      var n := |groups| - 1;
      GroupedPairs(args, i + 2, groups[n := groups[n] + [COLON, args[i + 1]]]);
    } else {
      GroupedWord(args, i, groups);
      WordAdded(args, i, groups);
      GroupedPairs(args, i + 1, groups + [[args[i]]]);
    }
  }

  lemma PairAdded(args: seq<Word>, i: nat, groups: seq<seq<Word>>)
    requires Joins(args, i) && groups != [] && Flat(groups) == args[..i] && Pairs(args, groups)
    ensures var n := |groups| - 1;
            var next := groups[n := groups[n] + [COLON, args[i + 1]]];
            Flat(next) == args[..i + 2] && Pairs(args, next)
  {
    hide Flat, PairsFrom;
    var n := |groups| - 1;
    var ws := [COLON, args[i + 1]];
    var next := groups[n := groups[n] + ws];
    FlatLast(groups, ws);
    assert args[..i + 2] == args[..i] + ws;
    OperandAt(groups, n);
    assert groups[..n + 1] == groups;
    forall g | 0 <= g <= n ensures PairsFrom(args, |Flat(next[..g])|, next[g]) {
      assert next[..g] == groups[..g];
      assert PairsFrom(args, |Flat(groups[..g])|, groups[g]);
      if g == n {
        PairsMore(args, |Flat(groups[..n])|, groups[n], ws);
      }
    }
  }

  lemma PairsMore(args: seq<Word>, start: nat, ws: seq<Word>, pair: seq<Word>)
    requires PairsFrom(args, start, ws) && Joins(args, start + |ws|) && |pair| == 2
    ensures PairsFrom(args, start, ws + pair)
  {
    forall p | start <= p < start + |ws + pair| && (p - start) % 2 == 1 ensures Joins(args, p) {
      assert p < start + |ws| || p == start + |ws|;
    }
  }

  lemma WordAdded(args: seq<Word>, i: nat, groups: seq<seq<Word>>)
    requires i < |args| && !Joins(args, i) && Flat(groups) == args[..i] && Pairs(args, groups)
    ensures var next := groups + [[args[i]]];
            Flat(next) == args[..i + 1] && Pairs(args, next)
  {
    hide Flat, PairsFrom;
    var next := groups + [[args[i]]];
    FlatNew(groups, args[i]);
    assert args[..i + 1] == args[..i] + [args[i]];
    forall g | 0 <= g < |next| ensures PairsFrom(args, |Flat(next[..g])|, next[g]) {
      assert next[..g] == groups[..g];
      if g < |groups| {
        assert PairsFrom(args, |Flat(groups[..g])|, groups[g]);
      } else {
        assert groups[..g] == groups;
        PairsOne(args, i);
      }
    }
  }

  lemma PairsOne(args: seq<Word>, i: nat)
    requires i < |args| && !Joins(args, i)
    ensures PairsFrom(args, i, [args[i]])
  {
  }

  lemma {:induction false} FlatPrefix(line: seq<seq<Word>>, g: nat)
    requires g <= |line|
    ensures Flat(line[..g]) <= Flat(line)
  {
    if g == |line| {
      assert line[..g] == line;
    } else {
      var front := line[..|line| - 1];
      FlatPrefix(front, g);
      assert front[..g] == line[..g];
    }
  }

  /** Where the words of one operand stand in the whole line. */
  lemma OperandAt(line: seq<seq<Word>>, g: nat)
    requires g < |line|
    ensures |Flat(line[..g + 1])| == |Flat(line[..g])| + |line[g]| <= |Flat(line)|
    ensures forall k :: 0 <= k < |line[g]| ==> Flat(line)[|Flat(line[..g])| + k] == line[g][k]
  {
    FlatPrefix(line, g + 1);
    var upTo := line[..g + 1];
    assert upTo[..g] == line[..g];
    assert Flat(upTo) == Flat(line[..g]) + line[g];
    assert Flat(line)[..|Flat(upTo)|] == Flat(upTo);
    forall k | 0 <= k < |line[g]| ensures Flat(line)[|Flat(line[..g])| + k] == line[g][k] {
      assert Flat(line)[..|Flat(upTo)|][|Flat(line[..g])| + k] == line[g][k];
    }
  }

  /** With `m` words of operand `g` merged, the rest of the line completes the operands. */
  lemma {:induction false} MergesOn(line: seq<seq<Word>>, g: nat, m: nat)
    requires Pairs(Flat(line), line) && g < |line| && 0 < m <= |line[g]| && m % 2 == 1
    ensures |Flat(line[..g])| + m <= |Flat(line)|
    ensures Grouped(Flat(line), |Flat(line[..g])| + m, line[..g] + [line[g][..m]]) == line
    decreases |line| - g, |line[g]| - m
  {
    hide Flat, Grouped;
    var args, p, groups := Flat(line), |Flat(line[..g])| + m, line[..g] + [line[g][..m]];
    OperandAt(line, g);
    assert PairsFrom(args, |Flat(line[..g])|, line[g]);
    if m < |line[g]| {
      assert Joins(args, p) && args[p] == line[g][m] && args[p + 1] == line[g][m + 1];
      MergesOn(line, g, m + 2);
      GroupedPair(args, p, groups);
      assert line[g][..m] + [COLON, args[p + 1]] == line[g][..m + 2];
      assert groups[g := groups[g] + [COLON, args[p + 1]]] == line[..g] + [line[g][..m + 2]];
    } else if g + 1 < |line| {
      OperandAt(line, g + 1);
      assert PairsFrom(args, |Flat(line[..g + 1])|, line[g + 1]);
      assert args[p] == line[g + 1][0] && !Joins(args, p);
      MergesOn(line, g + 1, 1);
      GroupedWord(args, p, groups);
      assert [args[p]] == line[g + 1][..1] && line[g][..m] == line[g];
      assert groups + [[args[p]]] == line[..g + 1] + [line[g + 1][..1]];
    } else {
      assert line[..g + 1] == line && line[g][..m] == line[g];
      assert groups == line;
      GroupedDone(args, groups);
    }
  }

  /** An operand with colons only between its words. */
  ghost predicate Operand(ws: seq<Word>) {
    |ws| % 2 == 1 && ws[0] != COLON && forall k :: 0 <= k < |ws| && k % 2 == 1 ==> ws[k] == COLON
  }

  ghost predicate SplitLine(line: seq<seq<Word>>) {
    && |line| >= 2 && |line[0]| == 1 && line[1] == ["cp"]
    && forall g :: 0 <= g < |line| ==> Operand(line[g])
  }

  lemma AfterCommand(line: seq<seq<Word>>, g: nat)
    requires SplitLine(line) && 1 < g < |line|
    ensures |Flat(line[..g])| >= 2
  {
    OperandAt(line, 0);
    OperandAt(line, 1);
    FlatPrefix(line[..g], 2);
    assert line[..g][..2] == line[..2] && Flat(line[..0]) == [];
  }

  /** A `cp` line of such operands is always given back. */
  lemma OperandsRecovered(line: seq<seq<Word>>)
    requires SplitLine(line)
    ensures IsCp(Flat(line)) && Grouped(Flat(line), 0, []) == line
  {
    hide Flat, Grouped, Operand;
    NoWords();
    OperandAt(line, 0);
    OperandAt(line, 1);
    assert line[..0] == [] && Flat(line)[|Flat(line[..1])| + 0] == line[1][0];
    forall g | 0 <= g < |line| ensures PairsFrom(Flat(line), |Flat(line[..g])|, line[g]) {
      OperandPairs(line, g);
    }
    MergeUndoesSplit(line);
  }

  lemma OperandPairs(line: seq<seq<Word>>, g: nat)
    requires SplitLine(line) && g < |line|
    ensures PairsFrom(Flat(line), |Flat(line[..g])|, line[g])
  {
    hide Flat;
    var args, start, ws := Flat(line), |Flat(line[..g])|, line[g];
    assert Operand(ws);
    OperandAt(line, g);
    assert args[start + 0] == ws[0];
    if g > 1 {
      AfterCommand(line, g);
      forall p | start <= p < start + |ws| && (p - start) % 2 == 1 ensures Joins(args, p) {
        assert args[start + (p - start)] == ws[p - start] && p - start < |ws| - 1;
      }
    } else {
      assert |ws| == 1;
    }
  }

  /** An operand that ends in its colon is not: `cp pod: path` becomes `cp pod:path`, and
      a final `pod:` stays two words. */
  lemma TrailingColon(rumpel: Word, pod: Word, path: Word)
    requires pod != COLON
    ensures Grouped([rumpel, "cp", pod, COLON, path], 0, []) == [[rumpel], ["cp"], [pod, COLON, path]]
    ensures Grouped([rumpel, "cp", pod, COLON], 0, []) == [[rumpel], ["cp"], [pod], [COLON]]
  {
    hide Grouped;
    var three := [[rumpel], ["cp"], [pod]];
    var args := [rumpel, "cp", pod, COLON, path];
    ThreeWords(args);
    GroupedPair(args, 3, three);
    assert three[2] + [COLON, args[4]] == [pod, COLON, path];
    assert three[2 := three[2] + [COLON, args[4]]] == [[rumpel], ["cp"], [pod, COLON, path]];
    GroupedDone(args, [[rumpel], ["cp"], [pod, COLON, path]]);
    var short := [rumpel, "cp", pod, COLON];
    ThreeWords(short);
    GroupedWord(short, 3, three);
    assert three + [[COLON]] == [[rumpel], ["cp"], [pod], [COLON]];
    GroupedDone(short, [[rumpel], ["cp"], [pod], [COLON]]);
  }

  /** A colon right behind `cp` is glued to it when a word follows. */
  lemma LeadingColon(rumpel: Word, path: Word)
    ensures Grouped([rumpel, "cp", COLON, path], 0, []) == [[rumpel], ["cp", COLON, path]]
    ensures Grouped([rumpel, "cp", COLON], 0, []) == [[rumpel], ["cp"], [COLON]]
  {
    hide Grouped;
    var two := [[rumpel], ["cp"]];
    var args := [rumpel, "cp", COLON, path];
    TwoWords(args);
    GroupedPair(args, 2, two);
    assert two[1] + [COLON, args[3]] == ["cp", COLON, path];
    assert two[1 := two[1] + [COLON, args[3]]] == [[rumpel], ["cp", COLON, path]];
    GroupedDone(args, [[rumpel], ["cp", COLON, path]]);
    var short := [rumpel, "cp", COLON];
    TwoWords(short);
    GroupedWord(short, 2, two);
    assert two + [[COLON]] == [[rumpel], ["cp"], [COLON]];
    GroupedDone(short, [[rumpel], ["cp"], [COLON]]);
  }

  lemma TwoWords(args: seq<Word>)
    requires |args| >= 2
    ensures Grouped(args, 0, []) == Grouped(args, 2, [[args[0]], [args[1]]])
  {
    hide Grouped;
    var one, two := [[args[0]]], [[args[0]], [args[1]]];
    GroupedWord(args, 0, []);
    assert [] + one == one;
    GroupedWord(args, 1, one);
    assert one + [[args[1]]] == two;
  }

  lemma ThreeWords(args: seq<Word>)
    requires |args| >= 3 && args[2] != COLON
    ensures Grouped(args, 0, []) == Grouped(args, 3, [[args[0]], [args[1]], [args[2]]])
  {
    hide Grouped;
    TwoWords(args);
    GroupedWord(args, 2, [[args[0]], [args[1]]]);
    assert [[args[0]], [args[1]]] + [[args[2]]] == [[args[0]], [args[1]], [args[2]]];
  }

  /** Only lines whose second word is `cp` are merged. */
  lemma OnlyCp(args: seq<Word>)
    ensures IsCp(args) <==> exists rumpel, rest: seq<Word> :: args == [rumpel, "cp"] + rest
  {
    if IsCp(args) {
      assert args == [args[0], "cp"] + args[2..];
    }
  }

  /** The words of `cp pod:path` after the merge. */
  lemma MergedOperand(rumpel: Word, pod: Word, path: Word)
    requires pod != ":"
    ensures IsCp([rumpel, "cp", pod, ":", path])
    ensures Glued(Grouped([rumpel, "cp", pod, ":", path], 0, [])) == [rumpel, "cp", pod + ":" + path]
    ensures !IsCp([rumpel, "enter", pod, ":", path])
  {
    assert "enter"[0] == 'e' && "cp"[0] == 'c';
    TrailingColon(rumpel, pod, path);
    hide Grouped, Glue;
    GlueOne(rumpel);
    GlueOne("cp");
    GlueOne(pod);
    GlueColon([pod], path);
    assert [pod] + [COLON, path] == [pod, COLON, path];
  }

  lemma GlueOne(w: Word)
    ensures Glue([w]) == w
  {
    assert [w][1..] == [] && w + "" == w;
  }
}
