/** `rumpel exec`: what the client reads and writes, and the client, daemon and pod
    as one transition system in which requests and responses may be lost. */
module ExecProtocol {
  import opened Bytes
  import opened ExecStream

  // ---- the output loop -----------------------------------------------------

  datatype Outcome = ExitCode(code: Byte) | RemoteError(text: Bytes) | InvalidResponse | UnknownOutcome

  datatype Output = Output(stdout: Bytes, stderr: Bytes, outcome: Outcome)

  /** `read_output` on everything the response stream delivers. */
  method ReadOutput(reader: Reader) returns (out: Output)
    modifies reader
    ensures out == Outputs(ReadAll(old(reader.rest)).0)
  {
    hide Parse, ReadAll;
    var stdout, stderr: Bytes := [], [];
    ghost var all := ReadAll(reader.rest).0;
    while true
      invariant var tail := Outputs(ReadAll(reader.rest).0);
                Outputs(all) == Output(stdout + tail.stdout, stderr + tail.stderr, tail.outcome)
      decreases |reader.rest|
    {
      NextFrame(reader.rest);
      var frame := reader.ReadFrame();
      match frame {
        case End =>
          return Output(stdout + [], stderr + [], UnknownOutcome);
        case Failed(_) =>
          return Output(stdout + [], stderr + [], UnknownOutcome);
        case Got(f, rest) =>
          match f {
            case Stdout(data) =>
              Assoc(stdout, data, Outputs(ReadAll(rest).0).stdout);
              stdout := stdout + data;
            case Stderr(data) =>
              Assoc(stderr, data, Outputs(ReadAll(rest).0).stderr);
              stderr := stderr + data;
            case Exit(code) =>
              return Output(stdout + [], stderr + [], ExitCode(code));
            case Error(text) =>
              return Output(stdout + [], stderr + [], RemoteError(text));
            case Stdin(_) =>
              return Output(stdout + [], stderr + [], InvalidResponse);
            case StdinEof =>
              return Output(stdout + [], stderr + [], InvalidResponse);
          }
      }
    }
  }

  lemma NextFrame(bs: Bytes)
    ensures match Parse(bs)
            case Got(f, rest) => |rest| < |bs| && var fs := ReadAll(bs).0; fs != [] && fs[0] == f && fs[1..] == ReadAll(rest).0
            case End => ReadAll(bs).0 == []
            case Failed(_) => ReadAll(bs).0 == []
  {
    hide Parse;
    var p := Parse(bs);
    if p.Got? {
      ParseIff(bs, p.frame, p.rest);
      assert ReadAll(bs).0 == [p.frame] + ReadAll(p.rest).0;
    }
  }

  function Outputs(fs: seq<Frame>): Output {
    if fs == [] then Output([], [], UnknownOutcome)
    else
      match fs[0]
      case Stdout(d) =>
        var o := Outputs(fs[1..]);
        o.(stdout := d + o.stdout)
      case Stderr(d) =>
        var o := Outputs(fs[1..]);
        o.(stderr := d + o.stderr)
      case Exit(c) => Output([], [], ExitCode(c))
      case Error(t) => Output([], [], RemoteError(t))
      case Stdin(_) => Output([], [], InvalidResponse)
      case StdinEof => Output([], [], InvalidResponse)
  }

  ghost predicate OnlyOutput(fs: seq<Frame>) {
    forall i :: 0 <= i < |fs| ==> fs[i].Stdout? || fs[i].Stderr?
  }

  /** The bytes that frames with one tag carry, in order. */
  function Data(fs: seq<Frame>, tag: Byte): Bytes {
    if fs == [] then [] else (if Tag(fs[0]) == tag then Payload(fs[0]) else []) + Data(fs[1..], tag)
  }

  const STDOUT: Byte := 3
  const STDERR: Byte := 4

  lemma {:induction false} OutputsAppend(fs: seq<Frame>, gs: seq<Frame>)
    requires OnlyOutput(fs)
    ensures var o := Outputs(gs);
            Outputs(fs + gs) == Output(Data(fs, STDOUT) + o.stdout, Data(fs, STDERR) + o.stderr, o.outcome)
  {
    var o := Outputs(gs);
    if fs == [] {
      assert fs + gs == gs && [] + o.stdout == o.stdout && [] + o.stderr == o.stderr;
    } else {
      var f, rest := fs[0], fs[1..];
      assert (fs + gs)[0] == f && (fs + gs)[1..] == rest + gs;
      OutputsAppend(rest, gs);
      hide Data;
      DataCons(fs, STDOUT);
      DataCons(fs, STDERR);
      Assoc(Payload(f), Data(rest, STDOUT), o.stdout);
      Assoc(Payload(f), Data(rest, STDERR), o.stderr);
    }
  }

  lemma DataCons(fs: seq<Frame>, tag: Byte)
    requires fs != []
    ensures Data(fs, tag) == if Tag(fs[0]) == tag then Payload(fs[0]) + Data(fs[1..], tag) else Data(fs[1..], tag)
  {
  }

  /** What stands where the output frames end: the frame that decides the outcome, or
      nothing that can be read. */
  ghost predicate Decides(rest: Bytes, o: Outcome) {
    match o
    case ExitCode(c) => exists tail :: rest == Encode(Exit(c)) + tail
    case RemoteError(t) => exists tail :: rest == Encode(Error(t)) + tail && |t| <= 65536 && ValidUtf8(t)
    case InvalidResponse =>
      || (exists tail :: rest == Encode(StdinEof) + tail)
      || (exists d: Bytes, tail :: rest == Encode(Stdin(d)) + tail && |d| <= 65536)
    case UnknownOutcome => forall f, tail :: |Payload(f)| <= 65536 && IsFrame(f) ==> rest != Encode(f) + tail
  }

  /** The delivered bytes are whole output frames with this data, and then `rest`. */
  ghost predicate Shown(bs: Bytes, out: Bytes, err: Bytes, fs: seq<Frame>, rest: Bytes) {
    && OnlyOutput(fs) && Sendable(fs) && bs == EncodeAll(fs) + rest
    && out == Data(fs, STDOUT) && err == Data(fs, STDERR)
  }

  /** What is written to each output and what is reported, exactly, for every stream:
      the data of the leading output frames, and an outcome by what stands behind them.
      So an exit code needs a whole exit frame, and a stream cut earlier never has one. */
  lemma OutcomeIff(bs: Bytes, out: Bytes, err: Bytes, o: Outcome)
    ensures Outputs(ReadAll(bs).0) == Output(out, err, o) <==>
            exists fs: seq<Frame>, rest: Bytes :: Shown(bs, out, err, fs, rest) && Decides(rest, o)
  {
    hide Parse, ReadAll, Encode, EncodeAll, Outputs, Data, OnlyOutput, Sendable, Decides;
    var fs, rest := OutputFront(bs);
    var was := Outputs(ReadAll(bs).0);
    Reported(fs, rest, was.outcome);
    if was == Output(out, err, o) {
      assert Shown(bs, out, err, fs, rest) && Decides(rest, o);
    }
    forall gs: seq<Frame>, tail: Bytes | Shown(bs, out, err, gs, tail) && Decides(tail, o)
      ensures was == Output(out, err, o)
    {
      Reported(gs, tail, o);
    }
  }

  /** The leading output frames, and the rest with its outcome. */
  lemma {:induction false} OutputFront(bs: Bytes) returns (fs: seq<Frame>, rest: Bytes)
    ensures OnlyOutput(fs) && Sendable(fs) && bs == EncodeAll(fs) + rest
    ensures Decides(rest, Outputs(ReadAll(bs).0).outcome)
    decreases |bs|
  {
    hide Parse, Encode, Decides;
    NextFrame(bs);
    var r := Parse(bs);
    if r.Got? && (r.frame.Stdout? || r.frame.Stderr?) {
      ParseIff(bs, r.frame, r.rest);
      var gs;
      gs, rest := OutputFront(r.rest);
      fs := [r.frame] + gs;
      assert fs[1..] == gs;
      Assoc(Encode(r.frame), EncodeAll(gs), rest);
    } else {
      fs, rest := [], bs;
      assert [] + bs == bs;
      Decided(bs);
    }
  }

  /** A stream that starts with no output frame is decided by its start. */
  lemma Decided(bs: Bytes)
    requires var r := Parse(bs); r.Got? ==> !r.frame.Stdout? && !r.frame.Stderr?
    ensures var o := Outputs(ReadAll(bs).0); o.stdout == [] && o.stderr == [] && Decides(bs, o.outcome)
  {
    hide Parse, Encode, ReadAll, ValidUtf8;
    NextFrame(bs);
    var r := Parse(bs);
    if r.Got? {
      ParseIff(bs, r.frame, r.rest);
      assert bs == Encode(r.frame) + r.rest;
    } else {
      forall f, tail | |Payload(f)| <= 65536 && IsFrame(f) ensures bs != Encode(f) + tail {
        ParseIff(bs, f, tail);
      }
    }
  }

  lemma DecidesStart(rest: Bytes, o: Outcome)
    requires Decides(rest, o)
    ensures Outputs(ReadAll(rest).0) == Output([], [], o)
  {
    hide Encode, ReadAll, Parse, ValidUtf8;
    NextFrame(rest);
    match o
    case ExitCode(c) =>
      var tail :| rest == Encode(Exit(c)) + tail;
      ParseIff(rest, Exit(c), tail);
    case RemoteError(t) =>
      var tail :| rest == Encode(Error(t)) + tail;
      ParseIff(rest, Error(t), tail);
    case InvalidResponse =>
      if tail :| rest == Encode(StdinEof) + tail {
        ParseIff(rest, StdinEof, tail);
      } else {
        var d: Bytes, tail :| rest == Encode(Stdin(d)) + tail && |d| <= 65536;
        ParseIff(rest, Stdin(d), tail);
      }
    case UnknownOutcome =>
      var r := Parse(rest);
      if r.Got? {
        ParseIff(rest, r.frame, r.rest);
      }
  }

  lemma Reported(fs: seq<Frame>, rest: Bytes, o: Outcome)
    requires OnlyOutput(fs) && Sendable(fs) && Decides(rest, o)
    ensures Outputs(ReadAll(EncodeAll(fs) + rest).0) == Output(Data(fs, STDOUT), Data(fs, STDERR), o)
  {
    hide Parse, Encode, EncodeAll, Data, ReadAll, Outputs, Decides;
    ReadAllFrames(fs, rest);
    DecidesStart(rest, o);
    OutputsAppend(fs, ReadAll(rest).0);
    assert Data(fs, STDOUT) + [] == Data(fs, STDOUT) && Data(fs, STDERR) + [] == Data(fs, STDERR);
  }

  // ---- the input loop ------------------------------------------------------

  /** The pieces `stdin.read` returns, none longer than the buffer. */
  ghost predicate Chunks(pieces: seq<Bytes>) {
    forall i :: 0 <= i < |pieces| ==> 0 < |pieces[i]| <= CHUNK_SIZE
  }

  function StdinFrames(pieces: seq<Bytes>): seq<Frame> {
    if pieces == [] then [StdinEof] else [Stdin(pieces[0])] + StdinFrames(pieces[1..])
  }

  /** What a receiver takes that goes away after `accept` frames. */
  function Taken(fs: seq<Frame>, accept: nat): seq<Frame> {
    if accept < |fs| then fs[..accept] else fs
  }

  lemma {:induction false} StdinFrameAt(pieces: seq<Bytes>, i: nat)
    requires i < |StdinFrames(pieces)|
    ensures |StdinFrames(pieces)| == |pieces| + 1
    ensures StdinFrames(pieces)[i] == if i < |pieces| then Stdin(pieces[i]) else StdinEof
  {
    if pieces != [] {
      StdinFrameAt(pieces[1..], if i > 0 then i - 1 else 0);
    }
  }

  lemma {:induction false} EncodeAllMore(fs: seq<Frame>, f: Frame)
    ensures EncodeAll(fs + [f]) == EncodeAll(fs) + Encode(f)
  {
    hide Encode;
    if fs == [] {
      assert fs + [f] == [f] && [f][1..] == [] && Encode(f) + [] == [] + Encode(f);
    } else {
      assert (fs + [f])[1..] == fs[1..] + [f];
      EncodeAllMore(fs[1..], f);
      Assoc(Encode(fs[0]), EncodeAll(fs[1..]), Encode(f));
    }
  }

  /** `forward_stdin`: one frame per piece and then the end of input, up to the frame
      at which the receiver is gone. */
  method ForwardStdin(pieces: seq<Bytes>, accept: nat) returns (sent: Bytes)
    requires Chunks(pieces)
    ensures ReadAll(sent) == (Taken(StdinFrames(pieces), accept), CleanEnd)
  {
    hide Encode, EncodeAll, StdinFrames, ReadAll;
    ghost var fs := StdinFrames(pieces);
    StdinSendable(pieces);
    NoFrames();
    sent := [];
    var i := 0;
    while i <= |pieces| && i < accept
      invariant i <= |pieces| + 1 == |fs| && i <= accept
      invariant sent == EncodeAll(fs[..i])
    {
      StdinFrameAt(pieces, i);
      var frame := if i == |pieces| then StdinEof else Stdin(pieces[i]);
      EncodeAllMore(fs[..i], frame);
      assert fs[..i + 1] == fs[..i] + [frame];
      sent := sent + Encode(frame);
      i := i + 1;
    }
    assert fs[..|fs|] == fs;
    StreamRoundTrip(fs[..i]);
  }

  lemma NoFrames()
    ensures EncodeAll([]) == []
  {
  }

  lemma {:induction false} StdinSendable(pieces: seq<Bytes>)
    requires Chunks(pieces)
    ensures Sendable(StdinFrames(pieces)) && |StdinFrames(pieces)| == |pieces| + 1
  {
    if pieces != [] {
      StdinSendable(pieces[1..]);
    }
  }
}
