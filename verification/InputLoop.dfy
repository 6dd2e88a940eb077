/** The input loop of a connection: commands parsed out of a byte stream that arrives in chunks. */
module InputLoop {
  import opened Bytes
  import opened Decimal
  import opened Resp
  import opened RespRoundTrip

  datatype Ending = EndOfStream | ParseStop(error: ParseError) | Crash

  /** The commands handled in order, the bytes they took, and how the loop ended. */
  datatype Outcome = Outcome(cmds: seq<seq<Bytes>>, bytes: nat, ending: Ending)

  /** The two errors after which the loop waits for more input. */
  predicate Retries(e: ParseError)
  {
    e == NotEnough || e == ExpectedArray
  }

  /** What the loop does with `buf` in hand and `chunks` still to arrive. A command without any
      element crashes the dispatcher, which looks at the first one. */
  function Loop(buf: Bytes, chunks: seq<Bytes>): Outcome
    decreases |chunks|, |buf|
  {
    if |buf| == 0 then
      if |chunks| == 0 then Outcome([], 0, EndOfStream) else Loop(chunks[0], chunks[1..])
    else
      match ParseResult(buf)
      case Panics => Outcome([], 0, Crash)
      case Failed(e) =>
        if !Retries(e) then Outcome([], 0, ParseStop(e))
        else if |chunks| == 0 then Outcome([], 0, EndOfStream)
        else Loop(buf + chunks[0], chunks[1..])
      case Parsed(args, pos) =>
        if |args| == 0 then Outcome([], 0, Crash)
        else
          var rest := Loop(buf[pos..], chunks);
          Outcome([args] + rest.cmds, pos + rest.bytes, rest.ending)
  }

  class Connection {
    const isSlave: bool
    var masterReplOffset: int
    /** The commands given to the dispatcher so far. */
    var handled: seq<seq<Bytes>>

    constructor (isSlave: bool)
      ensures this.isSlave == isSlave && masterReplOffset == 0 && handled == []
    {
      this.isSlave := isSlave;
      masterReplOffset := 0;
      handled := [];
    }

    method TrackOffset(offsetToAdd: nat)
      modifies `masterReplOffset
      ensures masterReplOffset == old(masterReplOffset) + if isSlave then offsetToAdd else 0
    {
      if isSlave {
        masterReplOffset := masterReplOffset + offsetToAdd;
      }
    }

    /** Reads the chunks one after the other; the end of `chunks` is a read error. */
    method HandleIncomingStream(chunks: seq<Bytes>) returns (ending: Ending)
      modifies this
      ensures handled == old(handled) + Loop([], chunks).cmds && ending == Loop([], chunks).ending
      ensures masterReplOffset == old(masterReplOffset) + if isSlave then Loop([], chunks).bytes else 0
    {
      var buf: Bytes := [];
      var next := 0;
      ghost var whole := Loop([], chunks);
      assert chunks[0..] == chunks;
      while true
        invariant next <= |chunks|
        invariant var rest := Loop(buf, chunks[next..]);
          && old(handled) + whole.cmds == handled + rest.cmds && whole.ending == rest.ending
          && masterReplOffset - old(masterReplOffset) == if isSlave then whole.bytes - rest.bytes else 0
        decreases |chunks| - next, |buf|
      {
        if |buf| == 0 {
          if next == |chunks| {
            return EndOfStream;
          }
          buf := chunks[next];
          next := next + 1;
          continue;
        }
        var parsed := ParseCommand(buf);
        match parsed
        case Panics =>
          return Crash;
        case Failed(e) =>
          if Retries(e) {
            if next == |chunks| {
              return EndOfStream;
            }
            buf := buf + chunks[next];
            next := next + 1;
          } else {
            return ParseStop(e);
          }
        case Parsed(args, pos) =>
          if |args| == 0 {
            return Crash;
          }
          ghost var rest := Loop(buf[pos..], chunks[next..]);
          assert handled + ([args] + rest.cmds) == handled + [args] + rest.cmds;
          handled := handled + [args];
          TrackOffset(pos);
          buf := buf[pos..];
      }
    }
  }

  // Any chunking of a well-formed stream

  /** A stream of printed commands. */
  function Wire(cmds: seq<seq<Bytes>>): Bytes
  {
    if |cmds| == 0 then [] else Encode(cmds[0]) + Wire(cmds[1..])
  }

  function Joined(chunks: seq<Bytes>): Bytes
  {
    if |chunks| == 0 then [] else chunks[0] + Joined(chunks[1..])
  }

  /** Commands a client can send: at least the name, and small enough for the server's integers. */
  ghost predicate Sendable(cmds: seq<seq<Bytes>>)
  {
    forall i :: 0 <= i < |cmds| ==> 0 < |cmds[i]| <= MAX_INT64 && |Encode(cmds[i])| <= MAX_INT64
  }

  /** `t` bytes into the command lies inside a payload: some of the current argument is still missing. */
  predicate InPayload(args: seq<Bytes>, t: nat)
  {
    |ArrayHead(|args|)| <= t && InBulkPayload(args, t - |ArrayHead(|args|)|)
  }

  predicate InBulkPayload(args: seq<Bytes>, k: nat)
  {
    |args| > 0 &&
    if k < |Bulk(args[0])| then |BulkHead(args[0])| <= k < |BulkHead(args[0])| + |args[0]|
    else InBulkPayload(args[1..], k - |Bulk(args[0])|)
  }

  /** Cutting the stream at `t` is harmless: between two commands, or inside a payload. */
  predicate GoodCut(cmds: seq<seq<Bytes>>, t: nat)
  {
    t == 0 || (|cmds| > 0 &&
      if t < |Encode(cmds[0])| then InPayload(cmds[0], t) else GoodCut(cmds[1..], t - |Encode(cmds[0])|))
  }

  /** Every place where the reads cut the stream is harmless; `t` bytes have been read before `chunks`. */
  predicate GoodCuts(cmds: seq<seq<Bytes>>, t: nat, chunks: seq<Bytes>)
    decreases |chunks|
  {
    GoodCut(cmds, t) && (|chunks| > 0 ==> GoodCuts(cmds, t + |chunks[0]|, chunks[1..]))
  }

  lemma {:induction false} RetriesInPayload(args: seq<Bytes>, k: nat)
    requires k < |Bulks(args)|
    ensures Retries(BulksCutError(args, k)) <==> InBulkPayload(args, k)
  {
    if k >= |Bulk(args[0])| {
      RetriesInPayload(args[1..], k - |Bulk(args[0])|);
    }
  }

  lemma CutRetries(args: seq<Bytes>, t: nat)
    requires 0 < t < |Encode(args)|
    ensures Retries(CutError(args, t)) <==> InPayload(args, t)
  {
    if t >= |ArrayHead(|args|)| {
      RetriesInPayload(args, t - |ArrayHead(|args|)|);
    }
  }

  lemma {:induction false} GoodCutsTail(cmds: seq<seq<Bytes>>, t: nat, chunks: seq<Bytes>)
    requires |cmds| > 0 && t >= |Encode(cmds[0])|
    ensures GoodCuts(cmds, t, chunks) <==> GoodCuts(cmds[1..], t - |Encode(cmds[0])|, chunks)
    decreases chunks
  {
    if |chunks| > 0 {
      GoodCutsTail(cmds, t + |chunks[0]|, chunks[1..]);
    }
  }

  lemma {:induction false} GoodAtEnd(cmds: seq<seq<Bytes>>)
    ensures GoodCut(cmds, |Wire(cmds)|)
  {
    if |cmds| > 0 {
      GoodAtEnd(cmds[1..]);
    }
  }

  /** Whatever the chunking, only commands of the stream are handled, in order and from the start on;
      all of them are, with all their bytes, exactly when every cut is harmless. */
  lemma {:induction false} LoopOnWire(cmds: seq<seq<Bytes>>, buf: Bytes, chunks: seq<Bytes>)
    requires Sendable(cmds) && buf + Joined(chunks) == Wire(cmds)
    ensures Loop(buf, chunks).cmds <= cmds
    ensures Loop(buf, chunks) == Outcome(cmds, |Wire(cmds)|, EndOfStream) <==> GoodCuts(cmds, |buf|, chunks)
    ensures !GoodCuts(cmds, |buf|, chunks) ==> Loop(buf, chunks).cmds < cmds && Loop(buf, chunks).ending.ParseStop?
    decreases |chunks|, |buf|
  {
    hide Encode, InPayload, ParseResult, CutError;
    if |buf| == 0 {
      if |chunks| > 0 {
        assert chunks[0] + Joined(chunks[1..]) == Wire(cmds);
        LoopOnWire(cmds, chunks[0], chunks[1..]);
      } else if |cmds| > 0 {
        WireNonEmpty(cmds);
        assert false;
      }
    } else {
      assert |cmds| > 0;
      var e, w := Encode(cmds[0]), Wire(cmds);
      assert w == e + Wire(cmds[1..]) && buf == w[..|buf|] && Joined(chunks) == w[|buf|..];
      if |buf| < |e| {
        assert buf == e[..|buf|];
        ParseCut(cmds[0], |buf|);
        CutRetries(cmds[0], |buf|);
        assert |chunks| > 0;
        if InPayload(cmds[0], |buf|) {
          assert buf + chunks[0] + Joined(chunks[1..]) == Wire(cmds);
          LoopOnWire(cmds, buf + chunks[0], chunks[1..]);
        }
      } else {
        var rest := buf[|e|..];
        assert e == w[..|e|] && Wire(cmds[1..]) == w[|e|..];
        assert buf == e + rest;
        ParseEncode(cmds[0], rest);
        assert rest + Joined(chunks) == Wire(cmds[1..]);
        EncodeNonEmpty(cmds[0]);
        LoopOnWire(cmds[1..], rest, chunks);
        GoodCutsTail(cmds, |buf|, chunks);
        assert cmds == [cmds[0]] + cmds[1..];
      }
    }
  }

  lemma EncodeNonEmpty(args: seq<Bytes>)
    ensures |Encode(args)| > 0
  {
  }

  lemma WireNonEmpty(cmds: seq<seq<Bytes>>)
    requires |cmds| > 0
    ensures |Wire(cmds)| > 0
  {
    EncodeNonEmpty(cmds[0]);
  }

  /** The whole stream from its start: every chunking that only cuts harmlessly gives the same
      commands and the same count of bytes. */
  lemma ChunkingDoesNotMatter(cmds: seq<seq<Bytes>>, chunks: seq<Bytes>)
    requires Sendable(cmds) && Joined(chunks) == Wire(cmds)
    ensures Loop([], chunks) == Outcome(cmds, |Wire(cmds)|, EndOfStream) <==> GoodCuts(cmds, 0, chunks)
  {
    assert [] + Joined(chunks) == Wire(cmds);
    LoopOnWire(cmds, [], chunks);
  }

  /** A read that ends right after a command's first byte stops the connection. */
  lemma CutAfterFirstByteStops(args: seq<Bytes>)
    requires Sendable([args])
    ensures var w := Wire([args]);
      Joined([w[..1], w[1..]]) == w && Loop([], [w[..1], w[1..]]) == Outcome([], 0, ParseStop(NoCRLF))
  {
    var w := Wire([args]);
    assert w == Encode(args);
    var chunks := [w[..1], w[1..]];
    assert chunks[1..] == [w[1..]] && [w[1..]][1..] == [];
    assert Joined([w[1..]]) == w[1..] + Joined([]);
    ParseCut(args, 1);
  }
}
