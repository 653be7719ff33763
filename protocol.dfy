/**
  The request/response exchange with the display, as functions on the
  state of one serial link. The reader splits incoming bytes into lines at
  each line feed, strips them, and remembers whether one of them was the
  acknowledgement `OK` and which line came last. A send writes one command
  line and polls the port at most ten times for an answer.

  The port is a queue of chunks: each poll drains the chunk that is
  waiting (nothing once the queue is empty). What the driver writes is
  collected in `sent`, one entry per write.
 */
module Protocol {
  import opened Text

  const LF: char := '\n'
  const CRLF: string := "\r\n"
  const Ack: string := "OK"
  /** How many times a send polls the port before giving up. */
  const PollBudget: nat := 10

  /** The lines the reader has emitted and the bytes still waiting for a line feed. */
  datatype ScanState = ScanState(lines: seq<string>, pending: string)

  /** The reader's step for one byte: a line feed emits the stripped pending bytes as a line. */
  function Feed(s: ScanState, c: char): ScanState {
    if c == LF then ScanState(s.lines + [Strip(s.pending)], []) else ScanState(s.lines, s.pending + [c])
  }

  /** The reader's state after `data` arrives on top of the pending bytes `buf`, byte by byte. */
  function Scan(buf: string, data: string): ScanState
    decreases |data|
  {
    if data == [] then ScanState([], buf) else Feed(Scan(buf, data[..|data| - 1]), data[|data| - 1])
  }

  /** The pending bytes never hold a line feed, unless the buffer started with one. */
  lemma {:induction false} ScanPendingFree(buf: string, data: string)
    requires LF !in buf
    ensures LF !in Scan(buf, data).pending
    decreases |data|
  {
    if data != [] {
      ScanPendingFree(buf, data[..|data| - 1]);
    }
  }

  /** One more byte is one more step. */
  lemma ScanSnoc(buf: string, data: string, c: char)
    ensures Scan(buf, data + [c]) == Feed(Scan(buf, data), c)
  {
    assert (data + [c])[..|data|] == data;
  }

  /** The reader's step for the byte at index `i`. */
  lemma ScanStep(buf: string, data: string, i: nat)
    requires i < |data|
    ensures Scan(buf, data[..i + 1]) == Feed(Scan(buf, data[..i]), data[i])
  {
    assert data[..i + 1][..i] == data[..i];
  }

  /** Lines emitted before do not affect a step. */
  lemma FeedAfter(earlier: seq<string>, s: ScanState, c: char)
    ensures Feed(ScanState(earlier + s.lines, s.pending), c)
      == ScanState(earlier + Feed(s, c).lines, Feed(s, c).pending)
  {
    if c == LF {
      assert (earlier + s.lines) + [Strip(s.pending)] == earlier + (s.lines + [Strip(s.pending)]);
    }
  }

  /** One stripped line per piece that a line feed terminates. */
  function Strips(pieces: seq<string>): seq<string> {
    seq(|pieces|, k requires 0 <= k < |pieces| => Strip(pieces[k]))
  }

  lemma StripsSnoc(pieces: seq<string>, last: string)
    ensures Strips(pieces + [last]) == Strips(pieces) + [Strip(last)]
  {
    var l, r := Strips(pieces + [last]), Strips(pieces) + [Strip(last)];
    assert |l| == |r|;
    forall k | 0 <= k < |l| ensures l[k] == r[k] {
      if k < |pieces| {
        assert (pieces + [last])[k] == pieces[k];
      }
    }
  }

  /**
    The reader is a line splitter: its lines are the stripped pieces of
    `buf + data` that end in a line feed, and what is left pending is the
    unterminated last piece.
   */
  lemma {:induction false} ScanSplits(buf: string, data: string)
    requires LF !in buf
    ensures var p := Split(buf + data, LF);
      Scan(buf, data) == ScanState(Strips(p[..|p| - 1]), p[|p| - 1])
    decreases |data|
  {
    if data == [] {
      assert buf + data == buf;
      SplitNoSeparator(buf, LF);
    } else {
      var init := data[..|data| - 1];
      var c := data[|data| - 1];
      ScanSplits(buf, init);
      var p := Split(buf + init, LF);
      var p' := Split(buf + data, LF);
      assert p' == if c == LF then p + [[]] else p[..|p| - 1] + [p[|p| - 1] + [c]] by {
        assert buf + data == (buf + init) + [c];
        SplitSnoc(buf + init, c, LF);
      }
      var s := Scan(buf, init);
      assert s == ScanState(Strips(p[..|p| - 1]), p[|p| - 1]);
      if c == LF {
        assert Scan(buf, data) == ScanState(s.lines + [Strip(s.pending)], []);
        StripsOpen(p, p');
      } else {
        assert Scan(buf, data) == ScanState(s.lines, s.pending + [c]);
        assert p'[..|p'| - 1] == p[..|p| - 1];
      }
    }
  }

  /** A line feed closes the open piece: it joins the stripped lines, and a new empty piece opens. */
  lemma StripsOpen(p: seq<string>, p': seq<string>)
    requires |p| >= 1 && p' == p + [[]]
    ensures Strips(p'[..|p'| - 1]) == Strips(p[..|p| - 1]) + [Strip(p[|p| - 1])]
  {
    assert p'[..|p'| - 1] == p;
    assert p == p[..|p| - 1] + [p[|p| - 1]];
    StripsSnoc(p[..|p| - 1], p[|p| - 1]);
  }

  /** One line per line-feed byte. */
  lemma {:induction false} ScanCountsLineFeeds(buf: string, data: string)
    ensures |Scan(buf, data).lines| == multiset(data)[LF]
    decreases |data|
  {
    if data != [] {
      var init := data[..|data| - 1];
      ScanCountsLineFeeds(buf, init);
      assert data == init + [data[|data| - 1]];
      assert multiset(data) == multiset(init) + multiset{data[|data| - 1]};
    }
  }

  /** Bytes without a line feed only accumulate. */
  lemma {:induction false} ScanQuiet(buf: string, data: string)
    requires LF !in data
    ensures Scan(buf, data) == ScanState([], buf + data)
    decreases |data|
  {
    if data != [] {
      var init := data[..|data| - 1];
      assert LF !in init by {
        assert forall k :: 0 <= k < |init| ==> init[k] == data[k];
      }
      ScanQuiet(buf, init);
      assert buf + data == (buf + init) + [data[|data| - 1]];
    }
  }

  /** Feeding bytes in two parts is feeding them at once. */
  lemma {:induction false} ScanConcat(buf: string, a: string, b: string)
    ensures Scan(buf, a + b)
      == ScanState(Scan(buf, a).lines + Scan(Scan(buf, a).pending, b).lines, Scan(Scan(buf, a).pending, b).pending)
    decreases |b|
  {
    if b == [] {
      assert a + b == a;
    } else {
      var init, c := b[..|b| - 1], b[|b| - 1];
      assert b == init + [c];
      assert a + b == (a + init) + [c];
      ScanConcat(buf, a, init);
      ScanSnoc(buf, a + init, c);
      FeedAfter(Scan(buf, a).lines, Scan(Scan(buf, a).pending, init), c);
    }
  }

  /** The serial link: the reader's state, the port's pending chunks and what was written. */
  datatype Channel = Channel(buf: string, ok: bool, body: string, incoming: seq<string>, sent: seq<string>)

  /** The chunk that the `j`-th poll from now will drain. */
  function Chunk(incoming: seq<string>, j: nat): string {
    if j < |incoming| then incoming[j] else []
  }

  /** The chunks left after `k` polls. */
  function Drop(incoming: seq<string>, k: nat): seq<string> {
    if k <= |incoming| then incoming[k..] else []
  }

  /** After `k` polls, the `j`-th chunk waiting is the one that was `j + k`-th. */
  lemma ChunkDrop(incoming: seq<string>, k: nat)
    ensures forall j: nat :: Chunk(Drop(incoming, k), j) == Chunk(incoming, j + k)
  {
  }

  /** Everything the next `k` polls drain, in order. */
  function Delivered(incoming: seq<string>, k: nat): string
    decreases k
  {
    if k == 0 then [] else Chunk(incoming, 0) + Delivered(Drop(incoming, 1), k - 1)
  }

  /**
    One poll of the port (`ReadBack`): drain the waiting chunk through the
    reader. With no complete line nothing else changes and the poll reports
    nothing; otherwise an `OK` line sets the acknowledgement, the last line
    becomes the status text, and the poll reports an answer.
   */
  function Poll(ch: Channel): (Channel, bool) {
    var s := Scan(ch.buf, Chunk(ch.incoming, 0));
    var drained := ch.(buf := s.pending, incoming := Drop(ch.incoming, 1));
    if s.lines == [] then (drained, false)
    else (drained.(ok := ch.ok || Ack in s.lines, body := s.lines[|s.lines| - 1]), true)
  }

  /** A poll in terms of what the reader made of the waiting chunk. */
  lemma PollOutcome(ch: Channel, lines: seq<string>, pending: string)
    requires Scan(ch.buf, Chunk(ch.incoming, 0)) == ScanState(lines, pending)
    ensures lines == [] ==> Poll(ch) == (ch.(buf := pending, incoming := Drop(ch.incoming, 1)), false)
    ensures lines != [] ==> Poll(ch) == (ch.(buf := pending, incoming := Drop(ch.incoming, 1),
                                             ok := ch.ok || Ack in lines, body := Last(lines)), true)
  {
  }

  /** Polls at most `n` times, stopping at the first poll that brings a line. */
  function PollLoop(ch: Channel, n: nat): (Channel, bool)
    decreases n
  {
    if n == 0 then (ch, false)
    else
      var (ch', received) := Poll(ch);
      if received then (ch', true) else PollLoop(ch', n - 1)
  }

  /** `send_serial`: clear the acknowledgement and status, write the command line, poll for an answer. */
  function Send(ch: Channel, cmd: string): (Channel, bool) {
    PollLoop(ch.(ok := false, body := [], sent := ch.sent + [cmd + CRLF]), PollBudget)
  }

  /** Sends `cmds` one after the other, stopping after the first one that gets no answer. */
  function SendAll(ch: Channel, cmds: seq<string>): (Channel, bool)
    decreases |cmds|
  {
    if cmds == [] then (ch, true)
    else
      var (ch', received) := Send(ch, cmds[0]);
      if received then SendAll(ch', cmds[1..]) else (ch', false)
  }

  /** The last element of a non-empty sequence. */
  function Last(s: seq<string>): string
    requires s != []
  {
    s[|s| - 1]
  }

  /** The command lines that sending `cmds` writes. */
  function Lines(cmds: seq<string>): (r: seq<string>)
    ensures |r| == |cmds|
    ensures forall k :: 0 <= k < |r| ==> r[k] == cmds[k] + CRLF
    decreases |cmds|
  {
    if cmds == [] then [] else [cmds[0] + CRLF] + Lines(cmds[1..])
  }

  /** A poll reports an answer exactly when its chunk holds a line feed; a quiet poll only buffers. */
  lemma PollAnswersOnLineFeed(ch: Channel)
    ensures Poll(ch).1 <==> LF in Chunk(ch.incoming, 0)
    ensures !Poll(ch).1 ==> Poll(ch).0 == ch.(buf := ch.buf + Chunk(ch.incoming, 0), incoming := Drop(ch.incoming, 1))
  {
    var data := Chunk(ch.incoming, 0);
    ScanCountsLineFeeds(ch.buf, data);
    if LF !in data {
      ScanQuiet(ch.buf, data);
    } else {
      assert multiset(data)[LF] > 0;
    }
  }

  /** Polling never writes. */
  lemma {:induction false} PollLoopKeepsSent(ch: Channel, n: nat)
    ensures PollLoop(ch, n).0.sent == ch.sent
    decreases n
  {
    if n > 0 {
      PollLoopKeepsSent(Poll(ch).0, n - 1);
    }
  }

  /** The poll loop reports an answer exactly when one of its `n` chunks holds a line feed. */
  lemma {:induction false} PollLoopAnswers(ch: Channel, n: nat)
    ensures PollLoop(ch, n).1 <==> exists j :: 0 <= j < n && LF in Chunk(ch.incoming, j)
    decreases n
  {
    if n > 0 {
      PollAnswersOnLineFeed(ch);
      var ch' := Poll(ch).0;
      PollLoopAnswers(ch', n - 1);
      if !Poll(ch).1 {
        assert forall j :: 0 <= j < n - 1 ==> Chunk(ch'.incoming, j) == Chunk(ch.incoming, j + 1);
        if exists j :: 0 <= j < n && LF in Chunk(ch.incoming, j) {
          var j :| 0 <= j < n && LF in Chunk(ch.incoming, j);
          assert j > 0;
          assert LF in Chunk(ch'.incoming, j - 1);
        }
      }
    }
  }

  /**
    When no chunk of the `n` polls holds a line feed, the loop times out:
    the bytes of all `n` chunks wait in the buffer and the acknowledgement
    and status text are untouched.
   */
  lemma {:induction false} PollLoopTimesOut(ch: Channel, n: nat)
    requires forall j :: 0 <= j < n ==> LF !in Chunk(ch.incoming, j)
    ensures PollLoop(ch, n) == (ch.(buf := ch.buf + Delivered(ch.incoming, n), incoming := Drop(ch.incoming, n)), false)
    decreases n
  {
    if n == 0 {
      assert ch.buf + [] == ch.buf;
      assert Drop(ch.incoming, 0) == ch.incoming;
    } else {
      var ch' := ch.(buf := ch.buf + Chunk(ch.incoming, 0), incoming := Drop(ch.incoming, 1));
      ChunkDrop(ch.incoming, 1);
      PollLoopTimesOut(ch', n - 1);
      PollLoopTimeoutStep(ch, n);
    }
  }

  /** A timeout of `n - 1` polls after a quiet first poll is a timeout of `n` polls. */
  lemma PollLoopTimeoutStep(ch: Channel, n: nat)
    requires n > 0 && LF !in Chunk(ch.incoming, 0)
    requires var ch' := ch.(buf := ch.buf + Chunk(ch.incoming, 0), incoming := Drop(ch.incoming, 1));
      PollLoop(ch', n - 1)
      == (ch'.(buf := ch'.buf + Delivered(ch'.incoming, n - 1), incoming := Drop(ch'.incoming, n - 1)), false)
    ensures PollLoop(ch, n) == (ch.(buf := ch.buf + Delivered(ch.incoming, n), incoming := Drop(ch.incoming, n)), false)
  {
    var data := Chunk(ch.incoming, 0);
    var ch' := ch.(buf := ch.buf + data, incoming := Drop(ch.incoming, 1));
    assert Delivered(ch.incoming, n) == data + Delivered(ch'.incoming, n - 1);
    assert (ch.buf + data) + Delivered(ch'.incoming, n - 1) == ch.buf + (data + Delivered(ch'.incoming, n - 1));
    DropDrop(ch.incoming, n - 1);
    PollLoopQuiet(ch, n);
  }

  /** The channel after the poll that reports the lines `s` of everything drained by its first `k` polls. */
  function Answer(ch: Channel, s: ScanState, k: nat): Channel
    requires s.lines != []
  {
    ch.(buf := s.pending, incoming := Drop(ch.incoming, k), ok := ch.ok || Ack in s.lines, body := Last(s.lines))
  }

  /** Two rounds of polling drop the chunks of both. */
  lemma DropDrop(incoming: seq<string>, k: nat)
    ensures Drop(Drop(incoming, 1), k) == Drop(incoming, k + 1)
  {
    if k + 1 <= |incoming| {
      assert incoming[1..][k..] == incoming[k + 1..];
    }
  }

  /** Bytes without a line feed in front of the rest only join the pending bytes. */
  lemma ScanAfterQuiet(buf: string, data: string, rest: string)
    requires LF !in data
    ensures Scan(buf, data + rest) == Scan(buf + data, rest)
  {
    ScanConcat(buf, data, rest);
    ScanQuiet(buf, data);
    assert [] + Scan(buf + data, rest).lines == Scan(buf + data, rest).lines;
  }

  /** A poll whose chunk holds a line feed answers with the lines of that chunk. */
  lemma PollFirstAnswer(ch: Channel)
    requires LF in Chunk(ch.incoming, 0)
    ensures Scan(ch.buf, Delivered(ch.incoming, 1)).lines != []
    ensures Poll(ch) == (Answer(ch, Scan(ch.buf, Delivered(ch.incoming, 1)), 1), true)
  {
    var data := Chunk(ch.incoming, 0);
    assert Delivered(ch.incoming, 1) == data by {
      assert Delivered(ch.incoming, 1) == data + [];
    }
    ScanCountsLineFeeds(ch.buf, data);
    assert multiset(data)[LF] > 0;
  }

  /** A quiet first poll only moves its chunk into the buffer before the remaining polls. */
  lemma PollLoopQuiet(ch: Channel, n: nat)
    requires n > 0 && LF !in Chunk(ch.incoming, 0)
    ensures PollLoop(ch, n) == PollLoop(ch.(buf := ch.buf + Chunk(ch.incoming, 0), incoming := Drop(ch.incoming, 1)), n - 1)
  {
    PollAnswersOnLineFeed(ch);
  }

  /** An answer after a quiet poll is the answer counted from before it. */
  lemma AnswerAfterQuiet(ch: Channel, s: ScanState, j: nat)
    requires s.lines != []
    ensures Answer(ch.(buf := ch.buf + Chunk(ch.incoming, 0), incoming := Drop(ch.incoming, 1)), s, j)
      == Answer(ch, s, j + 1)
  {
    DropDrop(ch.incoming, j);
  }

  /** An answer `j` polls after a quiet first poll is the answer `j + 1` polls from before it. */
  lemma PollLoopAnswerStep(ch: Channel, n: nat, j: nat)
    requires n > 0 && LF !in Chunk(ch.incoming, 0)
    requires var ch' := ch.(buf := ch.buf + Chunk(ch.incoming, 0), incoming := Drop(ch.incoming, 1));
      Scan(ch'.buf, Delivered(ch'.incoming, j)).lines != []
      && PollLoop(ch', n - 1) == (Answer(ch', Scan(ch'.buf, Delivered(ch'.incoming, j)), j), true)
    ensures Scan(ch.buf, Delivered(ch.incoming, j + 1)).lines != []
    ensures PollLoop(ch, n) == (Answer(ch, Scan(ch.buf, Delivered(ch.incoming, j + 1)), j + 1), true)
  {
    var data := Chunk(ch.incoming, 0);
    var ch' := ch.(buf := ch.buf + data, incoming := Drop(ch.incoming, 1));
    assert Delivered(ch.incoming, j + 1) == data + Delivered(ch'.incoming, j);
    ScanAfterQuiet(ch.buf, data, Delivered(ch'.incoming, j));
    PollLoopQuiet(ch, n);
    AnswerAfterQuiet(ch, Scan(ch.buf, Delivered(ch.incoming, j + 1)), j);
  }

  /**
    The poll that answers: when chunk `j` is the first to hold a line feed,
    the loop stops after `j + 1` polls; the lines it reports are those of
    everything buffered plus everything delivered up to that poll.
   */
  lemma {:induction false} PollLoopFirstAnswer(ch: Channel, n: nat, j: nat)
    requires j < n && LF in Chunk(ch.incoming, j)
    requires forall i :: 0 <= i < j ==> LF !in Chunk(ch.incoming, i)
    ensures Scan(ch.buf, Delivered(ch.incoming, j + 1)).lines != []
    ensures PollLoop(ch, n) == (Answer(ch, Scan(ch.buf, Delivered(ch.incoming, j + 1)), j + 1), true)
    decreases j
  {
    if j == 0 {
      PollFirstAnswer(ch);
    } else {
      var ch' := ch.(buf := ch.buf + Chunk(ch.incoming, 0), incoming := Drop(ch.incoming, 1));
      ChunkDrop(ch.incoming, 1);
      PollLoopFirstAnswer(ch', n - 1, j - 1);
      PollLoopAnswerStep(ch, n, j);
    }
  }

  /** A send writes its command line once, followed by CR LF. */
  lemma SendWritesOnce(ch: Channel, cmd: string)
    ensures Send(ch, cmd).0.sent == ch.sent + [cmd + CRLF]
  {
    PollLoopKeepsSent(ch.(ok := false, body := [], sent := ch.sent + [cmd + CRLF]), PollBudget);
  }

  /**
    A send reports success exactly when one of the next ten chunks holds a
    line feed, whatever that line says: a negative answer counts as an
    answer.
   */
  lemma SendAnswered(ch: Channel, cmd: string)
    ensures Send(ch, cmd).1 <==> exists j :: 0 <= j < PollBudget && LF in Chunk(ch.incoming, j)
  {
    PollLoopAnswers(ch.(ok := false, body := [], sent := ch.sent + [cmd + CRLF]), PollBudget);
  }

  /** A send that times out leaves no acknowledgement and an empty status text. */
  lemma SendTimeout(ch: Channel, cmd: string)
    requires !Send(ch, cmd).1
    ensures !Send(ch, cmd).0.ok && Send(ch, cmd).0.body == []
    ensures Send(ch, cmd).0.buf == ch.buf + Delivered(ch.incoming, PollBudget)
  {
    var start := ch.(ok := false, body := [], sent := ch.sent + [cmd + CRLF]);
    PollLoopAnswers(start, PollBudget);
    PollLoopTimesOut(start, PollBudget);
  }

  /** The complete lines in `text`: the stripped pieces that a line feed terminates. */
  function LinesOf(text: string): seq<string> {
    var p := Split(text, LF);
    Strips(p[..|p| - 1])
  }

  /** The unterminated tail of `text`, after its last line feed. */
  function Tail(text: string): string {
    var p := Split(text, LF);
    p[|p| - 1]
  }

  /**
    What an answered send leaves behind. With chunk `j` the first to carry a
    line feed, the lines received are the complete lines of the previously
    pending bytes followed by everything delivered up to that poll; the
    acknowledgement is set exactly when one of them is `OK`; the status text
    is the last of them; and the unterminated rest stays pending.
   */
  lemma SendAnswer(ch: Channel, cmd: string, j: nat)
    requires LF !in ch.buf
    requires j < PollBudget && LF in Chunk(ch.incoming, j)
    requires forall i :: 0 <= i < j ==> LF !in Chunk(ch.incoming, i)
    ensures LinesOf(ch.buf + Delivered(ch.incoming, j + 1)) != []
    ensures Send(ch, cmd) == (ch.(ok := Ack in LinesOf(ch.buf + Delivered(ch.incoming, j + 1)),
                                  body := Last(LinesOf(ch.buf + Delivered(ch.incoming, j + 1))),
                                  buf := Tail(ch.buf + Delivered(ch.incoming, j + 1)),
                                  incoming := Drop(ch.incoming, j + 1),
                                  sent := ch.sent + [cmd + CRLF]), true)
  {
    var start := ch.(ok := false, body := [], sent := ch.sent + [cmd + CRLF]);
    PollLoopFirstAnswer(start, PollBudget, j);
    ScanSplits(ch.buf, Delivered(ch.incoming, j + 1));
  }

  /** Sending a batch after a successful run of sends is one more send. */
  lemma {:induction false} SendAllSnoc(ch: Channel, cmds: seq<string>, cmd: string)
    ensures var (ch', ok) := SendAll(ch, cmds);
      SendAll(ch, cmds + [cmd]) == if ok then Send(ch', cmd) else (ch', false)
    decreases |cmds|
  {
    if cmds == [] {
      assert cmds + [cmd] == [cmd];
      assert [cmd][1..] == [];
    } else {
      assert (cmds + [cmd])[0] == cmds[0];
      assert (cmds + [cmd])[1..] == cmds[1..] + [cmd];
      var (ch1, r1) := Send(ch, cmds[0]);
      if r1 {
        SendAllSnoc(ch1, cmds[1..], cmd);
      }
    }
  }

  /** After a failed send nothing more is sent. */
  lemma {:induction false} SendAllStopsAtFailure(ch: Channel, a: seq<string>, b: seq<string>)
    requires !SendAll(ch, a).1
    ensures SendAll(ch, a + b) == SendAll(ch, a)
    decreases |a|
  {
    assert a != [];
    assert (a + b)[0] == a[0];
    assert (a + b)[1..] == a[1..] + b;
    var (ch1, r1) := Send(ch, a[0]);
    if r1 {
      SendAllStopsAtFailure(ch1, a[1..], b);
    }
  }

  /** A run of sends that succeeds has written every command line once, in order. */
  lemma {:induction false} SendAllWritesAll(ch: Channel, cmds: seq<string>)
    requires SendAll(ch, cmds).1
    ensures SendAll(ch, cmds).0.sent == ch.sent + Lines(cmds)
    decreases |cmds|
  {
    if cmds != [] {
      SendWritesOnce(ch, cmds[0]);
      var ch1 := Send(ch, cmds[0]).0;
      SendAllWritesAll(ch1, cmds[1..]);
      assert Lines(cmds) == [cmds[0] + CRLF] + Lines(cmds[1..]);
    }
  }

  /**
    A run of sends that fails has sent a prefix of the commands, all
    answered except the last one, which timed out; nothing after it was
    written.
   */
  lemma {:induction false} SendAllFailure(ch: Channel, cmds: seq<string>) returns (k: nat)
    requires !SendAll(ch, cmds).1
    ensures k < |cmds| && SendAll(ch, cmds[..k]).1
    ensures Send(SendAll(ch, cmds[..k]).0, cmds[k]) == SendAll(ch, cmds)
    decreases |cmds|
  {
    assert cmds != [];
    var (ch1, r1) := Send(ch, cmds[0]);
    if !r1 {
      k := 0;
      assert cmds[..0] == [];
    } else {
      var rest := cmds[1..];
      var i := SendAllFailure(ch1, rest);
      k := i + 1;
      assert cmds[..k][0] == cmds[0] && cmds[..k][1..] == rest[..i];
      assert cmds[k] == rest[i];
      SendAllCons(ch, cmds[..k]);
    }
  }

  /** The first send of a non-empty run. */
  lemma SendAllCons(ch: Channel, cmds: seq<string>)
    requires cmds != []
    ensures SendAll(ch, cmds)
      == if Send(ch, cmds[0]).1 then SendAll(Send(ch, cmds[0]).0, cmds[1..]) else Send(ch, cmds[0])
  {
  }
}
