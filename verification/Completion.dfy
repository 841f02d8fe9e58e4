/**
 No run gets stuck: whatever the network has done so far, both streams can still
 arrive completely, as long as neither side has used up its retries.
 */
module Completion {
  import opened Reassembly
  import opened Sending
  import opened Connecting
  import opened ConnectionRuns
  import opened Links
  import opened Protocol
  import opened Handshake
  import opened Progress

  // ------------------------------------------------------------------ composing runs

  lemma {:induction false} RunAppend(sys: System, run: seq<Move>, rest: seq<Move>)
    requires sys.Valid() && PossibleRun(sys, run) && PossibleRun(Final(sys, run), rest)
    ensures PossibleRun(sys, run + rest) && Final(sys, run + rest) == Final(Final(sys, run), rest)
    decreases |run|
  {
    hide Possible, Next, System.Valid;
    if run == [] {
      assert run + rest == rest;
    } else {
      NextKeeps(sys, run[0]);
      RunAppend(Next(sys, run[0]), run[1..], rest);
      assert (run + rest)[1..] == run[1..] + rest;
    }
  }

  /** Acknowledged positions only grow, and windows are learnt only after a SYN. */
  ghost predicate Later(s: System, s': System) {
    && s.a.sender.acked <= s'.a.sender.acked && s.b.sender.acked <= s'.b.sender.acked
    && (FirstWindow(s.a) ==> FirstWindow(s'.a)) && (FirstWindow(s.b) ==> FirstWindow(s'.b))
  }

  lemma NextIsLater(s: System, m: Move)
    requires s.Valid() && Possible(s, m)
    ensures Later(s, Next(s, m))
  {
    hide Connection.Valid, Link, Decodable, Step;
    var e := if m.Local? then m.e else Receive(m.p.seg);
    var c := if (if m.Local? then m.atA else m.toA) then s.a else s.b;
    StepKeeps(c, e);
    if FirstWindow(c) {
      StepKeepsFirstWindow(c, e);
    }
  }

  lemma {:induction false} FinalIsLater(s: System, run: seq<Move>)
    requires s.Valid() && PossibleRun(s, run)
    ensures Later(s, Final(s, run))
    decreases |run|
  {
    hide Possible, Next, System.Valid;
    if run != [] {
      NextKeeps(s, run[0]);
      NextIsLater(s, run[0]);
      FinalIsLater(Next(s, run[0]), run[1..]);
    }
  }

  // ------------------------------------------------------------------ the two sides are alike

  function Swap(s: System): System { System(s.b, s.a) }

  function SwapMove(m: Move): Move {
    match m
    case Local(atA, e) => Local(!atA, e)
    case Deliver(toA, p) => Deliver(!toA, p)
  }

  function SwapRun(run: seq<Move>): (swapped: seq<Move>)
    ensures |swapped| == |run| && forall i :: 0 <= i < |run| ==> swapped[i] == SwapMove(run[i])
  {
    seq(|run|, i requires 0 <= i < |run| => SwapMove(run[i]))
  }

  lemma SwappedMove(s: System, m: Move)
    requires s.Valid() && Possible(s, m)
    ensures Swap(s).Valid() && Possible(Swap(s), SwapMove(m)) && Next(Swap(s), SwapMove(m)) == Swap(Next(s, m))
  {
    hide Connection.Valid, Link, Enabled, Deliverable, Step;
  }

  lemma {:induction false} SwappedRun(s: System, run: seq<Move>)
    requires s.Valid() && PossibleRun(s, run)
    ensures Swap(s).Valid() && PossibleRun(Swap(s), SwapRun(run))
    ensures Final(Swap(s), SwapRun(run)) == Swap(Final(s, run))
    decreases |run|
  {
    hide Connection.Valid, Link, Possible, Next;
    if run != [] {
      NextKeeps(s, run[0]);
      SwappedMove(s, run[0]);
      SwappedRun(Next(s, run[0]), run[1..]);
      assert SwapRun(run)[1..] == SwapRun(run[1..]);
    }
  }

  // ------------------------------------------------------------------ one direction

  /** Within the limits, and with retries left on both sides. */
  ghost predicate Able(s: System) {
    && s.Valid() && Sustained(s.a) && Sustained(s.b)
    && s.a.sender.retransmissions < 8 && s.b.sender.retransmissions < 8
  }

  ghost predicate SameInputs(s: System, s': System) { SameInput(s.a, s'.a) && SameInput(s.b, s'.b) }

  /** Whatever A has written can still arrive. */
  lemma {:induction false} Drain(s: System) returns (s': System, run: seq<Move>)
    requires Able(s) && s.a.receiver.hasIsn
    ensures PossibleRun(s, run) && s' == Final(s, run) && Able(s') && SameInputs(s, s')
    ensures s'.a.sender.acked == Total(s'.a.sender)
    decreases Total(s.a.sender) - s.a.sender.acked
  {
    hide Connection.Sound, Sender.Filled, Link, Possible, Next, PossibleRun, Final;
    SomethingIsOutstanding(s.a);
    if s.a.sender.acked == Total(s.a.sender) {
      s', run := s, [];
      EmptyRun(s);
    } else {
      var s1, run1 := Round(s);
      SomethingIsOutstanding(s1.a);
      var run2;
      s', run2 := Drain(s1);
      RunAppend(s, run1, run2);
      run := run1 + run2;
    }
  }

  /** With all of it acknowledged, the stream has arrived. */
  lemma AckedIsArrived(tx: Connection, rx: Connection)
    requires tx.Valid() && rx.Valid() && Link(tx, rx) && tx.sender.acked == Total(tx.sender)
    ensures Arrived(tx, rx) && rx.receiver.hasIsn
  {
    hide Chain, CutFrom, Reassembler.Known, Sender.AllCut, Sender.Tiled, Sender.BackedOff;
    LinkDelivers(tx, rx);
  }

  /** The receiver has the whole stream, and has seen it end if it has ended. */
  ghost predicate Arrived(tx: Connection, rx: Connection) {
    && rx.receiver.Out().written == tx.sender.stream.written
    && rx.receiver.Out().ended == tx.sender.stream.ended
  }

  // ------------------------------------------------------------------ before the handshake

  lemma ConnectSpeaks(c: Connection)
    requires c.Valid()
    ensures var c' := c.Connect();
            && 0 < c'.sender.nextSeqno && c'.receiver == c.receiver && SameInput(c, c')
            && c'.sender.retransmissions == c.sender.retransmissions
  {
    hide Chain, CutFrom, Sender.AllCut, Sender.Tiled, Sender.BackedOff, Sender.FillWindow, Connection.Stamp, Cuts;
    FillWindowKeeps(c.sender);
  }

  /** While the peer has not heard anything, the SYN is outstanding and the peer's buffer is empty. */
  lemma UnheardIsOutstanding(tx: Connection, rx: Connection)
    requires tx.Valid() && rx.Valid() && Link(tx, rx) && 0 < tx.sender.nextSeqno && !rx.receiver.hasIsn
    ensures tx.sender.outstanding != [] && rx.receiver.Out().BufferSize() == 0
  {
    hide Chain, CutFrom, Sender.AllCut, Sender.Tiled, Sender.BackedOff, Faithful, AcksBounded;
    SomethingIsOutstanding(tx);
  }

  lemma Open(s: System) returns (s': System, m: Move)
    requires Able(s)
    ensures Possible(s, m) && s' == Next(s, m) && Able(s') && SameInputs(s, s')
    ensures 0 < s'.a.sender.nextSeqno && s'.a.receiver == s.a.receiver && s'.b == s.b
  {
    hide Link, Connection.Valid, Connection.Connect;
    m := Local(true, Event.Connect);
    ConnectSpeaks(s.a);
    s' := Next(s, m);
    NextKeeps(s, m);
  }

  /** A's SYN can reach B. */
  lemma SynArrives(s: System) returns (s': System, run: seq<Move>)
    requires Able(s) && !s.b.receiver.hasIsn
    ensures PossibleRun(s, run) && s' == Final(s, run) && s'.Valid() && SameInputs(s, s')
    ensures s'.b.receiver.hasIsn && s'.a.receiver == s.a.receiver
    ensures s'.a.sender.acked < s'.b.receiver.ackno && s'.b.sender.retransmissions < 8
  {
    hide Connection.Valid, Link, Possible, Next, PossibleRun, Stamped, SamePiece, Final;
    var s1, m1 := Open(s);
    UnheardIsOutstanding(s1.a, s1.b);
    var s2, m2, p := ResendOldest(s1);
    var q;
    s', q := SegmentArrives(s2, p);
    EmptyRun(s');
    RunPrepend(s2, Deliver(false, p), []);
    RunPrepend(s1, m2, [Deliver(false, p)] + []);
    RunPrepend(s, m1, [m2] + ([Deliver(false, p)] + []));
    run := [m1] + ([m2] + ([Deliver(false, p)] + []));
  }

  /** Once B has heard A, A can hear B. */
  lemma HearBack(s: System) returns (s': System, run: seq<Move>)
    requires s.Valid() && Sustained(s.a) && Sustained(s.b) && s.b.receiver.hasIsn && !s.a.receiver.hasIsn
    requires s.b.sender.retransmissions < 8
    requires s.a.sender.retransmissions < 8 || s.a.sender.acked < s.b.receiver.ackno
    ensures PossibleRun(s, run) && s' == Final(s, run) && Able(s') && SameInputs(s, s') && s'.a.receiver.hasIsn
  {
    hide Connection.Sound, Sender.Filled, Faithful, AcksBounded, Possible, Next, PossibleRun, Final;
    UnheardIsOutstanding(s.b, s.a);
    var t, run1 := Round(Swap(s));
    SwappedRun(Swap(s), run1);
    s', run := Swap(t), SwapRun(run1);
  }

  lemma Greet(s: System) returns (s': System, run: seq<Move>)
    requires Able(s)
    ensures PossibleRun(s, run) && s' == Final(s, run) && Able(s') && SameInputs(s, s') && s'.a.receiver.hasIsn
  {
    hide Connection.Valid, Link, PossibleRun, Final;
    if s.a.receiver.hasIsn {
      s', run := s, [];
      EmptyRun(s);
    } else if s.b.receiver.hasIsn {
      s', run := HearBack(s);
    } else {
      var s1, run1 := SynArrives(s);
      var run2;
      s', run2 := HearBack(s1);
      RunAppend(s, run1, run2);
      run := run1 + run2;
    }
  }

  // ------------------------------------------------------------------ the last retry

  /** A stamp of before the last exchange is not too far behind for the other side to decode. */
  lemma StampStaysUsable(tx: Connection, rx: Connection, p: Packet)
    requires tx.Valid() && rx.Valid() && Link(tx, rx) && Sustained(tx) && rx.receiver.hasIsn
    requires tx.sender.acked <= p.ackPos
    ensures rx.receiver.ackno <= p.ackPos + 65535
  {
    HasSpoken(tx, rx);
    PositionsAreClose(tx, rx);
  }

  /** Both sides send their oldest segment again before either hears of the other's, so that the
      last retries of both are not lost to a window that opens in between. */
  lemma ResendBoth(s: System) returns (s': System, run: seq<Move>)
    requires s.Valid() && Sustained(s.a) && Sustained(s.b) && s.a.receiver.hasIsn && s.b.receiver.hasIsn
    requires s.a.sender.outstanding != [] && CanRetry(s.a.sender) && s.b.sender.outstanding != [] && CanRetry(s.b.sender)
    requires s.b.sender.acked == s.a.receiver.ackno
    ensures PossibleRun(s, run) && s' == Final(s, run) && Able(s') && SameInputs(s, s')
  {
    hide Connection.Valid, Link, Possible, Next, PossibleRun, Final;
    var s1, m1 := MakeRoom(s);
    var s2, m2, p := ResendOldest(s1);
    var t3, m3, p' := ResendOldest(Swap(s2));
    SwappedMove(Swap(s2), m3);
    var s3 := Swap(t3);
    var s4, q := SegmentArrives(s3, p);
    StampIsTaken(s3.b, s3.a, p);
    var s5 := AnswerArrives(s4, q);
    StampStaysUsable(s4.a, s4.b, p');
    var rest;
    s', rest := ResentArrives(s5, p');
    RunPrepend(s4, Deliver(true, q), rest);
    RunPrepend(s3, Deliver(false, p), [Deliver(true, q)] + rest);
    RunPrepend(s2, SwapMove(m3), [Deliver(false, p)] + ([Deliver(true, q)] + rest));
    RunPrepend(s1, m2, [SwapMove(m3)] + ([Deliver(false, p)] + ([Deliver(true, q)] + rest)));
    RunPrepend(s, m1, [m2] + ([SwapMove(m3)] + ([Deliver(false, p)] + ([Deliver(true, q)] + rest))));
    run := [m1] + ([m2] + ([SwapMove(m3)] + ([Deliver(false, p)] + ([Deliver(true, q)] + rest))));
  }

  /** What B has sent again arrives at A, and A's answer returns. */
  lemma ResentArrives(s: System, p: Packet) returns (s': System, run: seq<Move>)
    requires s.Valid() && Sustained(s.a) && Sustained(s.b) && s.a.receiver.hasIsn && s.b.receiver.hasIsn
    requires s.b.sender.outstanding != [] && SamePiece(p, s.b.sender.outstanding[0]) && p in s.b.segmentsOut
    requires s.a.sender.acked <= p.ackPos + 65535 && s.a.sender.retransmissions < 8
    ensures PossibleRun(s, run) && s' == Final(s, run) && Able(s') && SameInputs(s, s')
  {
    hide Connection.Valid, Link, Possible, Next, PossibleRun, Final, SamePiece;
    var t1, m1 := MakeRoom(Swap(s));
    var t2, q := SegmentArrives(t1, p);
    var t3 := AnswerArrives(t2, q);
    EmptyRun(t3);
    RunPrepend(t2, Deliver(true, q), []);
    RunPrepend(t1, Deliver(false, p), [Deliver(true, q)] + []);
    RunPrepend(Swap(s), m1, [Deliver(false, p)] + ([Deliver(true, q)] + []));
    var moves := [m1] + ([Deliver(false, p)] + ([Deliver(true, q)] + []));
    SwappedRun(Swap(s), moves);
    s', run := Swap(t3), SwapRun(moves);
  }

  /** The next timeout resets neither side. */
  ghost predicate Retrying(s: System) {
    && s.Valid() && Sustained(s.a) && Sustained(s.b) && CanRetry(s.a.sender) && CanRetry(s.b.sender)
    && FirstWindow(s.a) && FirstWindow(s.b)
  }

  /** A sender that has used retries has heard of a window and has something outstanding. */
  lemma RetriedIsOutstanding(c: Connection)
    requires c.Valid() && CanRetry(c.sender) && FirstWindow(c) && c.sender.retransmissions == 8
    ensures c.receiver.hasIsn && c.sender.outstanding != []
  {
  }

  /** Whoever has used its last retry can get all of them back. */
  lemma Refresh(s: System) returns (s': System, run: seq<Move>)
    requires Retrying(s)
    ensures PossibleRun(s, run) && s' == Final(s, run) && Able(s') && SameInputs(s, s')
  {
    hide Connection.Sound, Sender.Filled, Faithful, AcksBounded, Possible, Next, PossibleRun, Final;
    var lastA, lastB := s.a.sender.retransmissions == 8, s.b.sender.retransmissions == 8;
    if lastA {
      RetriedIsOutstanding(s.a);
    }
    if lastB {
      RetriedIsOutstanding(s.b);
    }
    if !lastA && !lastB {
      s', run := s, [];
      EmptyRun(s);
    } else if lastA && (!lastB || s.b.sender.acked < s.a.receiver.ackno) {
      s', run := Round(s);
    } else if lastA {
      s', run := ResendBoth(s);
    } else {
      var t, run1 := Round(Swap(s));
      SwappedRun(Swap(s), run1);
      s', run := Swap(t), SwapRun(run1);
    }
  }

  // ------------------------------------------------------------------ both directions

  /** Everything either side has written can still arrive. */
  lemma Complete(s: System) returns (s': System, run: seq<Move>)
    requires Retrying(s)
    ensures PossibleRun(s, run) && s' == Final(s, run) && Able(s') && SameInputs(s, s')
    ensures s'.a.sender.acked == Total(s'.a.sender) && s'.b.sender.acked == Total(s'.b.sender)
    ensures Arrived(s'.a, s'.b) && Arrived(s'.b, s'.a)
  {
    hide Connection.Valid, Link, PossibleRun, Final, Arrived;
    var s0, run0 := Refresh(s);
    var s1, run1 := Greet(s0);
    var s2, run2 := Drain(s1);
    AckedIsArrived(s2.a, s2.b);
    var t, run3 := Drain(Swap(s2));
    SwappedRun(Swap(s2), run3);
    s' := Swap(t);
    FinalIsLater(s2, SwapRun(run3));
    SomethingIsOutstanding(s'.a);
    AckedIsArrived(s'.a, s'.b);
    AckedIsArrived(s'.b, s'.a);
    RunAppend(s1, run2, SwapRun(run3));
    RunAppend(s0, run1, run2 + SwapRun(run3));
    RunAppend(s, run0, run1 + (run2 + SwapRun(run3)));
    run := run0 + (run1 + (run2 + SwapRun(run3)));
  }

  /**
   From every reachable state, before, during or after the handshake, whatever has been
   lost, repeated or reordered and whatever the windows: as long as the next timeout would
   reset neither side, the run can go on so that both streams arrive completely.
   */
  lemma EverythingCanArrive(cfgA: TcpConfig, cfgB: TcpConfig, run: seq<Move>) returns (more: seq<Move>)
    requires cfgA.Valid() && cfgB.Valid() && PossibleRun(Fresh(cfgA, cfgB), run)
    requires var s := Final(Fresh(cfgA, cfgB), run);
             CanRetry(s.a.sender) && CanRetry(s.b.sender) && Sustained(s.a) && Sustained(s.b)
    ensures var s := Final(Fresh(cfgA, cfgB), run);
            && PossibleRun(s, more) && SameInputs(s, Final(s, more))
            && Arrived(s.a, Final(s, more).b) && Arrived(s.b, Final(s, more).a)
  {
    hide Connection.Valid, Link, PossibleRun, Final;
    FinalIsLater(Fresh(cfgA, cfgB), run);
    var s';
    s', more := Complete(Final(Fresh(cfgA, cfgB), run));
  }

  // ------------------------------------------------------------------ and then close

  /** Both streams are complete on this side: everything said is acknowledged, everything heard is read. */
  ghost predicate Done(c: Connection) {
    && c.sender.acked == Total(c.sender) && c.sender.stream.ended
    && c.receiver.Out().Valid() && c.receiver.Out().ended && c.receiver.Out().BufferSize() == 0
  }

  /** Ten timeouts of silence close a side that is done. */
  lemma SilenceCloses(c: Connection)
    requires c.Valid() && Done(c) && c.sender.retransmissions < 8
    ensures var c' := c.Tick(10 * c.rtTimeout);
            !c'.Active() && SameInput(c, c')
  {
    hide Chain, CutFrom, Sender.AllCut, Sender.BackedOff, Connection.Stamp;
    SomethingIsOutstanding(c);
  }

  /** B, with everything acknowledged and arrived, reads and waits. */
  lemma CloseB(s: System) returns (s': System, run: seq<Move>)
    requires s.Valid() && s.b.sender.retransmissions < 8
    requires s.b.sender.acked == Total(s.b.sender) && s.b.sender.stream.ended && s.b.receiver.Out().ended
    ensures PossibleRun(s, run) && s' == Final(s, run)
    ensures s'.a == s.a && SameInput(s.b, s'.b) && !s'.b.Active()
  {
    hide Connection.Valid, Link, PossibleRun, Final, Connection.Active, Connection.Tick;
    var s1, m1 := MakeRoom(s);
    SilenceCloses(s1.b);
    var m2 := Local(false, Event.Tick(10 * s1.b.rtTimeout));
    assert Possible(s1, m2);
    s' := Next(s1, m2);
    NextKeeps(s1, m2);
    EmptyRun(s');
    RunPrepend(s1, m2, []);
    RunPrepend(s, m1, [m2] + []);
    run := [m1] + ([m2] + []);
  }

  lemma CloseBoth(s: System) returns (s': System, run: seq<Move>)
    requires Retrying(s) && s.a.sender.stream.ended && s.b.sender.stream.ended
    ensures PossibleRun(s, run) && s' == Final(s, run) && SameInputs(s, s')
    ensures !s'.a.Active() && !s'.b.Active()
  {
    hide Connection.Valid, Link, PossibleRun, Final, Connection.Active;
    var s1, run1 := Complete(s);
    var s2, run2 := CloseB(s1);
    var t, run3 := CloseB(Swap(s2));
    SwappedRun(Swap(s2), run3);
    s' := Swap(t);
    RunAppend(s1, run2, SwapRun(run3));
    RunAppend(s, run1, run2 + SwapRun(run3));
    run := run1 + (run2 + SwapRun(run3));
  }

  /** From every reachable state in which both applications have closed and nothing has failed:
      as long as the next timeout would reset neither side, the run can go on to a clean
      shutdown of both. */
  lemma CleanCloseIsPossible(cfgA: TcpConfig, cfgB: TcpConfig, run: seq<Move>) returns (more: seq<Move>)
    requires cfgA.Valid() && cfgB.Valid() && PossibleRun(Fresh(cfgA, cfgB), run)
    requires var s := Final(Fresh(cfgA, cfgB), run);
             && CanRetry(s.a.sender) && CanRetry(s.b.sender) && Sustained(s.a) && Sustained(s.b)
             && s.a.sender.stream.ended && !s.a.sender.stream.error && !s.a.receiver.Out().error
             && s.b.sender.stream.ended && !s.b.sender.stream.error && !s.b.receiver.Out().error
    ensures var s := Final(Fresh(cfgA, cfgB), run);
            && PossibleRun(s, more) && SameInputs(s, Final(s, more))
            && ClosedCleanly(Final(s, more).a) && ClosedCleanly(Final(s, more).b)
  {
    hide Connection.Valid, Link, PossibleRun, Final, Connection.Active;
    FinalIsLater(Fresh(cfgA, cfgB), run);
    var s';
    s', more := CloseBoth(Final(Fresh(cfgA, cfgB), run));
  }
}
