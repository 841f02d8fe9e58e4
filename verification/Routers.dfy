/** The router as the program runs it. */
module Routers {
  import opened MachineIntegers
  import opened Options
  import opened NetworkInterfaces
  import opened Routing

  /** A datagram given to an interface for transmission to a next hop. */
  datatype Handoff = Handoff(interfaceNum: nat, dgram: Datagram, hop: u32)

  function Aged(dgram: Datagram): Datagram {
    if dgram.ttl == 0 then dgram else dgram.(ttl := dgram.ttl - 1)
  }

  /** Ageing takes one from the time to live, down to zero, and leaves all else alone. */
  lemma AgesByOne(dgram: Datagram)
    ensures Aged(dgram).ttl == Max(dgram.ttl - 1, 0) && Aged(dgram).(ttl := dgram.ttl) == dgram
  {
  }

  /** Where a datagram is to go: nowhere when its time to live runs out or no route matches,
      else by the best route, to that route's next hop or else straight to the destination. */
  function Forward(routes: seq<Route>, dgram: Datagram): Option<Handoff> {
    if dgram.ttl <= 1 || Best(routes, dgram.dst).None? then None
    else
      var r := routes[Best(routes, dgram.dst).value];
      Some(Handoff(r.interfaceNum, Aged(dgram), if r.nextHop.Some? then r.nextHop.value else dgram.dst))
  }

  function Handoffs(routes: seq<Route>, dgrams: seq<Datagram>): seq<Handoff> {
    if dgrams == [] then []
    else
      var last := Forward(routes, dgrams[|dgrams| - 1]);
      Handoffs(routes, dgrams[..|dgrams| - 1]) + (if last.Some? then [last.value] else [])
  }

  // ------------------------------------------------------------------ what forwarding means

  /** The route to take: it matches, no matching route is longer, and none added before is as long. */
  ghost predicate Longest(routes: seq<Route>, dst: u32, k: nat) {
    && k < |routes| && routes[k].Matches(dst)
    && forall j :: 0 <= j < |routes| && routes[j].Matches(dst) ==>
         routes[j].len <= routes[k].len && (j < k ==> routes[j].len < routes[k].len)
  }

  /** Whether a datagram is to be forwarded: it has a hop left to live and some route matches. */
  ghost predicate Forwardable(routes: seq<Route>, dgram: Datagram) {
    dgram.ttl > 1 && exists k :: 0 <= k < |routes| && routes[k].Matches(dgram.dst)
  }

  /** What forwarding by a route makes of a datagram: one hop less to live and nothing else
      changed, for the route's next hop if it has one and else for the destination. */
  ghost predicate ByRoute(r: Route, dgram: Datagram, h: Handoff) {
    && h.interfaceNum == r.interfaceNum
    && h.dgram.ttl == dgram.ttl - 1 && h.dgram.(ttl := dgram.ttl) == dgram
    && (r.nextHop.Some? ==> h.hop == r.nextHop.value) && (r.nextHop.None? ==> h.hop == dgram.dst)
  }

  /** A datagram is forwarded if and only if it is to be, and then by the longest matching route,
      of which there is just one. */
  lemma ForwardsExactly(routes: seq<Route>, dgram: Datagram)
    ensures Forward(routes, dgram).Some? <==> Forwardable(routes, dgram)
    ensures Forward(routes, dgram).Some? ==>
              exists k: nat :: Longest(routes, dgram.dst, k) && ByRoute(routes[k], dgram, Forward(routes, dgram).value)
  {
    hide Route.Matches;
    if Best(routes, dgram.dst).Some? {
      var k := Best(routes, dgram.dst).value;
      forall j | 0 <= j < |routes| && routes[j].Matches(dgram.dst)
        ensures routes[j].len <= routes[k].len && (j < k ==> routes[j].len < routes[k].len)
      {
        BestIsLongest(routes, dgram.dst, j);
      }
      BestMatches(routes, dgram.dst);
      assert Longest(routes, dgram.dst, k);
    } else {
      forall j | 0 <= j < |routes| && routes[j].Matches(dgram.dst)
        ensures false
      {
        BestIsLongest(routes, dgram.dst, j);
      }
    }
  }

  /** The datagrams handed over are those to be forwarded, in order, each by its route. */
  ghost predicate Forwarded(routes: seq<Route>, dgrams: seq<Datagram>, handed: seq<Handoff>) {
    if dgrams == [] then handed == []
    else
      var n, m := |dgrams| - 1, |handed| - 1;
      if Forwardable(routes, dgrams[n]) then
        && handed != [] && Forwarded(routes, dgrams[..n], handed[..m])
        && exists k: nat :: Longest(routes, dgrams[n].dst, k) && ByRoute(routes[k], dgrams[n], handed[m])
      else Forwarded(routes, dgrams[..n], handed)
  }

  lemma {:induction false} HandoffsAreForwarded(routes: seq<Route>, dgrams: seq<Datagram>)
    ensures Forwarded(routes, dgrams, Handoffs(routes, dgrams))
    decreases |dgrams|
  {
    hide Forward, Forwardable, Longest, ByRoute;
    if dgrams != [] {
      HandoffsAreForwarded(routes, dgrams[..|dgrams| - 1]);
      ForwardsExactly(routes, dgrams[|dgrams| - 1]);
      var before, f := Handoffs(routes, dgrams[..|dgrams| - 1]), Forward(routes, dgrams[|dgrams| - 1]);
      if f.Some? {
        assert (before + [f.value])[..|before|] == before;
      } else {
        assert before + [] == before;
      }
    }
  }

  /** Whether the interface a datagram is to leave by exists. */
  predicate InRange(routes: seq<Route>, dgram: Datagram, interfaces: nat) {
    var f := Forward(routes, dgram);
    f.Some? ==> f.value.interfaceNum < interfaces
  }

  lemma InRangeExactly(routes: seq<Route>, dgram: Datagram, interfaces: nat)
    ensures !InRange(routes, dgram, interfaces) <==>
            Forwardable(routes, dgram)
            && exists k: nat :: Longest(routes, dgram.dst, k) && routes[k].interfaceNum >= interfaces
  {
    hide Route.Matches, Forward, Forwardable;
    ForwardsExactly(routes, dgram);
    forall i: nat, j: nat | Longest(routes, dgram.dst, i) && Longest(routes, dgram.dst, j)
      ensures i == j
    {
    }
  }

  function Flatten(queues: seq<seq<Datagram>>): seq<Datagram> {
    if queues == [] then [] else queues[0] + Flatten(queues[1..])
  }

  lemma FlattenFront(queues: seq<seq<Datagram>>, i: nat)
    requires i < |queues|
    ensures Flatten(queues[i..]) == queues[i] + Flatten(queues[i + 1..])
  {
  }

  lemma {:induction false} FlattenEmpty(queues: seq<seq<Datagram>>, i: nat)
    requires i <= |queues| && forall j :: 0 <= j < i ==> queues[j] == []
    ensures Flatten(queues) == Flatten(queues[i..])
    decreases i
  {
    if i > 0 {
      FlattenEmpty(queues, i - 1);
      FlattenFront(queues, i - 1);
    } else {
      assert queues[0..] == queues;
    }
  }

  /** The datagram that a frame brings to an interface with address `mac`, if it is meant for it. */
  function Brought(mac: Mac, frame: Frame): seq<Datagram> {
    if (frame.dst == mac || frame.dst == BROADCAST) && frame.body.IPv4? && frame.body.dgram.Some?
    then [frame.body.dgram.value] else []
  }

  /** The interfaces after they have been given the datagrams, in order. */
  function Deliver(views: seq<Interface>, handed: seq<Handoff>): (after: seq<Interface>)
    ensures |after| == |views|
  {
    if handed == [] then views
    else
      var before, h := Deliver(views, handed[..|handed| - 1]), handed[|handed| - 1];
      if h.interfaceNum < |before|
      then before[h.interfaceNum := before[h.interfaceNum].SendDatagram(h.dgram, h.hop)] else before
  }

  lemma DeliverNext(views: seq<Interface>, handed: seq<Handoff>, next: seq<Handoff>)
    requires |next| <= 1
    ensures Deliver(views, handed + next) == Deliver(Deliver(views, handed), next)
  {
    hide Interface.SendDatagram;
    if next == [] {
      assert handed + next == handed;
    } else {
      assert (handed + next)[..|handed|] == handed && next[..0] == [];
    }
  }

  class Router {
    var interfaces: seq<NetworkInterface>
    var queues: seq<seq<Datagram>>
    var table: Table
    ghost var routes: seq<Route>

    /** The interfaces are different ones, each with its queue of received datagrams, and the
        table is that of the routes added so far. */
    ghost predicate Valid()
      reads this
    {
      && table == TableOf(routes) && |queues| == |interfaces|
      && forall i, j :: 0 <= i < j < |interfaces| ==> interfaces[i] != interfaces[j]
    }

    ghost function Views(): (views: seq<Interface>)
      reads this, interfaces
      ensures |views| == |interfaces| && forall i :: 0 <= i < |views| ==> views[i] == interfaces[i].View()
    {
      seq(|interfaces|, i requires 0 <= i < |interfaces| reads this, interfaces => interfaces[i].View())
    }

    constructor ()
      ensures Valid() && interfaces == [] && queues == [] && routes == []
    {
      table, interfaces, queues, routes := map[], [], [], [];
    }

    method AddInterface(interface: NetworkInterface) returns (n: nat)
      requires Valid() && interface !in interfaces
      modifies this`interfaces, this`queues
      ensures Valid() && n == old(|interfaces|)
      ensures interfaces == old(interfaces) + [interface] && queues == old(queues) + [[]]
    {
      interfaces, queues := interfaces + [interface], queues + [[]];
      n := |interfaces| - 1;
    }

    /** A frame arrives at an interface, which keeps a datagram it brings for routing. */
    method RecvFrame(n: nat, frame: Frame)
      requires Valid() && n < |interfaces|
      modifies this`queues, interfaces
      ensures Valid() && Views() == old(Views())[n := old(Views())[n].RecvFrame(frame).0]
      ensures queues == old(queues)[n := old(queues)[n] + Brought(interfaces[n].mac, frame)]
    {
      hide Interface.RecvFrame, TableOf;
      var dgram := interfaces[n].RecvFrame(frame);
      assert Views() == old(Views())[n := old(Views())[n].RecvFrame(frame).0];
      assert queues[n] + [] == queues[n];
      if dgram.Some? {
        queues := queues[n := queues[n] + [dgram.value]];
      }
    }

    method AddRoute(prefix: u32, len: PrefixLength, nextHop: Option<u32>, interfaceNum: nat)
      requires Valid()
      modifies this`table, this`routes
      ensures Valid() && routes == old(routes) + [Route(prefix, len, nextHop, interfaceNum)]
    {
      hide And, ShiftLeft, BitsOf;
      routes := routes + [Route(prefix, len, nextHop, interfaceNum)];
      assert routes[..|routes| - 1] == old(routes);
      var entry := Entry(interfaceNum, nextHop);
      var none: Bits := seq(32, _ => false);
      if len == 0 {
        if (none, 0) !in table {
          table := table[(none, 0) := entry];
        }
        return;
      }
      var ip := And(ShiftLeft(ONES, 32 - len), Word(prefix));
      if (ip, len) !in table {
        table := table[(ip, len) := entry];
      }
    }

    /** The shifting-mask search. */
    method Search(ip: Bits, ghost dst: u32) returns (found: Option<Entry>)
      requires Valid() && ip == Word(dst)
      ensures var best := Best(routes, dst);
              found == if best.None? then None
                       else Some(Entry(routes[best.value].interfaceNum, routes[best.value].nextHop))
    {
      hide And, ShiftLeft, Mask, BitsOf, TableOf, Best;
      LookupIsBest(routes, dst);
      var prefixLength := 32;
      var mask := ONES;
      FullMask();
      while prefixLength >= 0
        invariant -1 <= prefixLength <= 32
        invariant prefixLength >= 0 ==> mask == Mask(prefixLength)
        invariant Lookup(table, dst, 32) == if prefixLength >= 0 then Lookup(table, dst, prefixLength) else None
      {
        var key := (And(mask, ip), prefixLength);
        if key in table {
          return Some(table[key]);
        }
        MaskByShift(prefixLength);
        mask := ShiftLeft(mask, 1);
        prefixLength := prefixLength - 1;
      }
      return None;
    }

    /** Routes one datagram, whose time to live it decrements in place. An interface number
        out of range is an exception. */
    method RouteOneDatagram(dgram: Datagram) returns (aged: Datagram, ok: bool)
      requires Valid()
      modifies interfaces
      ensures aged == Aged(dgram) && ok == InRange(routes, dgram, |interfaces|)
      ensures Forwarded(routes, [dgram], Handoffs(routes, [dgram]))
      ensures Views() == if ok then Deliver(old(Views()), Handoffs(routes, [dgram])) else old(Views())
    {
      hide TableOf, Best, Interface.SendDatagram, Forwarded, BitsOf;
      HandoffsAreForwarded(routes, [dgram]);
      assert [dgram][..0] == [];
      assert Handoffs(routes, [dgram]) ==
             if Forward(routes, dgram).Some? then [Forward(routes, dgram).value] else [];
      aged := dgram;
      if aged.ttl == 0 {
        return aged, true;
      }
      aged := aged.(ttl := aged.ttl - 1);
      if aged.ttl == 0 {
        return aged, true;
      }
      var found := Search(Word(aged.dst), aged.dst);
      if found.None? {
        return aged, true;
      }
      var Entry(interfaceNum, nextHop) := found.value;
      if interfaceNum >= |interfaces| {
        return aged, false;
      }
      var hop := if nextHop.Some? then nextHop.value else aged.dst;
      ghost var views := Views();
      interfaces[interfaceNum].SendDatagram(aged, hop);
      assert [Handoff(interfaceNum, aged, hop)][..0] == [];
      assert Views() == views[interfaceNum := views[interfaceNum].SendDatagram(aged, hop)];
      return aged, true;
    }

    /** How far a pass over the datagrams `all` has come: the first `done` are dealt with. */
    ghost predicate Passed(all: seq<Datagram>, done: nat, before: seq<Interface>)
      reads this, interfaces
    {
      && done <= |all| && Views() == Deliver(before, Handoffs(routes, all[..done]))
      && forall j :: 0 <= j < done ==> InRange(routes, all[j], |interfaces|)
    }

    /** Routes the first datagram of a queue and removes it, unless its interface does not exist. */
    method RouteFront(i: nat, ghost all: seq<Datagram>, ghost done: nat, ghost before: seq<Interface>)
      returns (ok: bool)
      requires Valid() && i < |queues| && queues[i] != [] && Passed(all, done, before)
      requires Flatten(queues[i..]) == all[done..]
      modifies this`queues, interfaces
      ensures Valid() && |queues| == old(|queues|) && forall j :: 0 <= j < i ==> queues[j] == old(queues[j])
      ensures done < |all| && ok == InRange(routes, all[done], |interfaces|)
      ensures ok ==> Flatten(queues[i..]) == all[done + 1..] && Passed(all, done + 1, before)
                     && |queues[i]| < old(|queues[i]|)
      ensures !ok ==> Flatten(queues[i..]) == [Aged(all[done])] + all[done + 1..] && Passed(all, done, before)
    {
      hide TableOf, Best, InRange, Handoffs, Flatten, Deliver, Aged, Forwarded;
      var front, rest := queues[i][0], queues[i][1..];
      QueueStep(queues, i, all, done, Aged(front));
      HandoffsStep(routes, all, done);
      DeliverNext(before, Handoffs(routes, all[..done]), Handoffs(routes, [all[done]]));
      var aged, fine := RouteOneDatagram(front);
      queues := queues[i := if fine then rest else [aged] + rest];
      ok := fine;
    }

    /** Drains every interface's queue in order. When a datagram's interface does not exist the
        exception leaves it, aged, at the front of its queue and what follows it untouched;
        `done` counts the datagrams dealt with before that, and `handed` is what the interfaces
        were given. */
    method RouteAll() returns (ok: bool, ghost done: nat, ghost handed: seq<Handoff>)
      requires Valid()
      modifies this`queues, interfaces
      ensures Valid() && |queues| == old(|queues|)
      ensures var all := Flatten(old(queues));
              && Passed(all, done, old(Views()))
              && Forwarded(routes, all[..done], handed) && Views() == Deliver(old(Views()), handed)
              && (ok ==> done == |all| && Flatten(queues) == [])
              && (!ok ==> done < |all| && !InRange(routes, all[done], |interfaces|)
                          && Flatten(queues) == [Aged(all[done])] + all[done + 1..])
    {
      hide TableOf, Best, InRange, Handoffs, Flatten, Deliver, Forwarded;
      ghost var all, before := Flatten(queues), Views();
      done, handed := 0, [];
      var i := 0;
      NothingYet(routes, queues, all, before);
      assert Passed(all, done, before);
      hide Router.Passed;
      while i < |queues|
        invariant Valid() && i <= |queues| == old(|queues|)
        invariant forall j :: 0 <= j < i ==> queues[j] == []
        invariant done <= |all| && Passed(all, done, before) && Flatten(queues[i..]) == all[done..]
      {
        while queues[i] != []
          invariant Valid() && i < |queues| == old(|queues|)
          invariant forall j :: 0 <= j < i ==> queues[j] == []
          invariant done <= |all| && Passed(all, done, before) && Flatten(queues[i..]) == all[done..]
          decreases |queues[i]|
        {
          ok := RouteFront(i, all, done, before);
          if !ok {
            FlattenEmpty(queues, i);
            handed := PassedForwards(all, done, before);
            return;
          }
          done := done + 1;
        }
        FlattenFront(queues, i);
        i := i + 1;
      }
      FlattenEmpty(queues, |queues|);
      NothingLeft(queues, all, done);
      handed := PassedForwards(all, done, before);
      ok := true;
    }

    lemma PassedForwards(all: seq<Datagram>, done: nat, before: seq<Interface>) returns (handed: seq<Handoff>)
      requires Passed(all, done, before)
      ensures done <= |all| && Forwarded(routes, all[..done], handed) && Views() == Deliver(before, handed)
    {
      hide Forwarded, Handoffs, Deliver, InRange;
      handed := Handoffs(routes, all[..done]);
      HandoffsAreForwarded(routes, all[..done]);
    }
  }

  // ------------------------------------------------------------------ what becomes of routed datagrams

  /** The submissions that reach interface `i`. */
  function SubmitsFor(i: nat, handed: seq<Handoff>): seq<Event> {
    if handed == [] then []
    else
      var h := handed[|handed| - 1];
      SubmitsFor(i, handed[..|handed| - 1]) + (if h.interfaceNum == i then [Submit(h.dgram, h.hop)] else [])
  }

  /** The datagrams handed to interface `i` for a hop. */
  function HandedTo(handed: seq<Handoff>, i: nat, hop: u32): seq<Datagram> {
    if handed == [] then []
    else
      var h := handed[|handed| - 1];
      HandedTo(handed[..|handed| - 1], i, hop) + (if h.interfaceNum == i && h.hop == hop then [h.dgram] else [])
  }

  lemma {:induction false} DeliveryIsRun(views: seq<Interface>, handed: seq<Handoff>, i: nat, h: History, hop: u32)
    requires i < |views| && h.iface == views[i]
    ensures var h' := Run(h, SubmitsFor(i, handed));
            && h'.iface == Deliver(views, handed)[i]
            && SubmittedTo(h'.submitted, hop) == SubmittedTo(h.submitted, hop) + HandedTo(handed, i, hop)
    decreases |handed|
  {
    hide Interface.SendDatagram, SubmittedTo, Run;
    if handed == [] {
      assert Run(h, []) == h by { NoEvents(h); }
    } else {
      var front, last := handed[..|handed| - 1], handed[|handed| - 1];
      DeliveryIsRun(views, front, i, h, hop);
      if last.interfaceNum == i {
        var before := Run(h, SubmitsFor(i, front));
        RunNext(h, SubmitsFor(i, front), Submit(last.dgram, last.hop));
        SubmittedAppend(before.submitted, Submission(last.hop, last.dgram), hop);
      } else {
        assert SubmitsFor(i, handed) == SubmitsFor(i, front);
      }
    }
  }

  lemma NoEvents(h: History)
    ensures Run(h, []) == h
  {
  }

  /** Whatever the interfaces have been through, each datagram handed to one of them for a hop
      leaves it in exactly one frame or waits there, behind what came before it. */
  lemma RoutedIsSentOrQueued(views: seq<Interface>, handed: seq<Handoff>, i: nat, h: History, hop: u32)
    requires i < |views| && h.iface == views[i] && h.Valid()
    ensures var h' := Run(h, SubmitsFor(i, handed));
            && h'.Valid() && h'.iface == Deliver(views, handed)[i]
            && EmittedTo(h'.emitted, hop) + h'.iface.Queue(hop)
               == (EmittedTo(h.emitted, hop) + h.iface.Queue(hop)) + HandedTo(handed, i, hop)
  {
    hide Run, EmittedTo, SubmittedTo, HandedTo, Deliver, SubmitsFor, History.Addressed, History.Recorded, History.Resolved;
    RunKeeps(h, SubmitsFor(i, handed));
    DeliveryIsRun(views, handed, i, h, hop);
  }

  /** What is left to route when the front of queue `i` goes, or is replaced. */
  lemma QueueStep(queues: seq<seq<Datagram>>, i: nat, all: seq<Datagram>, done: nat, d: Datagram)
    requires i < |queues| && queues[i] != [] && done <= |all| && Flatten(queues[i..]) == all[done..]
    ensures done < |all| && queues[i][0] == all[done]
    ensures Flatten(queues[i := queues[i][1..]][i..]) == all[done + 1..]
    ensures Flatten(queues[i := [d] + queues[i][1..]][i..]) == [d] + all[done + 1..]
  {
    hide Flatten;
    var rest, tail := queues[i][1..], Flatten(queues[i + 1..]);
    FlattenFront(queues, i);
    FlattenReplaced(queues, i, rest);
    FlattenReplaced(queues, i, [d] + rest);
    assert rest + tail == (queues[i] + tail)[1..];
    assert ([d] + rest) + tail == [d] + (rest + tail);
  }

  lemma FlattenReplaced(queues: seq<seq<Datagram>>, i: nat, queue: seq<Datagram>)
    requires i < |queues|
    ensures Flatten(queues[i := queue][i..]) == queue + Flatten(queues[i + 1..])
  {
    assert queues[i := queue][i + 1..] == queues[i + 1..];
    FlattenFront(queues[i := queue], i);
  }

  lemma NothingYet(routes: seq<Route>, queues: seq<seq<Datagram>>, all: seq<Datagram>, views: seq<Interface>)
    ensures Deliver(views, []) == views
    ensures Flatten(queues[0..]) == Flatten(queues) && Handoffs(routes, all[..0]) == [] && all[0..] == all
  {
  }

  lemma NothingLeft(queues: seq<seq<Datagram>>, all: seq<Datagram>, done: nat)
    requires done <= |all| && Flatten(queues[|queues|..]) == all[done..]
    ensures done == |all| && Flatten(queues[|queues|..]) == []
  {
  }

  lemma FullMask()
    ensures ONES == Mask(32)
  {
  }

  lemma HandoffsStep(routes: seq<Route>, all: seq<Datagram>, k: nat)
    requires k < |all|
    ensures Handoffs(routes, all[..k + 1]) == Handoffs(routes, all[..k]) + Handoffs(routes, [all[k]])
    ensures |Handoffs(routes, [all[k]])| <= 1
  {
    assert all[..k + 1][..k] == all[..k] && [all[k]][..0] == [];
  }
}
