/** Incoming reports of uproto.c: a synchronous waiter and the normal handlers compete
    for them through three static variables. */
module Uproto {
  import opened Wrappers

  /** A JSON value; only its identity matters here. */
  type Json = int

  /** An incoming packet after parsing. value is None when the data has no such member. */
  datatype Packet = Packet(from: string, to: string, ctype: string, hasData: bool,
                           cmdmac: string, attr: string, value: Option<Json>)

  /** UPROTO_ME, the name the gateway answers to. */
  const ME := "CLOUD"

  /** The checks that end in parse_jpkt_error. */
  predicate Accepted(p: Packet) {
    (p.from == "ZB3" || p.from == "NXP") && p.to == ME &&
    (p.ctype == "cmdResult" || p.ctype == "reportAttribute") && p.hasData
  }

  /** A report on the attribute waited for, from the device waited for if one is named. */
  predicate Matches(p: Packet, mac: Option<string>, attr: string) {
    Accepted(p) && p.ctype == "reportAttribute" && p.attr == attr &&
    (mac.Some? ==> p.cmdmac == mac.value)
  }

  /** Matching, and carrying a value to hand over. */
  predicate Answers(p: Packet, mac: Option<string>, attr: string) {
    Matches(p, mac, attr) && p.value.Some?
  }

  /** What select gives: a failure, a timeout, a wake-up for another descriptor, or
      packets delivered by one call of ubus_handle_event. */
  datatype Wake = Failed | TimedOut | Other | Ready(packets: seq<Packet>)

  // ---- what a wait means -------------------------------------------------

  /** Index of the first answer among the packets of a wait, or their number. */
  function FirstAnswer(ps: seq<Packet>, mac: Option<string>, attr: string): (k: nat)
    ensures k <= |ps|
    ensures k < |ps| ==> Answers(ps[k], mac, attr)
    ensures forall i :: 0 <= i < k ==> !Answers(ps[i], mac, attr)
  {
    if ps == [] then 0 else if Answers(ps[0], mac, attr) then 0 else 1 + FirstAnswer(ps[1..], mac, attr)
  }

  function Answer(ps: seq<Packet>, mac: Option<string>, attr: string): Option<Json> {
    var k := FirstAnswer(ps, mac, attr);
    if k < |ps| then ps[k].value else None
  }

  /** Packets for the handlers when the answer is packet k: all accepted ones but the
      matching ones up to k. */
  function ToHandler(ps: seq<Packet>, mac: Option<string>, attr: string, k: nat): seq<Packet> {
    if ps == [] then []
    else
      var n := |ps| - 1;
      ToHandler(ps[..n], mac, attr, k)
        + (if Accepted(ps[n]) && (Matches(ps[n], mac, attr) ==> n > k) then [ps[n]] else [])
  }

  /** Packets kept from the handlers: the matching ones up to k. */
  function ToWaiter(ps: seq<Packet>, mac: Option<string>, attr: string, k: nat): seq<Packet> {
    if ps == [] then []
    else
      var n := |ps| - 1;
      ToWaiter(ps[..n], mac, attr, k) + (if Matches(ps[n], mac, attr) && n <= k then [ps[n]] else [])
  }

  function AcceptedOf(ps: seq<Packet>): seq<Packet> {
    if ps == [] then []
    else AcceptedOf(ps[..|ps| - 1]) + (if Accepted(ps[|ps| - 1]) then [ps[|ps| - 1]] else [])
  }

  /** Each accepted packet goes to exactly one of the two. */
  lemma {:induction false} EachPacketGoesOneWay(ps: seq<Packet>, mac: Option<string>, attr: string, k: nat)
    ensures multiset(ToHandler(ps, mac, attr, k)) + multiset(ToWaiter(ps, mac, attr, k)) == multiset(AcceptedOf(ps))
  {
    if ps != [] {
      EachPacketGoesOneWay(ps[..|ps| - 1], mac, attr, k);
    }
  }

  /** All k from |ps| on mean that there is no answer. */
  lemma {:induction false} NoAnswerAlike(ps: seq<Packet>, mac: Option<string>, attr: string, k: nat, k': nat)
    requires |ps| <= k && |ps| <= k'
    ensures ToHandler(ps, mac, attr, k) == ToHandler(ps, mac, attr, k')
    ensures ToWaiter(ps, mac, attr, k) == ToWaiter(ps, mac, attr, k')
  {
    if ps != [] {
      NoAnswerAlike(ps[..|ps| - 1], mac, attr, k, k');
    }
  }

  lemma FirstIs(ps: seq<Packet>, mac: Option<string>, attr: string, k: nat)
    requires k <= |ps| && (k < |ps| ==> Answers(ps[k], mac, attr))
    requires forall i :: 0 <= i < k ==> !Answers(ps[i], mac, attr)
    ensures FirstAnswer(ps, mac, attr) == k
  {
  }

  /** One packet more. */
  lemma ExtendWait(ps: seq<Packet>, p: Packet, mac: Option<string>, attr: string)
    ensures var k := FirstAnswer(ps, mac, attr); var k' := FirstAnswer(ps + [p], mac, attr);
      (k < |ps| ==> k' == k) && (k == |ps| ==> k' == if Answers(p, mac, attr) then |ps| else |ps| + 1) &&
      ToHandler(ps + [p], mac, attr, k')
        == ToHandler(ps, mac, attr, k) + (if Accepted(p) && (Matches(p, mac, attr) ==> k < |ps|) then [p] else []) &&
      ToWaiter(ps + [p], mac, attr, k')
        == ToWaiter(ps, mac, attr, k) + (if Matches(p, mac, attr) && k == |ps| then [p] else [])
  {
    var k := FirstAnswer(ps, mac, attr);
    var k' := if k < |ps| then k else if Answers(p, mac, attr) then |ps| else |ps| + 1;
    hide FirstAnswer;
    FirstIs(ps + [p], mac, attr, k');
    assert (ps + [p])[..|ps|] == ps;
    if k == |ps| {
      NoAnswerAlike(ps, mac, attr, k, k');
    }
  }

  /** The waiter keeps just the packet it returns exactly when no matching report
      without a value comes before it; such a report reaches nobody. */
  lemma {:induction false} NothingLostExactlyWhen(ps: seq<Packet>, mac: Option<string>, attr: string, k: nat)
    requires k <= |ps| && (k < |ps| ==> Matches(ps[k], mac, attr))
    ensures ToWaiter(ps, mac, attr, k) == (if k < |ps| then [ps[k]] else [])
       <==> forall i :: 0 <= i < k ==> !Matches(ps[i], mac, attr)
  {
    WaiterCount(ps, mac, attr, k);
    if forall i :: 0 <= i < k ==> !Matches(ps[i], mac, attr) {
      WaiterGetsOne(ps, mac, attr, k);
    }
  }

  lemma {:induction false} WaiterGetsOne(ps: seq<Packet>, mac: Option<string>, attr: string, k: nat)
    requires forall i :: 0 <= i < k && i < |ps| ==> !Matches(ps[i], mac, attr)
    requires k < |ps| ==> Matches(ps[k], mac, attr)
    ensures ToWaiter(ps, mac, attr, k) == if k < |ps| then [ps[k]] else []
  {
    if ps != [] {
      WaiterGetsOne(ps[..|ps| - 1], mac, attr, k);
    }
  }

  lemma {:induction false} WaiterCount(ps: seq<Packet>, mac: Option<string>, attr: string, k: nat)
    requires k < |ps| ==> Matches(ps[k], mac, attr)
    ensures (exists i :: 0 <= i < k && i < |ps| && Matches(ps[i], mac, attr)) ==>
      |ToWaiter(ps, mac, attr, k)| > (if k < |ps| then 1 else 0)
    ensures k < |ps| ==> |ToWaiter(ps, mac, attr, k)| >= 1
  {
    if ps != [] {
      var n := |ps| - 1;
      WaiterCount(ps[..n], mac, attr, k);
      if i :| 0 <= i < k && i < n && Matches(ps[i], mac, attr) {
        assert Matches(ps[..n][i], mac, attr);
      }
    }
  }

  // ---- whole runs --------------------------------------------------------

  /** Between waits packets come one by one; during a wait ps comes, up to the answer's wake-up. */
  datatype Activity = Loose(p: Packet) | Wait(mac: Option<string>, attr: string, ps: seq<Packet>)

  function ReceivedOf(x: Activity): seq<Packet> { if x.Loose? then [x.p] else x.ps }

  function Received(run: seq<Activity>): seq<Packet> {
    if run == [] then [] else Received(run[..|run| - 1]) + ReceivedOf(run[|run| - 1])
  }

  /** What the handlers get of one activity, as the postconditions of Uproto say. */
  function HandledOf(x: Activity): seq<Packet> {
    match x
    case Loose(p) => if Accepted(p) then [p] else []
    case Wait(mac, attr, ps) => ToHandler(ps, mac, attr, FirstAnswer(ps, mac, attr))
  }

  /** What the waiter gets of one activity. */
  function KeptOf(x: Activity): seq<Packet> {
    match x
    case Loose(_) => []
    case Wait(mac, attr, ps) => ToWaiter(ps, mac, attr, FirstAnswer(ps, mac, attr))
  }

  function Handled(run: seq<Activity>): seq<Packet> {
    if run == [] then [] else Handled(run[..|run| - 1]) + HandledOf(run[|run| - 1])
  }

  function Kept(run: seq<Activity>): seq<Packet> {
    if run == [] then [] else Kept(run[..|run| - 1]) + KeptOf(run[|run| - 1])
  }

  lemma {:induction false} AcceptedSplit(a: seq<Packet>, b: seq<Packet>)
    ensures AcceptedOf(a + b) == AcceptedOf(a) + AcceptedOf(b)
  {
    if b == [] {
      assert a + b == a;
    } else {
      assert (a + b)[..|a + b| - 1] == a + b[..|b| - 1];
      AcceptedSplit(a, b[..|b| - 1]);
    }
  }

  function AnswersOf(x: Activity): seq<Option<Json>> {
    match x
    case Loose(_) => []
    case Wait(mac, attr, ps) => [Answer(ps, mac, attr)]
  }

  /** What the waits of a run return, in turn. */
  function Answered(run: seq<Activity>): seq<Option<Json>> {
    if run == [] then [] else Answered(run[..|run| - 1]) + AnswersOf(run[|run| - 1])
  }

  lemma OneActivity(x: Activity)
    ensures multiset(HandledOf(x)) + multiset(KeptOf(x)) == multiset(AcceptedOf(ReceivedOf(x)))
    ensures x.Loose? ==> KeptOf(x) == [] && HandledOf(x) == AcceptedOf(ReceivedOf(x))
  {
    match x
    case Loose(p) => assert [p][..0] == [];
    case Wait(mac, attr, ps) => EachPacketGoesOneWay(ps, mac, attr, FirstAnswer(ps, mac, attr));
  }

  lemma SharesJoin(h: seq<Packet>, k: seq<Packet>, all: seq<Packet>, h': seq<Packet>, k': seq<Packet>, all': seq<Packet>)
    requires multiset(h) + multiset(k) == multiset(all) && multiset(h') + multiset(k') == multiset(all')
    ensures multiset(h + h') + multiset(k + k') == multiset(all + all')
  {
  }

  /** In every run without nested waits, handlers and waiters together get every accepted
      packet exactly once. */
  lemma {:induction false} RunsShareAllPackets(run: seq<Activity>)
    ensures multiset(Handled(run)) + multiset(Kept(run)) == multiset(AcceptedOf(Received(run)))
  {
    hide HandledOf, KeptOf, AcceptedOf, ReceivedOf;
    if run == [] {
      assert AcceptedOf([]) == [] by { NothingAccepted(); }
    } else {
      var n := |run| - 1;
      RunsShareAllPackets(run[..n]);
      OneActivity(run[n]);
      AcceptedSplit(Received(run[..n]), ReceivedOf(run[n]));
      SharesJoin(Handled(run[..n]), Kept(run[..n]), AcceptedOf(Received(run[..n])),
                 HandledOf(run[n]), KeptOf(run[n]), AcceptedOf(ReceivedOf(run[n])));
    }
  }

  lemma NothingAccepted()
    ensures AcceptedOf([]) == []
  {
  }

  /** Outside waits nothing is kept: the handlers get all accepted packets in order. */
  lemma {:induction false} NothingKeptOutsideWaits(run: seq<Activity>)
    requires forall i :: 0 <= i < |run| ==> run[i].Loose?
    ensures Kept(run) == [] && Handled(run) == AcceptedOf(Received(run))
  {
    hide HandledOf, KeptOf, AcceptedOf, ReceivedOf;
    if run == [] {
      NothingAccepted();
    } else {
      var n := |run| - 1;
      NothingKeptOutsideWaits(run[..n]);
      OneActivity(run[n]);
      AcceptedSplit(Received(run[..n]), ReceivedOf(run[n]));
    }
  }

  // ---- the code ----------------------------------------------------------

  class Uproto {
    var usyncMac: Option<string>
    var usyncAttr: Option<string>
    var usyncRet: Option<Json>

    /** Packets passed to _uproto_handler_cmd, and packets kept from it. */
    ghost var handled: seq<Packet>
    ghost var kept: seq<Packet>

    constructor ()
      ensures Idle() && handled == [] && kept == []
    {
      usyncMac, usyncAttr, usyncRet := None, None, None;
      handled, kept := [], [];
    }

    /** Outside a wait. */
    ghost predicate Idle()
      reads this
    {
      usyncMac == None && usyncAttr == None && usyncRet == None
    }

    /** uproto_handler_ubus_cmd_alink. */
    method HandleAlink(p: Packet)
      modifies this
      ensures usyncMac == old(usyncMac) && usyncAttr == old(usyncAttr)
      ensures var taken := old(usyncAttr).Some? && old(usyncRet) == None && Matches(p, old(usyncMac), old(usyncAttr).value);
        usyncRet == (if taken then p.value else old(usyncRet)) &&
        kept == old(kept) + (if taken then [p] else []) &&
        handled == old(handled) + (if Accepted(p) && !taken then [p] else [])
    {
      if p.from != "ZB3" && p.from != "NXP" {
        return;
      }
      if p.to != ME {
        return;
      }
      if p.ctype != "cmdResult" && p.ctype != "reportAttribute" {
        return;
      }
      if !p.hasData {
        return;
      }
      if p.ctype == "reportAttribute" && usyncAttr != None && p.attr == usyncAttr.value && usyncRet == None {
        if usyncMac != None {
          if p.cmdmac == usyncMac.value {
            usyncRet := p.value;
            kept := kept + [p];
          } else {
            handled := handled + [p];
          }
        } else {
          usyncRet := p.value;
          kept := kept + [p];
        }
      } else {
        handled := handled + [p];
      }
    }

    /** The packets so far have been treated as the wait for mac and attr demands. */
    ghost predicate Waiting(ps: seq<Packet>, mac: Option<string>, attr: string, h0: seq<Packet>, k0: seq<Packet>)
      reads this
    {
      usyncMac == mac && usyncAttr == Some(attr) && usyncRet == Answer(ps, mac, attr) &&
      handled == h0 + ToHandler(ps, mac, attr, FirstAnswer(ps, mac, attr)) &&
      kept == k0 + ToWaiter(ps, mac, attr, FirstAnswer(ps, mac, attr))
    }

    /** One packet during a wait. */
    method HandleOne(p: Packet, ghost ps: seq<Packet>, ghost mac: Option<string>, ghost attr: string,
                     ghost h0: seq<Packet>, ghost k0: seq<Packet>)
      requires Waiting(ps, mac, attr, h0, k0)
      modifies this
      ensures Waiting(ps + [p], mac, attr, h0, k0)
    {
      hide FirstAnswer, ToHandler, ToWaiter;
      ExtendWait(ps, p, mac, attr);
      HandleAlink(p);
    }

    /** ubus_handle_event: every packet at hand goes through the handler. */
    method HandleEvent(packets: seq<Packet>, ghost ps: seq<Packet>, ghost mac: Option<string>, ghost attr: string,
                       ghost h0: seq<Packet>, ghost k0: seq<Packet>)
      requires Waiting(ps, mac, attr, h0, k0)
      modifies this
      ensures Waiting(ps + packets, mac, attr, h0, k0)
    {
      hide Waiting;
      assert ps + packets[..0] == ps;
      for i := 0 to |packets|
        invariant Waiting(ps + packets[..i], mac, attr, h0, k0)
      {
        HandleOne(packets[i], ps + packets[..i], mac, attr, h0, k0);
        assert ps + packets[..i + 1] == ps + packets[..i] + [packets[i]];
      }
      assert packets[..|packets|] == packets;
    }

    /** uproto_wait_response. select gives wakes in turn, and a timeout once they run
        out; used tells how many were consumed. */
    method WaitResponse(mac: Option<string>, attr: string, wakes: seq<Wake>) returns (ret: Option<Json>, used: nat)
      modifies this
      ensures Idle() && used <= |wakes|
      ensures ret == Answer(Delivered(wakes[..used]), mac, attr)
      ensures handled == old(handled) + ToHandler(Delivered(wakes[..used]), mac, attr, FirstAnswer(Delivered(wakes[..used]), mac, attr))
      ensures kept == old(kept) + ToWaiter(Delivered(wakes[..used]), mac, attr, FirstAnswer(Delivered(wakes[..used]), mac, attr))
      ensures ret == None ==> used == |wakes| || wakes[used].Failed? || wakes[used].TimedOut?
      ensures ret.Some? ==> used > 0 && Answer(Delivered(wakes[..used - 1]), mac, attr) == None
    {
      ghost var h0, k0 := handled, kept;
      usyncMac := mac;
      usyncAttr := Some(attr);
      usyncRet := None;
      used := 0;
      hide ToHandler, ToWaiter, FirstAnswer, Delivered, Answer;
      EmptyWait(mac, attr);
      while used < |wakes|
        invariant used <= |wakes| && Waiting(Delivered(wakes[..used]), mac, attr, h0, k0)
        invariant usyncRet == None
      {
        var w := wakes[used];
        if w.Failed? || w.TimedOut? {
          break;
        }
        DeliveredNext(wakes, used);
        used := used + 1;
        if w.Other? {
          continue;
        }
        HandleEvent(w.packets, Delivered(wakes[..used - 1]), mac, attr, h0, k0);
        if usyncRet != None {
          break;
        }
      }
      usyncMac := None;
      usyncAttr := None;
      ret := usyncRet;
      usyncRet := None;
    }
  }

  /** A loose packet goes to the handler, a wait takes what comes during it. */
  method ServeOne(u: Uproto, x: Activity) returns (answers: seq<Option<Json>>)
    requires u.Idle()
    modifies u
    ensures u.Idle() && answers == AnswersOf(x)
    ensures u.handled == old(u.handled) + HandledOf(x) && u.kept == old(u.kept) + KeptOf(x)
  {
    hide FirstAnswer, ToHandler, ToWaiter, Answer, Delivered;
    answers := [];
    match x {
      case Loose(p) => u.HandleAlink(p);
      case Wait(mac, attr, ps) =>
        var ret, used := u.WaitResponse(mac, attr, [Ready(ps)]);
        OneWake(ps, used);
        answers := [ret];
    }
  }

  /** A whole run of such. */
  method Serve(u: Uproto, run: seq<Activity>) returns (answers: seq<Option<Json>>)
    requires u.Idle()
    modifies u
    ensures u.Idle() && answers == Answered(run)
    ensures u.handled == old(u.handled) + Handled(run)
    ensures u.kept == old(u.kept) + Kept(run)
  {
    hide HandledOf, KeptOf, AnswersOf;
    answers := [];
    for i := 0 to |run|
      invariant u.Idle() && answers == Answered(run[..i])
      invariant u.handled == old(u.handled) + Handled(run[..i])
      invariant u.kept == old(u.kept) + Kept(run[..i])
    {
      assert run[..i + 1][..i] == run[..i];
      var more := ServeOne(u, run[i]);
      answers := answers + more;
    }
    assert run[..|run|] == run;
  }

  lemma OneWake(ps: seq<Packet>, used: nat)
    ensures Delivered([Ready(ps)]) == ps
    ensures used == 1 ==> [Ready(ps)][..used] == [Ready(ps)]
  {
    assert [Ready(ps)][..0] == [];
  }

  /** A matching report without a value and then the answer: the first one reaches nobody
      but the waiter, which does not return it. */
  lemma ValuelessReportLost(p: Packet, v: Json, mac: Option<string>, attr: string)
    requires Matches(p, mac, attr) && p.value == None
    ensures var ps := [p, p.(value := Some(v))];
      Answer(ps, mac, attr) == Some(v) && ToHandler(ps, mac, attr, FirstAnswer(ps, mac, attr)) == [] &&
      ToWaiter(ps, mac, attr, FirstAnswer(ps, mac, attr)) == ps
  {
    var q := p.(value := Some(v));
    EmptyWait(mac, attr);
    ExtendWait([], p, mac, attr);
    assert [] + [p] == [p];
    ExtendWait([p], q, mac, attr);
    assert [p] + [q] == [p, q];
  }

  /** The packets of some wake-ups, in order. */
  function Delivered(wakes: seq<Wake>): seq<Packet> {
    if wakes == [] then []
    else
      Delivered(wakes[..|wakes| - 1]) + (if wakes[|wakes| - 1].Ready? then wakes[|wakes| - 1].packets else [])
  }

  lemma DeliveredNext(wakes: seq<Wake>, n: nat)
    requires n < |wakes|
    ensures Delivered(wakes[..n + 1])
         == if wakes[n].Ready? then Delivered(wakes[..n]) + wakes[n].packets else Delivered(wakes[..n])
  {
    assert wakes[..n + 1][..n] == wakes[..n];
  }

  lemma EmptyWait(mac: Option<string>, attr: string)
    ensures Delivered([]) == [] && FirstAnswer([], mac, attr) == 0 && Answer([], mac, attr) == None
    ensures ToHandler([], mac, attr, 0) == [] && ToWaiter([], mac, attr, 0) == []
  {
  }

  // ---- which packets -----------------------------------------------------

  /** Outside a wait a packet is handed on exactly when it comes from one of the two radio
      daemons, for the cloud side, is a result or a report, and carries data. */
  lemma HandedOnExactlyWhen(p: Packet)
    ensures HandledOf(Loose(p)) ==
      if (p.from == "ZB3" || p.from == "NXP") && p.to == "CLOUD" &&
         (p.ctype == "cmdResult" || p.ctype == "reportAttribute") && p.hasData then [p] else []
    ensures KeptOf(Loose(p)) == []
  {
  }

  /** As does the handler itself. */
  method HandleLoose(u: Uproto, p: Packet)
    requires u.Idle()
    modifies u
    ensures u.Idle() && u.kept == old(u.kept)
    ensures u.handled == old(u.handled) + (
      if (p.from == "ZB3" || p.from == "NXP") && p.to == "CLOUD" &&
         (p.ctype == "cmdResult" || p.ctype == "reportAttribute") && p.hasData then [p] else [])
  {
    u.HandleAlink(p);
  }

  /** During a wait a packet is kept back exactly when it is a report, from one of the two
      and with data, on the attribute waited for, and from the device if one is named, and
      the wait has no answer yet; it is handed on when it is accepted and not kept back. */
  method HandleAwaited(u: Uproto, p: Packet, attr: string)
    requires u.usyncAttr == Some(attr)
    modifies u
    ensures var kept := (p.from == "ZB3" || p.from == "NXP") && p.to == "CLOUD" && p.ctype == "reportAttribute" && p.hasData &&
        p.attr == attr && (old(u.usyncMac) == None || old(u.usyncMac) == Some(p.cmdmac)) && old(u.usyncRet) == None;
      var accepted := (p.from == "ZB3" || p.from == "NXP") && p.to == "CLOUD" &&
        (p.ctype == "cmdResult" || p.ctype == "reportAttribute") && p.hasData;
      u.kept == old(u.kept) + (if kept then [p] else []) &&
      u.usyncRet == (if kept then p.value else old(u.usyncRet)) &&
      u.handled == old(u.handled) + (if accepted && !kept then [p] else [])
  {
    u.HandleAlink(p);
  }

  /** And a wait answers with the first such report that has a value. */
  lemma AnswerIsFirst(ps: seq<Packet>, mac: Option<string>, attr: string, k: nat)
    requires k < |ps|
    ensures FirstAnswer(ps, mac, attr) == k <==>
      (forall i {:trigger ps[i]} :: 0 <= i <= k ==>
        (i == k <==>
          ((ps[i].from == "ZB3" || ps[i].from == "NXP") && ps[i].to == "CLOUD" && ps[i].hasData &&
           ps[i].ctype == "reportAttribute" && ps[i].attr == attr &&
           (mac == None || mac == Some(ps[i].cmdmac)) && ps[i].value != None)))
  {
    hide FirstAnswer;
    forall i | 0 <= i <= k
      ensures Answers(ps[i], mac, attr) <==>
        ((ps[i].from == "ZB3" || ps[i].from == "NXP") && ps[i].to == "CLOUD" && ps[i].hasData &&
          ps[i].ctype == "reportAttribute" && ps[i].attr == attr && (mac == None || mac == Some(ps[i].cmdmac)) && ps[i].value != None)
    {
    }
    hide Answers;
    if forall i :: 0 <= i <= k ==> ((i == k) <==> Answers(ps[i], mac, attr)) {
      FirstIs(ps, mac, attr, k);
    }
  }
}
