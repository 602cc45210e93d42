/** Where a serial's route points, over every run of the gateway. */
module GatewayRoutes {
  import opened CText
  import opened Gateway
  import GatewayReplies

  function LastReg(regs: seq<Registration>, sn: Sn): (r: Option<Registration>)
    ensures r.Some? ==> r.value in regs && r.value.sn == sn
  {
    if regs == [] then None
    else if regs[|regs| - 1].sn == sn then Some(regs[|regs| - 1])
    else LastReg(regs[..|regs| - 1], sn)
  }

  lemma {:induction false} LastRegNext(regs: seq<Registration>, reg: Registration, sn: Sn)
    ensures LastReg(regs + [reg], sn) == if reg.sn == sn then Some(reg) else LastReg(regs, sn)
  {
    assert (regs + [reg])[..|regs|] == regs;
  }

  /** The last registration of the serial was made for the socket. */
  predicate LastFor(g: State, sn: Sn, w: Socket) {
    LastReg(g.registered, sn).Some? && LastReg(g.registered, sn).value.w == w
  }

  /** A present route was written by the last registration of its serial, and the route that one
      wrote is present as long as its socket has not closed. */
  ghost predicate RouteOk(g: State, sn: Sn) {
    && (Route(g, sn).Some? ==> LastFor(g, sn, Route(g, sn).value))
    && (forall w :: LastFor(g, sn, w) && w !in g.cleared ==> Route(g, sn) == Some(w))
  }

  ghost predicate RoutesOk(g: State) {
    && KeysDistinct(g.connections)
    && (forall sn :: RouteOk(g, sn))
    && (forall w :: Get(g.connections, Sock(w)) == None)
  }

  lemma {:induction false} RegisterKeeps(g: State, m: nat)
    requires RoutesOk(g) && m < |g.messages|
    ensures RoutesOk(RegisterStep(g, m))
  {
    var g', sn := RegisterStep(g, m), g.messages[m].sn;
    var value := SocketVar(g, g.messages[m].from);
    StoreGet(g.connections, Serial(sn), value, Serial(sn));
    forall s ensures RouteOk(g', s) {
      StoreGet(g.connections, Serial(sn), value, Serial(s));
      LastRegNext(g.registered, g'.registered[|g.registered|], s);
      assert RouteOk(g, s);
    }
    forall w ensures Get(g'.connections, Sock(w)) == None {
      StoreGet(g.connections, Serial(sn), value, Sock(w));
    }
  }

  lemma {:induction false} OpenKeeps(g: State, w: Socket)
    requires RoutesOk(g) && Enabled(g, Open(w))
    ensures RoutesOk(Step(g, Open(w)))
  {
    var g' := Step(g, Open(w));
    StoreGet(g.connections, Sock(w), None, Sock(w));
    forall s ensures RouteOk(g', s) {
      StoreGet(g.connections, Sock(w), None, Serial(s));
      assert RouteOk(g, s);
    }
    forall v ensures Get(g'.connections, Sock(v)) == None {
      StoreGet(g.connections, Sock(w), None, Sock(v));
    }
  }

  lemma {:induction false} CloseKeeps(g: State, w: Socket)
    requires RoutesOk(g) && Enabled(g, Close(w))
    ensures RoutesOk(Step(g, Close(w)))
  {
    var g', value := Step(g, Close(w)), SocketVar(g, w);
    ForgetGet(g.connections, value, Sock(w));
    forall s ensures RouteOk(g', s) {
      ForgetGet(g.connections, value, Serial(s));
      KeyOfGet(g.connections, value, Serial(s));
      assert RouteOk(g, s);
    }
    forall v ensures Get(g'.connections, Sock(v)) == None {
      ForgetGet(g.connections, value, Sock(v));
    }
  }

  /** Only opening, registering and closing touch the routes. */
  lemma {:induction false} StepKeepsRoutes(g: State, e: Event)
    requires !e.Open? && !e.Register? && !e.Close?
    ensures var g' := Step(g, e);
            g'.connections == g.connections && g'.registered == g.registered && g'.cleared == g.cleared
  {
  }

  lemma {:induction false} StepRoutesOk(g: State, e: Event)
    requires RoutesOk(g)
    ensures RoutesOk(Step(g, e))
  {
    if !Enabled(g, e) { return; }
    match e
    case Open(w) => OpenKeeps(g, w);
    case Register(m) => RegisterKeeps(g, m);
    case Close(w) => CloseKeeps(g, w);
    case _ =>
      StepKeepsRoutes(g, e);
      forall s ensures RouteOk(Step(g, e), s) { assert RouteOk(g, s); }
  }

  lemma {:induction false} RunRoutesOk(es: seq<Event>)
    ensures RoutesOk(Run(es))
  {
    if es != [] {
      RunRoutesOk(es[..|es| - 1]);
      StepRoutesOk(Run(es[..|es| - 1]), es[|es| - 1]);
    }
  }

  /** Opening a socket changes no route. */
  lemma {:induction false} OpenLeaves(es: seq<Event>, w: Socket, sn: Sn)
    requires Enabled(Run(es), Open(w))
    ensures Route(Run(es + [Open(w)]), sn) == Route(Run(es), sn) && Has(Run(es + [Open(w)]).connections, Sock(w))
  {
    RunNext(es, Open(w));
    RunRoutesOk(es);
    StoreGet(Run(es).connections, Sock(w), None, Serial(sn));
    StoreHas(Run(es).connections, Sock(w), None, Sock(w));
  }

  /** Registering writes the route of the message's serial, with nil after a close, and no other. */
  lemma {:induction false} RegisterLeaves(es: seq<Event>, m: nat, sn: Sn)
    requires Enabled(Run(es), Register(m))
    ensures var g := Run(es);
            Route(Run(es + [Register(m)]), sn)
            == if sn == g.messages[m].sn then SocketVar(g, g.messages[m].from) else Route(g, sn)
  {
    var g := Run(es);
    RunNext(es, Register(m));
    RunRoutesOk(es);
    StoreGet(g.connections, Serial(g.messages[m].sn), SocketVar(g, g.messages[m].from), Serial(sn));
  }

  // ----- Closing -----

  /** A close never removes or changes the route of another socket, and once the socket's
      handlers have lost `ws`, closing again changes no present route at all. */
  lemma {:induction false} CloseKeepsOtherRoutes(es: seq<Event>, w: Socket, sn: Sn)
    requires Route(Run(es), sn).Some?
    requires Route(Run(es), sn) != Some(w) || w in Run(es).cleared
    ensures Route(Run(es + [Close(w)]), sn) == Route(Run(es), sn)
  {
    var g := Run(es);
    RunNext(es, Close(w));
    RunRoutesOk(es);
    if Enabled(g, Close(w)) {
      ForgetGet(g.connections, SocketVar(g, w), Serial(sn));
      KeyOfGet(g.connections, SocketVar(g, w), Serial(sn));
    }
  }

  ghost predicate NoRouteTo(g: State, w: Socket) {
    forall sn :: Route(g, sn) != Some(w)
  }

  ghost predicate AtMostOneRouteTo(g: State, w: Socket) {
    forall s, t :: Route(g, s) == Some(w) && Route(g, t) == Some(w) ==> s == t
  }

  /** The first close of a socket leaves no route to it exactly when at most one serial was
      routed to it. */
  lemma {:induction false} CloseClears(g: State, w: Socket)
    requires RoutesOk(g) && Enabled(g, Close(w)) && w !in g.cleared
    ensures NoRouteTo(Step(g, Close(w)), w) <==> AtMostOneRouteTo(g, w)
  {
    var g', key := Step(g, Close(w)), KeyOf(g.connections, Some(w));
    forall s ensures Route(g', s) == if key == Some(Serial(s)) then None else Route(g, s) {
      ForgetGet(g.connections, Some(w), Serial(s));
    }
    if NoRouteTo(g', w) {
      forall s, t | Route(g, s) == Some(w) && Route(g, t) == Some(w) ensures s == t {
        assert Route(g', s) != Some(w) && Route(g', t) != Some(w);
      }
    } else {
      var s :| Route(g', s) == Some(w);
      KeyOfGet(g.connections, Some(w), Serial(s));
      var k := key.value;
      KeyOfGet(g.connections, Some(w), k);
      assert k.Serial?;
      assert Route(g, k.sn) == Some(w) && Route(g, s) == Some(w) && k.sn != s;
    }
  }

  /** Over every run, an open socket has the route of a serial exactly when it registered the
      serial last. */
  lemma {:induction false} OpenSocketHasRoute(es: seq<Event>, sn: Sn, w: Socket)
    requires w !in Run(es).cleared
    ensures Route(Run(es), sn) == Some(w) <==> LastFor(Run(es), sn, w)
  {
    RunRoutesOk(es);
    assert RouteOk(Run(es), sn);
  }

  /** So the first close of a socket leaves no route to it exactly when it was the last to
      register at most one serial. */
  lemma {:induction false} CloseClearsExactly(es: seq<Event>, w: Socket)
    requires Enabled(Run(es), Close(w)) && w !in Run(es).cleared
    ensures NoRouteTo(Run(es + [Close(w)]), w)
            <==> forall s, t :: LastFor(Run(es), s, w) && LastFor(Run(es), t, w) ==> s == t
  {
    var g := Run(es);
    RunNext(es, Close(w));
    RunRoutesOk(es);
    CloseClears(g, w);
    forall s ensures Route(g, s) == Some(w) <==> LastFor(g, s, w) { OpenSocketHasRoute(es, s, w); }
  }

  /** In every run, a socket that was the last to register two serials leaves a route to itself
      when it closes. */
  lemma {:induction false} TwoSerialsLeaveRoute(es: seq<Event>, w: Socket, s: Sn, t: Sn)
    requires Enabled(Run(es), Close(w)) && w !in Run(es).cleared
    requires s != t && LastFor(Run(es), s, w) && LastFor(Run(es), t, w)
    ensures exists sn | sn in {s, t} :: Route(Run(es + [Close(w)]), sn) == Some(w)
  {
    var g := Run(es);
    RunNext(es, Close(w));
    RunRoutesOk(es);
    OpenSocketHasRoute(es, s, w);
    OpenSocketHasRoute(es, t, w);
    ForgetGet(g.connections, Some(w), Serial(s));
    ForgetGet(g.connections, Some(w), Serial(t));
    if KeyOf(g.connections, Some(w)) == Some(Serial(s)) {
      assert Route(Run(es + [Close(w)]), t) == Some(w);
    } else {
      assert Route(Run(es + [Close(w)]), s) == Some(w);
    }
  }

  // ----- The entry made on open -----

  /** A close takes away the entry made when a socket opened exactly when the closing socket had
      closed before and that entry is the first with nil. */
  lemma {:induction false} OpenEntrySurvives(es: seq<Event>, v: Socket, w: Socket)
    requires Enabled(Run(es), Close(v)) && Has(Run(es).connections, Sock(w))
    ensures Has(Run(es + [Close(v)]).connections, Sock(w))
            <==> v !in Run(es).cleared || KeyOf(Run(es).connections, None) != Some(Sock(w))
  {
    var g := Run(es);
    RunNext(es, Close(v));
    RunRoutesOk(es);
    ForgetHas(g.connections, SocketVar(g, v), Sock(w));
    KeyOfGet(g.connections, SocketVar(g, v), Sock(w));
  }

  /** No socket closes a second time. */
  ghost predicate ClosesOnce(es: seq<Event>) {
    es != [] ==>
      var e := es[|es| - 1];
      ClosesOnce(es[..|es| - 1]) && (e.Close? ==> e.w !in Run(es[..|es| - 1]).cleared)
  }

  lemma {:induction false} StepKeepsEntry(g: State, e: Event, w: Socket)
    requires RoutesOk(g) && Has(g.connections, Sock(w)) && Enabled(g, e) && (e.Close? ==> e.w !in g.cleared)
    ensures Has(Step(g, e).connections, Sock(w))
  {
    match e
    case Open(v) => StoreHas(g.connections, Sock(v), None, Sock(w));
    case Register(m) =>
      StoreHas(g.connections, Serial(g.messages[m].sn), SocketVar(g, g.messages[m].from), Sock(w));
    case Close(v) =>
      ForgetHas(g.connections, Some(v), Sock(w));
      KeyOfGet(g.connections, Some(v), Sock(w));
    case _ => StepKeepsRoutes(g, e);
  }

  lemma {:induction false} JoinedByOpen(g: State, e: Event, w: Socket)
    requires RoutesOk(g) && w !in g.joined && w in Step(g, e).joined
    ensures Has(Step(g, e).connections, Sock(w))
  {
    StoreHas(g.connections, Sock(w), None, Sock(w));
  }

  /** If none does, the entry of every socket ever opened is still there, closed or not. */
  lemma {:induction false} OpenEntriesStay(es: seq<Event>, w: Socket)
    requires ClosesOnce(es) && w in Run(es).joined
    ensures Has(Run(es).connections, Sock(w))
  {
    var front, e := es[..|es| - 1], es[|es| - 1];
    RunRoutesOk(front);
    if w !in Run(front).joined {
      JoinedByOpen(Run(front), e, w);
    } else {
      OpenEntriesStay(front, w);
      if Enabled(Run(front), e) { StepKeepsEntry(Run(front), e, w); }
    }
  }

  // ----- Sockets that use one serial -----

  ghost predicate OneSerial(g: State) {
    forall i, j :: 0 <= i < |g.messages| && 0 <= j < |g.messages| && g.messages[i].from == g.messages[j].from
      ==> g.messages[i].sn == g.messages[j].sn
  }

  ghost predicate RegsOk(g: State) {
    forall k :: 0 <= k < |g.registered| ==>
      var reg := g.registered[k];
      reg.m < |g.messages| && g.messages[reg.m] == Message(reg.w, reg.sn, Done)
  }

  lemma {:induction false} StepRegsOk(g: State, e: Event)
    requires RegsOk(g)
    ensures RegsOk(Step(g, e))
  {
  }

  lemma {:induction false} RunRegsOk(es: seq<Event>)
    ensures RegsOk(Run(es))
  {
    if es != [] {
      RunRegsOk(es[..|es| - 1]);
      StepRegsOk(Run(es[..|es| - 1]), es[|es| - 1]);
    }
  }

  lemma {:induction false} RegIsMessage(g: State, reg: Registration)
    requires RegsOk(g) && reg in g.registered
    ensures reg.m < |g.messages| && g.messages[reg.m] == Message(reg.w, reg.sn, Done)
  {
    var k :| 0 <= k < |g.registered| && g.registered[k] == reg;
  }

  /** In every state of every run a present route was written by the last registration of its
      serial, and that registration was made for a message of the socket it points to. */
  lemma {:induction false} RouteIsLastRegistration(es: seq<Event>, sn: Sn) returns (reg: Registration)
    requires Route(Run(es), sn).Some?
    ensures LastReg(Run(es).registered, sn) == Some(reg) && Route(Run(es), sn) == Some(reg.w)
    ensures reg.m < |Run(es).messages| && Run(es).messages[reg.m] == Message(reg.w, sn, Done)
  {
    RunRoutesOk(es);
    RunRegsOk(es);
    assert RouteOk(Run(es), sn);
    reg := LastReg(Run(es).registered, sn).value;
    RegIsMessage(Run(es), reg);
  }

  /** A command is sent exactly when the channel has a route, and then to the socket that
      registered the channel last; otherwise the caller gets an error at once. There is a route
      whenever that socket is still open. */
  lemma {:induction false} CommandNeedsRoute(es: seq<Event>, c: nat)
    requires Enabled(Run(es), Lookup(c))
    ensures var g, g' := Run(es), Run(es + [Lookup(c)]);
            var sn := Name(g.callers[c].channel);
            && (forall w :: LastFor(g, sn, w) && w !in g.cleared ==> Route(g, sn) == Some(w))
            && if Route(g, sn).Some? then
                 g'.callers[c].progress == Sent && g'.callers[c].replies == g.callers[c].replies
                 && LastFor(g, sn, Route(g, sn).value)
               else g'.callers[c] == Answer(g.callers[c], NotConnected)
  {
    RunNext(es, Lookup(c));
    RunRoutesOk(es);
    assert RouteOk(Run(es), Name(Run(es).callers[c].channel));
  }

  /** A channel has a route only through a message whose serial is that string: messages whose
      serial is another value with the same text reach the list but never the route. */
  lemma {:induction false} OnlyNamesRoute(es: seq<Event>, channel: string)
    requires forall m :: 0 <= m < |Run(es).messages| ==> Run(es).messages[m].sn != Name(channel)
    ensures Route(Run(es), Name(channel)) == None
  {
    if Route(Run(es), Name(channel)).Some? {
      var reg := RouteIsLastRegistration(es, Name(channel));
    }
  }

  /** A route comes from a message of the socket it points to. */
  lemma {:induction false} RouteHasMessage(g: State, sn: Sn) returns (m: nat)
    requires RoutesOk(g) && RegsOk(g) && Route(g, sn).Some?
    ensures m < |g.messages| && g.messages[m] == Message(Route(g, sn).value, sn, Done)
  {
    assert RouteOk(g, sn);
    var reg := LastReg(g.registered, sn).value;
    RegIsMessage(g, reg);
    m := reg.m;
  }

  lemma {:induction false} OneSerialOneRoute(g: State, w: Socket)
    requires RoutesOk(g) && RegsOk(g) && OneSerial(g)
    ensures AtMostOneRouteTo(g, w)
  {
    forall s, t | Route(g, s) == Some(w) && Route(g, t) == Some(w) ensures s == t {
      var i := RouteHasMessage(g, s);
      var j := RouteHasMessage(g, t);
      assert g.messages[i].from == g.messages[j].from;
    }
  }

  /** No route points to a closed socket. */
  ghost predicate NoDeadRoutes(g: State) {
    forall w | w in g.cleared :: NoRouteTo(g, w)
  }

  lemma {:induction false} OpenNoRoute(g: State, v: Socket, w: Socket)
    requires RoutesOk(g) && Enabled(g, Open(v)) && NoRouteTo(g, w)
    ensures NoRouteTo(Step(g, Open(v)), w)
  {
    forall s ensures Route(Step(g, Open(v)), s) != Some(w) {
      StoreGet(g.connections, Sock(v), None, Serial(s));
      assert Route(g, s) != Some(w);
    }
  }

  lemma {:induction false} RegisterNoRoute(g: State, m: nat, w: Socket)
    requires RoutesOk(g) && m < |g.messages| && NoRouteTo(g, w) && w in g.cleared
    ensures NoRouteTo(RegisterStep(g, m), w)
  {
    forall s ensures Route(RegisterStep(g, m), s) != Some(w) {
      StoreGet(g.connections, Serial(g.messages[m].sn), SocketVar(g, g.messages[m].from), Serial(s));
      assert Route(g, s) != Some(w);
    }
  }

  lemma {:induction false} CloseNoRoute(g: State, v: Socket, w: Socket)
    requires RoutesOk(g) && Enabled(g, Close(v)) && NoRouteTo(g, w)
    ensures NoRouteTo(Step(g, Close(v)), w)
  {
    forall s ensures Route(Step(g, Close(v)), s) != Some(w) {
      ForgetGet(g.connections, SocketVar(g, v), Serial(s));
      assert Route(g, s) != Some(w);
    }
  }

  lemma {:induction false} StepNoDeadRoutes(g: State, e: Event)
    requires RoutesOk(g) && RegsOk(g) && OneSerial(g) && NoDeadRoutes(g)
    ensures NoDeadRoutes(Step(g, e))
  {
    var g' := Step(g, e);
    if !Enabled(g, e) { return; }
    forall w | w in g'.cleared ensures NoRouteTo(g', w) {
      if w !in g.cleared {
        OneSerialOneRoute(g, w);
        CloseClears(g, w);
      } else {
        match e
        case Open(v) => OpenNoRoute(g, v, w);
        case Register(m) => RegisterNoRoute(g, m, w);
        case Close(v) => CloseNoRoute(g, v, w);
        case _ =>
          StepKeepsRoutes(g, e);
          forall s ensures Route(g', s) != Some(w) { assert NoRouteTo(g, w) && Route(g, s) != Some(w); }
      }
    }
  }

  lemma {:induction false} OneSerialBefore(g: State, e: Event)
    requires OneSerial(Step(g, e))
    ensures OneSerial(g)
  {
    var g' := Step(g, e);
    forall i, j | 0 <= i < |g.messages| && 0 <= j < |g.messages| && g.messages[i].from == g.messages[j].from
      ensures g.messages[i].sn == g.messages[j].sn
    {
      assert g'.messages[i].from == g'.messages[j].from;
    }
  }

  /** If no socket has used two serials, no route to a closed socket is left, however often
      sockets close. */
  lemma {:induction false} ClosedSocketsHaveNoRoute(es: seq<Event>)
    requires OneSerial(Run(es))
    ensures NoDeadRoutes(Run(es))
  {
    if es != [] {
      var g, e := Run(es[..|es| - 1]), es[|es| - 1];
      OneSerialBefore(g, e);
      ClosedSocketsHaveNoRoute(es[..|es| - 1]);
      RunRoutesOk(es[..|es| - 1]);
      RunRegsOk(es[..|es| - 1]);
      StepNoDeadRoutes(g, e);
    }
  }

  // ----- The socket that sent last -----

  ghost predicate InFlight(g: State, sn: Sn) {
    exists m :: 0 <= m < |g.messages| && g.messages[m].sn == sn && g.messages[m].phase != Done
  }

  /** No message is pushed while the handler of another one with its serial is under way. */
  ghost predicate Orderly(es: seq<Event>) {
    es != [] ==>
      var e := es[|es| - 1];
      Orderly(es[..|es| - 1]) && (e.Push? ==> !InFlight(Run(es[..|es| - 1]), e.sn))
  }

  ghost predicate OnlyLastInFlight(g: State) {
    forall i, j :: 0 <= i < j < |g.messages| && g.messages[i].sn == g.messages[j].sn ==> g.messages[i].phase == Done
  }

  /** A finished message is no later than the last registration of its serial. */
  ghost predicate Settled(g: State, m: nat)
    requires m < |g.messages|
  {
    g.messages[m].phase == Done ==>
      var last := LastReg(g.registered, g.messages[m].sn);
      last.Some? && m <= last.value.m
  }

  ghost predicate InOrder(g: State) {
    OnlyLastInFlight(g) && forall m :: 0 <= m < |g.messages| ==> Settled(g, m)
  }

  lemma {:induction false} RegisterInOrder(g: State, m: nat)
    requires InOrder(g) && Enabled(g, Register(m))
    ensures InOrder(RegisterStep(g, m))
  {
    var g' := RegisterStep(g, m);
    forall i | 0 <= i < |g'.messages| ensures Settled(g', i) {
      LastRegNext(g.registered, g'.registered[|g.registered|], g.messages[i].sn);
      assert Settled(g, i);
    }
  }

  lemma {:induction false} PushInOrder(g: State, w: Socket, sn: Sn)
    requires InOrder(g) && Enabled(g, Push(w, sn)) && !InFlight(g, sn)
    ensures InOrder(Step(g, Push(w, sn)))
  {
    var g' := Step(g, Push(w, sn));
    assert g'.messages == g.messages + [Message(w, sn, Pushed)];
    forall i | 0 <= i < |g'.messages| ensures Settled(g', i) {
      if i < |g.messages| { assert Settled(g, i); }
    }
  }

  lemma {:induction false} StepInOrder(g: State, e: Event)
    requires InOrder(g) && (e.Push? ==> !InFlight(g, e.sn))
    ensures InOrder(Step(g, e))
  {
    var g' := Step(g, e);
    if !Enabled(g, e) { return; }
    match e
    case Push(w, sn) => PushInOrder(g, w, sn);
    case Register(m) => RegisterInOrder(g, m);
    case _ =>
      OtherStepsMessages(g, e);
      forall i | 0 <= i < |g'.messages| ensures Settled(g', i) { assert Settled(g, i); }
  }

  lemma {:induction false} OtherStepsMessages(g: State, e: Event)
    requires !e.Push? && !e.Register?
    ensures var g' := Step(g, e);
            |g'.messages| == |g.messages| && g'.registered == g.registered
            && forall i :: 0 <= i < |g.messages| ==>
                 g'.messages[i].sn == g.messages[i].sn
                 && (g'.messages[i].phase == Done <==> g.messages[i].phase == Done)
  {
  }

  lemma {:induction false} RunInOrder(es: seq<Event>)
    requires Orderly(es)
    ensures InOrder(Run(es))
  {
    if es != [] {
      RunInOrder(es[..|es| - 1]);
      StepInOrder(Run(es[..|es| - 1]), es[|es| - 1]);
    }
  }

  /** The last message with a serial. */
  ghost predicate IsLast(g: State, sn: Sn, m: nat) {
    m < |g.messages| && g.messages[m].sn == sn && forall j :: m < j < |g.messages| ==> g.messages[j].sn != sn
  }

  /** If handlers of one serial never overlap, then whenever none of them is under way a present
      route points to the socket that sent the last message with the serial. */
  lemma {:induction false} RouteIsLastSender(es: seq<Event>, sn: Sn)
    requires Orderly(es) && !InFlight(Run(es), sn) && Route(Run(es), sn).Some?
    ensures exists m: nat :: IsLast(Run(es), sn, m) && Route(Run(es), sn) == Some(Run(es).messages[m].from)
  {
    var g := Run(es);
    RunInOrder(es);
    var reg := RouteIsLastRegistration(es, sn);
    forall j | reg.m < j < |g.messages| ensures g.messages[j].sn != sn {
      assert Settled(g, j);
    }
    assert IsLast(g, sn, reg.m);
  }

  lemma {:induction false} Registers(es: seq<Event>, m: nat)
    requires Enabled(Run(es), Register(m))
    ensures Run(es + [Register(m)]) == RegisterStep(Run(es), m)
  {
    RunNext(es, Register(m));
  }

  /** The state after pushing a message and deleting its list. */
  lemma {:induction false} Sends(es: seq<Event>, w: Socket, sn: Sn)
    requires Enabled(Run(es), Push(w, sn))
    ensures var g := Run(es); var g' := Run(es + [Push(w, sn)] + [Del(|g.messages|)]);
            && g'.messages == g.messages + [Message(w, sn, Deleted)] && !g'.locked
            && g'.connections == g.connections && g'.registered == g.registered
            && g'.cleared == g.cleared && g'.joined == g.joined
  {
    var g := Run(es);
    RunNext(es, Push(w, sn));
    RunNext(es + [Push(w, sn)], Del(|g.messages|));
    var g1 := Run(es + [Push(w, sn)]);
    assert g1.messages == g.messages + [Message(w, sn, Pushed)];
    assert SetPhase(g1.messages, |g.messages|, Deleted) == g.messages + [Message(w, sn, Deleted)];
  }

  lemma {:induction false} InFlightIsDeleted(es: seq<Event>, i: nat)
    requires i < |Run(es).messages| && Run(es).messages[i].phase != Done && !Run(es).locked
    ensures Run(es).messages[i].phase == Deleted
  {
    GatewayReplies.RunInv(es);
  }

  /** The events of a whole handler, and then of the rest of an earlier one. */
  function Overtake(es: seq<Event>, w: Socket, sn: Sn, m: nat, i: nat): seq<Event> {
    es + [Push(w, sn)] + [Del(m)] + [Register(m)] + [Register(i)]
  }

  /** From every state in which a message may be pushed while an earlier handler of its serial is
      under way, with its socket open, the later handler may overtake the earlier one. The route
      then points to the earlier sender, though another socket sent last; and if this was the
      first overlap, no handler of the serial is under way any more. */
  lemma {:induction false} OverlapMisroutes(es: seq<Event>, w: Socket, sn: Sn, i: nat)
    requires Enabled(Run(es), Push(w, sn)) && i < |Run(es).messages|
    requires Run(es).messages[i].sn == sn && Run(es).messages[i].phase != Done
    requires Run(es).messages[i].from !in Run(es).cleared
    ensures var g, m := Run(es), |Run(es).messages|;
            var g' := Run(Overtake(es, w, sn, m, i));
            && Route(g', sn) == Some(g.messages[i].from)
            && IsLast(g', sn, m) && g'.messages[m].from == w != g.messages[i].from
            && (OnlyLastInFlight(g) ==> !InFlight(g', sn))
  {
    var g, m := Run(es), |Run(es).messages|;
    InFlightIsDeleted(es, i);
    Sends(es, w, sn);
    var e2 := es + [Push(w, sn)] + [Del(m)];
    Registers(e2, m);
    Registers(e2 + [Register(m)], i);
    var g3 := Run(e2 + [Register(m)]);
    RunRoutesOk(e2 + [Register(m)]);
    StoreGet(g3.connections, Serial(sn), Some(g.messages[i].from), Serial(sn));
  }

  // ----- Runs that go wrong -----

  const A := Name("A")
  const B := Name("B")

  lemma {:induction false} Opens(es: seq<Event>, w: Socket)
    requires Enabled(Run(es), Open(w))
    ensures Run(es + [Open(w)])
            == Run(es).(connections := Store(Run(es).connections, Sock(w), None), joined := Run(es).joined + {w})
  {
    RunNext(es, Open(w));
  }

  lemma {:induction false} Joined() returns (es: seq<Event>)
    ensures Run(es) == START.(connections := [Entry(Sock(0), None), Entry(Sock(1), None)], joined := {0, 1})
  {
    es := [] + [Open(0)] + [Open(1)];
    Opens([], 0);
    Opens([] + [Open(0)], 1);
  }

  /** The state after the whole handler of a message of an open socket. */
  lemma {:induction false} Handled(es: seq<Event>, w: Socket, sn: Sn) returns (es': seq<Event>)
    requires Enabled(Run(es), Push(w, sn)) && w !in Run(es).cleared
    ensures var g, g' := Run(es), Run(es');
            && g'.messages == g.messages + [Message(w, sn, Done)] && !g'.locked
            && g'.registered == g.registered + [Registration(|g.messages|, sn, w)]
            && g'.cleared == g.cleared && g'.joined == g.joined
  {
    var m := |Run(es).messages|;
    var e1 := es + [Push(w, sn)] + [Del(m)];
    Sends(es, w, sn);
    Registers(e1, m);
    es' := e1 + [Register(m)];
    assert Run(es').messages == Run(es).messages + [Message(w, sn, Done)];
  }

  /** A socket sends with two serials and closes: a route to the closed socket is left. */
  lemma {:induction false} StaleRouteIsReachable() returns (es: seq<Event>)
    ensures 0 in Run(es).cleared && !NoRouteTo(Run(es), 0)
  {
    var e0 := Joined();
    var e1 := Handled(e0, 0, A);
    var e2 := Handled(e1, 0, B);
    assert A.text != B.text;
    var regs := Run(e2).registered;
    LastRegNext(regs[..1], regs[1], A);
    LastRegNext([], regs[0], A);
    LastRegNext(regs[..1], regs[1], B);
    assert regs == regs[..1] + [regs[1]] && regs[..1] == [] + [regs[0]];
    TwoSerialsLeaveRoute(e2, 0, A, B);
    RunNext(e2, Close(0));
    es := e2 + [Close(0)];
  }

  /** Two sockets send with one serial and are registered in the opposite order: the route points
      to the first sender, though the second sent last and no handler is under way. */
  lemma {:induction false} LateRegistration() returns (es: seq<Event>)
    ensures IsLast(Run(es), A, 1) && Run(es).messages[1].from == 1 && !InFlight(Run(es), A)
    ensures Route(Run(es), A) == Some(0)
  {
    var e0 := Joined();
    Sends(e0, 0, A);
    var e1 := e0 + [Push(0, A)] + [Del(0)];
    OverlapMisroutes(e1, 1, A, 0);
    es := Overtake(e1, 1, A, 1, 0);
  }

  /** Two sockets open and the second closes twice: the entry of the first, still open, is gone. */
  lemma {:induction false} SecondCloseForgetsAnother() returns (es: seq<Event>)
    ensures 0 in Run(es).joined && 0 !in Run(es).cleared && !Has(Run(es).connections, Sock(0))
  {
    var e0 := Joined();
    var e1 := e0 + [Close(1)];
    RunNext(e0, Close(1));
    assert FirstWith(Run(e0).connections, Some(1)) == 2;
    assert Run(e1) == Run(e0).(cleared := {1});
    RunNext(e1, Close(1));
    es := e1 + [Close(1)];
    RunRoutesOk(e1);
    IndexIs(Run(e1).connections, 0);
    assert Has(Run(e1).connections, Sock(0)) && KeyOf(Run(e1).connections, None) == Some(Sock(0));
    OpenEntrySurvives(e1, 1, 0);
  }
}
