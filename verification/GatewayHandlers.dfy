/** The handlers themselves, on the shared objects. A server remembers the events it has taken, and
    its state is the one that run leads to, so what holds over every run holds of it. */
module GatewayHandlers {
  import opened CText
  import opened Gateway
  import opened GatewayReplies
  import opened GatewayRoutes

  class Server {
    var connections: Hash
    var cleared: set<Socket>
    var locked: bool
    var lists: map<string, seq<nat>>
    var messages: seq<Message>
    var callers: seq<Caller>
    var waiting: seq<nat>
    ghost var joined: set<Socket>
    ghost var registered: seq<Registration>
    ghost var delivered: map<nat, (nat, nat)>
    ghost var history: seq<Event>

    ghost function Now(): State
      reads this
    {
      State(connections, joined, cleared, locked, lists, messages, registered, callers, waiting, delivered)
    }

    ghost predicate Valid()
      reads this
    {
      Now() == Run(history)
    }

    constructor ()
      ensures Valid() && history == []
    {
      connections, cleared, locked, lists, messages, callers, waiting := [], {}, false, map[], [], [], [];
      joined, registered, delivered, history := {}, [], map[], [];
    }

    /** The fields hold the next state; the event goes on record. */
    ghost method Record(e: Event, before: State)
      requires before == Run(history) && Now() == Step(before, e)
      modifies `history
      ensures Valid() && history == old(history) + [e]
    {
      RunNext(history, e);
      history := history + [e];
    }

    // ----- The Ruby hash -----

    method FindKey(key: Key) returns (i: nat)
      ensures i == IndexOf(connections, key)
    {
      i := 0;
      while i < |connections| && connections[i].key != key
        invariant i <= |connections| && forall j :: 0 <= j < i ==> connections[j].key != key
      {
        i := i + 1;
      }
    }

    method FindValue(value: Option<Socket>) returns (i: nat)
      ensures i == FirstWith(connections, value)
    {
      i := 0;
      while i < |connections| && connections[i].value != value
        invariant i <= |connections| && forall j :: 0 <= j < i ==> connections[j].value != value
      {
        i := i + 1;
      }
    }

    method Assign(key: Key, value: Option<Socket>)
      modifies `connections
      ensures connections == Store(old(connections), key, value)
    {
      var i := FindKey(key);
      if i < |connections| {
        connections := connections[i := Entry(key, value)];
      } else {
        connections := connections + [Entry(key, value)];
      }
    }

    method Remove(key: Key)
      modifies `connections
      ensures connections == Delete(old(connections), key)
    {
      var i := FindKey(key);
      if i < |connections| {
        connections := connections[..i] + connections[i + 1..];
      }
    }

    // ----- Socket events -----

    /** The socket gets an entry of its own, and no route changes. */
    method OnOpen(w: Socket)
      requires Valid() && Enabled(Now(), Open(w))
      modifies this
      ensures Valid() && history == old(history) + [Open(w)]
      ensures Has(connections, Sock(w)) && forall sn :: Route(Now(), sn) == old(Route(Now(), sn))
    {
      forall sn { OpenLeaves(history, w, sn); }
      RunRoutesOk(history);
      StoreHas(connections, Sock(w), None, Sock(w));
      Assign(Sock(w), None);
      joined := joined + {w};
      Record(Open(w), old(Now()));
    }

    /** The caller blocked longest on a list. */
    method FindWaiter(key: string) returns (i: nat)
      ensures i == FirstWaiter(callers, waiting, key)
    {
      i := 0;
      while i < |waiting| && !(waiting[i] < |callers| && callers[waiting[i]].channel == key)
        invariant i <= |waiting|
        invariant forall j :: 0 <= j < i && waiting[j] < |callers| ==> callers[waiting[j]].channel != key
      {
        i := i + 1;
      }
    }

    method HandFirst(c: nat, list: seq<nat>, key: string)
      requires c < |callers| && list != []
      modifies `callers, `lists, `delivered
      ensures Now() == Hand(old(Now()), c, list, key)
    {
      delivered := delivered[list[0] := (c, |callers[c].replies|)];
      callers := callers[c := Answer(callers[c], Got(list[0]))];
      lists := lists[key := list[1..]];
    }

    /** The fields after `LPUSH`: the oldest caller blocked on the list gets the message. */
    method PushMessage(w: Socket, sn: Sn)
      modifies `messages, `locked, `lists, `callers, `waiting, `delivered
      ensures Now() == PushStep(old(Now()), w, sn)
    {
      var m, key := |messages|, sn.text;
      var list := [m] + ListAt(lists, key);
      messages, locked := messages + [Message(w, sn, Pushed)], true;
      var i := FindWaiter(key);
      if i == |waiting| {
        lists := lists[key := list];
      } else {
        HandFirst(waiting[i], list, key);
        waiting := waiting[..i] + waiting[i + 1..];
      }
    }

    /** `LPUSH` under the mutex: the message is held, and is in its list unless a caller was
        blocked there. */
    method LPush(w: Socket, sn: Sn) returns (m: nat)
      requires Valid() && Enabled(Now(), Push(w, sn))
      modifies this
      ensures Valid() && history == old(history) + [Push(w, sn)]
      ensures m == old(|messages|) && Held(Now(), m)
      ensures ListAt(lists, sn.text) == if exists i :: WaitsFor(old(Now()), i, sn.text) then [] else [m]
    {
      PushLeaves(history, w, sn);
      m := |messages|;
      PushMessage(w, sn);
      Record(Push(w, sn), old(Now()));
    }

    /** `DEL` and the release of the mutex: every list is empty. */
    method DelList(m: nat)
      requires Valid() && Enabled(Now(), Del(m))
      modifies this
      ensures Valid() && history == old(history) + [Del(m)]
      ensures !locked && (forall key :: ListAt(lists, key) == []) && callers == old(callers) && waiting == old(waiting)
    {
      DelLeaves(history, m);
      lists := lists - {messages[m].sn.text};
      messages := messages[m := messages[m].(phase := Deleted)];
      locked := false;
      Record(Del(m), old(Now()));
    }

    /** The route of the serial becomes `ws`, which is nil after a close; no other route changes. */
    method RegisterSocket(m: nat)
      requires Valid() && Enabled(Now(), Register(m))
      modifies this
      ensures Valid() && history == old(history) + [Register(m)]
      ensures forall sn :: Route(Now(), sn) == if sn == old(messages[m].sn) then old(SocketVar(Now(), messages[m].from))
                                               else old(Route(Now(), sn))
    {
      forall sn { RegisterLeaves(history, m, sn); }
      var Message(w, sn, _) := messages[m];
      Assign(Serial(sn), if w in cleared then None else Some(w));
      messages := messages[m := messages[m].(phase := Done)];
      registered := registered + [Registration(m, sn, w)];
      Record(Register(m), old(Now()));
    }

    /** The routes of other sockets stay; the socket keeps none if it was the last to register at
        most one serial. */
    method OnClose(w: Socket)
      requires Valid() && Enabled(Now(), Close(w))
      modifies this
      ensures Valid() && history == old(history) + [Close(w)]
      ensures forall sn :: old(Route(Now(), sn)).Some? && old(Route(Now(), sn)) != Some(w)
                ==> Route(Now(), sn) == old(Route(Now(), sn))
      ensures w !in old(cleared) ==>
                (NoRouteTo(Now(), w)
                 <==> forall s, t :: LastFor(old(Now()), s, w) && LastFor(old(Now()), t, w) ==> s == t)
    {
      forall sn | Route(Now(), sn).Some? && Route(Now(), sn) != Some(w) { CloseKeepsOtherRoutes(history, w, sn); }
      if w !in cleared { CloseClearsExactly(history, w); }
      var i := FindValue(if w in cleared then None else Some(w));
      if i < |connections| {
        Remove(connections[i].key);
      }
      cleared := cleared + {w};
      Record(Close(w), old(Now()));
    }

    /** A message handler that nothing interrupts: an open socket then has the route of the serial,
        and every list is empty. A message without a serial does nothing here. */
    method OnMessage(w: Socket, sn: Option<Sn>)
      requires Valid() && !locked && w in joined && !Busy(Now(), w)
      modifies this
      ensures Valid()
      ensures sn == None ==> Now() == old(Now())
      ensures sn.Some? ==>
                history == old(history) + [Push(w, sn.value)] + [Del(old(|messages|))] + [Register(old(|messages|))]
                && Route(Now(), sn.value) == old(SocketVar(Now(), w)) && !locked
    {
      if sn.None? { return; }
      var m := LPush(w, sn.value);
      RunNext(old(history), Push(w, sn.value));
      DelList(m);
      RunNext(old(history) + [Push(w, sn.value)], Del(m));
      RegisterSocket(m);
      RunNext(old(history) + [Push(w, sn.value)] + [Del(m)], Register(m));
    }

    // ----- Requests -----

    /** A request comes in: its caller is ready for the first item and has no replies. */
    method StartBatch(channel: string, items: nat) returns (c: nat)
      requires Valid()
      modifies this
      ensures Valid() && history == old(history) + [Start(channel, items)]
      ensures c == old(|callers|) && callers == old(callers) + [Caller(channel, items, Ready, [])]
    {
      c := |callers|;
      callers := callers + [Caller(channel, items, Ready, [])];
      Record(Start(channel, items), old(Now()));
    }

    /** The route of the channel, read without the mutex: a command goes to the socket that
        registered the channel last, or the caller gets an error. */
    method LookUp(c: nat)
      requires Valid() && Enabled(Now(), Lookup(c))
      modifies this
      ensures Valid() && history == old(history) + [Lookup(c)]
      ensures var sn := Name(old(callers[c].channel));
              if callers[c].progress == Sent
              then Route(Now(), sn).Some? && LastFor(Now(), sn, Route(Now(), sn).value)
              else Route(Now(), sn).None? && callers[c] == Answer(old(callers[c]), NotConnected)
    {
      CommandNeedsRoute(history, c);
      var i := FindKey(Serial(Name(callers[c].channel)));
      if i == |connections| || connections[i].value == None {
        callers := callers[c := Answer(callers[c], NotConnected)];
      } else {
        callers := callers[c := callers[c].(progress := Sent)];
      }
      Record(Lookup(c), old(Now()));
    }

    /** `BLPOP`: the one held message of the channel, or the last place in the queue. */
    method BlPop(c: nat)
      requires Valid() && Enabled(Now(), Pop(c))
      modifies this
      ensures Valid() && history == old(history) + [Pop(c)]
      ensures old(ListAt(lists, callers[c].channel)) == [] ==> c !in old(waiting) && waiting == old(waiting) + [c]
      ensures old(ListAt(lists, callers[c].channel)) != [] ==>
                Held(old(Now()), |messages| - 1) && messages[|messages| - 1].sn.text == callers[c].channel
                && callers[c].replies == old(callers[c].replies) + [Got(|messages| - 1)]
                && forall key :: ListAt(lists, key) == []
    {
      PopLeaves(history, c);
      var list := ListAt(lists, callers[c].channel);
      if list == [] {
        callers := callers[c := callers[c].(progress := Waiting)];
        waiting := waiting + [c];
      } else {
        HandFirst(c, list, callers[c].channel);
      }
      Record(Pop(c), old(Now()));
    }

    /** `BLPOP` gives up: the caller leaves the queue, the others keep their order. */
    method GiveUp(c: nat)
      requires Valid() && Enabled(Now(), Timeout(c))
      modifies this
      ensures Valid() && history == old(history) + [Timeout(c)]
      ensures c !in waiting && callers[c] == Answer(old(callers[c]), TimedOut)
      ensures exists i :: 0 <= i < |old(waiting)| && old(waiting)[i] == c
                          && waiting == old(waiting)[..i] + old(waiting)[i + 1..]
    {
      TimeoutLeaves(history, c);
      callers := callers[c := Answer(callers[c], TimedOut)];
      waiting := Without(waiting, c);
      Record(Timeout(c), old(Now()));
    }
  }
}
