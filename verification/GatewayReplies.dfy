/** What HTTP callers collect from the readers' response lists, over every run of the gateway. */
module GatewayReplies {
  import opened Gateway

  // ----- The lists -----

  /** The mutex is held exactly while the last message is between its LPUSH and its DEL, and only
      that message can be in a list: its own. */
  ghost predicate ListsOk(messages: seq<Message>, locked: bool, lists: map<string, seq<nat>>) {
    && (locked <==> messages != [] && messages[|messages| - 1].phase == Pushed)
    && (forall i :: 0 <= i < |messages| - 1 ==> messages[i].phase != Pushed)
    && (forall key :: ListAt(lists, key) == [] ||
                      (locked && messages[|messages| - 1].sn.text == key && ListAt(lists, key) == [|messages| - 1]))
  }

  /** Every message below this one may have been delivered; the rest are not. */
  ghost function Bound(messages: seq<Message>, lists: map<string, seq<nat>>): nat {
    if messages != [] && ListAt(lists, messages[|messages| - 1].sn.text) != [] then |messages| - 1 else |messages|
  }

  // ----- The replies -----

  ghost predicate ReplyOk(messages: seq<Message>, delivered: map<nat, (nat, nat)>, caller: Caller, c: nat, i: nat)
    requires i < |caller.replies|
  {
    caller.replies[i].Got? ==>
      var m := caller.replies[i].m;
      m < |messages| && messages[m].sn.text == caller.channel && m in delivered && delivered[m] == (c, i)
  }

  ghost predicate Increasing(replies: seq<Reply>) {
    forall i, j :: 0 <= i < j < |replies| && replies[i].Got? && replies[j].Got? ==> replies[i].m < replies[j].m
  }

  ghost predicate CallerOk(messages: seq<Message>, delivered: map<nat, (nat, nat)>, caller: Caller, c: nat) {
    && |caller.replies| + (if caller.progress == Ready then 0 else 1) <= caller.items
    && Increasing(caller.replies)
    && forall i :: 0 <= i < |caller.replies| ==> ReplyOk(messages, delivered, caller, c, i)
  }

  ghost predicate CallersOk(messages: seq<Message>, delivered: map<nat, (nat, nat)>, callers: seq<Caller>) {
    forall c :: 0 <= c < |callers| ==> CallerOk(messages, delivered, callers[c], c)
  }

  ghost predicate WaitersOk(callers: seq<Caller>, waiting: seq<nat>) {
    && (forall i :: 0 <= i < |waiting| ==> waiting[i] < |callers| && callers[waiting[i]].progress == Waiting)
    && (forall i, j :: 0 <= i < j < |waiting| ==> waiting[i] != waiting[j])
    && (forall c :: 0 <= c < |callers| && callers[c].progress == Waiting ==> c in waiting)
  }

  ghost predicate Inv(g: State) {
    && ListsOk(g.messages, g.locked, g.lists)
    && CallersOk(g.messages, g.delivered, g.callers)
    && WaitersOk(g.callers, g.waiting)
    && (forall m | m in g.delivered :: m < Bound(g.messages, g.lists))
  }

  // ----- Steps that deliver -----

  /** A message no one has can be handed to a caller of its list. */
  lemma {:induction false} AnswerOk(messages: seq<Message>, delivered: map<nat, (nat, nat)>, caller: Caller, c: nat,
                                    m: nat)
    requires CallerOk(messages, delivered, caller, c) && caller.progress != Ready
    requires m < |messages| && messages[m].sn.text == caller.channel && forall d | d in delivered :: d < m
    ensures CallerOk(messages, delivered[m := (c, |caller.replies|)], Answer(caller, Got(m)), c)
  {
    var delivered' := delivered[m := (c, |caller.replies|)];
    var caller' := Answer(caller, Got(m));
    forall i | 0 <= i < |caller'.replies| ensures ReplyOk(messages, delivered', caller', c, i) {
      if i < |caller.replies| { assert ReplyOk(messages, delivered, caller, c, i); }
    }
    forall i, j | 0 <= i < j < |caller'.replies| && caller'.replies[i].Got? && caller'.replies[j].Got?
      ensures caller'.replies[i].m < caller'.replies[j].m
    {
      assert ReplyOk(messages, delivered, caller, c, i);
    }
  }

  lemma {:induction false} OthersOk(messages: seq<Message>, delivered: map<nat, (nat, nat)>, caller: Caller, c: nat,
                                    m: nat, place: (nat, nat))
    requires CallerOk(messages, delivered, caller, c) && m !in delivered
    ensures CallerOk(messages, delivered[m := place], caller, c)
  {
    var delivered' := delivered[m := place];
    forall i | 0 <= i < |caller.replies| ensures ReplyOk(messages, delivered', caller, c, i) {
      assert ReplyOk(messages, delivered, caller, c, i);
    }
  }

  lemma {:induction false} HandOk(g: State, c: nat, m: nat, key: string)
    requires c < |g.callers| && m < |g.messages| && CallersOk(g.messages, g.delivered, g.callers)
    requires g.callers[c].progress != Ready && g.callers[c].channel == key && g.messages[m].sn.text == key
    requires forall d | d in g.delivered :: d < m
    ensures var g' := Hand(g, c, [m], key); CallersOk(g'.messages, g'.delivered, g'.callers)
  {
    var g' := Hand(g, c, [m], key);
    forall d | 0 <= d < |g'.callers| ensures CallerOk(g'.messages, g'.delivered, g'.callers[d], d) {
      assert CallerOk(g.messages, g.delivered, g.callers[d], d);
      if d == c {
        AnswerOk(g.messages, g.delivered, g.callers[c], c, m);
      } else {
        OthersOk(g.messages, g.delivered, g.callers[d], d, m, (c, |g.callers[c].replies|));
      }
    }
  }

  /** More messages, or other phases, change nothing about the replies. */
  lemma {:induction false} MessagesGrow(messages: seq<Message>, messages': seq<Message>,
                                        delivered: map<nat, (nat, nat)>, callers: seq<Caller>)
    requires CallersOk(messages, delivered, callers) && |messages| <= |messages'|
    requires forall m :: 0 <= m < |messages| ==> messages'[m].sn == messages[m].sn
    ensures CallersOk(messages', delivered, callers)
  {
    forall c | 0 <= c < |callers| ensures CallerOk(messages', delivered, callers[c], c) {
      assert CallerOk(messages, delivered, callers[c], c);
      forall i | 0 <= i < |callers[c].replies| ensures ReplyOk(messages', delivered, callers[c], c, i) {
        assert ReplyOk(messages, delivered, callers[c], c, i);
      }
    }
  }

  lemma {:induction false} PushLists(messages: seq<Message>, lists: map<string, seq<nat>>, message: Message,
                                     list: seq<nat>)
    requires ListsOk(messages, false, lists) && message.phase == Pushed && (list == [] || list == [|messages|])
    ensures ListsOk(messages + [message], true, lists[message.sn.text := list])
    ensures Bound(messages + [message], lists[message.sn.text := list]) == |messages| + if list == [] then 1 else 0
  {
    var lists' := lists[message.sn.text := list];
    forall key ensures ListAt(lists', key) == if key == message.sn.text then list else [] {
      assert ListAt(lists, key) == [];
    }
  }

  lemma {:induction false} QueueWithout(waiting: seq<nat>, i: nat, c: nat)
    requires i < |waiting| && forall j, k :: 0 <= j < k < |waiting| ==> waiting[j] != waiting[k]
    ensures var rest := waiting[..i] + waiting[i + 1..];
            && (c in rest <==> c in waiting && c != waiting[i])
            && (forall j, k :: 0 <= j < k < |rest| ==> rest[j] != rest[k])
  {
    var rest := waiting[..i] + waiting[i + 1..];
    assert forall k :: 0 <= k < |rest| ==> rest[k] == if k < i then waiting[k] else waiting[k + 1];
    if c in waiting && c != waiting[i] {
      var k :| 0 <= k < |waiting| && waiting[k] == c;
      assert rest[if k < i then k else k - 1] == c;
    }
  }

  lemma {:induction false} ServeWaiter(callers: seq<Caller>, waiting: seq<nat>, i: nat, caller: Caller)
    requires WaitersOk(callers, waiting) && i < |waiting| && caller.progress != Waiting
    ensures WaitersOk(callers[waiting[i] := caller], waiting[..i] + waiting[i + 1..])
  {
    var rest, callers' := waiting[..i] + waiting[i + 1..], callers[waiting[i] := caller];
    QueueWithout(waiting, i, 0);
    forall k | 0 <= k < |rest| ensures rest[k] < |callers'| && callers'[rest[k]].progress == Waiting {
      QueueWithout(waiting, i, rest[k]);
    }
    forall c | 0 <= c < |callers'| && callers'[c].progress == Waiting ensures c in rest {
      QueueWithout(waiting, i, c);
    }
  }

  lemma {:induction false} PushQueued(g: State, w: Socket, sn: Sn)
    requires Inv(g) && !g.locked && FirstWaiter(g.callers, g.waiting, sn.text) == |g.waiting|
    ensures Inv(PushStep(g, w, sn))
  {
    var m, message := |g.messages|, Message(w, sn, Pushed);
    assert ListAt(g.lists, sn.text) == [] && [m] + [] == [m];
    MessagesGrow(g.messages, g.messages + [message], g.delivered, g.callers);
    PushLists(g.messages, g.lists, message, [m]);
  }

  lemma {:induction false} PushServed(g: State, w: Socket, sn: Sn)
    requires Inv(g) && !g.locked && FirstWaiter(g.callers, g.waiting, sn.text) < |g.waiting|
    ensures Inv(PushStep(g, w, sn))
  {
    var m, message, i := |g.messages|, Message(w, sn, Pushed), FirstWaiter(g.callers, g.waiting, sn.text);
    assert ListAt(g.lists, sn.text) == [] && [m] + [] == [m] && [m][1..] == [];
    var g1 := g.(messages := g.messages + [message], locked := true);
    MessagesGrow(g.messages, g1.messages, g.delivered, g.callers);
    PushLists(g.messages, g.lists, message, []);
    HandOk(g1, g.waiting[i], m, sn.text);
    ServeWaiter(g.callers, g.waiting, i, Answer(g.callers[g.waiting[i]], Got(m)));
  }

  lemma {:induction false} PushInv(g: State, w: Socket, sn: Sn)
    requires Inv(g) && Enabled(g, Push(w, sn))
    ensures Inv(PushStep(g, w, sn))
  {
    if FirstWaiter(g.callers, g.waiting, sn.text) == |g.waiting| {
      PushQueued(g, w, sn);
    } else {
      PushServed(g, w, sn);
    }
  }

  lemma {:induction false} DelInv(g: State, m: nat)
    requires Inv(g) && Enabled(g, Del(m))
    ensures Inv(Step(g, Del(m)))
  {
    var g', key := Step(g, Del(m)), g.messages[m].sn.text;
    assert m == |g.messages| - 1;
    forall k ensures ListAt(g'.lists, k) == [] { assert ListAt(g.lists, k) == [] || k == key; }
    MessagesGrow(g.messages, g'.messages, g.delivered, g.callers);
  }

  lemma {:induction false} RegisterInv(g: State, m: nat)
    requires Inv(g) && Enabled(g, Register(m))
    ensures Inv(RegisterStep(g, m))
  {
    var g' := RegisterStep(g, m);
    assert forall k :: ListAt(g'.lists, k) == ListAt(g.lists, k);
    MessagesGrow(g.messages, g'.messages, g.delivered, g.callers);
  }

  lemma {:induction false} PopLists(g: State, c: nat)
    requires Inv(g) && c < |g.callers| && ListAt(g.lists, g.callers[c].channel) != []
    ensures var lists' := g.lists[g.callers[c].channel := []];
            ListsOk(g.messages, g.locked, lists') && Bound(g.messages, lists') == |g.messages|
  {
    var key := g.callers[c].channel;
    var lists' := g.lists[key := []];
    assert Bound(g.messages, g.lists) == |g.messages| - 1;
    forall k ensures ListAt(lists', k) == [] { assert ListAt(g.lists, k) == [] || k == key; }
  }

  lemma {:induction false} PopInv(g: State, c: nat)
    requires Inv(g) && Enabled(g, Pop(c))
    ensures Inv(PopStep(g, c))
  {
    var key, list := g.callers[c].channel, ListAt(g.lists, g.callers[c].channel);
    if list == [] {
      SetCaller(g, c, g.callers[c].(progress := Waiting));
    } else {
      var m := |g.messages| - 1;
      assert list == [m] && [m][1..] == [];
      PopLists(g, c);
      HandOk(g, c, m, key);
    }
  }

  /** A caller that moves on with the replies it had keeps what is known of the replies. */
  lemma {:induction false} SetCaller(g: State, c: nat, caller: Caller)
    requires Inv(g) && c < |g.callers| && caller.channel == g.callers[c].channel
    requires |caller.replies| + (if caller.progress == Ready then 0 else 1) <= caller.items
    requires caller.replies == g.callers[c].replies
             || (exists r: Reply :: !r.Got? && caller.replies == g.callers[c].replies + [r])
    ensures CallersOk(g.messages, g.delivered, g.callers[c := caller])
  {
    var callers' := g.callers[c := caller];
    forall d | 0 <= d < |callers'| ensures CallerOk(g.messages, g.delivered, callers'[d], d) {
      assert CallerOk(g.messages, g.delivered, g.callers[d], d);
      forall i | d == c && 0 <= i < |caller.replies| ensures ReplyOk(g.messages, g.delivered, caller, c, i) {
        if i < |g.callers[c].replies| { assert ReplyOk(g.messages, g.delivered, g.callers[c], c, i); }
      }
    }
  }

  lemma {:induction false} SetWaiters(callers: seq<Caller>, waiting: seq<nat>, c: nat, caller: Caller)
    requires WaitersOk(callers, waiting) && c < |callers|
    requires callers[c].progress != Waiting && caller.progress != Waiting
    ensures WaitersOk(callers[c := caller], waiting)
  {
  }

  lemma {:induction false} LookupInv(g: State, c: nat)
    requires Inv(g) && Enabled(g, Lookup(c))
    ensures Inv(Step(g, Lookup(c)))
  {
    var caller := Step(g, Lookup(c)).callers[c];
    SetCaller(g, c, caller);
    SetWaiters(g.callers, g.waiting, c, caller);
  }

  lemma {:induction false} WithoutIs(s: seq<nat>, i: nat)
    requires i < |s| && forall j :: 0 <= j < i ==> s[j] != s[i]
    ensures Without(s, s[i]) == s[..i] + s[i + 1..]
  {
    if i > 0 {
      WithoutIs(s[1..], i - 1);
      assert s[..i] + s[i + 1..] == [s[0]] + (s[1..][..i - 1] + s[1..][i..]);
    }
  }

  lemma {:induction false} TimeoutInv(g: State, c: nat)
    requires Inv(g) && Enabled(g, Timeout(c))
    ensures Inv(Step(g, Timeout(c)))
  {
    SetCaller(g, c, Answer(g.callers[c], TimedOut));
    var i :| 0 <= i < |g.waiting| && g.waiting[i] == c;
    WithoutIs(g.waiting, i);
    ServeWaiter(g.callers, g.waiting, i, Answer(g.callers[c], TimedOut));
  }

  lemma {:induction false} StepInv(g: State, e: Event)
    requires Inv(g)
    ensures Inv(Step(g, e))
  {
    if !Enabled(g, e) { return; }
    match e
    case Push(w, sn) => PushInv(g, w, sn);
    case Del(m) => DelInv(g, m);
    case Register(m) => RegisterInv(g, m);
    case Lookup(c) => LookupInv(g, c);
    case Pop(c) => PopInv(g, c);
    case Timeout(c) => TimeoutInv(g, c);
    case _ =>
  }

  lemma {:induction false} RunInv(es: seq<Event>)
    ensures Inv(Run(es))
  {
    if es != [] {
      RunInv(es[..|es| - 1]);
      StepInv(Run(es[..|es| - 1]), es[|es| - 1]);
    }
  }

  // ----- What holds over every run -----

  /** The handler of a message has pushed it, has the mutex, and has not deleted the list. */
  ghost predicate Held(g: State, m: int) {
    g.locked && 0 <= m == |g.messages| - 1 && g.messages[m].phase == Pushed
  }

  /** A caller's reply is a message. */
  ghost predicate Gets(g: State, c: nat, i: nat, m: nat) {
    c < |g.callers| && i < |g.callers[c].replies| && g.callers[c].replies[i] == Got(m)
  }

  /** A response list never holds more than one message, and holds one only while the handler that
      pushed it has the mutex, before its DEL. */
  lemma {:induction false} ListsAreShort(es: seq<Event>, key: string)
    ensures |ListAt(Run(es).lists, key)| <= 1
    ensures forall m | m in ListAt(Run(es).lists, key) :: Held(Run(es), m) && Run(es).messages[m].sn.text == key
  {
    RunInv(es);
    assert ListAt(Run(es).lists, key) == [] || ListAt(Run(es).lists, key) == [|Run(es).messages| - 1];
  }

  /** No message is in two replies, of one caller or of two. */
  lemma {:induction false} DeliveredOnce(es: seq<Event>, c: nat, i: nat, d: nat, j: nat, m: nat)
    requires Gets(Run(es), c, i, m) && Gets(Run(es), d, j, m)
    ensures c == d && i == j
  {
    RunInv(es);
    var g := Run(es);
    assert CallerOk(g.messages, g.delivered, g.callers[c], c) && CallerOk(g.messages, g.delivered, g.callers[d], d);
    assert ReplyOk(g.messages, g.delivered, g.callers[c], c, i) && ReplyOk(g.messages, g.delivered, g.callers[d], d, j);
  }

  lemma {:induction false} PushHands(g: State, w: Socket, sn: Sn, c: nat, i: nat, m: nat)
    requires Inv(g) && !Gets(g, c, i, m) && Gets(Step(g, Push(w, sn)), c, i, m)
    ensures Held(Step(g, Push(w, sn)), m)
  {
    assert ListAt(g.lists, sn.text) == [] && [|g.messages|] + [] == [|g.messages|];
  }

  lemma {:induction false} PopHands(g: State, d: nat, c: nat, i: nat, m: nat)
    requires Inv(g) && !Gets(g, c, i, m) && Gets(Step(g, Pop(d)), c, i, m)
    ensures Held(Step(g, Pop(d)), m)
  {
    var key := g.callers[d].channel;
    assert ListAt(g.lists, key) == [] || ListAt(g.lists, key) == [|g.messages| - 1];
  }

  lemma {:induction false} OthersHandNothing(g: State, e: Event, c: nat, i: nat, m: nat)
    requires !e.Push? && !e.Pop? && Gets(Step(g, e), c, i, m)
    ensures Gets(g, c, i, m)
  {
  }

  ghost predicate WaitsFor(g: State, i: nat, key: string) {
    i < |g.waiting| && g.waiting[i] < |g.callers| && g.callers[g.waiting[i]].channel == key
  }

  /** A message pushed while callers are blocked on its list goes to the one blocked longest, and
      the list stays empty. */
  lemma {:induction false} PushServesOldest(es: seq<Event>, w: Socket, sn: Sn, i: nat)
    requires Enabled(Run(es), Push(w, sn)) && WaitsFor(Run(es), i, sn.text)
    requires forall j: nat :: j < i ==> !WaitsFor(Run(es), j, sn.text)
    ensures var g, g' := Run(es), Run(es + [Push(w, sn)]);
            ListAt(g'.lists, sn.text) == [] && g'.waiting == g.waiting[..i] + g.waiting[i + 1..]
            && Gets(g', g.waiting[i], |g.callers[g.waiting[i]].replies|, |g.messages|)
  {
    var g := Run(es);
    RunInv(es);
    RunNext(es, Push(w, sn));
    assert ListAt(g.lists, sn.text) == [] && [|g.messages|] + [] == [|g.messages|];
    var k := FirstWaiter(g.callers, g.waiting, sn.text);
    assert WaitsFor(g, k, sn.text) || k == |g.waiting|;
    assert k == i;
  }

  /** A caller receives a message only while the message is held: no message is delivered before
      its LPUSH or after its DEL, and what is delivered is the newest message of all. */
  lemma {:induction false} DeliveredWhileHeld(es: seq<Event>, e: Event, c: nat, i: nat, m: nat)
    requires !Gets(Run(es), c, i, m) && Gets(Run(es + [e]), c, i, m)
    ensures Held(Run(es + [e]), m)
  {
    RunInv(es);
    RunNext(es, e);
    match e
    case Push(w, sn) => PushHands(Run(es), w, sn, c, i, m);
    case Pop(d) => PopHands(Run(es), d, c, i, m);
    case _ => OthersHandNothing(Run(es), e, c, i, m);
  }

  /** The messages one request collects are messages of the reader whose list it pops, in the order
      they were pushed; it never has more replies than items, and is not waiting once it has all. */
  lemma {:induction false} RepliesInOrder(es: seq<Event>, c: nat)
    requires c < |Run(es).callers|
    ensures var g, caller := Run(es), Run(es).callers[c];
            && Increasing(caller.replies)
            && (forall i :: 0 <= i < |caller.replies| && caller.replies[i].Got? ==>
                  caller.replies[i].m < |g.messages| && g.messages[caller.replies[i].m].sn.text == caller.channel)
            && |caller.replies| <= caller.items && (|caller.replies| == caller.items ==> caller.progress == Ready)
  {
    RunInv(es);
    var g := Run(es);
    assert CallerOk(g.messages, g.delivered, g.callers[c], c);
    forall i | 0 <= i < |g.callers[c].replies| && g.callers[c].replies[i].Got?
      ensures g.callers[c].replies[i].m < |g.messages|
              && g.messages[g.callers[c].replies[i].m].sn.text == g.callers[c].channel
    {
      assert ReplyOk(g.messages, g.delivered, g.callers[c], c, i);
    }
  }

  // ----- What each step of the protocol leaves behind -----

  lemma {:induction false} NoWaiter(g: State, key: string)
    ensures FirstWaiter(g.callers, g.waiting, key) < |g.waiting| <==> exists i :: WaitsFor(g, i, key)
  {
    var k := FirstWaiter(g.callers, g.waiting, key);
    if k < |g.waiting| { assert WaitsFor(g, k, key); }
  }

  /** After LPUSH the message is held, and it is in its list unless a caller was blocked there. */
  lemma {:induction false} PushLeaves(es: seq<Event>, w: Socket, sn: Sn)
    requires Enabled(Run(es), Push(w, sn))
    ensures var g, g' := Run(es), Run(es + [Push(w, sn)]);
            Held(g', |g.messages|)
            && ListAt(g'.lists, sn.text) == if exists i :: WaitsFor(g, i, sn.text) then [] else [|g.messages|]
  {
    var g := Run(es);
    RunInv(es);
    RunNext(es, Push(w, sn));
    NoWaiter(g, sn.text);
    assert ListAt(g.lists, sn.text) == [] && [|g.messages|] + [] == [|g.messages|];
  }

  /** After DEL the mutex is free and every response list is empty; callers are untouched. */
  lemma {:induction false} DelLeaves(es: seq<Event>, m: nat)
    requires Enabled(Run(es), Del(m))
    ensures var g, g' := Run(es), Run(es + [Del(m)]);
            !g'.locked && (forall key :: ListAt(g'.lists, key) == [])
            && g'.callers == g.callers && g'.waiting == g.waiting
  {
    RunInv(es + [Del(m)]);
    RunNext(es, Del(m));
  }

  /** BLPOP takes the one held message of the caller's channel, leaving every list empty, or the
      caller is last in the queue. */
  lemma {:induction false} PopLeaves(es: seq<Event>, c: nat)
    requires Enabled(Run(es), Pop(c))
    ensures var g, g' := Run(es), Run(es + [Pop(c)]);
            if ListAt(g.lists, g.callers[c].channel) == [] then
              c !in g.waiting && g'.waiting == g.waiting + [c] && g'.callers[c].replies == g.callers[c].replies
            else
              var m := |g.messages| - 1;
              Held(g, m) && g.messages[m].sn.text == g.callers[c].channel && g'.waiting == g.waiting
              && Gets(g', c, |g.callers[c].replies|, m) && forall key :: ListAt(g'.lists, key) == []
  {
    var g := Run(es);
    RunInv(es);
    RunNext(es, Pop(c));
    var key := g.callers[c].channel;
    assert ListAt(g.lists, key) == [] || ListAt(g.lists, key) == [|g.messages| - 1];
    if ListAt(g.lists, key) != [] { PopEmpties(g, c); }
  }

  lemma {:induction false} PopEmpties(g: State, c: nat)
    requires Inv(g) && c < |g.callers| && ListAt(g.lists, g.callers[c].channel) != []
    ensures forall key :: ListAt(PopStep(g, c).lists, key) == []
  {
    var channel := g.callers[c].channel;
    assert ListAt(g.lists, channel) == [|g.messages| - 1] && [|g.messages| - 1][1..] == [];
    forall key ensures ListAt(PopStep(g, c).lists, key) == [] {
      assert ListAt(g.lists, key) == [] || key == channel;
    }
  }

  /** A caller that times out leaves its one place in the queue, the others keep their order, and
      the error is its reply. */
  lemma {:induction false} TimeoutLeaves(es: seq<Event>, c: nat)
    requires Enabled(Run(es), Timeout(c))
    ensures var g, g' := Run(es), Run(es + [Timeout(c)]);
            && c !in g'.waiting && g'.callers[c] == Answer(g.callers[c], TimedOut)
            && exists i :: 0 <= i < |g.waiting| && g.waiting[i] == c
                           && g'.waiting == g.waiting[..i] + g.waiting[i + 1..]
  {
    var g := Run(es);
    RunInv(es);
    RunNext(es, Timeout(c));
    var i :| 0 <= i < |g.waiting| && g.waiting[i] == c;
    WithoutIs(g.waiting, i);
    QueueWithout(g.waiting, i, c);
  }

  // ----- A message and a caller -----

  /** While a handler holds the mutex its DEL is the one event of any handler that can happen; otherwise
      an open socket whose handlers are done may push and close. */
  lemma {:induction false} MutexExcludes(es: seq<Event>, m: nat, w: Socket, sn: Sn)
    ensures var g := Run(es);
            && (Enabled(g, Del(m)) <==> g.locked && m == |g.messages| - 1)
            && (g.locked ==> !Enabled(g, Open(w)) && !Enabled(g, Push(w, sn)) && !Enabled(g, Register(m))
                             && !Enabled(g, Close(w)))
            && (!g.locked && w in g.joined && !Busy(g, w) ==> Enabled(g, Push(w, sn)) && Enabled(g, Close(w)))
  {
    RunInv(es);
  }

  /** Callers do not take the mutex: what they may do is the same whether it is held or not. */
  lemma {:induction false} CallersIgnoreMutex(g: State, held: bool, c: nat)
    ensures var g' := g.(locked := held);
            && (Enabled(g, Lookup(c)) <==> Enabled(g', Lookup(c)))
            && (Enabled(g, Pop(c)) <==> Enabled(g', Pop(c)))
            && (Enabled(g, Timeout(c)) <==> Enabled(g', Timeout(c)))
  {
  }

  /** Nobody is blocked on the caller's channel, and a socket may push a message for it. */
  ghost predicate Meet(g: State, c: nat, w: Socket, sn: Sn) {
    Enabled(g, Pop(c)) && Enabled(g, Push(w, sn)) && sn.text == g.callers[c].channel
    && forall i: nat :: !WaitsFor(g, i, sn.text)
  }

  lemma {:induction false} PopBlocks(es: seq<Event>, c: nat, w: Socket, sn: Sn)
    requires Meet(Run(es), c, w, sn)
    ensures var g, g' := Run(es), Run(es + [Pop(c)]);
            && g' == g.(callers := g.callers[c := g.callers[c].(progress := Waiting)], waiting := g.waiting + [c])
            && Enabled(g', Push(w, sn)) && WaitsFor(g', |g.waiting|, sn.text)
            && forall j: nat :: j < |g.waiting| ==> !WaitsFor(g', j, sn.text)
  {
    var g := Run(es);
    RunInv(es);
    RunNext(es, Pop(c));
    assert ListAt(g.lists, g.callers[c].channel) == [];
    forall j: nat | j < |g.waiting| ensures !WaitsFor(Run(es + [Pop(c)]), j, sn.text) {
      assert !WaitsFor(g, j, sn.text) && g.waiting[j] != c;
    }
  }

  /** A caller that blocks before the message comes gets it, and so does one that pops while the
      handler has the mutex. */
  lemma {:induction false} CallerGetsMessage(es: seq<Event>, c: nat, w: Socket, sn: Sn)
    requires Meet(Run(es), c, w, sn)
    ensures var g, m := Run(es), |Run(es).messages|;
            var answered := g.callers[c := Answer(g.callers[c], Got(m))];
            Run(es + [Pop(c)] + [Push(w, sn)]).callers == Run(es + [Push(w, sn)] + [Pop(c)]).callers == answered
  {
    var g, m := Run(es), |Run(es).messages|;
    PopBlocks(es, c, w, sn);
    PushServes(es + [Pop(c)], w, sn, |g.waiting|);
    PushWaits(es, w, sn);
    RunNext(es + [Push(w, sn)], Pop(c));
  }

  lemma {:induction false} PushServes(es: seq<Event>, w: Socket, sn: Sn, i: nat)
    requires Enabled(Run(es), Push(w, sn)) && WaitsFor(Run(es), i, sn.text)
    requires forall j: nat :: j < i ==> !WaitsFor(Run(es), j, sn.text)
    ensures var g := Run(es); var c := g.waiting[i];
            Run(es + [Push(w, sn)]).callers == g.callers[c := Answer(g.callers[c], Got(|g.messages|))]
  {
    var g := Run(es);
    RunInv(es);
    RunNext(es, Push(w, sn));
    assert ListAt(g.lists, sn.text) == [] && [|g.messages|] + [] == [|g.messages|];
    var k := FirstWaiter(g.callers, g.waiting, sn.text);
    assert WaitsFor(g, k, sn.text) || k == |g.waiting|;
    assert k == i;
  }

  lemma {:induction false} PushWaits(es: seq<Event>, w: Socket, sn: Sn)
    requires Enabled(Run(es), Push(w, sn)) && forall i: nat :: !WaitsFor(Run(es), i, sn.text)
    ensures var g, g' := Run(es), Run(es + [Push(w, sn)]);
            ListAt(g'.lists, sn.text) == [|g.messages|] && g'.callers == g.callers && g'.waiting == g.waiting
  {
    PushLeaves(es, w, sn);
    RunNext(es, Push(w, sn));
    NoWaiter(Run(es), sn.text);
  }

  /** A caller that pops only after the DEL has missed the message and blocks. */
  lemma {:induction false} LateCallerMisses(es: seq<Event>, c: nat, w: Socket, sn: Sn)
    requires Meet(Run(es), c, w, sn)
    ensures var g, m := Run(es), |Run(es).messages|;
            var g' := Run(es + [Push(w, sn)] + [Del(m)] + [Pop(c)]);
            g'.callers == g.callers[c := g.callers[c].(progress := Waiting)] && g'.waiting == g.waiting + [c]
  {
    var m, e1 := |Run(es).messages|, es + [Push(w, sn)];
    PushLeaves(es, w, sn);
    PushWaits(es, w, sn);
    DelLeaves(e1, m);
    RunNext(e1 + [Del(m)], Pop(c));
  }
}
