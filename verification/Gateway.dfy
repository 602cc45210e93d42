/** The gateway: sockets register readers under their serial numbers in a shared Ruby hash, and
    HTTP callers collect the readers' messages through Redis lists. */
module Gateway {
  import opened CText

  type Socket = nat

  /** A serial number as JSON gives it: a string, or another truthy value together with its text.
      Only strings equal the channel of an HTTP request; the text names the Redis list. */
  datatype Sn = Name(text: string) | Other(text: string)

  // ----- A Ruby hash from sockets and serials to sockets or nil, in insertion order -----

  datatype Key = Sock(w: Socket) | Serial(sn: Sn)
  datatype Entry = Entry(key: Key, value: Option<Socket>)
  type Hash = seq<Entry>

  ghost predicate KeysDistinct(h: Hash) {
    forall i, j :: 0 <= i < j < |h| ==> h[i].key != h[j].key
  }

  function IndexOf(h: Hash, key: Key): (i: nat)
    ensures i <= |h| && (i < |h| ==> h[i].key == key)
    ensures forall j :: 0 <= j < i ==> h[j].key != key
  {
    if h == [] || h[0].key == key then 0 else 1 + IndexOf(h[1..], key)
  }

  /** `Hash#[]`, where a missing key reads as nil. */
  function Get(h: Hash, key: Key): Option<Socket> {
    var i := IndexOf(h, key);
    if i < |h| then h[i].value else None
  }

  /** `Hash#[]=`: in place, or at the end. */
  function Store(h: Hash, key: Key, value: Option<Socket>): Hash {
    var i := IndexOf(h, key);
    if i < |h| then h[i := Entry(key, value)] else h + [Entry(key, value)]
  }

  function Drop(h: Hash, i: nat): Hash
    requires i < |h|
  {
    h[..i] + h[i + 1..]
  }

  /** `Hash#delete`. */
  function Delete(h: Hash, key: Key): Hash {
    var i := IndexOf(h, key);
    if i < |h| then Drop(h, i) else h
  }

  function FirstWith(h: Hash, value: Option<Socket>): (i: nat)
    ensures i <= |h| && (i < |h| ==> h[i].value == value)
    ensures forall j :: 0 <= j < i ==> h[j].value != value
  {
    if h == [] || h[0].value == value then 0 else 1 + FirstWith(h[1..], value)
  }

  /** `Hash#key`: the first key with a value. */
  function KeyOf(h: Hash, value: Option<Socket>): Option<Key> {
    var i := FirstWith(h, value);
    if i < |h| then Some(h[i].key) else None
  }

  /** What a close does: the first key with the socket, or with nil, goes. */
  function Forget(h: Hash, value: Option<Socket>): Hash {
    match KeyOf(h, value) case None => h case Some(key) => Delete(h, key)
  }

  lemma {:induction false} IndexIs(h: Hash, i: nat)
    requires KeysDistinct(h) && i < |h|
    ensures IndexOf(h, h[i].key) == i && Get(h, h[i].key) == h[i].value
  {
    assert IndexOf(h, h[i].key) <= i;
  }

  lemma {:induction false} StoreGet(h: Hash, key: Key, value: Option<Socket>, k: Key)
    requires KeysDistinct(h)
    ensures KeysDistinct(Store(h, key, value))
    ensures Get(Store(h, key, value), k) == if k == key then value else Get(h, k)
  {
    var i, r := IndexOf(h, key), Store(h, key, value);
    assert KeysDistinct(r);
    if k == key {
      IndexIs(r, i);
    } else if IndexOf(h, k) < |h| {
      IndexIs(r, IndexOf(h, k));
    }
  }

  lemma {:induction false} DropAt(h: Hash, i: nat, j: nat)
    requires KeysDistinct(h) && i < |h| && j < |h| - 1
    ensures Drop(h, i)[j] == h[if j < i then j else j + 1]
  {
  }

  lemma {:induction false} DropDistinct(h: Hash, i: nat)
    requires KeysDistinct(h) && i < |h|
    ensures KeysDistinct(Drop(h, i))
  {
    var r := Drop(h, i);
    forall j, l | 0 <= j < l < |r| ensures r[j].key != r[l].key {
      DropAt(h, i, j);
      DropAt(h, i, l);
    }
  }

  lemma {:induction false} DropGet(h: Hash, i: nat, k: Key)
    requires KeysDistinct(h) && i < |h|
    ensures KeysDistinct(Drop(h, i))
    ensures Get(Drop(h, i), k) == if k == h[i].key then None else Get(h, k)
  {
    var r := Drop(h, i);
    DropDistinct(h, i);
    var j := IndexOf(h, k);
    if j == |h| || j == i {
      var l := IndexOf(r, k);
      if l < |r| { DropAt(h, i, l); }
    } else {
      var l := if j < i then j else j - 1;
      DropAt(h, i, l);
      IndexIs(r, l);
    }
  }

  /** A close removes one entry with its value, the first, and leaves every other key alone. */
  lemma {:induction false} ForgetGet(h: Hash, value: Option<Socket>, k: Key)
    requires KeysDistinct(h)
    ensures KeysDistinct(Forget(h, value))
    ensures Get(Forget(h, value), k) == if KeyOf(h, value) == Some(k) then None else Get(h, k)
  {
    var i := FirstWith(h, value);
    if i < |h| {
      IndexIs(h, i);
      DropGet(h, i, k);
    }
  }

  lemma {:induction false} KeyOfGet(h: Hash, value: Option<Socket>, k: Key)
    requires KeysDistinct(h)
    ensures KeyOf(h, value) == Some(k) ==> Get(h, k) == value
    ensures KeyOf(h, value).None? && value.Some? ==> Get(h, k) != value
  {
    var i := FirstWith(h, value);
    if i < |h| { IndexIs(h, i); }
  }

  predicate Has(h: Hash, key: Key) {
    IndexOf(h, key) < |h|
  }

  lemma {:induction false} StoreHas(h: Hash, key: Key, value: Option<Socket>, k: Key)
    requires KeysDistinct(h)
    ensures Has(Store(h, key, value), k) <==> k == key || Has(h, k)
  {
    var i, j, r := IndexOf(h, key), IndexOf(h, k), Store(h, key, value);
    StoreGet(h, key, value, k);
    if k == key {
      IndexIs(r, i);
    } else if j < |h| {
      assert r[j].key == k;
      IndexIs(r, j);
    }
  }

  lemma {:induction false} DropHas(h: Hash, i: nat, k: Key)
    requires KeysDistinct(h) && i < |h|
    ensures Has(Drop(h, i), k) <==> k != h[i].key && Has(h, k)
  {
    var j, r := IndexOf(h, k), Drop(h, i);
    DropDistinct(h, i);
    if j < |h| && j != i {
      var l := if j < i then j else j - 1;
      DropAt(h, i, l);
      IndexIs(r, l);
    } else {
      var l := IndexOf(r, k);
      if l < |r| { DropAt(h, i, l); }
    }
  }

  lemma {:induction false} ForgetHas(h: Hash, value: Option<Socket>, k: Key)
    requires KeysDistinct(h)
    ensures Has(Forget(h, value), k) <==> Has(h, k) && KeyOf(h, value) != Some(k)
  {
    var i := FirstWith(h, value);
    if i < |h| {
      IndexIs(h, i);
      DropHas(h, i, k);
    }
  }

  // ----- State -----

  /** How far the handler of a message is: pushed and holding the mutex, list deleted, and
      registered. */
  datatype Phase = Pushed | Deleted | Done
  datatype Message = Message(from: Socket, sn: Sn, phase: Phase)

  /** One write of a route, by the handler of a message. */
  datatype Registration = Registration(m: nat, sn: Sn, w: Socket)

  datatype Reply = Got(m: nat) | NotConnected | TimedOut

  /** A POST request: a command for each of its items, one after another. */
  datatype Progress = Ready | Sent | Waiting
  datatype Caller = Caller(channel: string, items: nat, progress: Progress, replies: seq<Reply>)

  /** The shared state, with three histories: the messages in the order they were pushed, the
      registrations in their order, and where each message was delivered. A message is known by
      its place in the first. `cleared` holds the sockets whose handlers have lost `ws`. */
  datatype State = State(
    connections: Hash, joined: set<Socket>, cleared: set<Socket>, locked: bool,
    lists: map<string, seq<nat>>, messages: seq<Message>, registered: seq<Registration>,
    callers: seq<Caller>, waiting: seq<nat>, delivered: map<nat, (nat, nat)>)

  const START := State([], {}, {}, false, map[], [], [], [], [], map[])

  datatype Event =
    | Open(w: Socket)
    | Push(w: Socket, sn: Sn)
    | Del(m: nat)
    | Register(m: nat)
    | Close(w: Socket)
    | Start(channel: string, items: nat)
    | Lookup(c: nat)
    | Pop(c: nat)
    | Timeout(c: nat)

  function ListAt(lists: map<string, seq<nat>>, key: string): seq<nat> {
    if key in lists then lists[key] else []
  }

  /** The handlers of one socket run one at a time. */
  ghost predicate Busy(g: State, w: Socket) {
    exists m :: 0 <= m < |g.messages| && g.messages[m].from == w && g.messages[m].phase != Done
  }

  ghost predicate Enabled(g: State, e: Event) {
    match e
    case Open(w) => !g.locked && w !in g.joined
    case Push(w, _) => !g.locked && w in g.joined && !Busy(g, w)
    case Del(m) => m < |g.messages| && g.messages[m].phase == Pushed
    case Register(m) => !g.locked && m < |g.messages| && g.messages[m].phase == Deleted
    case Close(w) => !g.locked && w in g.joined && !Busy(g, w)
    case Start(_, _) => true
    case Lookup(c) => c < |g.callers| && g.callers[c].progress == Ready && |g.callers[c].replies| < g.callers[c].items
    case Pop(c) => c < |g.callers| && g.callers[c].progress == Sent
    case Timeout(c) => c < |g.callers| && g.callers[c].progress == Waiting
  }

  function SocketVar(g: State, w: Socket): Option<Socket> {
    if w in g.cleared then None else Some(w)
  }

  function Answer(caller: Caller, reply: Reply): Caller {
    caller.(progress := Ready, replies := caller.replies + [reply])
  }

  /** The oldest caller blocked on a list: its place in the queue, or the queue's length. */
  function FirstWaiter(callers: seq<Caller>, waiting: seq<nat>, key: string): (i: nat)
    ensures i <= |waiting| && (i < |waiting| ==> waiting[i] < |callers| && callers[waiting[i]].channel == key)
    ensures forall j :: 0 <= j < i && waiting[j] < |callers| ==> callers[waiting[j]].channel != key
  {
    if waiting == [] || (waiting[0] < |callers| && callers[waiting[0]].channel == key) then 0
    else 1 + FirstWaiter(callers, waiting[1..], key)
  }

  function Without(s: seq<nat>, c: nat): seq<nat> {
    if s == [] then [] else if s[0] == c then s[1..] else [s[0]] + Without(s[1..], c)
  }

  /** LPUSH: Redis hands the element to the oldest blocked caller, if there is one. */
  function PushStep(g: State, w: Socket, sn: Sn): State {
    var m, key := |g.messages|, sn.text;
    var pushed := [m] + ListAt(g.lists, key);
    var g := g.(messages := g.messages + [Message(w, sn, Pushed)], locked := true);
    var i := FirstWaiter(g.callers, g.waiting, key);
    if i == |g.waiting| then g.(lists := g.lists[key := pushed])
    else Hand(g, g.waiting[i], pushed, key).(waiting := g.waiting[..i] + g.waiting[i + 1..])
  }

  /** The first element of a list goes to a caller. */
  function Hand(g: State, c: nat, list: seq<nat>, key: string): State
    requires c < |g.callers| && list != []
  {
    g.(callers := g.callers[c := Answer(g.callers[c], Got(list[0]))],
       delivered := g.delivered[list[0] := (c, |g.callers[c].replies|)],
       lists := g.lists[key := list[1..]])
  }

  function SetPhase(messages: seq<Message>, m: nat, phase: Phase): seq<Message>
    requires m < |messages|
  {
    messages[m := messages[m].(phase := phase)]
  }

  function RegisterStep(g: State, m: nat): State
    requires m < |g.messages|
  {
    var Message(w, sn, _) := g.messages[m];
    g.(connections := Store(g.connections, Serial(sn), SocketVar(g, w)),
       messages := SetPhase(g.messages, m, Done),
       registered := g.registered + [Registration(m, sn, w)])
  }

  function PopStep(g: State, c: nat): State
    requires c < |g.callers|
  {
    var caller := g.callers[c];
    var list := ListAt(g.lists, caller.channel);
    if list == [] then g.(callers := g.callers[c := caller.(progress := Waiting)], waiting := g.waiting + [c])
    else Hand(g, c, list, caller.channel)
  }

  function Respond(g: State, c: nat, reply: Reply): State
    requires c < |g.callers|
  {
    g.(callers := g.callers[c := Answer(g.callers[c], reply)])
  }

  /** One atomic step; an event that is not enabled changes nothing. */
  ghost function Step(g: State, e: Event): State {
    if !Enabled(g, e) then g else
      match e
      case Open(w) => g.(connections := Store(g.connections, Sock(w), None), joined := g.joined + {w})
      case Push(w, sn) => PushStep(g, w, sn)
      case Del(m) =>
        g.(lists := g.lists - {g.messages[m].sn.text}, messages := SetPhase(g.messages, m, Deleted), locked := false)
      case Register(m) => RegisterStep(g, m)
      case Close(w) =>
        g.(connections := Forget(g.connections, SocketVar(g, w)), cleared := g.cleared + {w})
      case Start(channel, items) => g.(callers := g.callers + [Caller(channel, items, Ready, [])])
      case Lookup(c) =>
        if Route(g, Name(g.callers[c].channel)).None? then Respond(g, c, NotConnected)
        else g.(callers := g.callers[c := g.callers[c].(progress := Sent)])
      case Pop(c) => PopStep(g, c)
      case Timeout(c) => Respond(g, c, TimedOut).(waiting := Without(g.waiting, c))
  }

  /** The socket under a serial, if one is there. */
  function Route(g: State, sn: Sn): Option<Socket> {
    Get(g.connections, Serial(sn))
  }

  /** The state after any interleaving of events. */
  ghost function Run(es: seq<Event>): State {
    if es == [] then START else Step(Run(es[..|es| - 1]), es[|es| - 1])
  }

  lemma {:induction false} RunNext(es: seq<Event>, e: Event)
    ensures Run(es + [e]) == Step(Run(es), e)
  {
    assert (es + [e])[..|es|] == es;
  }
}
