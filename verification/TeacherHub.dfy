/** The teacher's hub: incremental frame decoding, the machine registry and the requests that wait for an answer. */
module TeacherHub {
  import opened JsonText
  import opened LanProtocol

  /** The messages the hub acts on; `OtherMessage` is any further JSON object with a `type`. */
  datatype Wire =
    | Register(machineId: string, info: string)
    | CommandResponse(requestId: string, response: string)
    | OtherMessage

  /** `parseWireMessage`: the lines that parse, and to what; every other line gives null. */
  type Parser = imap<string, Wire>

  datatype Settlement = Answered(requestId: string, response: string) | TimedOut(requestId: string)

  datatype Emission = StateChanged(nodes: map<string, string>) | ResponseSeen(requestId: string, response: string)

  datatype Registry = Registry(
    nodes: map<string, string>,
    sockets: map<string, int>,
    registered: map<int, string>,
    hasStatus: bool,
    pending: set<string>,
    settled: seq<Settlement>,
    emitted: seq<Emission>)

  datatype Hub = Hub(registry: Registry, buffers: map<int, string>)

  // ---------- what the handlers do ----------

  function Handle(r: Registry, sock: int, msg: Wire): Registry {
    match msg
    case Register(id, info) =>
      var nodes := r.nodes[id := info];
      r.(nodes := nodes, sockets := r.sockets[id := sock], registered := r.registered[sock := id], hasStatus := false,
         emitted := r.emitted + [StateChanged(nodes)])
    case CommandResponse(id, response) =>
      var r' :=
        if id in r.pending then r.(pending := r.pending - {id}, settled := r.settled + [Answered(id, response)]) else r;
      r'.(emitted := r.emitted + [ResponseSeen(id, response)])
    case OtherMessage => r
  }

  function Dispatch(r: Registry, sock: int, line: string, parse: Parser): Registry {
    if line in parse then Handle(r, sock, parse[line]) else r
  }

  function DispatchAll(r: Registry, sock: int, lines: seq<string>, parse: Parser): Registry {
    if lines == [] then r
    else Dispatch(DispatchAll(r, sock, lines[..|lines| - 1], parse), sock, lines[|lines| - 1], parse)
  }

  function Buffered(h: Hub, sock: int): string { if sock in h.buffers then h.buffers[sock] else "" }

  /** One chunk, seen from the outside: all complete lines are handled, the rest is kept. */
  function Feed(h: Hub, sock: int, chunk: string, parse: Parser): Hub {
    var full := Buffered(h, sock) + chunk;
    Hub(DispatchAll(h.registry, sock, Lines(full), parse), h.buffers[sock := Rest(full)])
  }

  /** The handler forgets the machine registered last, unless its id is empty: `if (registeredId)`. */
  function CloseConnection(h: Hub, sock: int): Hub {
    var r := h.registry;
    var buffers := h.buffers - {sock};
    if sock in r.registered && r.registered[sock] != "" then
      var id := r.registered[sock];
      var nodes := r.nodes - {id};
      Hub(r.(nodes := nodes, sockets := r.sockets - {id}, emitted := r.emitted + [StateChanged(nodes)]), buffers)
    else h.(buffers := buffers)
  }

  function Expire(r: Registry, id: string): Registry {
    if id in r.pending then r.(pending := r.pending - {id}, settled := r.settled + [TimedOut(id)]) else r
  }

  /** Position of the first newline, or -1. */
  function IndexOfNewline(s: string): (i: int)
    ensures -1 <= i < |s|
    ensures i < 0 <==> '\n' !in s
    ensures i >= 0 ==> s[i] == '\n' && '\n' !in s[..i]
  {
    if s == "" then -1
    else if s[0] == '\n' then 0
    else
      var i := IndexOfNewline(s[1..]);
      assert s == [s[0]] + s[1..];
      assert i >= 0 ==> s[..i + 1] == [s[0]] + s[1..][..i];
      if i < 0 then -1 else i + 1
  }

  /** Cutting off the first line leaves the other lines and the rest. */
  lemma NextLine(buffer: string, idx: nat)
    requires idx == IndexOfNewline(buffer)
    ensures Lines(buffer) == [buffer[..idx]] + Lines(buffer[idx + 1..])
    ensures Rest(buffer) == Rest(buffer[idx + 1..])
  {
    FirstLineSplits(buffer[..idx], buffer[idx + 1..]);
    assert buffer == buffer[..idx] + "\n" + buffer[idx + 1..];
  }

  lemma DispatchSnoc(r: Registry, sock: int, done: seq<string>, line: string, parse: Parser)
    ensures DispatchAll(r, sock, done + [line], parse) == Dispatch(DispatchAll(r, sock, done, parse), sock, line, parse)
  {
    assert (done + [line])[..|done|] == done;
  }

  class TeacherHub {
    const parse: Parser
    var nodes: map<string, string>
    var sockets: map<string, int>
    var registered: map<int, string>
    var hasStatus: bool
    var pending: set<string>
    var settled: seq<Settlement>
    var emitted: seq<Emission>
    var buffers: map<int, string>

    constructor (parse: Parser)
      ensures this.parse == parse && State() == START
    {
      this.parse := parse;
      nodes, sockets, registered, buffers := map[], map[], map[], map[];
      hasStatus, pending, settled, emitted := true, {}, [], [];
    }

    ghost function TheRegistry(): Registry
      reads this
    {
      Registry(nodes, sockets, registered, hasStatus, pending, settled, emitted)
    }

    ghost function State(): Hub
      reads this
    {
      Hub(TheRegistry(), buffers)
    }

    method OnConnect(sock: int)
      modifies this
      ensures State() == Step(old(State()), Connected(sock), parse)
    {
      buffers := buffers[sock := ""];
      registered := registered - {sock};
    }

    /** The data handler: append the chunk, then cut off and handle one line after the other. */
    method OnData(sock: int, chunk: string)
      requires sock in buffers
      modifies this
      ensures State() == Feed(old(State()), sock, chunk, parse)
    {
      var buffer := buffers[sock] + chunk;
      ghost var full := buffer;
      ghost var done: seq<string> := [];
      var idx := IndexOfNewline(buffer);
      while idx >= 0
        invariant idx == IndexOfNewline(buffer)
        invariant done + Lines(buffer) == Lines(full) && Rest(buffer) == Rest(full)
        invariant TheRegistry() == DispatchAll(old(TheRegistry()), sock, done, parse)
        invariant buffers == old(buffers)
        decreases |buffer|
      {
        var line := buffer[..idx];
        NextLine(buffer, idx);
        assert done + ([line] + Lines(buffer[idx + 1..])) == done + [line] + Lines(buffer[idx + 1..]);
        DispatchSnoc(old(TheRegistry()), sock, done, line, parse);
        buffer := buffer[idx + 1..];
        OnLine(sock, line);
        done := done + [line];
        idx := IndexOfNewline(buffer);
      }
      NoNewlineNoLines(buffer);
      assert done + [] == done;
      buffers := buffers[sock := buffer];
    }

    method OnLine(sock: int, line: string)
      modifies this
      ensures TheRegistry() == Dispatch(old(TheRegistry()), sock, line, parse) && buffers == old(buffers)
    {
      if line !in parse { return; }
      match parse[line] {
        case Register(id, info) =>
          registered := registered[sock := id];
          nodes := nodes[id := info];
          sockets := sockets[id := sock];
          hasStatus := false;
          emitted := emitted + [StateChanged(nodes)];
        case CommandResponse(id, response) =>
          if id in pending {
            pending := pending - {id};
            settled := settled + [Answered(id, response)];
          }
          emitted := emitted + [ResponseSeen(id, response)];
        case OtherMessage =>
      }
    }

    method SendRequest(requestId: string)
      modifies this
      ensures State() == Step(old(State()), Requested(requestId), parse)
    {
      pending := pending + {requestId};
    }

    method OnTimeout(requestId: string)
      modifies this
      ensures State() == Step(old(State()), Expired(requestId), parse)
    {
      if requestId in pending {
        pending := pending - {requestId};
        settled := settled + [TimedOut(requestId)];
      }
    }

    method OnClose(sock: int)
      modifies this
      ensures State() == Step(old(State()), Closed(sock), parse)
    {
      buffers := buffers - {sock};
      if sock in registered && registered[sock] != "" {
        var id := registered[sock];
        sockets := sockets - {id};
        nodes := nodes - {id};
        emitted := emitted + [StateChanged(nodes)];
      }
    }
  }

  // ---------- chunk independence ----------

  lemma {:induction false} DispatchInTwoParts(r: Registry, sock: int, xs: seq<string>, ys: seq<string>, parse: Parser)
    ensures DispatchAll(r, sock, xs + ys, parse) == DispatchAll(DispatchAll(r, sock, xs, parse), sock, ys, parse)
  {
    if ys == [] {
      assert xs + ys == xs;
    } else {
      var n := |ys| - 1;
      DispatchInTwoParts(r, sock, xs, ys[..n], parse);
      assert (xs + ys)[..|xs + ys| - 1] == xs + ys[..n];
    }
  }

  /** Two chunks do what their concatenation does. */
  lemma FeedInTwoParts(h: Hub, sock: int, a: string, b: string, parse: Parser)
    ensures Feed(Feed(h, sock, a, parse), sock, b, parse) == Feed(h, sock, a + b, parse)
  {
    var held := Buffered(h, sock);
    var carried := Rest(held + a);
    SplitIsIncremental(held + a, b);
    assert held + a + b == held + (a + b);
    assert h.buffers[sock := carried][sock := Rest(carried + b)] == h.buffers[sock := Rest(carried + b)];
    DispatchInTwoParts(h.registry, sock, Lines(held + a), Lines(Rest(held + a) + b), parse);
  }

  function FeedAll(h: Hub, sock: int, chunks: seq<string>, parse: Parser): Hub {
    if chunks == [] then h
    else Feed(FeedAll(h, sock, chunks[..|chunks| - 1], parse), sock, chunks[|chunks| - 1], parse)
  }

  function Concat(chunks: seq<string>): string {
    if chunks == [] then "" else Concat(chunks[..|chunks| - 1]) + chunks[|chunks| - 1]
  }

  lemma {:induction false} FeedAllIsFeed(h: Hub, sock: int, chunks: seq<string>, parse: Parser)
    requires chunks != []
    ensures FeedAll(h, sock, chunks, parse) == Feed(h, sock, Concat(chunks), parse)
  {
    var n := |chunks| - 1;
    if n == 0 {
      assert Concat(chunks) == "" + chunks[0] == chunks[0];
    } else {
      FeedAllIsFeed(h, sock, chunks[..n], parse);
      FeedInTwoParts(h, sock, Concat(chunks[..n]), chunks[n], parse);
    }
  }

  /** However the same characters are cut into chunks, the hub ends up in the same state. */
  lemma ChunkingIsInvisible(h: Hub, sock: int, chunks: seq<string>, others: seq<string>, parse: Parser)
    requires chunks != [] && others != [] && Concat(chunks) == Concat(others)
    ensures FeedAll(h, sock, chunks, parse) == FeedAll(h, sock, others, parse)
  {
    FeedAllIsFeed(h, sock, chunks, parse);
    FeedAllIsFeed(h, sock, others, parse);
  }

  /** The texts of encoded messages are dispatched one by one, unchanged, in order, in whatever chunks they come. */
  lemma MessagesArriveUnchanged(h: Hub, sock: int, msgs: seq<Json>, chunks: seq<string>, parse: Parser)
    requires Buffered(h, sock) == "" && chunks != [] && Concat(chunks) == EncodeAll(msgs)
    ensures FeedAll(h, sock, chunks, parse) ==
            Hub(DispatchAll(h.registry, sock, Texts(msgs), parse), h.buffers[sock := ""])
  {
    FeedAllIsFeed(h, sock, chunks, parse);
    FramesComeBack(msgs);
    assert "" + EncodeAll(msgs) == EncodeAll(msgs);
  }

  function HandleAll(r: Registry, sock: int, wires: seq<Wire>): Registry {
    if wires == [] then r else Handle(HandleAll(r, sock, wires[..|wires| - 1]), sock, wires[|wires| - 1])
  }

  /** The parser reads the texts of these messages as the given commands. */
  ghost predicate Reads(parse: Parser, msgs: seq<Json>, wires: seq<Wire>) {
    && |msgs| == |wires|
    && forall i :: 0 <= i < |msgs| ==> Stringify(msgs[i]) in parse && parse[Stringify(msgs[i])] == wires[i]
  }

  lemma {:induction false} DispatchIsHandle(r: Registry, sock: int, msgs: seq<Json>, wires: seq<Wire>, parse: Parser)
    requires Reads(parse, msgs, wires)
    ensures DispatchAll(r, sock, Texts(msgs), parse) == HandleAll(r, sock, wires)
  {
    if msgs != [] {
      var n := |msgs| - 1;
      DispatchIsHandle(r, sock, msgs[..n], wires[..n], parse);
      var texts := Texts(msgs[..n]);
      assert (texts + [Stringify(msgs[n])])[..|texts|] == texts;
    }
  }

  /** Sent messages are handled as what they say, one by one and in order, in whatever chunks they arrive. */
  lemma MessagesAreHandled(h: Hub, sock: int, msgs: seq<Json>, wires: seq<Wire>, chunks: seq<string>, parse: Parser)
    requires Buffered(h, sock) == "" && chunks != [] && Concat(chunks) == EncodeAll(msgs) && Reads(parse, msgs, wires)
    ensures FeedAll(h, sock, chunks, parse) == Hub(HandleAll(h.registry, sock, wires), h.buffers[sock := ""])
  {
    MessagesArriveUnchanged(h, sock, msgs, chunks, parse);
    DispatchIsHandle(h.registry, sock, msgs, wires, parse);
  }

  /** The message behind a text. */
  ghost function Decoded(meaning: imap<Json, Wire>, line: string): (j: Json)
    requires exists j :: j in meaning && Stringify(j) == line
    ensures j in meaning && Stringify(j) == line
  {
    var j :| j in meaning && Stringify(j) == line;
    j
  }

  ghost function ReaderOf(meaning: imap<Json, Wire>): Parser {
    imap line: string | exists j :: j in meaning && Stringify(j) == line :: meaning[Decoded(meaning, line)]
  }

  /** Whatever messages are taken to mean, some parser reads them so: no two of them share a text. */
  lemma EveryMeaningCanBeRead(meaning: imap<Json, Wire>, j: Json)
    requires j in meaning
    ensures Stringify(j) in ReaderOf(meaning) && ReaderOf(meaning)[Stringify(j)] == meaning[j]
  {
    StringifyIsInjective(j, Decoded(meaning, Stringify(j)));
  }

  // ---------- whole runs ----------

  datatype Event =
    | Connected(sock: int)
    | Received(sock: int, chunk: string)
    | Requested(requestId: string)
    | Expired(requestId: string)
    | Closed(sock: int)

  const START: Hub := Hub(Registry(map[], map[], map[], true, {}, [], []), map[])

  function Step(h: Hub, e: Event, parse: Parser): Hub {
    match e
    case Connected(sock) =>
      Hub(h.registry.(registered := h.registry.registered - {sock}), h.buffers[sock := ""])
    case Received(sock, chunk) => Feed(h, sock, chunk, parse)
    case Requested(id) => h.(registry := h.registry.(pending := h.registry.pending + {id}))
    case Expired(id) => h.(registry := Expire(h.registry, id))
    case Closed(sock) => CloseConnection(h, sock)
  }

  function Run(events: seq<Event>, parse: Parser): Hub {
    if events == [] then START else Step(Run(events[..|events| - 1], parse), events[|events| - 1], parse)
  }

  /** What a connection has sent since it was opened. */
  function Stream(events: seq<Event>, sock: int): string {
    if events == [] then ""
    else
      var before, e := Stream(events[..|events| - 1], sock), events[|events| - 1];
      if e == Connected(sock) || e == Closed(sock) then ""
      else if e.Received? && e.sock == sock then before + e.chunk
      else before
  }

  /** The lines handled for a connection since it was opened, chunk by chunk. */
  function Handled(events: seq<Event>, sock: int, parse: Parser): seq<string> {
    if events == [] then []
    else
      var before, e := events[..|events| - 1], events[|events| - 1];
      if e == Connected(sock) || e == Closed(sock) then []
      else if e.Received? && e.sock == sock then
        Handled(before, sock, parse) + Lines(Buffered(Run(before, parse), sock) + e.chunk)
      else Handled(before, sock, parse)
  }

  /**
   * Whatever the other connections and timers do in between, the lines handled for a connection are exactly the
   * newline-terminated lines of its own stream, in order, and its buffer is the unfinished rest.
   */
  lemma {:induction false} ConnectionsAreIndependent(events: seq<Event>, sock: int, parse: Parser)
    ensures Handled(events, sock, parse) == Lines(Stream(events, sock))
    ensures Buffered(Run(events, parse), sock) == Rest(Stream(events, sock))
  {
    if events != [] {
      var before, e := events[..|events| - 1], events[|events| - 1];
      ConnectionsAreIndependent(before, sock, parse);
      if e.Received? && e.sock == sock { SplitIsIncremental(Stream(before, sock), e.chunk); }
    }
  }

  // ---------- every request is settled at most once ----------

  function SettledIds(settled: seq<Settlement>): set<string> { set s | s in settled :: s.requestId }

  /** Waiting and settled requests together are exactly those asked, and none is settled twice. */
  ghost predicate Conserved(r: Registry, asked: set<string>) {
    && SettledIds(r.settled) + r.pending == asked
    && SettledIds(r.settled) !! r.pending
    && (forall i, j :: 0 <= i < j < |r.settled| ==> r.settled[i].requestId != r.settled[j].requestId)
  }

  function Asked(events: seq<Event>): set<string> { set e | e in events && e.Requested? :: e.requestId }

  /** Request ids are random UUIDs: none is used twice. */
  ghost predicate FreshIds(events: seq<Event>) {
    forall i, j :: 0 <= i < j < |events| && events[i].Requested? && events[j].Requested? ==>
      events[i].requestId != events[j].requestId
  }

  lemma SettleOne(r: Registry, s: Settlement, asked: set<string>)
    requires Conserved(r, asked) && s.requestId in r.pending
    ensures Conserved(r.(pending := r.pending - {s.requestId}, settled := r.settled + [s]), asked)
  {
    assert SettledIds(r.settled + [s]) == SettledIds(r.settled) + {s.requestId};
    assert forall i :: 0 <= i < |r.settled| ==> r.settled[i].requestId in SettledIds(r.settled);
  }

  lemma DispatchConserves(r: Registry, sock: int, line: string, parse: Parser, asked: set<string>)
    requires Conserved(r, asked)
    ensures Conserved(Dispatch(r, sock, line, parse), asked)
  {
    if line in parse && parse[line].CommandResponse? && parse[line].requestId in r.pending {
      SettleOne(r, Answered(parse[line].requestId, parse[line].response), asked);
    }
  }

  lemma {:induction false} DispatchAllConserves(r: Registry, sock: int, lines: seq<string>, parse: Parser,
                                                      asked: set<string>)
    requires Conserved(r, asked)
    ensures Conserved(DispatchAll(r, sock, lines, parse), asked)
  {
    if lines != [] {
      var n := |lines| - 1;
      DispatchAllConserves(r, sock, lines[..n], parse, asked);
      DispatchConserves(DispatchAll(r, sock, lines[..n], parse), sock, lines[n], parse, asked);
    }
  }

  lemma AskedSnoc(events: seq<Event>)
    requires events != []
    ensures var before, e := events[..|events| - 1], events[|events| - 1];
            Asked(events) == Asked(before) + (if e.Requested? then {e.requestId} else {})
  {
    var before, e := events[..|events| - 1], events[|events| - 1];
    assert events == before + [e];
  }

  lemma FreshSnoc(events: seq<Event>)
    requires events != [] && FreshIds(events) && events[|events| - 1].Requested?
    ensures events[|events| - 1].requestId !in Asked(events[..|events| - 1])
  {
    var n := |events| - 1;
    forall e | e in events[..n] && e.Requested? ensures e.requestId != events[n].requestId {
      var i :| 0 <= i < n && events[i] == e;
    }
  }

  /** In every run each request made is either still waiting or has been settled exactly once. */
  lemma {:induction false} SettledAtMostOnce(events: seq<Event>, parse: Parser)
    requires FreshIds(events)
    ensures Conserved(Run(events, parse).registry, Asked(events))
  {
    if events != [] {
      var before, e := events[..|events| - 1], events[|events| - 1];
      SettledAtMostOnce(before, parse);
      AskedSnoc(events);
      var h := Run(before, parse);
      match e {
        case Received(sock, chunk) =>
          DispatchAllConserves(h.registry, sock, Lines(Buffered(h, sock) + chunk), parse, Asked(before));
        case Requested(id) => FreshSnoc(events);
        case Expired(id) => if id in h.registry.pending { SettleOne(h.registry, TimedOut(id), Asked(before)); }
        case _ =>
      }
    }
  }

  /** A machine is listed exactly while the hub has a socket on record for it. */
  lemma {:induction false} ListedMachinesHaveSockets(events: seq<Event>, parse: Parser)
    ensures Run(events, parse).registry.nodes.Keys == Run(events, parse).registry.sockets.Keys
  {
    if events != [] {
      var before, e := events[..|events| - 1], events[|events| - 1];
      ListedMachinesHaveSockets(before, parse);
      if e.Received? {
        var h := Run(before, parse);
        DispatchKeepsKeys(h.registry, e.sock, Lines(Buffered(h, e.sock) + e.chunk), parse);
      }
    }
  }

  /** Every socket on record belongs to an open connection. */
  ghost predicate SocketsOpen(h: Hub) {
    forall id | id in h.registry.sockets :: h.registry.sockets[id] in h.buffers
  }

  /** The connection closes while on record for a machine other than the one it registered last. */
  ghost predicate LeavesStale(h: Hub, e: Event) {
    e.Closed? &&
    exists id :: id in h.registry.sockets && h.registry.sockets[id] == e.sock && !RegisteredLast(h, e.sock, id)
  }

  predicate RegisteredLast(h: Hub, sock: int, id: string) {
    id != "" && sock in h.registry.registered && h.registry.registered[sock] == id
  }

  lemma {:induction false} DispatchRecords(r: Registry, sock: int, lines: seq<string>, parse: Parser)
    ensures var after := DispatchAll(r, sock, lines, parse);
            forall id | id in after.sockets ::
              after.sockets[id] == sock || (id in r.sockets && r.sockets[id] == after.sockets[id])
  {
    if lines != [] { DispatchRecords(r, sock, lines[..|lines| - 1], parse); }
  }

  lemma ClosingLeavesOpen(h: Hub, e: Event)
    requires SocketsOpen(h) && e.Closed?
    ensures SocketsOpen(CloseConnection(h, e.sock)) <==> !LeavesStale(h, e)
  {
    var after := CloseConnection(h, e.sock);
    if LeavesStale(h, e) {
      var id :| id in h.registry.sockets && h.registry.sockets[id] == e.sock && !RegisteredLast(h, e.sock, id);
      assert id in after.registry.sockets && after.registry.sockets[id] !in after.buffers;
    } else {
      forall id | id in after.registry.sockets ensures after.registry.sockets[id] in after.buffers {
        assert h.registry.sockets[id] in h.buffers;
        assert h.registry.sockets[id] == e.sock ==> RegisteredLast(h, e.sock, id);
      }
    }
  }

  lemma ReceivingKeepsOpen(h: Hub, sock: int, chunk: string, parse: Parser)
    requires SocketsOpen(h)
    ensures SocketsOpen(Feed(h, sock, chunk, parse))
  {
    var lines := Lines(Buffered(h, sock) + chunk);
    DispatchRecords(h.registry, sock, lines, parse);
    var after := DispatchAll(h.registry, sock, lines, parse).sockets;
    forall id | id in after ensures after[id] in Feed(h, sock, chunk, parse).buffers {
      assert after[id] == sock || (id in h.registry.sockets && h.registry.sockets[id] in h.buffers);
    }
  }

  /** From a state in which all sockets on record are open, a step keeps it so exactly when it leaves none stale. */
  lemma StepKeepsSocketsOpen(h: Hub, e: Event, parse: Parser)
    requires SocketsOpen(h)
    ensures SocketsOpen(Step(h, e, parse)) <==> !LeavesStale(h, e)
  {
    match e
    case Received(sock, chunk) => ReceivingKeepsOpen(h, sock, chunk, parse);
    case Closed(_) => ClosingLeavesOpen(h, e);
    case _ =>
  }

  ghost predicate NoneStale(events: seq<Event>, parse: Parser) {
    forall k: nat | k < |events| :: !LeavesStale(Run(events[..k], parse), events[k])
  }

  ghost predicate AlwaysOpen(events: seq<Event>, parse: Parser) {
    forall k: nat | k <= |events| :: SocketsOpen(Run(events[..k], parse))
  }

  /**
   * Throughout a run every listed machine can be reached over an open connection if and only if no connection
   * closes while on record for a machine other than the one it registered last.
   */
  lemma ListedMachinesAreReachable(events: seq<Event>, parse: Parser)
    ensures AlwaysOpen(events, parse) <==> NoneStale(events, parse)
  {
    if NoneStale(events, parse) {
      forall k: nat | k <= |events| ensures SocketsOpen(Run(events[..k], parse)) { OpenUpTo(events, k, parse); }
    } else {
      var k: nat :| k < |events| && LeavesStale(Run(events[..k], parse), events[k]);
      if SocketsOpen(Run(events[..k], parse)) {
        StepKeepsSocketsOpen(Run(events[..k], parse), events[k], parse);
        assert events[..k + 1][..k] == events[..k];
        assert !SocketsOpen(Run(events[..k + 1], parse));
      }
    }
  }

  lemma {:induction false} OpenUpTo(events: seq<Event>, k: nat, parse: Parser)
    requires k <= |events| && NoneStale(events, parse)
    ensures SocketsOpen(Run(events[..k], parse))
  {
    if k > 0 {
      OpenUpTo(events, k - 1, parse);
      StepKeepsSocketsOpen(Run(events[..k - 1], parse), events[k - 1], parse);
      assert events[..k][..k - 1] == events[..k - 1];
    }
  }

  /**
   * It does happen that one closes so: a connection that registers two machines and closes leaves the first
   * one listed under a closed socket.
   */
  lemma StaleSocketRemains(parse: Parser, one: string, two: string, m: string, n: string, info: string)
    requires NewlineFree(one) && one in parse && parse[one] == Register(m, info)
    requires NewlineFree(two) && two in parse && parse[two] == Register(n, info)
    requires m != n && n != ""
    ensures var h := Run(BrieflyConnected(one, two), parse);
            && m in h.registry.nodes && m in h.registry.sockets && h.registry.sockets[m] == 1 && 1 !in h.buffers
            && !SocketsOpen(h)
  {
    var open, chunk := [Connected(1)], one + "\n" + (two + "\n");
    var before := Step(START, Connected(1), parse);
    RunSnoc([], Connected(1), parse);
    RunSnoc(open, Received(1, chunk), parse);
    RunSnoc(open + [Received(1, chunk)], Closed(1), parse);
    assert [] + open == open && open + [Received(1, chunk)] + [Closed(1)] == BrieflyConnected(one, two);
    TwoLinesFed(before, one, two, parse);
    var after := Feed(before, 1, chunk, parse);
    assert after.registry.sockets[m] == 1 && after.registry.registered[1] == n;
    assert CloseConnection(after, 1).registry.sockets == after.registry.sockets - {n};
  }

  /** A connection that sends two lines and closes. */
  function BrieflyConnected(one: string, two: string): seq<Event> {
    [Connected(1), Received(1, one + "\n" + (two + "\n")), Closed(1)]
  }

  lemma RunSnoc(events: seq<Event>, e: Event, parse: Parser)
    ensures Run(events + [e], parse) == Step(Run(events, parse), e, parse)
  {
    assert (events + [e])[..|events|] == events;
  }

  lemma TwoLinesFed(h: Hub, one: string, two: string, parse: Parser)
    requires NewlineFree(one) && NewlineFree(two) && Buffered(h, 1) == ""
    ensures Feed(h, 1, one + "\n" + (two + "\n"), parse) ==
            Hub(Dispatch(Dispatch(h.registry, 1, one, parse), 1, two, parse), h.buffers[1 := ""])
  {
    var chunk := one + "\n" + (two + "\n");
    TwoLines(one, two);
    assert "" + chunk == chunk;
    TwoDispatched(h.registry, 1, one, two, parse);
  }

  lemma TwoLines(one: string, two: string)
    requires NewlineFree(one) && NewlineFree(two)
    ensures Lines(one + "\n" + (two + "\n")) == [one, two] && Rest(one + "\n" + (two + "\n")) == ""
  {
    FirstLineSplits(one, two + "\n");
    FirstLineSplits(two, "");
    assert two + "\n" + "" == two + "\n";
  }

  lemma TwoDispatched(r: Registry, sock: int, one: string, two: string, parse: Parser)
    ensures DispatchAll(r, sock, [one, two], parse) == Dispatch(Dispatch(r, sock, one, parse), sock, two, parse)
  {
    assert [one, two][..1] == [one] && [one][..0] == [];
    assert DispatchAll(r, sock, [one], parse) == Dispatch(r, sock, one, parse);
  }

  lemma {:induction false} DispatchKeepsKeys(r: Registry, sock: int, lines: seq<string>, parse: Parser)
    requires r.nodes.Keys == r.sockets.Keys
    ensures DispatchAll(r, sock, lines, parse).nodes.Keys == DispatchAll(r, sock, lines, parse).sockets.Keys
  {
    if lines != [] { DispatchKeepsKeys(r, sock, lines[..|lines| - 1], parse); }
  }
}
