/** What messages do to the hub: which answer settles a request, what a listing shows, what the views are told. */
module HubEffects {
  import opened LanProtocol
  import opened TeacherHub

  lemma HandleSnoc(r: Registry, sock: int, wires: seq<Wire>, w: Wire)
    ensures HandleAll(r, sock, wires + [w]) == Handle(HandleAll(r, sock, wires), sock, w)
  {
    assert (wires + [w])[..|wires|] == wires;
  }

  // ---------- answers ----------

  predicate Answers(w: Wire, id: string) { w.CommandResponse? && w.requestId == id }

  /** Without an answer a request keeps waiting. */
  lemma {:induction false} StillWaiting(r: Registry, sock: int, wires: seq<Wire>, id: string)
    requires id in r.pending && forall j :: 0 <= j < |wires| ==> !Answers(wires[j], id)
    ensures id in HandleAll(r, sock, wires).pending
  {
    if wires != [] { StillWaiting(r, sock, wires[..|wires| - 1], id); }
  }

  /** What is settled stays settled as it was. */
  lemma {:induction false} SettledStays(r: Registry, sock: int, wires: seq<Wire>)
    ensures r.settled <= HandleAll(r, sock, wires).settled && HandleAll(r, sock, wires).pending <= r.pending
  {
    if wires != [] { SettledStays(r, sock, wires[..|wires| - 1]); }
  }

  lemma {:induction false} HandleInTwoParts(r: Registry, sock: int, xs: seq<Wire>, ys: seq<Wire>)
    ensures HandleAll(r, sock, xs + ys) == HandleAll(HandleAll(r, sock, xs), sock, ys)
  {
    if ys == [] {
      assert xs + ys == xs;
    } else {
      var n := |ys| - 1;
      HandleInTwoParts(r, sock, xs, ys[..n]);
      assert (xs + ys)[..|xs + ys| - 1] == xs + ys[..n];
    }
  }

  /** A waiting request is settled with the first answer that names it, and with no later one. */
  lemma FirstAnswerSettles(r: Registry, sock: int, before: seq<Wire>, id: string, response: string, after: seq<Wire>)
    requires id in r.pending && forall j :: 0 <= j < |before| ==> !Answers(before[j], id)
    ensures var h := HandleAll(r, sock, before + [CommandResponse(id, response)] + after);
            Answered(id, response) in h.settled && id !in h.pending
  {
    var mid := HandleAll(r, sock, before);
    StillWaiting(r, sock, before, id);
    HandleSnoc(r, sock, before, CommandResponse(id, response));
    var then' := HandleAll(r, sock, before + [CommandResponse(id, response)]);
    assert then'.settled[|mid.settled|] == Answered(id, response);
    HandleInTwoParts(r, sock, before + [CommandResponse(id, response)], after);
    SettledStays(then', sock, after);
    assert HandleAll(then', sock, after).settled[|mid.settled|] == Answered(id, response);
  }

  /** A line the hub handles in a run, as the given command. */
  ghost predicate HandledAs(events: seq<Event>, k: int, parse: Parser, w: Wire) {
    && 0 <= k < |events| && events[k].Received?
    && exists line :: line in Lines(Buffered(Run(events[..k], parse), events[k].sock) + events[k].chunk) &&
                      line in parse && parse[line] == w
  }

  lemma {:induction false} SettledByLines(r: Registry, sock: int, lines: seq<string>, parse: Parser, s: Settlement)
    requires s in DispatchAll(r, sock, lines, parse).settled && s !in r.settled
    ensures s.Answered?
    ensures exists line :: line in lines && line in parse && parse[line] == CommandResponse(s.requestId, s.response)
  {
    var n := |lines| - 1;
    if s in DispatchAll(r, sock, lines[..n], parse).settled {
      SettledByLines(r, sock, lines[..n], parse, s);
      var line :| line in lines[..n] && line in parse && parse[line] == CommandResponse(s.requestId, s.response);
      assert line in lines;
    } else {
      assert lines[n] in lines;
    }
  }

  /** In a run a request is settled with an answer only if a machine sent it, and timed out only by its timer. */
  lemma {:induction false} SettledForAReason(events: seq<Event>, parse: Parser, s: Settlement)
    requires s in Run(events, parse).registry.settled
    ensures s.TimedOut? ==> Expired(s.requestId) in events
    ensures s.Answered? ==> exists k :: HandledAs(events, k, parse, CommandResponse(s.requestId, s.response))
  {
    var n := |events| - 1;
    var before, e := Run(events[..n], parse), events[n];
    assert events == events[..n] + [e];
    if s in before.registry.settled {
      SettledForAReason(events[..n], parse, s);
      if s.Answered? {
        var k :| HandledAs(events[..n], k, parse, CommandResponse(s.requestId, s.response));
        assert events[..n][..k] == events[..k];
        assert HandledAs(events, k, parse, CommandResponse(s.requestId, s.response));
      }
    } else if e.Received? {
      SettledByLines(before.registry, e.sock, Lines(Buffered(before, e.sock) + e.chunk), parse, s);
      assert HandledAs(events, n, parse, CommandResponse(s.requestId, s.response));
    } else {
      assert e == Expired(s.requestId);
    }
  }

  // ---------- registrations ----------

  predicate Registers(w: Wire, id: string) { w.Register? && w.machineId == id }

  lemma {:induction false} OthersStay(r: Registry, sock: int, wires: seq<Wire>, id: string)
    requires forall j :: 0 <= j < |wires| ==> !Registers(wires[j], id)
    ensures var h := HandleAll(r, sock, wires);
            && (id in h.nodes <==> id in r.nodes) && (id in r.nodes ==> h.nodes[id] == r.nodes[id])
            && (id in h.sockets <==> id in r.sockets) && (id in r.sockets ==> h.sockets[id] == r.sockets[id])
  {
    if wires != [] { OthersStay(r, sock, wires[..|wires| - 1], id); }
  }

  /** A machine is listed with what its last registration said, under the connection that sent it. */
  lemma LastRegistrationIsListed(r: Registry, sock: int, before: seq<Wire>, id: string, info: string, after: seq<Wire>)
    requires forall j :: 0 <= j < |after| ==> !Registers(after[j], id)
    ensures var h := HandleAll(r, sock, before + [Register(id, info)] + after);
            id in h.nodes && h.nodes[id] == info && id in h.sockets && h.sockets[id] == sock
  {
    HandleSnoc(r, sock, before, Register(id, info));
    HandleInTwoParts(r, sock, before + [Register(id, info)], after);
    OthersStay(HandleAll(r, sock, before + [Register(id, info)]), sock, after, id);
  }

  /** The machine a connection stands for is the one it registered last; the hub's greeting is gone by then. */
  lemma {:induction false} LastRegistrationStands(r: Registry, sock: int, before: seq<Wire>, id: string, info: string,
                                                  after: seq<Wire>)
    requires forall j :: 0 <= j < |after| ==> !after[j].Register?
    ensures var h := HandleAll(r, sock, before + [Register(id, info)] + after);
            sock in h.registered && h.registered[sock] == id && !h.hasStatus
    decreases |after|
  {
    var upTo := before + [Register(id, info)];
    if after == [] {
      HandleSnoc(r, sock, before, Register(id, info));
      assert upTo + after == upTo;
    } else {
      var n := |after| - 1;
      LastRegistrationStands(r, sock, before, id, info, after[..n]);
      HandleSnoc(r, sock, upTo + after[..n], after[n]);
      assert upTo + after[..n] + [after[n]] == upTo + after;
    }
  }

  /** Closing takes off the list the machine registered last, unless its id is empty, and leaves all others alone. */
  lemma ClosingForgets(h: Hub, sock: int, id: string)
    ensures var after := CloseConnection(h, sock).registry;
            if RegisteredLast(h, sock, id) then id !in after.nodes && id !in after.sockets
            else && (id in after.nodes <==> id in h.registry.nodes)
                 && (id in after.nodes ==> after.nodes[id] == h.registry.nodes[id])
                 && (id in after.sockets <==> id in h.registry.sockets)
                 && (id in after.sockets ==> after.sockets[id] == h.registry.sockets[id])
    ensures sock !in CloseConnection(h, sock).buffers
  {
  }

  // ---------- what the views are told ----------

  /** The list shown last; before any, the empty one. */
  function ShownList(emitted: seq<Emission>): map<string, string> {
    if emitted == [] then map[]
    else if emitted[|emitted| - 1].StateChanged? then emitted[|emitted| - 1].nodes
    else ShownList(emitted[..|emitted| - 1])
  }

  lemma ShownSnoc(emitted: seq<Emission>, e: Emission)
    ensures ShownList(emitted + [e]) == if e.StateChanged? then e.nodes else ShownList(emitted)
  {
    assert (emitted + [e])[..|emitted|] == emitted;
  }

  lemma {:induction false} DispatchShows(r: Registry, sock: int, lines: seq<string>, parse: Parser)
    requires ShownList(r.emitted) == r.nodes
    ensures ShownList(DispatchAll(r, sock, lines, parse).emitted) == DispatchAll(r, sock, lines, parse).nodes
  {
    if lines != [] {
      var n := |lines| - 1;
      DispatchShows(r, sock, lines[..n], parse);
      var before := DispatchAll(r, sock, lines[..n], parse);
      if lines[n] in parse {
        match parse[lines[n]] {
          case Register(id, info) => ShownSnoc(before.emitted, StateChanged(before.nodes[id := info]));
          case CommandResponse(id, response) => ShownSnoc(before.emitted, ResponseSeen(id, response));
          case OtherMessage =>
        }
      }
    }
  }

  /** In every run the list shown last is the current one. */
  lemma {:induction false} ShownListIsCurrent(events: seq<Event>, parse: Parser)
    ensures ShownList(Run(events, parse).registry.emitted) == Run(events, parse).registry.nodes
  {
    if events != [] {
      var before, e := Run(events[..|events| - 1], parse), events[|events| - 1];
      ShownListIsCurrent(events[..|events| - 1], parse);
      match e {
        case Received(sock, chunk) =>
          DispatchShows(before.registry, sock, Lines(Buffered(before, sock) + chunk), parse);
        case Closed(sock) =>
          ShownSnoc(before.registry.emitted, StateChanged(CloseConnection(before, sock).registry.nodes));
        case _ =>
      }
    }
  }

  /** The answers reported to the views. */
  function Reported(emitted: seq<Emission>): seq<(string, string)> {
    if emitted == [] then []
    else
      var rest, e := Reported(emitted[..|emitted| - 1]), emitted[|emitted| - 1];
      if e.ResponseSeen? then rest + [(e.requestId, e.response)] else rest
  }

  function Sent(wires: seq<Wire>): seq<(string, string)> {
    if wires == [] then []
    else
      var rest, w := Sent(wires[..|wires| - 1]), wires[|wires| - 1];
      if w.CommandResponse? then rest + [(w.requestId, w.response)] else rest
  }

  lemma ReportedSnoc(emitted: seq<Emission>, e: Emission)
    ensures Reported(emitted + [e]) ==
            if e.ResponseSeen? then Reported(emitted) + [(e.requestId, e.response)] else Reported(emitted)
  {
    assert (emitted + [e])[..|emitted|] == emitted;
  }

  /** Every answer is reported once, in order, whether a request was still waiting for it or not. */
  lemma {:induction false} EveryAnswerIsReported(r: Registry, sock: int, wires: seq<Wire>)
    ensures Reported(HandleAll(r, sock, wires).emitted) == Reported(r.emitted) + Sent(wires)
  {
    if wires != [] {
      var n := |wires| - 1;
      EveryAnswerIsReported(r, sock, wires[..n]);
      var before := HandleAll(r, sock, wires[..n]);
      match wires[n] {
        case Register(id, info) => ReportedSnoc(before.emitted, StateChanged(before.nodes[id := info]));
        case CommandResponse(id, response) => ReportedSnoc(before.emitted, ResponseSeen(id, response));
        case OtherMessage =>
      }
    }
  }
}
