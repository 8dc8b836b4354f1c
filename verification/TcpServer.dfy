/** The poll()-based server: descriptor table, per-client buffers, message handling. */
module TcpServer {
  import opened Options
  import opened Text
  import opened Records
  import opened Sessions
  import opened Wire
  import opened PriceTable
  import opened SharedRing
  import opened ServerTrace
  import opened Connections

  const BUF_SIZE: nat := 512

  // ----- framing -----

  /** The handled lines as requests. */
  function Tagged(trace: seq<Entry>): seq<Request> {
    seq(|trace|, i requires 0 <= i < |trace| => Request(trace[i].conn, trace[i].fd, trace[i].line))
  }

  /** `after` is `before` plus the handling of `lines` for connection `c` on `fd`. */
  ghost predicate Extends(before: seq<Entry>, after: seq<Entry>, c: nat, fd: int, lines: seq<string>) {
    before <= after && Tagged(after) == Tagged(before) + Requests(c, fd, lines)
  }

  lemma ExtendsSnoc(before: seq<Entry>, after: seq<Entry>, c: nat, fd: int, lines: seq<string>, e: Entry)
    requires Extends(before, after, c, fd, lines) && e.conn == c && e.fd == fd
    ensures Extends(before, after + [e], c, fd, lines + [e.line])
  {
    assert Tagged(after + [e]) == Tagged(after) + [Request(c, fd, e.line)];
    assert Requests(c, fd, lines + [e.line]) == Requests(c, fd, lines) + [Request(c, fd, e.line)];
  }

  /** The handled lines are exactly the requests the received bytes make, and each
      client's buffer is the incomplete line its bytes end with. */
  ghost predicate FramingOk(trace: seq<Entry>, bufs: map<int, string>, n: Net) {
    && Numbered(n)
    && Tagged(trace) == n.requests
    && bufs.Keys == n.conn.Keys
    && (forall fd | fd in bufs :: bufs[fd] == Tail(n.streams[n.conn[fd]]))
  }

  /** `FramingOk`, quantified so that a proof unfolds it only where it speaks of it. */
  ghost predicate Framing(trace: seq<Entry>, bufs: map<int, string>, n: Net) {
    forall t | t == trace :: FramingOk(t, bufs, n)
  }

  lemma FramingKeys(trace: seq<Entry>, bufs: map<int, string>, n: Net)
    requires Framing(trace, bufs, n)
    ensures bufs.Keys == n.conn.Keys && Numbered(n)
  {
    assert FramingOk(trace, bufs, n);
  }

  lemma FramingAccept(trace: seq<Entry>, bufs: map<int, string>, n: Net, fd: int)
    requires Framing(trace, bufs, n) && fd !in bufs && Numbered(n)
    ensures Framing(trace, bufs[fd := ""], Opened(n, fd))
  {
    assert FramingOk(trace, bufs, n);
    assert FramingOk(trace, bufs[fd := ""], Opened(n, fd));
  }

  /** Received bytes whose lines have all been handled leave the framing intact. */
  lemma FramingReceive(
      before: seq<Entry>, after: seq<Entry>, bufs: map<int, string>, n: Net, fd: int, bytes: string, text: string)
    requires Framing(before, bufs, n) && fd in bufs && text == bufs[fd] + bytes
    requires Numbered(n) && fd in n.conn
    requires Extends(before, after, n.conn[fd], fd, Messages(Lines(text)))
    ensures Framing(after, bufs[fd := Tail(text)], Fed(n, fd, bytes))
  {
    assert FramingOk(before, bufs, n);
    StreamLines(n.streams[n.conn[fd]], bytes);
    assert FramingOk(after, bufs[fd := Tail(text)], Fed(n, fd, bytes));
  }

  lemma SetTwice(bufs: map<int, string>, fd: int, x: string, y: string)
    ensures bufs[fd := x][fd := y] == bufs[fd := y]
  {
  }

  lemma FramingDrop(trace: seq<Entry>, bufs: map<int, string>, n: Net, fd: int)
    requires Framing(trace, bufs, n) && Numbered(n)
    ensures Framing(trace, bufs - {fd}, Dropped(n, fd))
  {
    assert FramingOk(trace, bufs, n);
    assert FramingOk(trace, bufs - {fd}, Dropped(n, fd));
  }

  // ----- descriptors -----

  /** The kernel holds the listener and the clients open, nothing else. */
  ghost predicate OpenIs(listenFd: int, open: set<int>, n: Net) {
    open == n.conn.Keys + {listenFd} && listenFd !in n.conn
  }

  /** `OpenIs`, quantified so that a proof unfolds it only where it speaks of it. */
  ghost predicate OpenOk(listenFd: int, open: set<int>, n: Net) {
    forall o | o == open :: OpenIs(listenFd, o, n)
  }

  /** `net` and `agenda` are what the calls so far stand for.  (Quantified to be
      unfolded only where it is spoken of.) */
  ghost predicate LogOk(listenFd: int, io: seq<Io>, n: Net, agenda: Agenda) {
    forall i | i == io :: n == NetAfter(i) && agenda == AgendaAfter(listenFd, i)
  }

  lemma LogSnoc(listenFd: int, io: seq<Io>, n: Net, agenda: Agenda, x: Io)
    requires LogOk(listenFd, io, n, agenda)
    ensures Numbered(n)
    ensures LogOk(listenFd, io + [x], AfterCall(n, x), NextAgenda(listenFd, n.table, agenda, x))
  {
    assert n == NetAfter(io) && agenda == AgendaAfter(listenFd, io);
    NetSnoc(io, x);
    AgendaSnoc(listenFd, io, x);
    TableIs(io);
  }

  /** The calls between two states of the agenda. */
  lemma CallsBetween(
      listenFd: int, io0: seq<Io>, n0: Net, io: seq<Io>, n: Net, due: seq<Call>)
      returns (calls: seq<Io>)
    requires LogOk(listenFd, io0, n0, Calls(due)) && LogOk(listenFd, io, n, Calls([]))
    requires io0 <= io && Polls(io) == Polls(io0)
    ensures calls == io[|io0|..] && |calls| == |due| && forall i | 0 <= i < |calls| :: Makes(calls[i], due[i])
  {
    calls := io[|io0|..];
    assert io == io0 + calls;
    assert Calls(due) == AgendaAfter(listenFd, io0) && Calls([]) == AgendaAfter(listenFd, io);
    PollsNone(io0, calls);
    DueCalls(listenFd, io0, calls, due);
  }

  // ----- the server -----

  class Server {
    const listenFd: int
    const sessions: SessionManager
    const prices: PriceTable
    const segment: Segment
    const moments: nat -> Moment  // the environment's side: anything at all, line by line
    var recvBufs: map<int, string>
    var pendingFds: seq<int>

    ghost var trace: seq<Entry>   // every line handled
    ghost var ledger: Ledger      // what they come to, replies included
    ghost var replyFds: seq<int>  // the descriptors the replies went to
    ghost var io: seq<Io>         // what every `poll`, `accept` and `recv` returned
    ghost var net: Net            // what these calls stand for
    ghost var agenda: Agenda      // the calls due next
    var open: set<int>            // the kernel's side: descriptors open for the server
    var lineNo: nat               // the environment's side: the line being handled

    /** Sessions, stored records and replies are those of the handled lines, there is
        exactly one reply per line, to the descriptor the line came from, and times and
        prices are what clock and table showed. */
    ghost predicate LedgerFor(t: seq<Entry>)
      reads sessions, segment, segment.records, prices, `ledger, `replyFds, `lineNo
    {
      && segment.Valid() && prices.Valid() && lineNo == |t|
      && sessions.sessions == ledger.sessions
      && segment.stored == ledger.records
      && IsLedgerOf(ledger, t)
      && replyFds == Fds(t)
      && InMoments(t, moments)
    }

    /** Quantified, like `Framing`, to be unfolded only where it is spoken of. */
    ghost predicate LedgerOk()
      reads sessions, segment, segment.records, prices, `trace, `ledger, `replyFds, `lineNo
    {
      forall t | t == trace :: LedgerFor(t)
    }

    ghost predicate Logged()
      reads `io, `net, `agenda
    {
      LogOk(listenFd, io, net, agenda)
    }

    /** Clients, buffers and handled lines are what the calls so far stand for. */
    ghost predicate Framed()
      reads `trace, `recvBufs, `io, `net, `agenda, `open
    {
      Logged() && Framing(trace, recvBufs, net) && OpenOk(listenFd, open, net)
    }

    /** The poll table, with the descriptors waiting to be entered in it, lists the
        listener and then every client. */
    ghost predicate Listed(fds: seq<int>)
      reads `pendingFds, `net
    {
      fds + pendingFds == [listenFd] + net.table
    }

    constructor (listenFd: int, prices: PriceTable, moments: nat -> Moment)
      requires prices.Valid()
      ensures this.prices == prices && this.listenFd == listenFd && this.moments == moments
      ensures fresh(sessions) && fresh(segment) && fresh(segment.records)
      ensures LedgerOk() && Framed()
      ensures Listed([listenFd]) && pendingFds == []
      ensures trace == [] && io == [] && agenda == Calls([])
    {
      this.listenFd, this.prices, this.moments := listenFd, prices, moments;
      sessions := new SessionManager();
      segment := new Segment();
      recvBufs, pendingFds := map[], [];
      trace, ledger, replyFds := [], Ledger(map[], [], []), [];
      open, lineNo := {listenFd}, 0;
      io, net, agenda := [], NetAfter([]), Calls([]);
      new;
      assert LedgerFor(trace);
      assert FramingOk(trace, recvBufs, net);
    }

    /** Write down what a call returned. */
    ghost method Log(x: Io)
      requires Logged()
      modifies `io, `net, `agenda
      ensures Logged() && Numbered(old(net))
      ensures io == old(io) + [x] && net == AfterCall(old(net), x)
      ensures agenda == NextAgenda(listenFd, old(net).table, old(agenda), x)
    {
      LogSnoc(listenFd, io, net, agenda, x);
      io, net, agenda := io + [x], AfterCall(net, x), NextAgenda(listenFd, net.table, agenda, x);
    }

    /** `time`, when the message is taken up. */
    method Time() returns (t: int)
      ensures t == moments(lineNo).now
    {
      t := moments(lineNo).now;
    }

    /** `time`, when the record is made. */
    method TimeAgain() returns (t: int)
      ensures t == moments(lineNo).stamp
    {
      t := moments(lineNo).stamp;
    }

    /** The event a message is, handled now. */
    ghost function EventNow(msg: Msg): Event
      reads `lineNo
    {
      Event(msg, moments(lineNo).now, moments(lineNo).stamp, moments(lineNo).prices)
    }

    /** `processMessage`. */
    method ProcessMessage(msg: Msg) returns (reply: Reply)
      requires segment.Valid() && prices.Valid() && prices.Table() == moments(lineNo).prices
      modifies sessions, segment, segment.records
      ensures segment.Valid()
      ensures forall l: Ledger | l.sessions == old(sessions.sessions) && l.records == old(segment.stored) ::
                Process(l, EventNow(msg)) == Ledger(sessions.sessions, segment.stored, l.replies + [reply])
    {
      var now := Time();
      if msg.kind == MSG_START {
        sessions.Start(Session(msg.id, msg.lat, msg.lon, msg.city, now));
        assert SessionOf(EventNow(msg)) == Session(msg.id, msg.lat, msg.lon, msg.city, now);
        return Started;
      }
      var session := sessions.End(msg.id);
      if session.None? {
        assert sessions.sessions == old(sessions.sessions);
        return NoSession;
      }
      var s := session.value;
      var elapsedMin := ElapsedMin(s, now);
      var price := prices.Lookup(s.city);
      if price < 0.0 {
        price := 0.0;
      }
      var fee := elapsedMin * price;
      var stamp := TimeAgain();
      var rec := Record(Field(msg.id, ID_LEN), s.lat, s.lon, msg.lat, msg.lon, s.startTime, stamp,
                        fee, Field(s.city, CITY_LEN), true);
      assert rec == RecordOf(s, EventNow(msg));
      segment.StoreRecord(rec);
      return Fee(fee, elapsedMin);
    }

    /** The database process has been free to rewrite the price table. */
    method TableNow()
      requires prices.Valid()
      modifies prices, prices.rows
      ensures prices.Valid() && prices.Table() == moments(lineNo).prices
    {
      prices.Rewrite(moments(lineNo).prices);
    }

    /** The line that is handled now. */
    ghost function EntryNow(fd: int, line: string, c: nat): Entry
      reads `lineNo
    {
      EntryAt(Request(c, fd, line), moments(lineNo))
    }

    /** Parse and process the line. */
    method Answer(line: string, ghost fd: int, ghost c: nat) returns (reply: Reply)
      requires segment.Valid() && prices.Valid() && prices.Table() == moments(lineNo).prices
      modifies sessions, segment, segment.records
      ensures segment.Valid()
      ensures forall l: Ledger | l.sessions == old(sessions.sessions) && l.records == old(segment.stored) ::
                Takes(l, EntryNow(fd, line, c), Ledger(sessions.sessions, segment.stored, l.replies + [reply]))
    {
      var msg := ParseLine(line);
      if msg.None? {
        return BadMsg;
      }
      reply := ProcessMessage(msg.value);
      assert EventOf(EntryNow(fd, line, c), msg.value) == EventNow(msg.value);
    }

    /** One complete, non-empty line: parsed, processed and answered. */
    method HandleLine(fd: int, line: string, ghost c: nat)
      requires LedgerOk()
      modifies sessions, segment, segment.records, prices, prices.rows, `trace, `ledger, `replyFds, `lineNo
      ensures LedgerOk()
      ensures trace == old(trace) + [old(EntryNow(fd, line, c))]
    {
      assert LedgerFor(trace);
      TableNow();
      var reply := Answer(line, fd, c);
      ghost var entry, next := EntryNow(fd, line, c), Ledger(sessions.sessions, segment.stored, ledger.replies + [reply]);
      LedgerSnoc(ledger, trace, entry, next);
      MomentsSnoc(trace, moments, entry);
      ledger, trace := next, trace + [entry];
      replyFds := replyFds + [fd];
      lineNo := lineNo + 1;
      assert LedgerFor(trace);
    }

    /** Take the first complete line off the client's buffer and handle it, unless it
        is empty. */
    method HandleNext(fd: int, pos: nat, ghost c: nat)
      requires LedgerOk() && fd in recvBufs
      requires pos == Find(recvBufs[fd], '\n') < |recvBufs[fd]|
      modifies sessions, segment, segment.records, prices, prices.rows, `trace, `ledger, `replyFds, `lineNo, `recvBufs
      ensures LedgerOk()
      ensures recvBufs == old(recvBufs)[fd := old(recvBufs[fd])[pos + 1..]]
      ensures OneMore(old(trace), trace, c, fd, StripCr(old(recvBufs[fd])[..pos]))
    {
      var line := recvBufs[fd][..pos];
      recvBufs := recvBufs[fd := recvBufs[fd][pos + 1..]];
      line := StripCr(line);
      if line != "" {
        HandleLine(fd, line, c);
      }
    }

    /** Handle every complete line of the client's buffer and answer on its descriptor;
        what is left has no newline. */
    method HandleLines(fd: int, ghost c: nat)
      requires LedgerOk() && fd in recvBufs
      modifies sessions, segment, segment.records, prices, prices.rows, `trace, `ledger, `replyFds, `lineNo, `recvBufs
      ensures LedgerOk()
      ensures Extends(old(trace), trace, c, fd, Messages(Lines(old(recvBufs[fd]))))
      ensures recvBufs == old(recvBufs)[fd := Tail(old(recvBufs[fd]))]
    {
      ghost var text, left, t0, b0 := recvBufs[fd], recvBufs[fd], trace, recvBufs;
      ghost var done: seq<string> := [];
      NothingDone(text, t0, c, fd);
      var pos := Find(recvBufs[fd], '\n');
      while pos < |recvBufs[fd]|
        invariant LedgerOk() && recvBufs == b0[fd := left] && pos == Find(left, '\n')
        invariant Handled(text, done, left, t0, trace, c, fd)
        decreases |left|
      {
        ghost var before := trace;
        HandleNext(fd, pos, c);
        LineDone(text, done, left, pos, t0, before, trace, c, fd);
        done := done + [left[..pos]];
        left := left[pos + 1..];
        pos := Find(recvBufs[fd], '\n');
      }
      AllDone(text, done, left, t0, trace, c, fd);
    }

    // ----- one client -----

    /** `recv`: None when the peer is gone, otherwise at most 511 bytes. */
    method Recv(fd: int) returns (r: Option<string>)
      requires Logged()
      modifies `io, `net, `agenda
      ensures Logged() && Numbered(old(net))
      ensures r.Some? ==> 0 < |r.value| <= 511
      ensures io == old(io) + [Received(fd, r)] && net == AfterCall(old(net), Received(fd, r))
      ensures agenda == NextAgenda(listenFd, old(net).table, old(agenda), Received(fd, r))
    {
      var bytes: string := *;
      r := if 0 < |bytes| < BUF_SIZE then Some(bytes) else None;
      Log(Received(fd, r));
    }

    /** The peer is gone, as `net` already says. */
    method DisconnectClient(fd: int, ghost before: Net)
      requires Numbered(before) && fd in before.conn && net == Dropped(before, fd) && Logged()
      requires Framing(trace, recvBufs, before) && OpenOk(listenFd, open, before)
      modifies `recvBufs, `open
      ensures Framed()
      ensures recvBufs == old(recvBufs) - {fd} && open == old(open) - {fd}
    {
      FramingDrop(trace, recvBufs, before, fd);
      assert OpenIs(listenFd, open, before);
      open := open - {fd};
      recvBufs := recvBufs - {fd};
    }

    /** Bytes have come, as `net` already says. */
    method ReceiveBytes(fd: int, bytes: string, ghost before: Net)
      requires Numbered(before) && fd in before.conn && net == Fed(before, fd, bytes) && Logged()
      requires Framing(trace, recvBufs, before) && OpenOk(listenFd, open, before) && fd in recvBufs
      requires LedgerOk()
      modifies sessions, segment, segment.records, prices, prices.rows, `trace, `ledger, `replyFds, `lineNo, `recvBufs
      ensures Framed() && LedgerOk() && fd in recvBufs
    {
      ghost var t0, b0 := trace, recvBufs;
      FedOk(listenFd, open, before, fd, bytes);
      ghost var text := recvBufs[fd] + bytes;
      recvBufs := recvBufs[fd := recvBufs[fd] + bytes];
      HandleLines(fd, before.conn[fd]);
      SetTwice(b0, fd, text, Tail(text));
      FramingReceive(t0, trace, b0, before, fd, bytes, text);
    }

    /** One `recv` from a client: the bytes received, cut at their first NUL, join the
        client's stream and the lines they complete are handled; a client that is gone
        is dropped. */
    method HandleClient(fd: int) returns (ghost bytes: Option<string>)
      requires Framed() && LedgerOk() && fd in net.conn
      modifies sessions, segment, segment.records, prices, prices.rows, `trace, `ledger, `replyFds, `lineNo, `recvBufs, `io, `net, `agenda, `open
      ensures Framed() && LedgerOk() && Numbered(old(net))
      ensures io == old(io) + [Received(fd, bytes)] && net == AfterCall(old(net), Received(fd, bytes))
      ensures agenda == NextAgenda(listenFd, old(net).table, old(agenda), Received(fd, bytes))
      ensures fd in recvBufs <==> bytes.Some?
    {
      FramingKeys(trace, recvBufs, net);
      ghost var before := net;
      var received := Recv(fd);
      bytes := received;
      if received.None? {
        DisconnectClient(fd, before);
      } else {
        ReceiveBytes(fd, CStr(received.value), before);
      }
    }

    // ----- the event loop -----

    /** `accept`: -1, or a descriptor the kernel has not already handed out. */
    method Accept() returns (fd: int)
      requires Logged()
      modifies `io, `net, `agenda
      ensures Logged() && Numbered(old(net))
      ensures fd < 0 || fd !in open
      ensures io == old(io) + [Accepted(fd)] && net == AfterCall(old(net), Accepted(fd))
      ensures agenda == NextAgenda(listenFd, old(net).table, old(agenda), Accepted(fd))
    {
      fd := *;
      if fd in open { fd := -1; }
      Log(Accepted(fd));
    }

    /** A new client gets an empty buffer and waits to be entered in the poll table. */
    method Register(fd: int, ghost before: Net)
      requires Numbered(before) && net == Opened(before, fd) && Logged()
      requires Framing(trace, recvBufs, before) && OpenOk(listenFd, open, before) && fd !in open
      modifies `recvBufs, `pendingFds, `open
      ensures Framed() && pendingFds == old(pendingFds) + [fd]
    {
      FramingKeys(trace, recvBufs, before);
      OpenedOk(listenFd, open, before, fd);
      FramingAccept(trace, recvBufs, before, fd);
      open := open + {fd};
      recvBufs := recvBufs[fd := ""];
      pendingFds := pendingFds + [fd];
    }

    /** A new client is queued, unless there are already 64 or `accept` fails. */
    method AcceptClient(ghost fds: seq<int>) returns (ghost got: int)
      requires Framed() && pendingFds == [] && Listed(fds)
      modifies `recvBufs, `pendingFds, `io, `net, `agenda, `open
      ensures Framed() && Listed(fds) && |pendingFds| <= 1 && Numbered(old(net))
      ensures io == old(io) + [Accepted(got)] && net == AfterCall(old(net), Accepted(got))
      ensures agenda == NextAgenda(listenFd, old(net).table, old(agenda), Accepted(got))
    {
      FramingKeys(trace, recvBufs, net);
      ghost var before := net;
      var fd := Accept();
      got := fd;
      NewClient(listenFd, open, before, fd);
      if 0 <= fd && |recvBufs.Keys| < MAX_CLIENTS {
        Register(fd, before);
        assert fds + [fd] == (fds + []) + [fd] == [listenFd] + (before.table + [fd]);
      }  // otherwise nothing was accepted, or it is closed again at once
    }

    /** `poll`, with nothing assumed about which descriptors are ready. */
    method Poll(ghost fds: seq<int>, n: nat) returns (r: PollResult)
      requires n == |fds| && fds == [listenFd] + net.table && Framed() && agenda == Calls([])
      modifies `io, `net, `agenda
      ensures Framed() && net == old(net) && io == old(io) + [Polled(r)]
      ensures agenda == Asked(fds, r) && (r.Ready? ==> |r.revents| == n)
    {
      r := *;
      if r.Ready? && |r.revents| != n { r := Failed; }
      Log(Polled(r));
      assert agenda == Asked(fds, r);
    }

    /** One client's turn in the scan: received from if it is ready, and erased from the
        table if that ended its connection. */
    method ServeOne(fds0: seq<int>, revents0: seq<bool>, i: nat) returns (fds: seq<int>, revents: seq<bool>)
      requires Framed() && LedgerOk() && Listed(fds0)
      requires 1 <= i < |fds0| == |revents0| && agenda == Calls(ReadyDown(fds0, revents0, i))
      modifies sessions, segment, segment.records, prices, prices.rows, `trace, `ledger, `replyFds, `lineNo, `recvBufs, `io, `net, `agenda, `open
      ensures Framed() && LedgerOk() && Listed(fds) && old(io) <= io && Polls(io) == Polls(old(io))
      ensures i <= |fds| == |revents| && agenda == Calls(ReadyDown(fds, revents, i - 1))
    {
      fds, revents := fds0, revents0;
      if revents[i] {
        ghost var before, log := net, io;
        ClientAt(listenFd, open, io, net, agenda, fds, pendingFds, i);
        ghost var bytes := HandleClient(fds[i]);
        PollsSnoc(log, Received(fds[i], bytes));
        if fds[i] !in recvBufs {
          EraseAt(listenFd, before.table, fds, pendingFds, i);
          fds := fds[..i] + fds[i + 1..];
          revents := revents[..i] + revents[i + 1..];
        }
      }
      ReadyPrefix(fds0, revents0, fds, revents, i - 1);
    }

    /** The backward scan over the clients with in-place erasure: `recv` is called on
        every ready client exactly once, and exactly the disconnected ones leave. */
    method ServeReady(fds0: seq<int>, revents0: seq<bool>) returns (fds: seq<int>)
      requires Framed() && LedgerOk() && Listed(fds0)
      requires 0 < |fds0| == |revents0| && agenda == Calls(ReadyDown(fds0, revents0, |fds0| - 1))
      modifies sessions, segment, segment.records, prices, prices.rows, `trace, `ledger, `replyFds, `lineNo, `recvBufs, `io, `net, `agenda, `open
      ensures Framed() && LedgerOk() && Listed(fds) && old(io) <= io && Polls(io) == Polls(old(io))
      ensures agenda == Calls([]) && ReceivesAll(fds0, revents0, io[|old(io)|..])
    {
      fds := fds0;
      var revents := revents0;
      ghost var io0, net0 := io, net;
      var i := |fds| - 1;
      while i >= 1
        invariant Framed() && LedgerOk() && Listed(fds) && old(io) <= io && Polls(io) == Polls(old(io))
        invariant 0 <= i < |fds| == |revents| && agenda == Calls(ReadyDown(fds, revents, i))
      {
        fds, revents := ServeOne(fds, revents, i);
        i := i - 1;
      }
      ghost var calls := CallsBetween(listenFd, io0, net0, io, net, ReadyDown(fds0, revents0, |fds0| - 1));
      DueAreReceived(fds0, revents0, calls);
    }

    method CheckListener(ready: bool, ghost fds: seq<int>, ghost rest: seq<Call>)
      requires Framed() && pendingFds == [] && Listed(fds)
      requires agenda == Calls((if ready then [AcceptCall] else []) + rest)
      modifies `recvBufs, `pendingFds, `io, `net, `agenda, `open
      ensures Framed() && Listed(fds) && |pendingFds| <= 1 && old(io) <= io && Polls(io) == Polls(old(io))
      ensures agenda == Calls(rest)
    {
      assert [] + rest == rest;
      if ready {
        ghost var before := io;
        ghost var got := AcceptClient(fds);
        PollsSnoc(before, Accepted(got));
      }
    }

    method RegisterPending(fds0: seq<int>) returns (fds: seq<int>)
      requires |pendingFds| <= 1
      modifies `pendingFds
      ensures pendingFds == [] && fds == fds0 + old(pendingFds)
    {
      fds := fds0;
      ghost var table := fds + pendingFds;
      while pendingFds != []
        invariant |pendingFds| <= 1 && fds + pendingFds == table
        decreases |pendingFds|
      {
        fds := fds + [pendingFds[|pendingFds| - 1]];
        pendingFds := pendingFds[..|pendingFds| - 1];
      }
    }

    /** One wake-up of the poll loop: exactly the calls it asks for. */
    method Serve(fds0: seq<int>, revents: seq<bool>) returns (fds: seq<int>)
      requires Framed() && LedgerOk() && pendingFds == [] && Listed(fds0)
      requires |revents| == |fds0| > 0 && agenda == Asked(fds0, Ready(revents))
      modifies this, sessions, segment, segment.records, prices, prices.rows
      ensures Framed() && LedgerOk() && pendingFds == [] && Listed(fds)
      ensures old(io) <= io && Polls(io) == Polls(old(io)) && agenda == Calls([])
      ensures Serves(fds0, revents, io[|old(io)|..])
    {
      ghost var io0, net0, due := io, net, agenda.due;
      assert fds0[0] == (fds0 + pendingFds)[0] == listenFd;
      CheckListener(revents[0], fds0, ReadyDown(fds0, revents, |fds0| - 1));
      fds := ServeReady(fds0, revents);
      fds := RegisterPending(fds);
      assert fds + [] == fds;
      ghost var calls := CallsBetween(listenFd, io0, net0, io, net, due);
      DueAreServed(fds0, revents, calls);
    }

    method CloseClients(fds: seq<int>)
      requires Framed() && pendingFds == [] && Listed(fds)
      modifies `open
      ensures open == {listenFd}
    {
      assert fds + [] == fds;
      var i := 1;
      while i < |fds|
        invariant 1 <= i <= |fds|
        invariant forall fd :: fd in open <==> fd in old(open) && fd !in fds[1..i]
      {
        assert fds[1..i + 1] == fds[1..i] + [fds[i]];
        open := open - {fds[i]};
        i := i + 1;
      }
      assert fds[1..i] == fds[1..];
      AllClosed(listenFd, old(open), open, io, net, agenda, fds);
    }

    /** One round: `poll`, and then exactly the calls it asks for. */
    method Wake(fds0: seq<int>) returns (fds: seq<int>, result: PollResult)
      requires Framed() && LedgerOk() && pendingFds == [] && Listed(fds0)
      requires agenda == Calls([])
      modifies this, sessions, segment, segment.records, prices, prices.rows
      ensures Framed() && LedgerOk() && pendingFds == [] && Listed(fds)
      ensures old(io) <= io && Polls(io) == Polls(old(io)) + 1
      ensures agenda == if result.Failed? then Stopped else Calls([])
    {
      assert fds0 + [] == fds0;
      result := Poll(fds0, |fds0|);
      PollsSnoc(old(io), Polled(result));
      fds := fds0;
      if result.Ready? {
        fds := Serve(fds, result.revents);
      }
    }

    /** The main loop, for at most `rounds` wake-ups before `stop()`: `poll` is called
        that many times, or until it fails, and in between exactly the calls that it
        asks for are made. */
    method Run(rounds: nat)
      requires Framed() && LedgerOk() && pendingFds == [] && Listed([listenFd])
      requires agenda == Calls([])
      modifies this, sessions, segment, segment.records, prices, prices.rows
      ensures Logged() && Framing(trace, recvBufs, net) && LedgerOk()
      ensures old(io) <= io
      ensures Polls(io) <= Polls(old(io)) + rounds
      ensures agenda == Stopped || (agenda == Calls([]) && Polls(io) == Polls(old(io)) + rounds)
      ensures WakesServed(listenFd, io)
      ensures open == {listenFd}
    {
      var fds := [listenFd];
      var left := rounds;
      while left > 0
        invariant Framed() && LedgerOk() && pendingFds == [] && Listed(fds)
        invariant old(io) <= io && Polls(io) + left == Polls(old(io)) + rounds
        invariant 0 <= left <= rounds && agenda == Calls([])
        decreases left
      {
        var result;
        fds, result := Wake(fds);
        left := left - 1;
        if result.Failed? { break; }
      }
      CloseClients(fds);
      RunServes(listenFd, io, net, agenda);
    }
  }

  lemma RunServes(listenFd: int, io: seq<Io>, n: Net, agenda: Agenda)
    requires LogOk(listenFd, io, n, agenda) && (agenda == Calls([]) || agenda == Stopped)
    ensures WakesServed(listenFd, io)
  {
    assert agenda == AgendaAfter(listenFd, io);
    WakesAreServed(listenFd, io);
  }

  // ----- what the scan does to the table -----

  lemma OpenedOk(listenFd: int, open: set<int>, n: Net, fd: int)
    requires OpenOk(listenFd, open, n) && Numbered(n) && fd !in open
    ensures OpenOk(listenFd, open + {fd}, Opened(n, fd)) && fd !in n.conn
  {
    assert OpenIs(listenFd, open, n);
    assert Opened(n, fd).conn.Keys == n.conn.Keys + {fd};
  }

  lemma FedOk(listenFd: int, open: set<int>, n: Net, fd: int, bytes: string)
    requires OpenOk(listenFd, open, n) && Numbered(n) && fd in n.conn
    ensures OpenOk(listenFd, open, Fed(n, fd, bytes))
  {
    assert OpenIs(listenFd, open, n);
  }

  /** A descriptor the kernel has just handed out is not one of the clients'. */
  lemma NewClient(listenFd: int, open: set<int>, n: Net, fd: int)
    requires OpenOk(listenFd, open, n) && (fd < 0 || fd !in open)
    ensures 0 <= fd ==> fd !in n.conn
  {
    assert OpenIs(listenFd, open, n);
  }

  lemma ClientAt(
      listenFd: int, open: set<int>, io: seq<Io>, n: Net, agenda: Agenda,
      fds: seq<int>, pending: seq<int>, i: nat)
    requires OpenOk(listenFd, open, n) && LogOk(listenFd, io, n, agenda)
    requires 1 <= i < |fds| && fds + pending == [listenFd] + n.table
    ensures fds[i] in n.conn && NoDup(n.table)
  {
    TableFitsNow(listenFd, io, n, agenda);
    assert fds[i] == (fds + pending)[i] == n.table[i - 1];
    assert fds[i] in n.table;
  }

  lemma TableFitsNow(listenFd: int, io: seq<Io>, n: Net, agenda: Agenda)
    requires LogOk(listenFd, io, n, agenda)
    ensures TableFits(n)
  {
    assert n == NetAfter(io);
    NetMeans(io);
  }

  /** Erasing a position of the poll table takes exactly its client out. */
  lemma EraseAt(listenFd: int, table: seq<int>, fds: seq<int>, pending: seq<int>, i: nat)
    requires NoDup(table) && 1 <= i < |fds| && fds + pending == [listenFd] + table
    ensures (fds[..i] + fds[i + 1..]) + pending == [listenFd] + Without(table, fds[i])
  {
    assert fds[i] == (fds + pending)[i] == table[i - 1];
    WithoutAt(table, i - 1);
    assert (fds[..i] + fds[i + 1..]) + pending == (fds + pending)[..i] + (fds + pending)[i + 1..];
    assert ([listenFd] + table)[..i] + ([listenFd] + table)[i + 1..] == [listenFd] + (table[..i - 1] + table[i..]);
  }

  lemma AllClosed(
      listenFd: int, before: set<int>, open: set<int>, io: seq<Io>, n: Net, agenda: Agenda, fds: seq<int>)
    requires OpenOk(listenFd, before, n) && LogOk(listenFd, io, n, agenda) && fds == [listenFd] + n.table
    requires forall fd :: fd in open <==> fd in before && fd !in fds[1..]
    ensures open == {listenFd}
  {
    assert n == NetAfter(io);
    NetMeans(io);
    assert fds[1..] == n.table;
    assert OpenIs(listenFd, before, n);
    forall fd ensures fd in open <==> fd == listenFd {
    }
  }

  // ----- what the loop over the lines does -----

  /** `after` is `before` and, if `line` is not empty, one entry for it. */
  ghost predicate OneMore(before: seq<Entry>, after: seq<Entry>, c: nat, fd: int, line: string) {
    if line == "" then after == before
    else
      && |after| == |before| + 1 && before <= after
      && after[|before|].conn == c && after[|before|].fd == fd && after[|before|].line == line
  }

  /** Halfway through the lines of `text`: `done` is handled, `left` is to come.
      Quantified, like `Framing`, to be unfolded only where it is spoken of. */
  ghost predicate Handled(
      text: string, done: seq<string>, left: string, before: seq<Entry>, after: seq<Entry>, c: nat, fd: int)
  {
    forall t | t == after ::
      Lines(text) == done + Lines(left) && Tail(text) == Tail(left) && Extends(before, t, c, fd, Messages(done))
  }

  lemma NothingDone(text: string, before: seq<Entry>, c: nat, fd: int)
    ensures Handled(text, [], text, before, before, c, fd)
  {
    assert Messages([]) == [] && [] + Lines(text) == Lines(text);
    assert Requests(c, fd, []) == [];
  }

  lemma LineDone(
      text: string, done: seq<string>, left: string, pos: nat,
      before: seq<Entry>, mid: seq<Entry>, after: seq<Entry>, c: nat, fd: int)
    requires Handled(text, done, left, before, mid, c, fd)
    requires pos == Find(left, '\n') < |left| && OneMore(mid, after, c, fd, StripCr(left[..pos]))
    ensures Handled(text, done + [left[..pos]], left[pos + 1..], before, after, c, fd)
  {
    var line, rest := left[..pos], left[pos + 1..];
    CutAt(left, pos);
    LinesCons(line, rest);
    Text.Regroup(done, [line], Lines(rest));
    assert Extends(before, mid, c, fd, Messages(done));
    LineExtends(before, mid, after, c, fd, done, line);
  }

  lemma LineExtends(
      before: seq<Entry>, mid: seq<Entry>, after: seq<Entry>, c: nat, fd: int, done: seq<string>, line: string)
    requires Extends(before, mid, c, fd, Messages(done)) && OneMore(mid, after, c, fd, StripCr(line))
    ensures Extends(before, after, c, fd, Messages(done + [line]))
  {
    MessagesSnoc(done, line);
    if StripCr(line) != "" {
      ExtendsSnoc(before, mid, c, fd, Messages(done), after[|mid|]);
      assert after == mid + [after[|mid|]];
    }
  }

  lemma AllDone(
      text: string, done: seq<string>, left: string, before: seq<Entry>, after: seq<Entry>, c: nat, fd: int)
    requires Handled(text, done, left, before, after, c, fd) && Find(left, '\n') == |left|
    ensures Extends(before, after, c, fd, Messages(Lines(text))) && Tail(text) == left
  {
    assert left[..|left|] == left;
    assert Extends(before, after, c, fd, Messages(done));
    assert done + [] == done;
  }

  // ----- what the invariants mean -----

  /** Between two wake-ups the poll table lists the listener and then every client with
      a buffer, once; there are at most 64, and the kernel holds nothing else open. */
  lemma TableMeans(s: Server, fds: seq<int>)
    requires s.Framed() && s.pendingFds == [] && s.Listed(fds)
    ensures fds != [] && fds[0] == s.listenFd && NoDup(fds)
    ensures forall fd :: fd in fds[1..] <==> fd in s.recvBufs
    ensures |s.recvBufs.Keys| <= MAX_CLIENTS
    ensures s.open == s.recvBufs.Keys + {s.listenFd}
  {
    FramingKeys(s.trace, s.recvBufs, s.net);
    assert s.net == NetAfter(s.io);
    NetMeans(s.io);
    assert fds + [] == fds && fds[1..] == s.net.table;
    assert OpenIs(s.listenFd, s.open, s.net);
    forall i, j | 0 <= i < j < |fds| ensures fds[i] != fds[j] {
      assert fds[j] == s.net.table[j - 1] && fds[j] in s.net.table;
    }
  }

  /** What a server that keeps its invariants has done, whatever its clients sent, in
      whatever chunks and interleaving. Each connection's stream is what `recv` returned
      for it while it lasted. The lines handled are those these bytes complete, in that
      order: for every connection the message lines of its own stream, each once, each
      answered once, on the descriptor that `accept` returned for the connection. No
      leftover holds a complete line. */
  lemma ServerMeans(s: Server)
    requires s.Logged() && Framing(s.trace, s.recvBufs, s.net) && s.LedgerOk()
    ensures var n := NetAfter(s.io);
            && Tagged(s.trace) == n.requests && |s.trace| == |n.requests|
            && (forall c: nat | c < |n.streams| :: LinesFor(Tagged(s.trace), c) == Messages(Lines(n.streams[c])))
            && (forall c: nat | c < |n.streams| :: StreamKept(s.io, c))
            && s.recvBufs.Keys == n.conn.Keys == OpenFds(s.io)
            && (forall fd | fd in s.recvBufs :: s.recvBufs[fd] == Tail(n.streams[n.conn[fd]]))
            && |s.replyFds| == |s.trace|
            && (forall i | 0 <= i < |s.trace| ::
                  s.trace[i].conn < |n.fdOf| && s.replyFds[i] == n.fdOf[s.trace[i].conn])
  {
    assert s.net == NetAfter(s.io);
    FramingMeans(s.trace, s.recvBufs, s.io);
    assert s.LedgerFor(s.trace);
    ConnectedAreOpen(s.io);
    AllStreamsHeard(s.io);
  }

  /** And what these lines have come to, whatever clock and price table showed: every
      line is answered as it should be after the lines before it; the open sessions are
      the latest STARTs; the stored records are exactly the bills of the ENDs that found
      one; and no START is lost. */
  lemma ServerBooks(s: Server)
    requires s.LedgerOk()
    ensures InMoments(s.trace, s.moments)
    ensures |s.ledger.replies| == |s.trace|
    ensures forall i | 0 <= i < |s.trace| :: s.ledger.replies[i] in RepliesTo(s.trace[..i], s.trace[i])
    ensures SessionsMatch(s.sessions.sessions, Events(s.trace))
    ensures |s.segment.stored| == |BilledEnds(Events(s.trace))|
    ensures forall q: nat | q < |s.segment.stored| :: Bills(s.segment.stored[q], Events(s.trace), q)
    ensures Forward(s.moments) ==> forall r | r in s.segment.stored :: BilledFrom(r, Events(s.trace))
    ensures Starts(Events(s.trace))
         == |s.segment.stored| + |s.sessions.sessions| + Overwrites(Events(s.trace))
  {
    assert s.LedgerFor(s.trace);
    LedgerMeans(s.trace, s.ledger, s.moments);
  }

  /** The handling of a request at a moment. */
  function EntryAt(r: Request, m: Moment): Entry {
    Entry(r.conn, r.fd, r.line, m.now, m.stamp, m.prices)
  }

  lemma FramingMeans(trace: seq<Entry>, bufs: map<int, string>, io: seq<Io>)
    requires Framing(trace, bufs, NetAfter(io))
    ensures FramingOk(trace, bufs, NetAfter(io))
    ensures forall c: nat | c < |NetAfter(io).streams| ::
              LinesFor(Tagged(trace), c) == Messages(Lines(NetAfter(io).streams[c]))
    ensures forall i | 0 <= i < |trace| ::
              trace[i].conn < |NetAfter(io).fdOf| && trace[i].fd == NetAfter(io).fdOf[trace[i].conn]
  {
    var n := NetAfter(io);
    NetMeans(io);
    assert FramingOk(trace, bufs, n);
    forall i | 0 <= i < |trace| ensures trace[i].conn < |n.fdOf| && trace[i].fd == n.fdOf[trace[i].conn] {
      assert n.requests[i] == Tagged(trace)[i];
    }
  }

  lemma LedgerMeans(trace: seq<Entry>, ledger: Ledger, moments: nat -> Moment)
    requires IsLedgerOf(ledger, trace) && InMoments(trace, moments)
    ensures |ledger.replies| == |trace|
    ensures forall i | 0 <= i < |trace| :: ledger.replies[i] in RepliesTo(trace[..i], trace[i])
    ensures SessionsMatch(ledger.sessions, Events(trace))
    ensures |ledger.records| == |BilledEnds(Events(trace))|
    ensures forall q: nat | q < |ledger.records| :: Bills(ledger.records[q], Events(trace), q)
    ensures Forward(moments) ==> forall r | r in ledger.records :: BilledFrom(r, Events(trace))
    ensures Starts(Events(trace)) == |ledger.records| + |ledger.sessions| + Overwrites(Events(trace))
  {
    RepliesOfLines(ledger, trace);
    assert HandleAll(trace) == ledger;
    var events := Events(trace);
    LedgerOfEvents(trace);
    SessionsAreLatestStarts(events);
    RecordsAreBills(events);
    StartsAreConserved(events);
    if Forward(moments) {
      ForwardTimes(trace, moments);
      ClockOfEvents(trace, moments(|trace|).now);
      BillingIsFair(events);
    }
  }
}
