/** What the server's system calls returned, and what it stands for: which clients are
    connected, which bytes each connection has brought, which lines are to be answered,
    and which call is due next. */
module Connections {
  import opened Options
  import opened Text

  const MAX_CLIENTS: nat := 64

  datatype PollResult = Interrupted | Failed | Ready(revents: seq<bool>)

  /** One returned call; `recv` without bytes means that the peer is gone. */
  datatype Io = Polled(result: PollResult) | Accepted(fd: int) | Received(fd: int, bytes: Option<string>)

  /** A line to be handled, the connection that brought it, and that connection's
      descriptor. */
  datatype Request = Request(conn: nat, fd: int, line: string)

  /** The connected clients in the order of the poll table and by number of acceptance,
      the bytes (every `recv` cut at its first NUL) and the descriptor of every
      connection there has been, and the requests in the order they became complete. */
  datatype Net = Net(
    table: seq<int>, conn: map<int, nat>, streams: seq<string>, fdOf: seq<int>, requests: seq<Request>)

  ghost predicate Numbered(n: Net) {
    && |n.streams| == |n.fdOf|
    && forall fd | fd in n.conn :: n.conn[fd] < |n.streams| && n.fdOf[n.conn[fd]] == fd
  }

  predicate NoDup(fds: seq<int>) {
    forall i, j | 0 <= i < j < |fds| :: fds[i] != fds[j]
  }

  function Without(fds: seq<int>, fd: int): seq<int> {
    if fds == [] then [] else (if fds[0] == fd then [] else [fds[0]]) + Without(fds[1..], fd)
  }

  function Requests(c: nat, fd: int, lines: seq<string>): seq<Request> {
    seq(|lines|, i requires 0 <= i < |lines| => Request(c, fd, lines[i]))
  }

  // ----- what one call changes -----

  function Opened(n: Net, fd: int): (m: Net)
    requires Numbered(n)
    ensures Numbered(m)
  {
    n.(table := n.table + [fd], conn := n.conn[fd := |n.streams|], streams := n.streams + [""],
       fdOf := n.fdOf + [fd])
  }

  /** Bytes join the connection's stream; they may complete lines. */
  function Fed(n: Net, fd: int, bytes: string): (m: Net)
    requires Numbered(n) && fd in n.conn
    ensures Numbered(m)
  {
    var c := n.conn[fd];
    n.(streams := n.streams[c := n.streams[c] + bytes],
       requests := n.requests + Requests(c, fd, Messages(Lines(Tail(n.streams[c]) + bytes))))
  }

  function Dropped(n: Net, fd: int): (m: Net)
    requires Numbered(n)
    ensures Numbered(m)
  {
    n.(table := Without(n.table, fd), conn := n.conn - {fd})
  }

  /** A connection is taken only while there are fewer than 64. */
  function AfterCall(n: Net, x: Io): (m: Net)
    requires Numbered(n)
    ensures Numbered(m)
  {
    match x
    case Polled(_) => n
    case Accepted(fd) => if 0 <= fd && fd !in n.conn && |n.conn.Keys| < MAX_CLIENTS then Opened(n, fd) else n
    case Received(fd, bytes) =>
      if fd !in n.conn then n
      else if bytes.Some? then Fed(n, fd, CStr(bytes.value))
      else Dropped(n, fd)
  }

  function NetAfter(io: seq<Io>): (n: Net)
    ensures Numbered(n)
  {
    if io == [] then Net([], map[], [], [], []) else AfterCall(NetAfter(io[..|io| - 1]), io[|io| - 1])
  }

  lemma NetSnoc(io: seq<Io>, x: Io)
    ensures NetAfter(io + [x]) == AfterCall(NetAfter(io), x)
  {
    assert (io + [x])[..|io|] == io;
  }

  // ----- what holds whatever the calls returned -----

  /** The requests of one connection. */
  function LinesFor(rs: seq<Request>, c: nat): seq<string> {
    if rs == [] then [] else
      LinesFor(rs[..|rs| - 1], c) + if rs[|rs| - 1].conn == c then [rs[|rs| - 1].line] else []
  }

  lemma {:induction false} LinesForAppend(a: seq<Request>, b: seq<Request>, c: nat)
    ensures LinesFor(a + b, c) == LinesFor(a, c) + LinesFor(b, c)
  {
    if b == [] {
      assert a + b == a;
    } else {
      var n := |b| - 1;
      assert (a + b)[..|a| + n] == a + b[..n];
      LinesForAppend(a, b[..n], c);
    }
  }

  lemma {:induction false} LinesForRequests(c: nat, fd: int, lines: seq<string>, d: nat)
    ensures LinesFor(Requests(c, fd, lines), d) == if d == c then lines else []
  {
    if lines != [] {
      var n := |lines| - 1;
      assert Requests(c, fd, lines)[..n] == Requests(c, fd, lines[..n]);
      LinesForRequests(c, fd, lines[..n], d);
      assert lines == lines[..n] + [lines[n]];
    }
  }

  lemma {:induction false} LinesForNone(rs: seq<Request>, c: nat)
    requires forall i | 0 <= i < |rs| :: rs[i].conn != c
    ensures LinesFor(rs, c) == []
  {
    if rs != [] {
      LinesForNone(rs[..|rs| - 1], c);
    }
  }

  ghost predicate TableFits(n: Net) {
    && NoDup(n.table) && |n.conn.Keys| <= MAX_CLIENTS
    && (forall fd :: fd in n.table <==> fd in n.conn)
  }

  ghost predicate RequestsFit(n: Net) {
    && Numbered(n)
    && (forall i | 0 <= i < |n.requests| ::
          n.requests[i].conn < |n.streams| && n.requests[i].fd == n.fdOf[n.requests[i].conn])
    && (forall c: nat | c < |n.streams| :: LinesFor(n.requests, c) == Messages(Lines(n.streams[c])))
  }

  lemma {:induction false} WithoutMeaning(fds: seq<int>, fd: int)
    requires NoDup(fds)
    ensures NoDup(Without(fds, fd))
    ensures forall x :: x in Without(fds, fd) <==> x in fds && x != fd
  {
    if fds != [] {
      var rest := Without(fds[1..], fd);
      WithoutMeaning(fds[1..], fd);
      assert fds[0] !in fds[1..];
      if fds[0] == fd {
        assert Without(fds, fd) == [] + rest == rest;
      } else {
        assert Without(fds, fd) == [fds[0]] + rest;
        forall i | 0 <= i < |rest| ensures rest[i] != fds[0] {
          assert rest[i] in rest;
        }
      }
    }
  }

  lemma {:induction false} WithoutNone(fds: seq<int>, fd: int)
    requires fd !in fds
    ensures Without(fds, fd) == fds
  {
    if fds != [] {
      WithoutNone(fds[1..], fd);
    }
  }

  /** Taking out one element of a table without duplicates is erasing its position. */
  lemma {:induction false} WithoutAt(fds: seq<int>, k: nat)
    requires k < |fds| && NoDup(fds)
    ensures Without(fds, fds[k]) == fds[..k] + fds[k + 1..]
  {
    if k == 0 {
      WithoutNone(fds[1..], fds[0]);
      assert Without(fds, fds[0]) == [] + fds[1..];
    } else {
      WithoutAt(fds[1..], k - 1);
      assert fds[0] != fds[k];
      assert [fds[0]] + (fds[1..][..k - 1] + fds[1..][k..]) == fds[..k] + fds[k + 1..];
    }
  }

  lemma TableFitsAfter(n: Net, x: Io)
    requires Numbered(n) && TableFits(n)
    ensures TableFits(AfterCall(n, x))
  {
    if x.Accepted? && x.fd !in n.conn && |n.conn.Keys| < MAX_CLIENTS {
      TableFitsOpened(n, x.fd);
    } else if x.Received? && x.bytes.None? {
      TableFitsDropped(n, x.fd);
    }
  }

  lemma TableFitsOpened(n: Net, fd: int)
    requires Numbered(n) && TableFits(n) && fd !in n.conn && |n.conn.Keys| < MAX_CLIENTS
    ensures TableFits(Opened(n, fd))
  {
    assert Opened(n, fd).conn.Keys == n.conn.Keys + {fd};
  }

  lemma TableFitsDropped(n: Net, fd: int)
    requires Numbered(n) && TableFits(n)
    ensures TableFits(Dropped(n, fd))
  {
    WithoutMeaning(n.table, fd);
    FewerKeys(Dropped(n, fd).conn.Keys, n.conn.Keys);
  }

  lemma FewerKeys<T>(fewer: set<T>, keys: set<T>)
    requires fewer <= keys
    ensures |fewer| <= |keys|
  {
    assert keys == fewer + (keys - fewer);
    assert fewer !! keys - fewer;
  }

  lemma StreamLines(stream: string, bytes: string)
    ensures Messages(Lines(stream + bytes)) == Messages(Lines(stream)) + Messages(Lines(Tail(stream) + bytes))
    ensures Tail(stream + bytes) == Tail(Tail(stream) + bytes)
  {
    SplitAppend(stream, bytes);
    MessagesAppend(Lines(stream), Lines(Tail(stream) + bytes));
  }

  lemma RequestsFitOpened(n: Net, fd: int)
    requires RequestsFit(n)
    ensures RequestsFit(Opened(n, fd))
  {
    var m := Opened(n, fd);
    LinesForNone(n.requests, |n.streams|);
    assert Lines("") == [] && Messages([]) == [];
    forall c: nat | c < |m.streams| ensures LinesFor(m.requests, c) == Messages(Lines(m.streams[c])) {
    }
  }

  lemma RequestsFitFed(n: Net, fd: int, bytes: string)
    requires RequestsFit(n) && fd in n.conn
    ensures RequestsFit(Fed(n, fd, bytes))
  {
    var c := n.conn[fd];
    var lines := Messages(Lines(Tail(n.streams[c]) + bytes));
    StreamLines(n.streams[c], bytes);
    FedLines(n.requests, c, fd, lines, n.streams, n.streams[c] + bytes);
  }

  lemma FedLines(rs: seq<Request>, c: nat, fd: int, lines: seq<string>, streams: seq<string>, grown: string)
    requires c < |streams| && Messages(Lines(grown)) == Messages(Lines(streams[c])) + lines
    requires forall d: nat | d < |streams| :: LinesFor(rs, d) == Messages(Lines(streams[d]))
    ensures forall d: nat | d < |streams| ::
              LinesFor(rs + Requests(c, fd, lines), d) == Messages(Lines(streams[c := grown][d]))
  {
    forall d: nat | d < |streams|
      ensures LinesFor(rs + Requests(c, fd, lines), d) == Messages(Lines(streams[c := grown][d]))
    {
      LinesForAppend(rs, Requests(c, fd, lines), d);
      LinesForRequests(c, fd, lines, d);
    }
  }

  /** Whatever the calls returned: the table lists every client once and at most 64 of
      them, every request carries the descriptor its connection was accepted on, and the
      requests of a connection are the message lines of its own bytes. */
  lemma {:induction false} NetMeans(io: seq<Io>)
    ensures TableFits(NetAfter(io)) && RequestsFit(NetAfter(io))
  {
    if io == [] {
      assert NetAfter(io).conn.Keys == {};
    } else {
      var before, x := io[..|io| - 1], io[|io| - 1];
      NetMeans(before);
      NetStep(NetAfter(before), x);
    }
  }

  lemma NetStep(n: Net, x: Io)
    requires TableFits(n) && RequestsFit(n)
    ensures TableFits(AfterCall(n, x)) && RequestsFit(AfterCall(n, x))
  {
    TableFitsAfter(n, x);
    match x {
      case Polled(_) =>
      case Accepted(fd) => RequestsFitOpened(n, fd);
      case Received(fd, bytes) => if fd in n.conn && bytes.Some? { RequestsFitFed(n, fd, CStr(bytes.value)); }
    }
  }

  // ----- the same without the fold: which bytes are a connection's -----

  /** The descriptors accepted while fewer than 64 were open, and not found gone since. */
  function OpenFds(io: seq<Io>): set<int> {
    if io == [] then {} else
      var before := OpenFds(io[..|io| - 1]);
      match io[|io| - 1]
      case Polled(_) => before
      case Accepted(fd) => if fd >= 0 && |before| < 64 then before + {fd} else before
      case Received(fd, bytes) => if bytes.None? then before - {fd} else before
  }

  lemma {:induction false} ConnectedAreOpen(io: seq<Io>)
    ensures NetAfter(io).conn.Keys == OpenFds(io)
  {
    if io != [] {
      ConnectedAreOpen(io[..|io| - 1]);
      KeysAfter(NetAfter(io[..|io| - 1]), io[|io| - 1]);
    }
  }

  lemma KeysAfter(n: Net, x: Io)
    requires Numbered(n)
    ensures AfterCall(n, x).conn.Keys ==
              if x.Accepted? && x.fd >= 0 && |n.conn.Keys| < 64 then n.conn.Keys + {x.fd}
              else if x.Received? && x.bytes.None? then n.conn.Keys - {x.fd}
              else n.conn.Keys
  {
  }

  /** `accept` opens the next connection exactly when it returned a new descriptor while
      fewer than 64 were open. */
  lemma AcceptOpens(io: seq<Io>, x: Io)
    ensures |NetAfter(io + [x]).streams| == |NetAfter(io).streams| +
              if x.Accepted? && x.fd >= 0 && x.fd !in OpenFds(io) && |OpenFds(io)| < 64 then 1 else 0
    ensures |NetAfter(io + [x]).streams| > |NetAfter(io).streams|
            ==> NetAfter(io + [x]).fdOf[|NetAfter(io).streams|] == x.fd
  {
    NetSnoc(io, x);
    ConnectedAreOpen(io);
  }

  /** Connection `c` was accepted at `p` and ends at `q`: where its descriptor was next
      found gone, or not yet. */
  ghost predicate Span(io: seq<Io>, c: nat, fd: int, p: nat, q: nat) {
    && p < q <= |io| && io[p] == Accepted(fd) && |NetAfter(io[..p]).streams| == c
    && (q < |io| ==> io[q] == Received(fd, None))
    && (forall i | p < i < q :: io[i] != Received(fd, None))
  }

  /** The bytes `recv` returned for a descriptor, each return cut at its first NUL. */
  function Heard(calls: seq<Io>, fd: int): seq<string> {
    if calls == [] then [] else
      var x := calls[|calls| - 1];
      Heard(calls[..|calls| - 1], fd) +
      if x.Received? && x.fd == fd && x.bytes.Some? then [CStr(x.bytes.value)] else []
  }

  /** A connection's stream is what `recv` returned for its descriptor while it lasted. */
  ghost predicate StreamOf(io: seq<Io>, c: nat, p: nat, q: nat)
    requires c < |NetAfter(io).streams|
  {
    var n := NetAfter(io);
    && c < |n.fdOf| && Span(io, c, n.fdOf[c], p, q)
    && n.streams[c] == Concat(Heard(io[p..q], n.fdOf[c]))
    && (q == |io| <==> n.fdOf[c] in n.conn && n.conn[n.fdOf[c]] == c)
  }

  lemma HeardSnoc(calls: seq<Io>, x: Io, fd: int)
    ensures Heard(calls + [x], fd) ==
            Heard(calls, fd) + if x.Received? && x.fd == fd && x.bytes.Some? then [CStr(x.bytes.value)] else []
  {
    assert (calls + [x])[..|calls|] == calls;
  }

  lemma {:induction false} StreamsHeard(io: seq<Io>, c: nat) returns (p: nat, q: nat)
    requires c < |NetAfter(io).streams|
    ensures StreamOf(io, c, p, q)
    decreases |io|
  {
    var m := |io| - 1;
    if c < |NetAfter(io[..m]).streams| {
      var q0;
      p, q0 := StreamsHeard(io[..m], c);
      q := if q0 == m && io[m] != Received(NetAfter(io[..m]).fdOf[c], None) then m + 1 else q0;
      StreamOn(io, c, p, q0, q);
    } else {
      p, q := m, m + 1;
      StreamOpens(io, c);
    }
  }

  lemma StreamOpens(io: seq<Io>, c: nat)
    requires io != [] && |NetAfter(io[..|io| - 1]).streams| <= c < |NetAfter(io).streams|
    ensures StreamOf(io, c, |io| - 1, |io|)
  {
    var m := |io| - 1;
    JustAccepted(NetAfter(io[..m]), io[m], c);
    HeardSnoc([], io[m], io[m].fd);
    assert io[m..] == [] + [io[m]];
  }

  ghost predicate StreamKept(io: seq<Io>, c: nat) {
    c < |NetAfter(io).streams| && exists p: nat, q: nat :: StreamOf(io, c, p, q)
  }

  /** Every connection's stream is what was received for it. */
  lemma AllStreamsHeard(io: seq<Io>)
    ensures forall c: nat | c < |NetAfter(io).streams| :: StreamKept(io, c)
  {
    forall c: nat | c < |NetAfter(io).streams| ensures StreamKept(io, c) {
      var p, q := StreamsHeard(io, c);
    }
  }

  lemma JustAccepted(n: Net, x: Io, c: nat)
    requires Numbered(n) && |n.streams| <= c < |AfterCall(n, x).streams|
    ensures var m := AfterCall(n, x);
            && c == |n.streams| && x.Accepted? && |m.fdOf| == |m.streams| && m.fdOf[c] == x.fd && m.streams[c] == ""
            && x.fd in m.conn && m.conn[x.fd] == c
  {
  }

  lemma StreamOn(io: seq<Io>, c: nat, p: nat, q0: nat, q: nat)
    requires io != [] && c < |NetAfter(io[..|io| - 1]).streams| && StreamOf(io[..|io| - 1], c, p, q0)
    requires var m := |io| - 1;
             q == if q0 == m && io[m] != Received(NetAfter(io[..m]).fdOf[c], None) then m + 1 else q0
    ensures c < |NetAfter(io).streams| && StreamOf(io, c, p, q)
  {
    var m := |io| - 1;
    var fd := NetAfter(io[..m]).fdOf[c];
    StreamStep(NetAfter(io[..m]), io[m], c, fd, q0 == m);
    SpanOn(io, c, fd, p, q0, q);
    HeardOn(io, p, q0, q, fd);
  }

  lemma SpanOn(io: seq<Io>, c: nat, fd: int, p: nat, q0: nat, q: nat)
    requires io != [] && Span(io[..|io| - 1], c, fd, p, q0)
    requires var m := |io| - 1; q == if q0 == m && io[m] != Received(fd, None) then m + 1 else q0
    ensures Span(io, c, fd, p, q)
  {
    var m := |io| - 1;
    assert io[..m][..p] == io[..p];
    forall i | p < i < q ensures io[i] != Received(fd, None) {
      if i < m { assert io[i] == io[..m][i]; }
    }
  }

  lemma HeardOn(io: seq<Io>, p: nat, q0: nat, q: nat, fd: int)
    requires io != [] && p < q0 < |io| && (q == q0 || (q0 == |io| - 1 && q == |io|))
    ensures var x := io[|io| - 1];
            Concat(Heard(io[p..q], fd)) == Concat(Heard(io[..|io| - 1][p..q0], fd))
              + if q == |io| && x.Received? && x.fd == fd && x.bytes.Some? then CStr(x.bytes.value) else ""
  {
    var m, x := |io| - 1, io[|io| - 1];
    var before := io[..m][p..q0];
    if q == q0 {
      assert io[p..q] == before;
      assert Concat(Heard(before, fd)) + "" == Concat(Heard(before, fd));
    } else {
      assert io[p..q] == before + [x];
      HeardSnoc(before, x, fd);
      HeardMore(Heard(before, fd), x, fd);
    }
  }

  lemma HeardMore(heard: seq<string>, x: Io, fd: int)
    ensures Concat(heard + if x.Received? && x.fd == fd && x.bytes.Some? then [CStr(x.bytes.value)] else [])
         == Concat(heard) + if x.Received? && x.fd == fd && x.bytes.Some? then CStr(x.bytes.value) else ""
  {
    if x.Received? && x.fd == fd && x.bytes.Some? {
      ConcatSnoc(heard, CStr(x.bytes.value));
    } else {
      assert heard + [] == heard && Concat(heard) + "" == Concat(heard);
    }
  }

  /** What one call does to a connection there is. */
  lemma StreamStep(n: Net, x: Io, c: nat, fd: int, open: bool)
    requires Numbered(n) && c < |n.streams| && n.fdOf[c] == fd
    requires open <==> fd in n.conn && n.conn[fd] == c
    ensures var m := AfterCall(n, x);
            && c < |m.streams| && m.fdOf[c] == fd
            && m.streams[c] == n.streams[c] + (if open && x.Received? && x.fd == fd && x.bytes.Some?
                                               then CStr(x.bytes.value) else "")
            && (fd in m.conn && m.conn[fd] == c <==> open && x != Received(fd, None))
  {
    assert n.streams[c] + "" == n.streams[c];
  }

  // ----- which calls are due -----

  datatype Call = AcceptCall | RecvCall(fd: int)

  /** `recv` from the ready descriptors at positions `i` down to 1, in the order a
      backward scan meets them. */
  function ReadyDown(fds: seq<int>, revents: seq<bool>, i: nat): seq<Call>
    requires i < |fds| == |revents|
  {
    if i == 0 then [] else (if revents[i] then [RecvCall(fds[i])] else []) + ReadyDown(fds, revents, i - 1)
  }

  /** The calls still to be made before the next `poll`. After a failed `poll` there is
      no next call. */
  datatype Agenda = Calls(due: seq<Call>) | Stopped | Broken

  /** What a wake-up asks for: `accept` if the listener is ready, then `recv` from every
      ready client, once, last position first. */
  function Asked(fds: seq<int>, result: PollResult): Agenda
    requires fds != []
  {
    match result
    case Interrupted => Calls([])
    case Failed => Stopped
    case Ready(revents) =>
      if |revents| != |fds| then Broken
      else Calls((if revents[0] then [AcceptCall] else []) + ReadyDown(fds, revents, |fds| - 1))
  }

  predicate Makes(x: Io, call: Call) {
    match call
    case AcceptCall => x.Accepted?
    case RecvCall(fd) => x.Received? && x.fd == fd
  }

  function NextAgenda(listenFd: int, table: seq<int>, agenda: Agenda, x: Io): Agenda {
    if !agenda.Calls? then Broken
    else if x.Polled? then
      if agenda.due == [] then Asked([listenFd] + table, x.result) else Broken
    else if agenda.due != [] && Makes(x, agenda.due[0]) then Calls(agenda.due[1..])
    else Broken
  }

  /** The clients in the order of the poll table. */
  function TableAfter(io: seq<Io>): seq<int> {
    if io == [] then [] else
      var before := TableAfter(io[..|io| - 1]);
      match io[|io| - 1]
      case Polled(_) => before
      case Accepted(fd) => if fd >= 0 && fd !in before && |before| < MAX_CLIENTS then before + [fd] else before
      case Received(fd, bytes) => if bytes.None? then Without(before, fd) else before
  }

  lemma {:induction false} TableIs(io: seq<Io>)
    ensures NetAfter(io).table == TableAfter(io)
  {
    if io != [] {
      var before := io[..|io| - 1];
      TableIs(before);
      NetMeans(before);
      SameSize(NetAfter(before));
      TableStep(NetAfter(before), io[|io| - 1]);
    }
  }

  lemma SameSize(n: Net)
    requires TableFits(n)
    ensures |n.table| == |n.conn.Keys|
  {
    SizeOf(n.table, n.conn.Keys);
  }

  lemma {:induction false} SizeOf(fds: seq<int>, keys: set<int>)
    requires NoDup(fds) && forall fd :: fd in fds <==> fd in keys
    ensures |fds| == |keys|
  {
    if fds == [] {
      assert forall fd :: fd in keys ==> fd in fds;
      assert keys == {};
    } else {
      var n := |fds| - 1;
      assert fds[n] in fds;
      forall fd ensures fd in fds[..n] <==> fd in keys - {fds[n]} {
        assert fd in fds <==> fd in fds[..n] || fd == fds[n];
      }
      SizeOf(fds[..n], keys - {fds[n]});
    }
  }

  lemma TableStep(n: Net, x: Io)
    requires Numbered(n) && TableFits(n) && |n.table| == |n.conn.Keys|
    ensures AfterCall(n, x).table ==
              match x
              case Polled(_) => n.table
              case Accepted(fd) =>
                (if fd >= 0 && fd !in n.table && |n.table| < MAX_CLIENTS then n.table + [fd] else n.table)
              case Received(fd, bytes) => (if bytes.None? then Without(n.table, fd) else n.table)
  {
    if x.Received? && x.fd !in n.table {
      WithoutNone(n.table, x.fd);
    }
  }

  /** `Broken` unless every call so far was the one that was due. */
  function AgendaAfter(listenFd: int, io: seq<Io>): Agenda {
    if io == [] then Calls([]) else
      var before := io[..|io| - 1];
      NextAgenda(listenFd, TableAfter(before), AgendaAfter(listenFd, before), io[|io| - 1])
  }

  lemma AgendaSnoc(listenFd: int, io: seq<Io>, x: Io)
    ensures AgendaAfter(listenFd, io + [x])
         == NextAgenda(listenFd, TableAfter(io), AgendaAfter(listenFd, io), x)
  {
    assert (io + [x])[..|io|] == io;
  }

  function Polls(io: seq<Io>): nat {
    if io == [] then 0 else Polls(io[..|io| - 1]) + if io[|io| - 1].Polled? then 1 else 0
  }

  lemma PollsSnoc(io: seq<Io>, x: Io)
    ensures Polls(io + [x]) == Polls(io) + if x.Polled? then 1 else 0
  {
    assert (io + [x])[..|io|] == io;
  }

  lemma {:induction false} ReadyPrefix(
      fds: seq<int>, revents: seq<bool>, gds: seq<int>, sevents: seq<bool>, i: nat)
    requires i < |fds| == |revents| && i < |gds| == |sevents|
    requires forall k | 0 <= k <= i :: fds[k] == gds[k] && revents[k] == sevents[k]
    ensures ReadyDown(fds, revents, i) == ReadyDown(gds, sevents, i)
  {
    if i > 0 {
      ReadyPrefix(fds, revents, gds, sevents, i - 1);
    }
  }

  // ----- the same without the agenda: what happens between two polls -----

  ghost predicate NoPoll(calls: seq<Io>) {
    forall i | 0 <= i < |calls| :: !calls[i].Polled?
  }

  lemma {:induction false} PollsNone(io: seq<Io>, calls: seq<Io>)
    ensures Polls(io + calls) >= Polls(io)
    ensures Polls(io + calls) == Polls(io) ==> NoPoll(calls)
    decreases |calls|
  {
    if calls == [] {
      assert io + calls == io;
    } else {
      var m := |calls| - 1;
      PollsNone(io, calls[..m]);
      PollsParts(io, calls[..m], calls[m]);
      assert calls[..m] + [calls[m]] == calls;
      NoPollSnoc(calls[..m], calls[m]);
    }
  }

  lemma PollsParts(io: seq<Io>, calls: seq<Io>, x: Io)
    ensures Polls(io + (calls + [x])) == Polls(io + calls) + if x.Polled? then 1 else 0
  {
    assert io + (calls + [x]) == (io + calls) + [x];
    PollsSnoc(io + calls, x);
  }

  lemma NoPollSnoc(calls: seq<Io>, x: Io)
    ensures NoPoll(calls + [x]) <==> NoPoll(calls) && !x.Polled?
  {
    var all := calls + [x];
    assert all[|calls|] == x && forall i | 0 <= i < |calls| :: all[i] == calls[i];
  }

  /** The positions `ks`, last first, are the ready clients'; `calls` receives from each
      of them once, in that order, and does nothing else. */
  ghost predicate Receives(fds: seq<int>, revents: seq<bool>, calls: seq<Io>, ks: seq<nat>) {
    && |revents| == |fds| && |calls| == |ks|
    && (forall i, j | 0 <= i < j < |ks| :: ks[i] > ks[j])
    && (forall k: nat :: k in ks <==> 1 <= k < |fds| && revents[k])
    && (forall i | 0 <= i < |ks| :: ks[i] < |fds| && calls[i].Received? && calls[i].fd == fds[ks[i]])
  }

  ghost predicate ReceivesAll(fds: seq<int>, revents: seq<bool>, calls: seq<Io>) {
    exists ks :: Receives(fds, revents, calls, ks)
  }

  /** One `accept` first, exactly if the listener is ready, and then these receives. */
  ghost predicate Serves(fds: seq<int>, revents: seq<bool>, calls: seq<Io>) {
    && |revents| == |fds| > 0
    && if revents[0] then calls != [] && calls[0].Accepted? && ReceivesAll(fds, revents, calls[1..])
       else ReceivesAll(fds, revents, calls)
  }

  /** The calls made are those that were due. */
  lemma {:induction false} DueCalls(listenFd: int, io: seq<Io>, calls: seq<Io>, due: seq<Call>)
    requires AgendaAfter(listenFd, io) == Calls(due) && NoPoll(calls)
    requires AgendaAfter(listenFd, io + calls).Calls?
    ensures |calls| <= |due| && AgendaAfter(listenFd, io + calls) == Calls(due[|calls|..])
    ensures forall i | 0 <= i < |calls| :: Makes(calls[i], due[i])
    decreases |calls|
  {
    if calls == [] {
      assert io + calls == io && due[0..] == due;
    } else {
      var m := |calls| - 1;
      assert io + calls == (io + calls[..m]) + [calls[m]] && calls == calls[..m] + [calls[m]];
      NoPollSnoc(calls[..m], calls[m]);
      CallsBefore(listenFd, io + calls[..m], calls[m]);
      DueCalls(listenFd, io, calls[..m], due);
      DueStep(listenFd, io + calls[..m], calls[m], due, m);
    }
  }

  lemma CallsBefore(listenFd: int, io: seq<Io>, x: Io)
    requires AgendaAfter(listenFd, io + [x]).Calls?
    ensures AgendaAfter(listenFd, io).Calls?
  {
    AgendaSnoc(listenFd, io, x);
  }

  lemma DueStep(listenFd: int, io: seq<Io>, x: Io, due: seq<Call>, m: nat)
    requires m <= |due| && AgendaAfter(listenFd, io) == Calls(due[m..])
    requires !x.Polled? && AgendaAfter(listenFd, io + [x]).Calls?
    ensures m < |due| && Makes(x, due[m]) && AgendaAfter(listenFd, io + [x]) == Calls(due[m + 1..])
  {
    AgendaSnoc(listenFd, io, x);
    assert m < |due| ==> due[m..][1..] == due[m + 1..];
  }

  ghost predicate Down(ks: seq<nat>, revents: seq<bool>, i: nat)
    requires i < |revents|
  {
    && (forall a, b | 0 <= a < b < |ks| :: ks[a] > ks[b])
    && (forall k: nat :: k in ks <==> 1 <= k <= i && revents[k])
  }

  ghost predicate CallsAt(calls: seq<Call>, fds: seq<int>, ks: seq<nat>) {
    |calls| == |ks| && forall a | 0 <= a < |ks| :: ks[a] < |fds| && calls[a] == RecvCall(fds[ks[a]])
  }

  lemma CallsOne(calls: seq<Call>, fds: seq<int>, ks: seq<nat>, i: nat)
    requires CallsAt(calls, fds, ks) && i < |fds|
    ensures CallsAt([RecvCall(fds[i])] + calls, fds, [i] + ks)
  {
  }

  /** The positions a backward scan meets. */
  lemma {:induction false} DownPositions(fds: seq<int>, revents: seq<bool>, i: nat) returns (ks: seq<nat>)
    requires i < |fds| == |revents|
    ensures Down(ks, revents, i) && CallsAt(ReadyDown(fds, revents, i), fds, ks)
  {
    if i == 0 {
      ks := [];
    } else {
      var rest := DownPositions(fds, revents, i - 1);
      if revents[i] {
        ks := [i] + rest;
        DownOne(rest, revents, i);
        CallsOne(ReadyDown(fds, revents, i - 1), fds, rest, i);
      } else {
        ks := rest;
        assert [] + ReadyDown(fds, revents, i - 1) == ReadyDown(fds, revents, i - 1);
      }
    }
  }

  lemma DownOne(rest: seq<nat>, revents: seq<bool>, i: nat)
    requires 0 < i < |revents| && revents[i] && Down(rest, revents, i - 1)
    ensures Down([i] + rest, revents, i)
  {
    var ks := [i] + rest;
    forall a, b | 0 <= a < b < |ks| ensures ks[a] > ks[b] {
      assert ks[b] == rest[b - 1] && rest[b - 1] in rest;
      if a > 0 { assert ks[a] == rest[a - 1]; }
    }
  }

  lemma DueAreReceived(fds: seq<int>, revents: seq<bool>, calls: seq<Io>)
    requires 0 < |fds| == |revents|
    requires var due := ReadyDown(fds, revents, |fds| - 1);
             |calls| == |due| && forall i | 0 <= i < |calls| :: Makes(calls[i], due[i])
    ensures ReceivesAll(fds, revents, calls)
  {
    var ks := DownPositions(fds, revents, |fds| - 1);
    assert CallsAt(ReadyDown(fds, revents, |fds| - 1), fds, ks) && Down(ks, revents, |fds| - 1);
    assert Receives(fds, revents, calls, ks);
  }

  lemma DueAreServed(fds: seq<int>, revents: seq<bool>, calls: seq<Io>)
    requires 0 < |fds| == |revents|
    requires var due := (if revents[0] then [AcceptCall] else []) + ReadyDown(fds, revents, |fds| - 1);
             |calls| == |due| && forall i | 0 <= i < |calls| :: Makes(calls[i], due[i])
    ensures Serves(fds, revents, calls)
  {
    var due := ReadyDown(fds, revents, |fds| - 1);
    if revents[0] {
      forall i | 0 <= i < |calls| - 1 ensures Makes(calls[1..][i], due[i]) {
        assert ([AcceptCall] + due)[i + 1] == due[i];
      }
      DueAreReceived(fds, revents, calls[1..]);
    } else {
      assert [] + due == due;
      DueAreReceived(fds, revents, calls);
    }
  }

  /** From one poll to the next, or to the end. */
  ghost predicate Wake(io: seq<Io>, p: nat, q: nat) {
    p < q <= |io| && io[p].Polled? && NoPoll(io[p + 1..q]) && (q < |io| ==> io[q].Polled?)
  }

  /** What a poll asked for was done before the next: nothing after an interrupted one,
      and a failed one is the last. */
  ghost predicate WakeServed(listenFd: int, io: seq<Io>, p: nat, q: nat)
    requires Wake(io, p, q)
  {
    match io[p].result
    case Interrupted => q == p + 1
    case Failed => p + 1 == |io|
    case Ready(revents) => Serves([listenFd] + TableAfter(io[..p]), revents, io[p + 1..q])
  }

  ghost predicate WakesServed(listenFd: int, io: seq<Io>) {
    forall p: nat, q: nat | Wake(io, p, q) :: WakeServed(listenFd, io, p, q)
  }

  lemma {:induction false} NeverBroken(listenFd: int, io: seq<Io>, k: nat)
    requires k < |io| && AgendaAfter(listenFd, io) != Broken
    ensures AgendaAfter(listenFd, io[..k]).Calls? && AgendaAfter(listenFd, io[..k + 1]) != Broken
    ensures io[k].Polled? ==> AgendaAfter(listenFd, io[..k]) == Calls([])
    decreases |io|
  {
    var m := |io| - 1;
    if k < m {
      NeverBroken(listenFd, io[..m], k);
      assert io[..m][..k] == io[..k] && io[..m][..k + 1] == io[..k + 1];
    } else {
      assert io[..k + 1] == io;
    }
  }

  lemma WakesAreServed(listenFd: int, io: seq<Io>)
    requires AgendaAfter(listenFd, io) == Calls([]) || AgendaAfter(listenFd, io) == Stopped
    ensures WakesServed(listenFd, io)
  {
    forall p: nat, q: nat | Wake(io, p, q) ensures WakeServed(listenFd, io, p, q) {
      WakeIsServed(listenFd, io, p, q);
    }
  }

  lemma WakeIsServed(listenFd: int, io: seq<Io>, p: nat, q: nat)
    requires AgendaAfter(listenFd, io) == Calls([]) || AgendaAfter(listenFd, io) == Stopped
    requires Wake(io, p, q)
    ensures WakeServed(listenFd, io, p, q)
  {
    AskedThen(listenFd, io, p);
    var fds := [listenFd] + TableAfter(io[..p]);
    match io[p].result {
      case Failed =>
        if p + 1 < |io| { NeverBroken(listenFd, io, p + 1); }
      case Interrupted =>
        CallsMade(listenFd, io, p, q, []);
      case Ready(revents) =>
        LastIsServed(listenFd, io, p);
        CallsMade(listenFd, io, p, q, Asked(fds, io[p].result).due);
        DueAreServed(fds, revents, io[p + 1..q]);
    }
  }

  /** A poll that asks for calls is not the end of a stopped run. */
  lemma LastIsServed(listenFd: int, io: seq<Io>, p: nat)
    requires AgendaAfter(listenFd, io) == Calls([]) || AgendaAfter(listenFd, io) == Stopped
    requires p < |io| && io[p].Polled? && io[p].result.Ready?
    ensures AgendaAfter(listenFd, io[..p + 1]).Calls?
  {
    AskedThen(listenFd, io, p);
    if p + 1 < |io| {
      NeverBroken(listenFd, io, p + 1);
    } else {
      assert io[..p + 1] == io;
    }
  }

  lemma CallsMade(listenFd: int, io: seq<Io>, p: nat, q: nat, due: seq<Call>)
    requires AgendaAfter(listenFd, io) == Calls([]) || AgendaAfter(listenFd, io) == Stopped
    requires Wake(io, p, q) && AgendaAfter(listenFd, io[..p + 1]) == Calls(due)
    ensures |io[p + 1..q]| == |due| && forall i | 0 <= i < |due| :: Makes(io[p + 1..q][i], due[i])
  {
    WakeEnds(listenFd, io, p, q);
    CutAtPoll(io, p, q);
    AllDueCalls(listenFd, io[..p + 1], io[p + 1..q], io[..q], due);
  }

  lemma CutAtPoll(io: seq<Io>, p: nat, q: nat)
    requires p < q <= |io|
    ensures io[..p + 1] + io[p + 1..q] == io[..q]
  {
  }

  lemma AllDueCalls(listenFd: int, before: seq<Io>, calls: seq<Io>, after: seq<Io>, due: seq<Call>)
    requires before + calls == after && NoPoll(calls)
    requires AgendaAfter(listenFd, before) == Calls(due) && AgendaAfter(listenFd, after) == Calls([])
    ensures |calls| == |due| && forall i | 0 <= i < |due| :: Makes(calls[i], due[i])
  {
    DueCalls(listenFd, before, calls, due);
  }

  lemma AskedThen(listenFd: int, io: seq<Io>, p: nat)
    requires p < |io| && io[p].Polled? && AgendaAfter(listenFd, io) != Broken
    ensures AgendaAfter(listenFd, io[..p + 1]) == Asked([listenFd] + TableAfter(io[..p]), io[p].result)
  {
    NeverBroken(listenFd, io, p);
    assert io[..p + 1] == io[..p] + [io[p]];
    PollAsks(listenFd, io[..p], io[p]);
  }

  lemma PollAsks(listenFd: int, before: seq<Io>, x: Io)
    requires AgendaAfter(listenFd, before) == Calls([]) && x.Polled?
    ensures AgendaAfter(listenFd, before + [x]) == Asked([listenFd] + TableAfter(before), x.result)
  {
    AgendaSnoc(listenFd, before, x);
  }

  lemma WakeEnds(listenFd: int, io: seq<Io>, p: nat, q: nat)
    requires AgendaAfter(listenFd, io) == Calls([]) || AgendaAfter(listenFd, io) == Stopped
    requires Wake(io, p, q) && AgendaAfter(listenFd, io[..p + 1]).Calls?
    ensures AgendaAfter(listenFd, io[..q]) == Calls([])
  {
    if q < |io| {
      NeverBroken(listenFd, io, q);
    } else {
      assert io[..q] == io;
      if p + 1 < |io| {
        var m := |io| - 1;
        assert io[p + 1..q][m - p - 1] == io[m];
      } else {
        assert io[..p + 1] == io;
      }
    }
  }
}
