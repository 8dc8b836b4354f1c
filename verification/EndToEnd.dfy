/** The hops composed: board, line format, relay, framing, parsing and sessions. */
module EndToEnd {
  import opened Options
  import opened Text
  import opened Records
  import opened Sessions
  import opened Wire
  import opened Firmware
  import opened ServerTrace
  import opened Pipeline
  import opened Connections
  import FrameReader
  import Relay
  import SharedRing
  import SplitRing
  import TcpServer

  /** The wire lines of the samples. */
  function SampleLines(vs: seq<Vehicle>, at: seq<nat>): (ls: seq<string>)
    requires |vs| == NUM_VEHICLES
    ensures |ls| == |at|
  {
    seq(|at|, i requires 0 <= i < |at| => Line(FrameAt(vs, at[i])))
  }

  /** The bytes the I2C process puts into the pipe for the samples. */
  function PipeBytes(vs: seq<Vehicle>, at: seq<nat>): string
    requires |vs| == NUM_VEHICLES
  {
    Join(SampleLines(vs, at), "")
  }

  lemma FrameAtSendable(vs: seq<Vehicle>, n: nat)
    requires TableOk(vs)
    ensures Sendable(FrameAt(vs, n))
  {
    BytesShow(vs, n);
  }

  lemma {:induction false} MessageLines(ls: seq<string>)
    requires AllPlain(ls)
    ensures Messages(ls) == ls
  {
    if ls != [] {
      MessageLines(ls[1..]);
    }
  }

  lemma SamplesPlain(vs: seq<Vehicle>, at: seq<nat>)
    requires TableOk(vs)
    ensures AllPlain(SampleLines(vs, at))
  {
    var ls := SampleLines(vs, at);
    forall i | 0 <= i < |ls| ensures '\n' !in ls[i] && ls[i] != "" && StripCr(ls[i]) == ls[i] {
      FrameAtSendable(vs, at[i]);
      LineIsOneLine(FrameAt(vs, at[i]));
    }
  }

  /** The pipe bytes split back into the samples' lines, and the server skips none. */
  lemma LinesOfPipeBytes(vs: seq<Vehicle>, at: seq<nat>)
    requires TableOk(vs)
    ensures Lines(PipeBytes(vs, at)) == SampleLines(vs, at) && Tail(PipeBytes(vs, at)) == ""
    ensures Messages(SampleLines(vs, at)) == SampleLines(vs, at)
  {
    SamplesPlain(vs, at);
    SplitOfJoin(SampleLines(vs, at), "");
    MessageLines(SampleLines(vs, at));
  }

  /** No chunking of the samples' bytes can ever fill the relay's buffer. */
  lemma PipeBytesFit(vs: seq<Vehicle>, at: seq<nat>)
    requires TableOk(vs)
    ensures Relay.Fits(PipeBytes(vs, at))
  {
    LinesOfPipeBytes(vs, at);
    forall i | 0 <= i < |at| ensures |SampleLines(vs, at)[i]| < Relay.BUF_SIZE - 1 {
      var v := vs[CycleShown(at[i]) % NUM_VEHICLES];
      assert VehicleOk(v);
    }
  }

  /** The whole frames read are the board's memory at the times of the samples. */
  ghost predicate ReadsBoard(frames: seq<FrameReader.RawFrame>, vs: seq<Vehicle>, at: seq<nat>)
    requires |vs| == NUM_VEHICLES
  {
    |frames| == |at| && forall i | 0 <= i < |at| :: frames[i] == BoardBytes(vs, at[i])
  }

  lemma {:induction false} EncodedSamples(vs: seq<Vehicle>, at: seq<nat>, frames: seq<FrameReader.RawFrame>)
    requires TableOk(vs) && ReadsBoard(frames, vs, at)
    ensures FrameReader.Encoded(frames) == Relay.Sent(SampleLines(vs, at))
  {
    if at != [] {
      var n := |at| - 1;
      EncodedSamples(vs, at[..n], frames[..n]);
      var l := LastLine(vs, at, frames);
      Relay.SentAppend(SampleLines(vs, at[..n]), [l]);
      SentOneLine(l);
    }
  }

  lemma LastLine(vs: seq<Vehicle>, at: seq<nat>, frames: seq<FrameReader.RawFrame>) returns (l: string)
    requires TableOk(vs) && ReadsBoard(frames, vs, at) && at != []
    ensures FrameReader.Encoded(frames) == FrameReader.Encoded(frames[..|at| - 1]) + [l + "\n"]
    ensures SampleLines(vs, at) == SampleLines(vs, at[..|at| - 1]) + [l]
  {
    var n := |at| - 1;
    l := Line(FrameAt(vs, at[n]));
    BytesShow(vs, at[n]);
    SamplesSnoc(vs, at);
  }

  lemma SamplesSnoc(vs: seq<Vehicle>, at: seq<nat>)
    requires |vs| == NUM_VEHICLES && at != []
    ensures SampleLines(vs, at) == SampleLines(vs, at[..|at| - 1]) + [Line(FrameAt(vs, at[|at| - 1]))]
  {
  }

  lemma SentOneLine(l: string)
    ensures Relay.Sent([l]) == [l + "\n"]
  {
    assert [l][1..] == [] && Relay.Sent([]) == [];
  }

  /** Losing lines is losing samples. */
  lemma {:induction false} KeptSamples(vs: seq<Vehicle>, at: seq<nat>, ok: seq<bool>)
    requires |vs| == NUM_VEHICLES && |at| == |ok|
    ensures |Relay.Sent(SampleLines(vs, at))| == |at|
    ensures Relay.Kept(Relay.Sent(SampleLines(vs, at)), ok) == Relay.Sent(SampleLines(vs, Relay.Kept(at, ok)))
  {
    if at != [] {
      var n := |at| - 1;
      var l := Line(FrameAt(vs, at[n]));
      var before, kept := Relay.Sent(SampleLines(vs, at[..n])), Relay.Kept(at[..n], ok[..n]);
      KeptSamples(vs, at[..n], ok[..n]);
      SentSnoc(vs, at[..n], at[n]);
      assert at[..n] + [at[n]] == at && ok[..n] + [ok[n]] == ok;
      Relay.KeptSnoc(before, ok[..n], l + "\n", ok[n]);
      if ok[n] {
        SentSnoc(vs, kept, at[n]);
      } else {
        assert kept + [] == kept;
      }
    }
  }

  lemma SentSnoc(vs: seq<Vehicle>, at: seq<nat>, a: nat)
    requires |vs| == NUM_VEHICLES
    ensures Relay.Sent(SampleLines(vs, at + [a])) == Relay.Sent(SampleLines(vs, at)) + [Line(FrameAt(vs, a)) + "\n"]
  {
    assert (at + [a])[..|at|] == at;
    SamplesSnoc(vs, at + [a]);
    Relay.SentAppend(SampleLines(vs, at), [Line(FrameAt(vs, a))]);
    SentOneLine(Line(FrameAt(vs, a)));
  }

  lemma {:induction false} SentLength(ls: seq<string>)
    ensures |Relay.Sent(ls)| == |ls|
  {
    if ls != [] {
      SentLength(ls[1..]);
    }
  }

  /** The bytes of the lines that got through. */
  lemma BytesKept(lines: seq<string>, vs: seq<Vehicle>, at: seq<nat>, ok: seq<bool>)
    requires |vs| == NUM_VEHICLES && lines == Relay.Sent(SampleLines(vs, at)) && |ok| == |lines|
    ensures |ok| == |at| && Concat(Relay.Kept(lines, ok)) == PipeBytes(vs, Relay.Kept(at, ok))
  {
    SentLength(SampleLines(vs, at));
    KeptSamples(vs, at, ok);
    ConcatSent(SampleLines(vs, Relay.Kept(at, ok)));
  }

  /** A reader that has sampled the board has put exactly the lines of the samples whose
      write succeeded into the pipe, whatever reads failed in between. */
  lemma ReaderPipes(reader: FrameReader.I2cReader, vs: seq<Vehicle>, at: seq<nat>)
    requires reader.Valid() && TableOk(vs) && ReadsBoard(FrameReader.Whole(reader.input), vs, at)
    ensures |reader.outcomes| == |at|
    ensures reader.piped == PipeBytes(vs, Relay.Kept(at, reader.outcomes))
  {
    EncodedSamples(vs, at, FrameReader.Whole(reader.input));
    BytesKept(reader.attempted, vs, at, reader.outcomes);
  }

  lemma {:induction false} ConcatSent(ls: seq<string>)
    ensures Concat(Relay.Sent(ls)) == Join(ls, "")
  {
    if ls != [] {
      ConcatSent(ls[1..]);
      ConsAppend([ls[0] + "\n"], Relay.Sent(ls[1..]));
      assert [] + Relay.Sent(ls[1..]) == Relay.Sent(ls[1..]);
    }
  }

  /** A relay that has read the pipe bytes of samples, in any chunks, has put exactly the
      lines of those whose send succeeded on its connections, one after the other. */
  lemma RelayDelivers(relay: Relay.PipeRelay, vs: seq<Vehicle>, at: seq<nat>)
    requires relay.Valid() && TableOk(vs)
    requires Relay.Earlier(relay.input) == [] && Relay.Stream(relay.input) == PipeBytes(vs, at)
    ensures |relay.outcomes| == |at|
    ensures Relay.Flat(Relay.Segments(relay.calls)) == Relay.Sent(SampleLines(vs, Relay.Kept(at, relay.outcomes)))
  {
    LinesOfPipeBytes(vs, at);
    Relay.RelayMeans(relay);
    Relay.FlatSegments(relay.calls);
    SentLength(SampleLines(vs, at));
    assert relay.attempted == [] + Relay.Sent(SampleLines(vs, at)) == Relay.Sent(SampleLines(vs, at));
    KeptSamples(vs, at, relay.outcomes);
  }

  // ----- lines cut into connections -----

  /** Lines the server takes as they are. */
  ghost predicate AllPlain(ls: seq<string>) {
    forall i | 0 <= i < |ls| :: '\n' !in ls[i] && ls[i] != "" && StripCr(ls[i]) == ls[i]
  }

  lemma LinesOfSent(ls: seq<string>)
    requires AllPlain(ls)
    ensures Messages(Lines(Concat(Relay.Sent(ls)))) == ls
  {
    ConcatSent(ls);
    SplitOfJoin(ls, "");
    MessageLines(ls);
  }

  lemma SentCut(ls: seq<string>, m: nat)
    requires m <= |ls|
    ensures |Relay.Sent(ls)| == |ls|
    ensures Relay.Sent(ls[..m]) == Relay.Sent(ls)[..m] && Relay.Sent(ls[m..]) == Relay.Sent(ls)[m..]
  {
    SentLength(ls);
    SentLength(ls[..m]);
    assert ls[..m] + ls[m..] == ls;
    Relay.SentAppend(ls[..m], ls[m..]);
    TwoParts(Relay.Sent(ls[..m]), Relay.Sent(ls[m..]));
  }

  lemma TwoParts<T>(a: seq<T>, b: seq<T>)
    ensures (a + b)[..|a|] == a && (a + b)[|a|..] == b
  {
  }

  /** However the sends are cut into parts, the lines are cut alike. */
  lemma {:induction false} CutAlike(parts: seq<seq<string>>, ls: seq<string>) returns (cut: seq<seq<string>>)
    requires Relay.Flat(parts) == Relay.Sent(ls)
    ensures Relay.Flat(cut) == ls && |cut| == |parts|
    ensures forall k | 0 <= k < |parts| :: parts[k] == Relay.Sent(cut[k])
  {
    SentLength(ls);
    if parts == [] {
      cut := [];
    } else {
      var n := |parts| - 1;
      var m := |ls| - |parts[n]|;
      SentCut(ls, m);
      assert Relay.Sent(ls)[..m] == Relay.Flat(parts[..n]) && Relay.Sent(ls)[m..] == parts[n];
      var before := CutAlike(parts[..n], ls[..m]);
      cut := before + [ls[m..]];
      Relay.FlatSnoc(before, ls[m..]);
      forall k | 0 <= k < |parts| ensures parts[k] == Relay.Sent(cut[k]) {
        if k < n { assert parts[k] == parts[..n][k]; }
      }
    }
  }

  lemma {:induction false} PartsPlain(cut: seq<seq<string>>)
    requires AllPlain(Relay.Flat(cut))
    ensures forall k | 0 <= k < |cut| :: AllPlain(cut[k])
  {
    if cut != [] {
      var n := |cut| - 1;
      var before := Relay.Flat(cut[..n]);
      assert Relay.Flat(cut) == before + cut[n];
      PlainParts(before, cut[n]);
      PartsPlain(cut[..n]);
      forall k | 0 <= k < |cut| ensures AllPlain(cut[k]) {
        if k < n { assert cut[k] == cut[..n][k]; }
      }
    }
  }

  lemma PlainParts(a: seq<string>, b: seq<string>)
    requires AllPlain(a + b)
    ensures AllPlain(a) && AllPlain(b)
  {
    forall i | 0 <= i < |a| ensures '\n' !in a[i] && a[i] != "" && StripCr(a[i]) == a[i] {
      assert (a + b)[i] == a[i];
    }
    forall i | 0 <= i < |b| ensures '\n' !in b[i] && b[i] != "" && StripCr(b[i]) == b[i] {
      assert (a + b)[|a| + i] == b[i];
    }
  }

  // ----- requests in the order of their connections -----

  predicate Increasing(cs: seq<nat>) {
    forall i, j | 0 <= i < j < |cs| :: cs[i] < cs[j]
  }

  /** Every request came on one of the connections, none on an earlier one than the
      request before. */
  ghost predicate InTurn(rs: seq<Request>, cs: seq<nat>) {
    && (forall i | 0 <= i < |rs| :: rs[i].conn in cs)
    && (forall i, j | 0 <= i < j < |rs| :: rs[i].conn <= rs[j].conn)
  }

  function Texts(rs: seq<Request>): seq<string> {
    seq(|rs|, i requires 0 <= i < |rs| => rs[i].line)
  }

  ghost function Parts(rs: seq<Request>, cs: seq<nat>): seq<seq<string>> {
    seq(|cs|, k requires 0 <= k < |cs| => LinesFor(rs, cs[k]))
  }

  /** Where the requests of the last connection begin. */
  lemma LastTurn(rs: seq<Request>, cs: seq<nat>) returns (m: nat)
    requires cs != [] && Increasing(cs) && InTurn(rs, cs)
    ensures m <= |rs| && InTurn(rs[..m], cs[..|cs| - 1])
    ensures forall i | m <= i < |rs| :: rs[i].conn == cs[|cs| - 1]
  {
    var n := |cs| - 1;
    m := |rs|;
    while m > 0 && rs[m - 1].conn == cs[n]
      invariant m <= |rs| && forall i | m <= i < |rs| :: rs[i].conn == cs[n]
    {
      m := m - 1;
    }
    forall i | 0 <= i < m ensures rs[..m][i].conn in cs[..n] {
      var k :| 0 <= k < |cs| && cs[k] == rs[i].conn;
      var l :| 0 <= l < |cs| && cs[l] == rs[m - 1].conn;
      assert rs[i].conn <= rs[m - 1].conn;
      assert l < n && cs[l] < cs[n];
      assert cs[..n][k] == rs[i].conn;
    }
  }

  /** Requests in the order of their connections are the lines of the connections, one
      connection after the other. */
  lemma {:induction false} ByConnection(rs: seq<Request>, cs: seq<nat>)
    requires Increasing(cs) && InTurn(rs, cs)
    ensures Relay.Flat(Parts(rs, cs)) == Texts(rs)
    decreases |cs|
  {
    if rs != [] {
      SomeConnection(rs, cs);
    }
    if cs != [] {
      var m := LastTurn(rs, cs);
      ByConnection(rs[..m], cs[..|cs| - 1]);
      TurnParts(rs, cs, m);
      assert Texts(rs[..m]) + Texts(rs[m..]) == Texts(rs);
      Relay.FlatSnoc(Parts(rs[..m], cs[..|cs| - 1]), Texts(rs[m..]));
    }
  }

  lemma SomeConnection(rs: seq<Request>, cs: seq<nat>)
    requires rs != [] && InTurn(rs, cs)
    ensures cs != []
  {
    assert rs[0].conn in cs;
  }

  lemma TurnParts(rs: seq<Request>, cs: seq<nat>, m: nat)
    requires cs != [] && Increasing(cs) && m <= |rs| && InTurn(rs[..m], cs[..|cs| - 1])
    requires forall i | m <= i < |rs| :: rs[i].conn == cs[|cs| - 1]
    ensures Parts(rs, cs) == Parts(rs[..m], cs[..|cs| - 1]) + [Texts(rs[m..])]
  {
    var n, first, last := |cs| - 1, rs[..m], rs[m..];
    assert rs == first + last;
    forall k | 0 <= k < n ensures LinesFor(rs, cs[k]) == LinesFor(first, cs[k]) {
      LinesForAppend(first, last, cs[k]);
      LinesForNone(last, cs[k]);
    }
    LinesForAppend(first, last, cs[n]);
    NotYet(first, cs);
    LinesForNone(first, cs[n]);
    OnlyConnection(last, cs[n]);
    assert LinesFor(rs, cs[n]) == Texts(last);
  }

  lemma NotYet(rs: seq<Request>, cs: seq<nat>)
    requires cs != [] && Increasing(cs) && InTurn(rs, cs[..|cs| - 1])
    ensures forall i | 0 <= i < |rs| :: rs[i].conn != cs[|cs| - 1]
  {
  }

  lemma {:induction false} OnlyConnection(rs: seq<Request>, c: nat)
    requires forall i | 0 <= i < |rs| :: rs[i].conn == c
    ensures |LinesFor(rs, c)| == |rs|
    ensures forall i | 0 <= i < |rs| :: LinesFor(rs, c)[i] == rs[i].line
  {
    if rs != [] {
      OnlyConnection(rs[..|rs| - 1], c);
    }
  }

  /** The handled line reads as `m`.  (Quantified so that a proof unfolds the parser
      only where it speaks of it.) */
  ghost predicate ReadsTo(e: Entry, m: Msg) {
    forall l | l == e.line :: Parse(l) == Some(m)
  }

  ghost predicate AllRead(trace: seq<Entry>, msgs: seq<Msg>) {
    |msgs| == |trace| && forall i | 0 <= i < |trace| :: ReadsTo(trace[i], msgs[i])
  }

  lemma AllReadInit(trace: seq<Entry>, msgs: seq<Msg>, n: nat)
    requires AllRead(trace, msgs) && n == |trace| - 1
    ensures AllRead(trace[..n], msgs[..n]) && ReadsTo(trace[n], msgs[n])
  {
  }

  function EventsOf(trace: seq<Entry>, msgs: seq<Msg>): seq<Event>
    requires |msgs| == |trace|
  {
    seq(|trace|, i requires 0 <= i < |trace| => EventOf(trace[i], msgs[i]))
  }

  /** Quantified so that a proof unfolds `Events` only where it speaks of it. */
  ghost predicate EventsAre(trace: seq<Entry>, events: seq<Event>) {
    forall t | t == trace :: Events(t) == events
  }

  /** When every line parses, the events are the parsed lines one by one ... */
  lemma {:induction false} EventsParsed(trace: seq<Entry>, msgs: seq<Msg>)
    requires AllRead(trace, msgs)
    ensures EventsAre(trace, EventsOf(trace, msgs))
  {
    if trace == [] {
      assert Events(trace) == [] == EventsOf(trace, msgs);
    } else {
      var n := |trace| - 1;
      AllReadInit(trace, msgs, n);
      EventsParsed(trace[..n], msgs[..n]);
      LastEvent(trace, msgs, n);
    }
  }

  lemma LastEvent(trace: seq<Entry>, msgs: seq<Msg>, n: nat)
    requires |msgs| == |trace| == n + 1 && ReadsTo(trace[n], msgs[n])
    requires EventsAre(trace[..n], EventsOf(trace[..n], msgs[..n]))
    ensures EventsAre(trace, EventsOf(trace, msgs))
  {
    LastParsed(trace, msgs[n]);
    assert Events(trace[..n]) == EventsOf(trace[..n], msgs[..n]);
    EventsOfSnoc(trace, msgs, n);
  }

  lemma EventsOfSnoc(trace: seq<Entry>, msgs: seq<Msg>, n: nat)
    requires |msgs| == |trace| == n + 1
    ensures EventsOf(trace, msgs) == EventsOf(trace[..n], msgs[..n]) + [EventOf(trace[n], msgs[n])]
  {
  }

  /** ... and the replies are theirs. */
  lemma {:induction false} AllParsed(trace: seq<Entry>, msgs: seq<Msg>)
    requires AllRead(trace, msgs)
    ensures HandleAll(trace) == After(Events(trace))
  {
    if trace != [] {
      var n := |trace| - 1;
      AllReadInit(trace, msgs, n);
      AllParsed(trace[..n], msgs[..n]);
      LastParsed(trace, msgs[n]);
      AfterSnoc(Events(trace[..n]), EventOf(trace[n], msgs[n]));
    }
  }

  lemma LastParsed(trace: seq<Entry>, m: Msg)
    requires trace != [] && ReadsTo(trace[|trace| - 1], m)
    ensures var (e, before) := (EventOf(trace[|trace| - 1], m), trace[..|trace| - 1]);
            Events(trace) == Events(before) + [e] && HandleAll(trace) == Process(HandleAll(before), e)
  {
    assert Parse(trace[|trace| - 1].line) == Some(m);
  }

  lemma AfterSnoc(events: seq<Event>, e: Event)
    ensures After(events + [e]) == Process(After(events), e)
  {
    assert (events + [e])[..|events|] == events;
  }

  lemma SamplesParse(vs: seq<Vehicle>, at: seq<nat>, i: nat)
    requires TableOk(vs) && i < |at|
    ensures Sendable(FrameAt(vs, at[i]))
    ensures Parse(SampleLines(vs, at)[i]) == Some(MsgOf(FrameAt(vs, at[i])))
    ensures MsgOf(FrameAt(vs, at[i])).city == vs[CycleShown(at[i]) % NUM_VEHICLES].city
  {
    FrameAtSendable(vs, at[i]);
    TokensOfLine(FrameAt(vs, at[i]));
    var v := vs[CycleShown(at[i]) % NUM_VEHICLES];
    assert VehicleOk(v);
    PlainTextIsSafe(v.id, 15);
    PlainTextIsSafe(v.city, 16);
  }

  lemma TraceSampled(vs: seq<Vehicle>, at: seq<nat>, trace: seq<Entry>)
    requires TableOk(vs) && |trace| == |at|
    requires forall i | 0 <= i < |at| :: trace[i].line == SampleLines(vs, at)[i]
    ensures Sampled(vs, at, Events(trace)) && HandleAll(trace) == After(Events(trace))
    ensures forall i | 0 <= i < |at| :: Events(trace)[i] == EventOf(trace[i], Events(trace)[i].msg)
  {
    forall i | 0 <= i < |at| ensures Sendable(FrameAt(vs, at[i])) {
      FrameAtSendable(vs, at[i]);
    }
    var msgs := seq(|at|, i requires 0 <= i < |at| => MsgOf(FrameAt(vs, at[i])));
    forall i | 0 <= i < |at| ensures ReadsTo(trace[i], msgs[i]) {
      SamplesParse(vs, at, i);
    }
    EventsParsed(trace, msgs);
    assert Events(trace) == EventsOf(trace, msgs);
    AllParsed(trace, msgs);
  }

  /** The relay's successful connects are the server's connections `cs`, and each has
      brought what was sent on it, in whatever chunks. The server has handled lines of
      no other connection, and none of an earlier connection after one of a later. */
  ghost predicate Received(calls: seq<Relay.TcpCall>, n: Net, cs: seq<nat>) {
    var parts := Relay.Segments(calls);
    && |cs| == |parts| && Increasing(cs) && InTurn(n.requests, cs)
    && forall k | 0 <= k < |cs| :: cs[k] < |n.streams| && n.streams[cs[k]] == Concat(parts[k])
  }

  /** The whole way. The board `vs` is sampled after `at[0]`, `at[1]`, ... ticks; the
      relay has read what the reader wrote, in whatever chunks; and the server has
      received what the relay sent. Any write, any connect and any send may have failed. */
  ghost predicate Linked(
      vs: seq<Vehicle>, at: seq<nat>,
      reader: FrameReader.I2cReader, relay: Relay.PipeRelay, server: TcpServer.Server, cs: seq<nat>)
    reads reader, relay, relay.buf, server, server.sessions, server.segment, server.segment.records, server.prices
  {
    && TableOk(vs) && Ascending(at)
    && reader.Valid() && ReadsBoard(FrameReader.Whole(reader.input), vs, at)
    && relay.Valid() && Relay.Earlier(relay.input) == [] && Relay.Stream(relay.input) == reader.piped
    && server.Logged() && TcpServer.Framing(server.trace, server.recvBufs, server.net) && server.LedgerOk()
    && Received(relay.calls, NetAfter(server.io), cs)
  }

  /** The samples whose write and whose send succeeded. */
  ghost predicate Arrived(
      at: seq<nat>, reader: FrameReader.I2cReader, relay: Relay.PipeRelay, arrived: seq<nat>)
    reads reader, relay
  {
    && |reader.outcomes| == |at|
    && var piped := Relay.Kept(at, reader.outcomes);
    && |relay.outcomes| == |piped| && arrived == Relay.Kept(piped, relay.outcomes)
  }

  /** The server has handled the lines of the samples that arrived, and nothing else. */
  lemma LinesArrive(
      vs: seq<Vehicle>, at: seq<nat>,
      reader: FrameReader.I2cReader, relay: Relay.PipeRelay, server: TcpServer.Server, cs: seq<nat>)
      returns (arrived: seq<nat>)
    requires Linked(vs, at, reader, relay, server, cs)
    ensures Arrived(at, reader, relay, arrived) && |server.trace| == |arrived|
    ensures forall i | 0 <= i < |arrived| :: server.trace[i].line == SampleLines(vs, arrived)[i]
  {
    ReaderPipes(reader, vs, at);
    var piped := Relay.Kept(at, reader.outcomes);
    RelayDelivers(relay, vs, piped);
    arrived := Relay.Kept(piped, relay.outcomes);
    SamplesPlain(vs, arrived);
    assert server.net == NetAfter(server.io);
    ConnectionsCarry(server.trace, server.recvBufs, server.io, cs, relay.calls, SampleLines(vs, arrived));
  }

  /** Lines sent over any number of connections are the lines handled. */
  lemma ConnectionsCarry(
      trace: seq<Entry>, bufs: map<int, string>, io: seq<Io>, cs: seq<nat>, calls: seq<Relay.TcpCall>,
      ls: seq<string>)
    requires TcpServer.Framing(trace, bufs, NetAfter(io)) && Received(calls, NetAfter(io), cs)
    requires Relay.Flat(Relay.Segments(calls)) == Relay.Sent(ls) && AllPlain(ls)
    ensures |trace| == |ls| && forall i | 0 <= i < |ls| :: trace[i].line == ls[i]
  {
    var n, parts := NetAfter(io), Relay.Segments(calls);
    TcpServer.FramingMeans(trace, bufs, io);
    forall k | 0 <= k < |cs| ensures LinesFor(n.requests, cs[k]) == Messages(Lines(Concat(parts[k]))) {
      assert n.streams[cs[k]] == Concat(parts[k]);
    }
    PartsCarry(n.requests, cs, parts, ls);
    forall i | 0 <= i < |ls| ensures trace[i].line == ls[i] {
      assert TcpServer.Tagged(trace)[i].line == Texts(n.requests)[i];
    }
  }

  lemma PartsCarry(rs: seq<Request>, cs: seq<nat>, parts: seq<seq<string>>, ls: seq<string>)
    requires |cs| == |parts| && Increasing(cs) && InTurn(rs, cs)
    requires forall k | 0 <= k < |cs| :: LinesFor(rs, cs[k]) == Messages(Lines(Concat(parts[k])))
    requires Relay.Flat(parts) == Relay.Sent(ls) && AllPlain(ls)
    ensures Texts(rs) == ls
  {
    var cut := CutAlike(parts, ls);
    PartsPlain(cut);
    forall k | 0 <= k < |cs| ensures LinesFor(rs, cs[k]) == cut[k] {
      LinesOfSent(cut[k]);
    }
    assert Parts(rs, cs) == cut;
    ByConnection(rs, cs);
  }

  lemma {:induction false} KeptAscending(at: seq<nat>, ok: seq<bool>)
    requires |at| == |ok| && Ascending(at)
    ensures Ascending(Relay.Kept(at, ok))
    ensures var kept := Relay.Kept(at, ok); kept != [] ==> kept[|kept| - 1] <= at[|at| - 1]
    ensures EndsShown(Relay.Kept(at, ok)) <= EndsShown(at)
  {
    if at != [] {
      var n := |at| - 1;
      KeptAscending(at[..n], ok[..n]);
      var kept := Relay.Kept(at, ok);
      if kept != [] {
        PhaseMonotone(kept[|kept| - 1], at[n]);
      }
    }
  }

  lemma TraceHandled(
      vs: seq<Vehicle>, at: seq<nat>,
      reader: FrameReader.I2cReader, relay: Relay.PipeRelay, server: TcpServer.Server, cs: seq<nat>)
      returns (arrived: seq<nat>)
    requires Linked(vs, at, reader, relay, server, cs)
    ensures Arrived(at, reader, relay, arrived)
    ensures Ascending(arrived) && EndsShown(arrived) <= EndsShown(at)
    ensures Sampled(vs, arrived, Events(server.trace)) && server.ledger == After(Events(server.trace))
    ensures server.segment.stored == server.ledger.records && server.sessions.sessions == server.ledger.sessions
    ensures AtMoments(Events(server.trace), server.moments)
  {
    arrived := LinesArrive(vs, at, reader, relay, server, cs);
    ArrivedAscending(at, reader, relay, arrived);
    TraceSampled(vs, arrived, server.trace);
    LedgerIs(server);
    EventsAtMoments(server.trace, Events(server.trace), server.moments);
  }

  lemma ArrivedAscending(
      at: seq<nat>, reader: FrameReader.I2cReader, relay: Relay.PipeRelay, arrived: seq<nat>)
    requires Ascending(at) && Arrived(at, reader, relay, arrived)
    ensures Ascending(arrived) && EndsShown(arrived) <= EndsShown(at)
  {
    KeptAscending(at, reader.outcomes);
    KeptAscending(Relay.Kept(at, reader.outcomes), relay.outcomes);
  }

  lemma EventsAtMoments(trace: seq<Entry>, events: seq<Event>, moments: nat -> Moment)
    requires |events| == |trace| && InMoments(trace, moments)
    requires forall i | 0 <= i < |events| :: events[i] == EventOf(trace[i], events[i].msg)
    ensures AtMoments(events, moments)
  {
  }

  lemma LedgerIs(server: TcpServer.Server)
    requires server.LedgerOk()
    ensures HandleAll(server.trace) == server.ledger && InMoments(server.trace, server.moments)
    ensures server.segment.stored == server.ledger.records && server.sessions.sessions == server.ledger.sessions
  {
    assert server.LedgerFor(server.trace);
  }

  /** Every event carries the clock readings and the price table of its line. */
  ghost predicate AtMoments(events: seq<Event>, moments: nat -> Moment) {
    forall i: nat | i < |events| ::
      events[i].now == moments(i).now && events[i].stamp == moments(i).stamp && events[i].prices == moments(i).prices
  }

  /** With losses: the server never stores more records than cycles have ended by the
      last sample that arrived, and exactly one for each if and only if some sample of
      every phase up to then arrived; then everything fits those samples. */
  lemma LossyRun(
      vs: seq<Vehicle>, at: seq<nat>,
      reader: FrameReader.I2cReader, relay: Relay.PipeRelay, server: TcpServer.Server, cs: seq<nat>)
      returns (arrived: seq<nat>)
    requires Linked(vs, at, reader, relay, server, cs)
    ensures Arrived(at, reader, relay, arrived)
    ensures |server.segment.stored| <= EndsShown(arrived) <= EndsShown(at)
    ensures |server.segment.stored| == EndsShown(arrived) <==> NoSkip(arrived)
    ensures NoSkip(arrived) ==>
              && RecordsFit(server.segment.stored, arrived, Events(server.trace))
              && SessionsFit(server.sessions.sessions, arrived, Events(server.trace))
              && RepliesFit(server.ledger.replies, arrived)
  {
    arrived := TraceHandled(vs, at, reader, relay, server, cs);
    NothingLostIff(vs, arrived, Events(server.trace));
    if NoSkip(arrived) {
      OneRecordPerCycle(vs, arrived, Events(server.trace));
    }
  }

  /** At least one sample in every six ticks, and no write and no send failed. */
  ghost predicate Lossless(at: seq<nat>, reader: FrameReader.I2cReader, relay: Relay.PipeRelay)
    reads reader, relay
  {
    && EverySix(at)
    && (forall i | 0 <= i < |reader.outcomes| :: reader.outcomes[i])
    && (forall i | 0 <= i < |relay.outcomes| :: relay.outcomes[i])
  }

  lemma AllArrive(at: seq<nat>, reader: FrameReader.I2cReader, relay: Relay.PipeRelay, arrived: seq<nat>)
    requires Lossless(at, reader, relay) && Arrived(at, reader, relay, arrived)
    ensures arrived == at
  {
    Relay.AllKept(at, reader.outcomes);
    Relay.AllKept(at, relay.outcomes);
  }

  /** Without losses the server has stored exactly one record per completed vehicle
      cycle, in table order, each billed from the last START sample to the first END
      sample of its cycle; it has answered every sample, refusing the repeated ENDs; and
      at most the vehicle now parked has an open session. */
  lemma EveryCycleBilledOnce(
      vs: seq<Vehicle>, at: seq<nat>,
      reader: FrameReader.I2cReader, relay: Relay.PipeRelay, server: TcpServer.Server, cs: seq<nat>)
    requires Linked(vs, at, reader, relay, server, cs) && Lossless(at, reader, relay)
    ensures RecordsFit(server.segment.stored, at, Events(server.trace))
    ensures SessionsFit(server.sessions.sessions, at, Events(server.trace))
    ensures RepliesFit(server.ledger.replies, at)
  {
    var arrived := LossyRun(vs, at, reader, relay, server, cs);
    AllArrive(at, reader, relay, arrived);
    EverySixSkipsNothing(at);
  }

  /** The row of cycle `q`: its vehicle, from the clock at the last START sample to the
      clock at the first END sample, at the price the shared table then had for its
      city; nothing if it had none. */
  ghost predicate ChargedRow(r: Record, vs: seq<Vehicle>, at: seq<nat>, moments: nat -> Moment, q: nat)
    requires |vs| == NUM_VEHICLES
  {
    exists b: nat :: Turn(at, q, b) && ChargedBy(r, vs[q % NUM_VEHICLES], moments, b)
  }

  ghost predicate ChargedBy(r: Record, v: Vehicle, moments: nat -> Moment, b: nat) {
    && r.customerId == v.id && r.city == v.city
    && r.startTime == moments(b).now && r.endTime == moments(b + 1).stamp
    && FeeIs(r.totalFee, moments(b + 1).now - moments(b).now, moments(b + 1).prices, v.city)
  }

  lemma RowIsCharged(
      vs: seq<Vehicle>, at: seq<nat>, events: seq<Event>, moments: nat -> Moment, q: nat, r: Record)
    requires Sampled(vs, at, events) && AtMoments(events, moments) && RecordsCycle(r, at, events, q)
    ensures ChargedRow(r, vs, at, moments, q)
  {
    var b: nat :| Turn(at, q, b) && r == RecordOf(SessionOf(events[b]), events[b + 1]);
    var v := vs[q % NUM_VEHICLES];
    TurnVehicle(vs, at, events, q, b);
    TurnIsCharged(events[b], events[b + 1], v, moments, b);
  }

  lemma TurnVehicle(vs: seq<Vehicle>, at: seq<nat>, events: seq<Event>, q: nat, b: nat)
    requires Sampled(vs, at, events) && Turn(at, q, b)
    ensures var v := vs[q % NUM_VEHICLES];
            VehicleOk(v) && events[b].msg.city == v.city && events[b + 1].msg.id == v.id
  {
    ParityIsKind(at[b]);
    ParityIsKind(at[b + 1]);
  }

  lemma TurnIsCharged(start: Event, end: Event, v: Vehicle, moments: nat -> Moment, b: nat)
    requires VehicleOk(v) && start.msg.city == v.city && end.msg.id == v.id
    requires start.now == moments(b).now
    requires end.now == moments(b + 1).now && end.stamp == moments(b + 1).stamp && end.prices == moments(b + 1).prices
    ensures ChargedBy(RecordOf(SessionOf(start), end), v, moments, b)
  {
    PlainTextIsSafe(v.id, 15);
    PlainTextIsSafe(v.city, 16);
    RecordIsBill(start, end);
  }

  /** Without losses the server has stored one charged record per completed cycle. */
  lemma EveryCycleCharged(
      vs: seq<Vehicle>, at: seq<nat>,
      reader: FrameReader.I2cReader, relay: Relay.PipeRelay, server: TcpServer.Server, cs: seq<nat>)
    requires Linked(vs, at, reader, relay, server, cs) && Lossless(at, reader, relay)
    ensures |server.segment.stored| == EndsShown(at)
    ensures forall q: nat | q < |server.segment.stored| ::
              ChargedRow(server.segment.stored[q], vs, at, server.moments, q)
    ensures Forward(server.moments) ==> forall r | r in server.segment.stored :: BilledFrom(r, Events(server.trace))
    ensures server.segment.Valid()
  {
    EveryCycleBilledOnce(vs, at, reader, relay, server, cs);
    var arrived := TraceHandled(vs, at, reader, relay, server, cs);
    AllArrive(at, reader, relay, arrived);
    ServerBills(server);
    RowsAreCharged(vs, at, Events(server.trace), server.moments, server.segment.stored);
  }

  /** And into the database, if the two processes' locked sections exclude each other: a
      poller of the server's segment that was never more than 256 behind and has caught
      up has written one row per completed cycle, charged at the shared table's price,
      and their fees are all the server ever charged. */
  lemma EveryCyclePersisted(
      vs: seq<Vehicle>, at: seq<nat>,
      reader: FrameReader.I2cReader, relay: Relay.PipeRelay, server: TcpServer.Server, cs: seq<nat>,
      poller: SharedRing.ShmPoller)
    requires Linked(vs, at, reader, relay, server, cs) && Lossless(at, reader, relay)
    requires poller.shm == server.segment && poller.Kept() && poller.maxLag <= SHM_MAX_RECORDS
    requires poller.lastSeen == server.segment.recordCount
    ensures |poller.db| == EndsShown(at)
    ensures forall q: nat | q < |poller.db| :: ChargedRow(poller.db[q], vs, at, server.moments, q)
    ensures Forward(server.moments) ==> forall r | r in poller.db :: BilledFrom(r, Events(server.trace))
    ensures SharedRing.TotalFee(poller.db) == SharedRing.TotalFee(server.segment.stored)
  {
    EveryCycleCharged(vs, at, reader, relay, server, cs);
    AllStored(poller);
  }

  /** The memory images of the records. */
  function Images(rs: seq<Record>, image: Record -> SplitRing.Image): seq<SplitRing.Image> {
    seq(|rs|, i requires 0 <= i < |rs| => image(rs[i]))
  }

  /** And if they do not, as the locks of the program do not: a lag of at most 255 while
      the server's records are written and copied word by word, in any interleaving,
      still gives exactly these rows, whole. */
  lemma EveryCyclePersistedUnlocked(
      vs: seq<Vehicle>, at: seq<nat>,
      reader: FrameReader.I2cReader, relay: Relay.PipeRelay, server: TcpServer.Server, cs: seq<nat>,
      image: Record -> SplitRing.Image, s: SplitRing.State, steps: seq<SplitRing.Step>, t: SplitRing.State)
    requires Linked(vs, at, reader, relay, server, cs) && Lossless(at, reader, relay)
    requires SplitRing.Init(s) && SplitRing.Run(s, steps, t) && SplitRing.LagWithin(s, steps, SHM_MAX_RECORDS - 1)
    requires t.stored == Images(server.segment.stored, image) && t.lastSeen == t.count
    ensures |t.db| == EndsShown(at)
    ensures forall q: nat | q < |t.db| ::
              q < |server.segment.stored| && t.db[q] == image(server.segment.stored[q])
              && ChargedRow(server.segment.stored[q], vs, at, server.moments, q)
  {
    EveryCycleCharged(vs, at, reader, relay, server, cs);
    SplitRing.NoTearingWithin255(s, steps, t);
    assert t.db == t.stored;
  }

  lemma ServerBills(server: TcpServer.Server)
    requires server.Logged() && TcpServer.Framing(server.trace, server.recvBufs, server.net) && server.LedgerOk()
    ensures Forward(server.moments) ==> forall r | r in server.segment.stored :: BilledFrom(r, Events(server.trace))
    ensures server.segment.Valid()
  {
    TcpServer.ServerBooks(server);
    assert server.LedgerFor(server.trace);
  }

  lemma AllStored(poller: SharedRing.ShmPoller)
    requires poller.shm.Valid() && poller.Kept() && poller.maxLag <= SHM_MAX_RECORDS
    requires poller.lastSeen == poller.shm.recordCount
    ensures poller.db == poller.shm.stored
  {
  }

  lemma RowsAreCharged(
      vs: seq<Vehicle>, at: seq<nat>, events: seq<Event>, moments: nat -> Moment, rows: seq<Record>)
    requires Sampled(vs, at, events) && AtMoments(events, moments) && RecordsFit(rows, at, events)
    ensures forall q: nat | q < |rows| :: ChargedRow(rows[q], vs, at, moments, q)
  {
    forall q: nat | q < |rows| ensures ChargedRow(rows[q], vs, at, moments, q) {
      RowIsCharged(vs, at, events, moments, q, rows[q]);
    }
  }
}
