/** The pipe-to-TCP relay: a fixed 256-byte array that is filled, scanned for lines
    and compacted in place. */
module Relay {
  import opened Text

  const BUF_SIZE: nat := 256

  /** What `tcp_send` is given for each line: the line with its newline. */
  function Sent(ls: seq<string>): seq<string> {
    if ls == [] then [] else [ls[0] + "\n"] + Sent(ls[1..])
  }

  lemma {:induction false} SentAppend(a: seq<string>, b: seq<string>)
    ensures Sent(a + b) == Sent(a) + Sent(b)
  {
    if a == [] {
      assert a + b == b;
    } else {
      ConsAppend(a, b);
      SentAppend(a[1..], b);
    }
  }

  /** Those that succeeded, in order. */
  function Kept<T>(xs: seq<T>, ok: seq<bool>): (kept: seq<T>)
    requires |xs| == |ok|
    ensures |kept| <= |xs|
  {
    if xs == [] then [] else
      Kept(xs[..|xs| - 1], ok[..|ok| - 1]) + if ok[|ok| - 1] then [xs[|xs| - 1]] else []
  }

  lemma {:induction false} AllKept<T>(xs: seq<T>, ok: seq<bool>)
    requires |xs| == |ok| && forall i | 0 <= i < |ok| :: ok[i]
    ensures Kept(xs, ok) == xs
  {
    if xs != [] {
      AllKept(xs[..|xs| - 1], ok[..|ok| - 1]);
    }
  }

  lemma KeptSnoc<T>(xs: seq<T>, ok: seq<bool>, x: T, b: bool)
    requires |xs| == |ok|
    ensures Kept(xs + [x], ok + [b]) == Kept(xs, ok) + if b then [x] else []
  {
    assert (xs + [x])[..|xs|] == xs;
    assert (ok + [b])[..|ok|] == ok;
  }

  datatype TcpCall = Connected(ok: bool) | Transmit(msg: string, ok: bool)

  /** What the successful sends have put on the connection. */
  function Transmitted(calls: seq<TcpCall>): seq<string> {
    if calls == [] then [] else
      var last := calls[|calls| - 1];
      Transmitted(calls[..|calls| - 1]) + if last.Transmit? && last.ok then [last.msg] else []
  }

  /** The same, one part for each successful connect: a failed send closes its
      connection, and the next line goes to another. */
  function Segments(calls: seq<TcpCall>): seq<seq<string>> {
    if calls == [] then [] else
      var before := Segments(calls[..|calls| - 1]);
      match calls[|calls| - 1]
      case Connected(ok) => if ok then before + [[]] else before
      case Transmit(msg, ok) =>
        if !ok then before
        else if before == [] then [[msg]]
        else before[..|before| - 1] + [before[|before| - 1] + [msg]]
  }

  function Flat<T>(parts: seq<seq<T>>): seq<T> {
    if parts == [] then [] else Flat(parts[..|parts| - 1]) + parts[|parts| - 1]
  }

  lemma FlatSnoc<T>(parts: seq<seq<T>>, part: seq<T>)
    ensures Flat(parts + [part]) == Flat(parts) + part
  {
    assert (parts + [part])[..|parts|] == parts;
  }

  /** Cutting the sends into connections loses nothing and keeps their order. */
  lemma {:induction false} FlatSegments(calls: seq<TcpCall>)
    ensures Flat(Segments(calls)) == Transmitted(calls)
  {
    if calls != [] {
      var before, last := calls[..|calls| - 1], calls[|calls| - 1];
      FlatSegments(before);
      var parts := Segments(before);
      if last.Connected? && last.ok {
        FlatSnoc(parts, []);
      } else if last.Transmit? && last.ok {
        if parts == [] {
          FlatSnoc([], [last.msg]);
          assert Segments(calls) == [] + [[last.msg]];
        } else {
          FlatLast(parts, last.msg);
        }
      }
    }
  }

  lemma FlatLast<T>(parts: seq<seq<T>>, x: T)
    requires parts != []
    ensures Flat(parts[..|parts| - 1] + [parts[|parts| - 1] + [x]]) == Flat(parts) + [x]
  {
    var n := |parts| - 1;
    FlatSnoc(parts[..n], parts[n] + [x]);
    assert Flat(parts[..n]) + (parts[n] + [x]) == (Flat(parts[..n]) + parts[n]) + [x];
  }

  function SendCalls(calls: seq<TcpCall>): nat {
    if calls == [] then 0 else
      SendCalls(calls[..|calls| - 1]) + if calls[|calls| - 1].Transmit? then 1 else 0
  }

  /** The relay is connected exactly after a success. */
  predicate Up(outcomes: seq<bool>) {
    outcomes != [] && outcomes[|outcomes| - 1]
  }

  /** The calls for one line: a connect if there is no connection, and one send unless
      that failed. */
  predicate CallsForLine(up: bool, msg: string, ok: bool, made: seq<TcpCall>) {
    if up then made == [Transmit(msg, ok)]
    else (made == [Connected(false)] && !ok) || made == [Connected(true), Transmit(msg, ok)]
  }

  /** The calls are those for the attempted lines, one line after the other. */
  predicate Orderly(calls: seq<TcpCall>, lines: seq<string>, ok: seq<bool>)
    requires |lines| == |ok|
    decreases |lines|
  {
    if lines == [] then calls == [] else
      var n := |lines| - 1;
      || (LastCalls(calls, lines, ok, 1) && Orderly(calls[..|calls| - 1], lines[..n], ok[..n]))
      || (LastCalls(calls, lines, ok, 2) && Orderly(calls[..|calls| - 2], lines[..n], ok[..n]))
  }

  /** The last `k` calls are those for the last line. */
  predicate LastCalls(calls: seq<TcpCall>, lines: seq<string>, ok: seq<bool>, k: nat)
    requires |lines| == |ok| > 0
    ensures LastCalls(calls, lines, ok, k) ==> k <= |calls|
  {
    var n := |lines| - 1;
    k <= |calls| && CallsForLine(Up(ok[..n]), lines[n], ok[n], calls[|calls| - k..])
  }

  lemma OrderlySnoc(
      calls: seq<TcpCall>, lines: seq<string>, outcomes: seq<bool>, made: seq<TcpCall>, msg: string, ok: bool)
    requires |lines| == |outcomes| && Orderly(calls, lines, outcomes)
    requires CallsForLine(Up(outcomes), msg, ok, made)
    ensures Orderly(calls + made, lines + [msg], outcomes + [ok])
  {
    var all, k := calls + made, |made|;
    assert (lines + [msg])[..|lines|] == lines && (outcomes + [ok])[..|outcomes|] == outcomes;
    assert all[|all| - k..] == made && all[..|all| - k] == calls;
    assert LastCalls(all, lines + [msg], outcomes + [ok], k);
  }

  /** `Orderly`, quantified so that a proof unfolds it only where it speaks of it. */
  ghost predicate InOrder(calls: seq<TcpCall>, lines: seq<string>, ok: seq<bool>)
    requires |lines| == |ok|
  {
    forall c | c == calls :: Orderly(c, lines, ok)
  }

  lemma InOrderSnoc(
      before: seq<TcpCall>, calls: seq<TcpCall>, lines: seq<string>, outcomes: seq<bool>, msg: string, ok: bool)
    requires |lines| == |outcomes| && InOrder(before, lines, outcomes)
    requires before <= calls && CallsForLine(Up(outcomes), msg, ok, calls[|before|..])
    ensures InOrder(calls, lines + [msg], outcomes + [ok])
    ensures Kept(lines + [msg], outcomes + [ok]) == Kept(lines, outcomes) + if ok then [msg] else []
    ensures Up(outcomes + [ok]) == ok
  {
    KeptSnoc(lines, outcomes, msg, ok);
    assert Orderly(before, lines, outcomes);
    OrderlySnoc(before, lines, outcomes, calls[|before|..], msg, ok);
    assert calls == before + calls[|before|..];
  }

  /** At most one send for every attempted line, and what was put on the connection are
      the lines whose attempt succeeded. */
  lemma {:induction false} SentOnce(calls: seq<TcpCall>, lines: seq<string>, ok: seq<bool>)
    requires |lines| == |ok| && Orderly(calls, lines, ok)
    ensures SendCalls(calls) <= |lines|
    ensures Transmitted(calls) == Kept(lines, ok)
    decreases |lines|
  {
    if lines != [] {
      var n, c := |lines| - 1, |calls|;
      if LastCalls(calls, lines, ok, 1) && Orderly(calls[..c - 1], lines[..n], ok[..n]) {
        SentOnce(calls[..c - 1], lines[..n], ok[..n]);
        assert calls[c - 1] == calls[c - 1..][0];
      } else {
        SentOnce(calls[..c - 2], lines[..n], ok[..n]);
        assert calls[c - 1] == calls[c - 2..][1] && calls[c - 2] == calls[c - 2..][0];
        assert calls[..c - 1][..c - 2] == calls[..c - 2];
        assert Transmitted(calls[..c - 1]) == Transmitted(calls[..c - 2]) + [];
      }
    }
  }

  /** One returned `read`; after a closed pipe, whether it could be opened again. */
  datatype ReadResult = Interrupted | Failed | Closed(reopened: bool) | Data(chunk: string)

  /** After such a result the relay reads no more. */
  predicate Ends(r: ReadResult) {
    r.Failed? || r == Closed(false)
  }

  /** The bytes of the pipe session the reads end in, each read cut at its first NUL. */
  function Stream(input: seq<ReadResult>): string {
    if input == [] then "" else NextStream(Stream(input[..|input| - 1]), input[|input| - 1])
  }

  function NextStream(stream: string, r: ReadResult): string {
    if r.Data? then stream + CStr(r.chunk) else if r == Closed(true) then "" else stream
  }

  /** The complete lines of the sessions before. */
  function Earlier(input: seq<ReadResult>): seq<string>
    decreases |input|, 0
  {
    if input == [] then [] else
      var before := input[..|input| - 1];
      if input[|input| - 1] == Closed(true) then Due(before) else Earlier(before)
  }

  /** The complete lines of all its pipe sessions. */
  function Due(input: seq<ReadResult>): seq<string>
    decreases |input|, 1
  {
    Earlier(input) + Sent(Lines(Stream(input)))
  }

  lemma ReadSnoc(input: seq<ReadResult>, r: ReadResult)
    ensures Stream(input + [r]) == NextStream(Stream(input), r)
    ensures Earlier(input + [r]) == if r == Closed(true) then Due(input) else Earlier(input)
  {
    assert (input + [r])[..|input|] == input;
  }

  /** What is due after one more read: more lines only if it brought bytes. */
  function NextDue(earlier: seq<string>, stream: string, r: ReadResult): seq<string> {
    earlier + Sent(Lines(if r.Data? then stream + CStr(r.chunk) else stream))
  }

  lemma DueAfter(input: seq<ReadResult>, r: ReadResult)
    ensures Stream(input + [r]) == NextStream(Stream(input), r)
    ensures Due(input + [r]) == NextDue(Earlier(input), Stream(input), r)
  {
    ReadSnoc(input, r);
    if r == Closed(true) {
      assert Lines("") == [] && Sent([]) == [];
      assert Due(input) + [] == Due(input);
    }
  }

  class PipeRelay {
    const buf: array<char>
    var bufLen: nat
    var tcpUp: bool

    ghost var input: seq<ReadResult>  // what every `read` returned
    ghost var calls: seq<TcpCall>     // every `connect` and `send`, with its result
    ghost var attempted: seq<string>  // every argument of tcp_send
    ghost var outcomes: seq<bool>     // its results
    ghost var delivered: seq<string>  // what reached the server

    ghost predicate SendsLogged()
      reads `calls, `attempted, `outcomes, `delivered, `tcpUp
    {
      && |outcomes| == |attempted| && delivered == Kept(attempted, outcomes)
      && tcpUp == Up(outcomes)
      && InOrder(calls, attempted, outcomes)
    }

    /** Every complete line of the bytes read has been passed to `tcp_send`, once, in
        order, with its exact bytes; the buffer holds the rest. */
    ghost predicate Valid()
      reads this, buf
    {
      Carried(Stream(input), Due(input))
    }

    ghost predicate Carried(stream: string, due: seq<string>)
      reads `bufLen, `calls, `attempted, `outcomes, `delivered, `tcpUp, buf
    {
      && buf.Length == BUF_SIZE
      && bufLen < BUF_SIZE
      && '\0' !in buf[..bufLen]
      && buf[..bufLen] == Tail(stream)
      && attempted == due
      && SendsLogged()
    }

    constructor ()
      ensures Valid() && fresh(buf)
      ensures input == [] && attempted == [] && delivered == []
    {
      buf := new char[BUF_SIZE](_ => '\0');
      bufLen, tcpUp := 0, false;
      input, calls, attempted, outcomes, delivered := [], [], [], [], [];
    }

    /** The `connect` call. */
    method Connect() returns (ok: bool)
      modifies `calls
      ensures calls == old(calls) + [Connected(ok)]
    {
      ok := *;
      calls := calls + [Connected(ok)];
    }

    /** The `send` call: the whole line or nothing. */
    method Send(msg: string) returns (ok: bool)
      modifies `calls, `delivered
      ensures calls == old(calls) + [Transmit(msg, ok)]
      ensures delivered == old(delivered) + if ok then [msg] else []
    {
      ok := *;
      calls := calls + [Transmit(msg, ok)];
      if ok {
        delivered := delivered + [msg];
      }
    }

    /** Connect if needed, then send, once; a failure leaves the relay unconnected. */
    method TcpSend(msg: string) returns (ok: bool)
      requires SendsLogged()
      modifies `tcpUp, `calls, `attempted, `outcomes, `delivered
      ensures SendsLogged()
      ensures attempted == old(attempted) + [msg] && outcomes == old(outcomes) + [ok]
      ensures tcpUp == ok
      ensures old(calls) <= calls && CallsForLine(old(tcpUp), msg, ok, calls[|old(calls)|..])
    {
      ghost var before := calls;
      ok := ConnectAndSend(msg);
      InOrderSnoc(before, calls, attempted, outcomes, msg, ok);
      attempted, outcomes := attempted + [msg], outcomes + [ok];
    }

    method ConnectAndSend(msg: string) returns (ok: bool)
      modifies `tcpUp, `calls, `delivered
      ensures tcpUp == ok && delivered == old(delivered) + if ok then [msg] else []
      ensures old(calls) <= calls && CallsForLine(old(tcpUp), msg, ok, calls[|old(calls)|..])
    {
      if !tcpUp {
        tcpUp := Connect();
        if !tcpUp {
          return false;
        }
      }
      ok := Send(msg);
      if !ok {
        tcpUp := false;
      }
    }

    /** `text` fills the buffer up to a NUL. */
    ghost predicate Loaded(text: string)
      reads buf
    {
      && buf.Length == BUF_SIZE && |text| < BUF_SIZE
      && '\0' !in text && buf[..|text|] == text && buf[|text|] == '\0'
    }

    /** `strchr(buf + from, c)` when `c` is not NUL, `strlen` when it is: the first `c`
        or NUL at or after `from`. */
    method Scan(from: nat, c: char, ghost text: string) returns (p: nat)
      requires Loaded(text) && from <= |text|
      ensures p == from + Find(text[from..], c)
    {
      p := from;
      while buf[p] != c && buf[p] != '\0'
        invariant from <= p <= |text| && c !in text[from..p]
        decreases |text| - p
      {
        assert text[p] == buf[..|text|][p];
        assert text[from..p + 1] == text[from..p] + [text[p]];
        p := p + 1;
      }
      if p < |text| {
        assert text[p] == buf[..|text|][p];
        assert text[p] in text;
      }
      assert text[from..][..p - from] == text[from..p];
      FindIs(text[from..], c, p - from);
    }

    /** The line that ends at `newline`, with its newline; the terminator put there for
        the log is taken away again. */
    method TakeLine(line: nat, newline: nat, ghost text: string) returns (msg: string)
      requires Loaded(text) && line <= newline < |text| && text[newline] == '\n'
      modifies buf
      ensures Loaded(text) && msg == text[line..newline] + "\n"
    {
      assert buf[newline] == buf[..|text|][newline];
      buf[newline] := '\0';
      buf[newline] := '\n';
      assert buf[..|text|] == text;
      msg := buf[line..newline + 1];
      Slices(text, line, newline);
      assert msg == text[line..newline + 1];
    }

    /** Pass on the next complete line of `text`, if there is one. */
    method SendNext(line: nat, ghost text: string) returns (found: bool, next: nat)
      requires Loaded(text) && line <= |text| && SendsLogged()
      modifies buf, `tcpUp, `calls, `attempted, `outcomes, `delivered
      ensures Loaded(text) && SendsLogged()
      ensures next == line + Find(text[line..], '\n') + (if found then 1 else 0)
      ensures found <==> Find(text[line..], '\n') < |text| - line
      ensures attempted == old(attempted) + if found then [text[line..next - 1] + "\n"] else []
      ensures old(outcomes) <= outcomes
    {
      var newline := Scan(line, '\n', text);
      if buf[newline] != '\n' {
        return false, newline;
      }
      var msg := TakeLine(line, newline, text);
      var ok := TcpSend(msg);
      return true, newline + 1;
    }

    method SendLines(ghost text: string) returns (line: nat)
      requires Loaded(text) && SendsLogged()
      modifies buf, `tcpUp, `calls, `attempted, `outcomes, `delivered
      ensures Loaded(text) && SendsLogged()
      ensures attempted == old(attempted) + Sent(Lines(text)) && old(outcomes) <= outcomes
      ensures line <= |text| && text[line..] == Tail(text)
    {
      line := 0;
      ghost var done: seq<string>, a0 := [], attempted;
      assert text[0..] == text && done + Lines(text) == Lines(text);
      var found := true;
      while found
        invariant Loaded(text) && SendsLogged() && line <= |text|
        invariant Lines(text) == done + Lines(text[line..]) && Tail(text) == Tail(text[line..])
        invariant attempted == a0 + Sent(done) && old(outcomes) <= outcomes
        invariant !found ==> '\n' !in text[line..]
        decreases |text| - line, found
      {
        var next;
        found, next := SendNext(line, text);
        if found {
          ghost var l := text[line..next - 1];
          CutLine(text, line, next);
          SentOne(l, text[next..], done);
          Regroup(a0, Sent(done), [l + "\n"]);
          done := done + [l];
          line := next;
        } else {
          NoLine(text, line, next);
        }
      }
      LinesNone(text[line..]);
      assert done + [] == done;
    }

    /** The bytes `read` put behind the buffered ones, and the terminator. */
    method Append(chunk: string)
      requires buf.Length == BUF_SIZE && bufLen < BUF_SIZE && '\0' !in buf[..bufLen]
      requires 0 < |chunk| <= BUF_SIZE - bufLen - 1
      modifies `bufLen, buf
      ensures Loaded(old(buf[..bufLen]) + CStr(chunk))
    {
      ghost var kept := buf[..bufLen];
      forall i | 0 <= i < |chunk| {
        buf[bufLen + i] := chunk[i];
      }
      bufLen := bufLen + |chunk|;
      buf[bufLen] := '\0';
      assert buf[..|kept|] == kept;
      assert buf[|kept|..|kept| + |CStr(chunk)|] == CStr(chunk);
      assert buf[..|kept| + |CStr(chunk)|] == kept + CStr(chunk);
    }

    /** Move the incomplete line to the front. */
    method Compact(line: nat, ghost text: string)
      requires Loaded(text) && line <= |text|
      modifies `bufLen, buf
      ensures bufLen == |text| - line && buf[..bufLen] == text[line..]
    {
      var end := Scan(line, '\0', text);
      FindAbsent(text[line..], '\0');
      bufLen := end - line;
      assert buf[line..line + bufLen] == text[line..];
      if bufLen > 0 && line != 0 {
        forall i | 0 <= i < bufLen {
          buf[i] := buf[line + i];
        }
      }
    }

    /** One successful read of the pipe: its bytes join the session's stream. */
    method OnData(chunk: string, ghost earlier: seq<string>, ghost stream: string)
      requires Carried(stream, earlier + Sent(Lines(stream)))
      requires 0 < |chunk| <= BUF_SIZE - bufLen - 1
      modifies buf, `bufLen, `tcpUp, `calls, `attempted, `outcomes, `delivered
      ensures Carried(stream + CStr(chunk), earlier + Sent(Lines(stream + CStr(chunk))))
      ensures old(attempted) <= attempted && old(outcomes) <= outcomes
    {
      ghost var text := buf[..bufLen] + CStr(chunk);
      StreamGrows(earlier, stream, CStr(chunk), text);
      Append(chunk);
      var line := SendLines(text);
      Compact(line, text);
    }

    /** The pipe was closed - or no byte was asked for - and opened again: what is
        buffered is dropped. */
    method OnClosed(ghost stream: string, ghost due: seq<string>)
      requires Carried(stream, due)
      modifies `bufLen
      ensures Carried("", due)
    {
      bufLen := 0;
      assert buf[..0] == "";
    }

    /** `read` may return any part of what is asked for; asked for nothing, it returns 0. */
    method Read(size: nat) returns (r: ReadResult)
      modifies `input
      ensures r.Data? ==> 0 < |r.chunk| <= size
      ensures input == old(input) + [r]
    {
      r := *;
      if r.Data? && !(0 < |r.chunk| <= size) { r := Closed(true); }
      input := input + [r];
    }

    /** What the main loop does with the result of a `read`. */
    method React(r: ReadResult, ghost earlier: seq<string>, ghost stream: string)
      requires Carried(stream, earlier + Sent(Lines(stream)))
      requires r.Data? ==> 0 < |r.chunk| <= BUF_SIZE - bufLen - 1
      modifies buf, `bufLen, `tcpUp, `calls, `attempted, `outcomes, `delivered
      ensures Carried(NextStream(stream, r), NextDue(earlier, stream, r))
      ensures old(attempted) <= attempted && old(outcomes) <= outcomes
    {
      match r {
        case Closed(reopened) => if reopened { OnClosed(stream, earlier + Sent(Lines(stream))); }
        case Data(chunk) => OnData(chunk, earlier, stream);
        case _ =>
      }
    }

    /** One round of the main loop: a `read`, and what it asks for. */
    method Round() returns (r: ReadResult)
      requires Valid()
      modifies this, buf
      ensures Valid() && input == old(input) + [r]
      ensures old(attempted) <= attempted && old(outcomes) <= outcomes
    {
      ghost var before := input;
      r := Read(buf.Length - bufLen - 1);
      DueAfter(before, r);
      React(r, Earlier(before), Stream(before));
    }

    /** The main loop, for at most `rounds` rounds before a stop signal: it reads that
        many times, or until a read fails or the pipe cannot be opened again. */
    method Run(rounds: nat)
      requires Valid()
      modifies this, buf
      ensures Valid() && old(input) <= input && |input| <= |old(input)| + rounds
      ensures |input| == |old(input)| + rounds || (|input| > |old(input)| && Ends(input[|input| - 1]))
      ensures forall i | |old(input)| <= i < |input| - 1 :: !Ends(input[i])
    {
      var left := rounds;
      while left > 0
        invariant Valid() && old(input) <= input
        invariant 0 <= left <= rounds && |input| + left == |old(input)| + rounds
        invariant forall i | |old(input)| <= i < |input| :: !Ends(input[i])
        decreases left
      {
        var r := Round();
        left := left - 1;
        if r.Failed? || r == Closed(false) { break; }
      }
    }
  }

  /** What a relay that keeps its invariant has done: every complete line of what `read`
      returned was attempted, with at most one send each, and the connection got those
      whose send succeeded. */
  lemma RelayMeans(relay: PipeRelay)
    requires relay.Valid()
    ensures relay.attempted == Due(relay.input) && SendCalls(relay.calls) <= |relay.attempted|
    ensures |relay.outcomes| == |relay.attempted|
    ensures relay.delivered == Kept(relay.attempted, relay.outcomes) == Transmitted(relay.calls)
    ensures ConnectedFirst(relay.calls)
  {
    assert Orderly(relay.calls, relay.attempted, relay.outcomes);
    SentOnce(relay.calls, relay.attempted, relay.outcomes);
    OrderlyConnects(relay.calls, relay.attempted, relay.outcomes);
  }

  lemma Slices(text: string, line: nat, newline: nat)
    requires line <= newline < |text|
    ensures text[line..][..newline - line] == text[line..newline]
    ensures text[line..][newline - line + 1..] == text[newline + 1..]
    ensures text[line..newline + 1] == text[line..newline] + [text[newline]]
  {
  }

  lemma NoLine(text: string, line: nat, newline: nat)
    requires line <= newline == |text| && newline == line + Find(text[line..], '\n')
    ensures '\n' !in text[line..]
  {
    assert text[line..][..newline - line] == text[line..];
  }

  lemma CutLine(text: string, line: nat, next: nat)
    requires line < next <= |text| && next == line + Find(text[line..], '\n') + 1
    ensures '\n' !in text[line..next - 1]
    ensures text[line..] == text[line..next - 1] + "\n" + text[next..]
  {
    assert text[line..][..next - 1 - line] == text[line..next - 1];
  }

  lemma SentOne(l: string, rest: string, done: seq<string>)
    requires '\n' !in l
    ensures done + Lines(l + "\n" + rest) == (done + [l]) + Lines(rest)
    ensures Sent(done + [l]) == Sent(done) + [l + "\n"]
    ensures Tail(l + "\n" + rest) == Tail(rest)
  {
    LinesCons(l, rest);
    Regroup(done, [l], Lines(rest));
    SentAppend(done, [l]);
    assert Sent([l]) == [l + "\n"] by { assert [l][1..] == []; }
  }

  lemma StreamGrows(earlier: seq<string>, stream: string, chunk: string, text: string)
    requires text == Tail(stream) + chunk
    ensures earlier + Sent(Lines(stream + chunk)) == (earlier + Sent(Lines(stream))) + Sent(Lines(text))
    ensures Tail(stream + chunk) == Tail(text)
  {
    SplitAppend(stream, chunk);
    SentAppend(Lines(stream), Lines(text));
    Regroup(earlier, Sent(Lines(stream)), Sent(Lines(text)));
  }

  // ----- which streams get through -----

  /** A reading of a NUL-free stream in chunks that the buffer has room for. */
  ghost predicate Feasible(buffered: string, chunks: seq<string>)
    decreases chunks
  {
    chunks != [] ==>
      && 0 < |chunks[0]| <= BUF_SIZE - 1 - |buffered|
      && Feasible(Tail(buffered + chunks[0]), chunks[1..])
  }

  ghost predicate AllShort(ls: seq<string>) {
    forall i | 0 <= i < |ls| :: |ls[i]| < BUF_SIZE - 1
  }

  lemma ShortAppend(a: seq<string>, b: seq<string>)
    ensures AllShort(a + b) <==> AllShort(a) && AllShort(b)
  {
    if AllShort(a + b) {
      forall i | 0 <= i < |a| ensures |a[i]| < BUF_SIZE - 1 {
        assert (a + b)[i] == a[i];
      }
      forall i | 0 <= i < |b| ensures |b[i]| < BUF_SIZE - 1 {
        assert (a + b)[|a| + i] == b[i];
      }
    }
  }

  /** No line, complete or not, is longer than 254 bytes without its newline. */
  ghost predicate Fits(s: string) {
    AllShort(Lines(s)) && |Tail(s)| < BUF_SIZE - 1
  }

  /** The buffer has room for 254 bytes of a line. */
  lemma FitsWithin254(s: string)
    ensures Fits(s) <==> (forall l | l in Lines(s) :: |l| <= 254) && |Tail(s)| <= 254
  {
    assert forall i | 0 <= i < |Lines(s)| :: Lines(s)[i] in Lines(s);
  }

  lemma {:induction false} LinesShorter(s: string)
    requires |s| < BUF_SIZE
    ensures AllShort(Lines(s))
    decreases |s|
  {
    var n := Find(s, '\n');
    if n != |s| {
      LinesShorter(s[n + 1..]);
      ShortAppend([s[..n]], Lines(s[n + 1..]));
    }
  }

  lemma {:induction false} FeasibleLinesShort(buffered: string, chunks: seq<string>)
    requires Feasible(buffered, chunks) && '\n' !in buffered && |buffered| < BUF_SIZE
    ensures AllShort(Lines(buffered + Concat(chunks)))
    decreases chunks
  {
    if chunks == [] {
      LinesNone(buffered);
      assert buffered + "" == buffered;
    } else {
      var text := buffered + chunks[0];
      var rest := Concat(chunks[1..]);
      Regroup(buffered, chunks[0], rest);
      FeasibleLinesShort(Tail(text), chunks[1..]);
      LinesShorter(text);
      SplitAppend(text, rest);
      ShortAppend(Lines(text), Lines(Tail(text) + rest));
    }
  }

  /** One byte at a time. */
  function Singles(s: string): seq<string> {
    if s == "" then [] else [[s[0]]] + Singles(s[1..])
  }

  lemma {:induction false} SinglesConcat(s: string)
    ensures Concat(Singles(s)) == s
  {
    if s != "" {
      SinglesConcat(s[1..]);
      assert Singles(s)[1..] == Singles(s[1..]);
    }
  }

  lemma {:induction false} SinglesFeasible(buffered: string, s: string)
    requires '\n' !in buffered && Fits(buffered + s)
    ensures Feasible(buffered, Singles(s))
    decreases |s|
  {
    if s != "" {
      TailStaysShort(buffered, s);
      LinesNone(buffered);
      var text := buffered + [s[0]];
      assert buffered + s == text + s[1..];
      FitsRest(text, s[1..]);
      SinglesFeasible(Tail(text), s[1..]);
      assert Singles(s)[0] == [s[0]] && Singles(s)[1..] == Singles(s[1..]);
    }
  }

  lemma FitsRest(text: string, rest: string)
    requires Fits(text + rest)
    ensures Fits(Tail(text) + rest)
  {
    SplitAppend(text, rest);
    ShortAppend(Lines(text), Lines(Tail(text) + rest));
  }

  lemma {:induction false} TailIsPrefix(t: string, rest: string)
    requires '\n' !in t
    ensures Find(t + rest, '\n') >= |t|
  {
    if t != "" {
      assert (t + rest)[1..] == t[1..] + rest;
      TailIsPrefix(t[1..], rest);
    }
  }

  /** The leftover of any part of a fitting stream fits, so the next read asks for
      at least one byte. */
  lemma TailStaysShort(part: string, rest: string)
    requires Fits(part + rest)
    ensures |Tail(part)| < BUF_SIZE - 1
  {
    FitsRest(part, rest);
    TailIsPrefix(Tail(part), rest);
    var text := Tail(part) + rest;
    var n := Find(text, '\n');
    if n < |text| {
      assert Lines(text)[0] == text[..n];
    } else {
      assert Tail(text) == text[..n];
    }
  }

  /** The relay can carry a NUL-free stream to its end with room for another read if
      and only if no line of it has 255 bytes or more before its newline.  For such
      a stream no chunking ever gets stuck (`TailStaysShort`); for any other, every
      chunking does, and the bytes so far are then dropped as if the pipe had closed. */
  lemma PassesIff(s: string)
    ensures (exists chunks :: Feasible("", chunks) && Concat(chunks) == s) && |Tail(s)| < BUF_SIZE - 1
       <==> Fits(s)
  {
    if chunks :| Feasible("", chunks) && Concat(chunks) == s {
      FeasibleLinesShort("", chunks);
      assert "" + Concat(chunks) == s;
    }
    if Fits(s) {
      assert "" + s == s;
      SinglesFeasible("", s);
      SinglesConcat(s);
    }
  }

  // ----- reads and connections in plain terms -----

  lemma {:induction false} SentLines(ls: seq<string>)
    ensures |Sent(ls)| == |ls|
    ensures forall i | 0 <= i < |ls| :: Sent(ls)[i] == ls[i] + "\n"
  {
    if ls != [] {
      SentLines(ls[1..]);
    }
  }

  /** The bytes among the reads, each read cut at its first NUL. */
  function Chunks(input: seq<ReadResult>): seq<string> {
    if input == [] then [] else
      var last := input[|input| - 1];
      Chunks(input[..|input| - 1]) + if last.Data? then [CStr(last.chunk)] else []
  }

  /** The session the reads end in began at `p`, after the last pipe that was closed and
      opened again. */
  ghost predicate SessionFrom(input: seq<ReadResult>, p: nat) {
    && p <= |input| && (p > 0 ==> input[p - 1] == Closed(true))
    && forall i | p <= i < |input| :: input[i] != Closed(true)
  }

  lemma ChunksSnoc(input: seq<ReadResult>, r: ReadResult)
    ensures Chunks(input + [r]) == Chunks(input) + if r.Data? then [CStr(r.chunk)] else []
  {
    assert (input + [r])[..|input|] == input;
  }

  /** What is buffered and sent is made of exactly the bytes that session has read; the
      sessions before it are those of the reads up to its beginning. */
  lemma {:induction false} SessionReads(input: seq<ReadResult>) returns (p: nat)
    ensures SessionFrom(input, p) && Stream(input) == Concat(Chunks(input[p..]))
    ensures Earlier(input) == if p == 0 then [] else Due(input[..p - 1])
    decreases |input|
  {
    if input == [] {
      p := 0;
    } else {
      var n, r := |input| - 1, input[|input| - 1];
      if r == Closed(true) {
        p := n + 1;
        assert input[p..] == [];
      } else {
        p := SessionReads(input[..n]);
        SessionGoesOn(input, p);
      }
    }
  }

  lemma SessionGoesOn(input: seq<ReadResult>, p: nat)
    requires input != [] && input[|input| - 1] != Closed(true)
    requires var before := input[..|input| - 1];
             && SessionFrom(before, p) && Stream(before) == Concat(Chunks(before[p..]))
             && Earlier(before) == if p == 0 then [] else Due(before[..p - 1])
    ensures SessionFrom(input, p) && Stream(input) == Concat(Chunks(input[p..]))
    ensures Earlier(input) == if p == 0 then [] else Due(input[..p - 1])
  {
    var before, r := input[..|input| - 1], input[|input| - 1];
    assert before + [r] == input;
    SessionOn(before, r, p);
    ReadSnoc(before, r);
    if p > 0 {
      assert before[..p - 1] == input[..p - 1];
    }
  }

  lemma SessionOn(before: seq<ReadResult>, r: ReadResult, p: nat)
    requires r != Closed(true) && SessionFrom(before, p) && Stream(before) == Concat(Chunks(before[p..]))
    ensures SessionFrom(before + [r], p) && Stream(before + [r]) == Concat(Chunks((before + [r])[p..]))
  {
    SessionFromOn(before, r, p);
    ReadSnoc(before, r);
    assert (before + [r])[p..] == before[p..] + [r];
    ChunksSnoc(before[p..], r);
    MoreChunks(Chunks(before[p..]), Stream(before), r);
  }

  lemma SessionFromOn(before: seq<ReadResult>, r: ReadResult, p: nat)
    requires r != Closed(true) && SessionFrom(before, p)
    ensures SessionFrom(before + [r], p)
  {
    var input := before + [r];
    assert forall i | 0 <= i < |before| :: input[i] == before[i];
    assert input[|before|] == r;
  }

  lemma MoreChunks(chunks: seq<string>, stream: string, r: ReadResult)
    requires stream == Concat(chunks) && r != Closed(true)
    ensures NextStream(stream, r) == Concat(chunks + if r.Data? then [CStr(r.chunk)] else [])
  {
    if r.Data? {
      ConcatSnoc(chunks, CStr(r.chunk));
    } else {
      assert chunks + [] == chunks;
    }
  }

  /** The positions of the successful connects, in order. */
  ghost predicate Connects(calls: seq<TcpCall>, ps: seq<nat>) {
    && (forall i, j | 0 <= i < j < |ps| :: ps[i] < ps[j])
    && (forall p: nat :: p in ps <==> p < |calls| && calls[p] == Connected(true))
  }

  /** Nothing is sent before there is a connection. */
  ghost predicate ConnectedFirst(calls: seq<TcpCall>) {
    forall p | 0 <= p < |calls| && calls[p].Transmit? && calls[p].ok ::
      exists q :: 0 <= q < p && calls[q] == Connected(true)
  }

  function PartEnd(ps: seq<nat>, k: nat, n: nat): nat {
    if k + 1 < |ps| then ps[k + 1] else n
  }

  ghost predicate PartAt(calls: seq<TcpCall>, part: seq<string>, begin: nat, end: nat) {
    begin < end <= |calls| && part == Transmitted(calls[begin..end])
  }

  /** Part `k` is what was sent between the `k`-th successful connect and the next. */
  ghost predicate PartsBetween(calls: seq<TcpCall>, ps: seq<nat>, parts: seq<seq<string>>) {
    |parts| == |ps| && forall k | 0 <= k < |ps| :: PartAt(calls, parts[k], ps[k], PartEnd(ps, k, |calls|))
  }

  lemma {:induction false} SegmentsBetween(calls: seq<TcpCall>) returns (ps: seq<nat>)
    requires ConnectedFirst(calls)
    ensures Connects(calls, ps) && PartsBetween(calls, ps, Segments(calls))
    decreases |calls|
  {
    if calls == [] {
      ps := [];
    } else {
      var before, x := calls[..|calls| - 1], calls[|calls| - 1];
      assert before + [x] == calls;
      FirstBefore(before, x);
      var qs := SegmentsBetween(before);
      ps := if x == Connected(true) then qs + [|before|] else qs;
      ConnectsOn(before, x, qs, ps);
      if x == Connected(true) {
        NewPart(before, x, qs, Segments(before));
      } else if x.Transmit? && x.ok {
        SomeConnect(before, x, qs);
        LongerPart(before, x, qs, Segments(before));
      } else {
        SameParts(before, x, qs, Segments(before));
      }
    }
  }

  lemma FirstBefore(before: seq<TcpCall>, x: TcpCall)
    requires ConnectedFirst(before + [x])
    ensures ConnectedFirst(before)
  {
    var calls := before + [x];
    forall p | 0 <= p < |before| && before[p].Transmit? && before[p].ok
      ensures exists q :: 0 <= q < p && before[q] == Connected(true)
    {
      assert calls[p] == before[p];
      var q :| 0 <= q < p && calls[q] == Connected(true);
      assert before[q] == Connected(true);
    }
  }

  lemma SomeConnect(before: seq<TcpCall>, x: TcpCall, ps: seq<nat>)
    requires ConnectedFirst(before + [x]) && x.Transmit? && x.ok && Connects(before, ps)
    ensures ps != []
  {
    var calls := before + [x];
    assert calls[|before|] == x;
    var q :| 0 <= q < |before| && calls[q] == Connected(true);
    assert before[q] == Connected(true) && q in ps;
  }

  lemma ConnectsOn(before: seq<TcpCall>, x: TcpCall, qs: seq<nat>, ps: seq<nat>)
    requires Connects(before, qs) && ps == if x == Connected(true) then qs + [|before|] else qs
    ensures Connects(before + [x], ps)
  {
    var calls := before + [x];
    forall i, j | 0 <= i < j < |ps| ensures ps[i] < ps[j] {
      assert i < |qs| && ps[i] == qs[i] && qs[i] in qs;
    }
    forall p: nat ensures p in ps <==> p < |calls| && calls[p] == Connected(true) {
      assert p in ps <==> p in qs || (x == Connected(true) && p == |before|);
    }
  }

  lemma NewPart(before: seq<TcpCall>, x: TcpCall, qs: seq<nat>, parts: seq<seq<string>>)
    requires x == Connected(true) && PartsBetween(before, qs, parts)
    ensures PartsBetween(before + [x], qs + [|before|], parts + [[]])
  {
    var calls, ps, n := before + [x], qs + [|before|], |before|;
    forall k | 0 <= k < |ps| ensures PartAt(calls, (parts + [[]])[k], ps[k], PartEnd(ps, k, |calls|)) {
      if k < |qs| {
        assert PartAt(before, parts[k], qs[k], PartEnd(qs, k, n));
        assert PartEnd(ps, k, |calls|) == PartEnd(qs, k, n);
        SamePart(before, x, parts[k], qs[k], PartEnd(qs, k, n));
      } else {
        assert calls[n..n + 1] == [] + [x];
        TransmittedSnoc([], x);
      }
    }
  }

  lemma SamePart(before: seq<TcpCall>, x: TcpCall, part: seq<string>, begin: nat, end: nat)
    requires PartAt(before, part, begin, end)
    ensures PartAt(before + [x], part, begin, end)
  {
    assert (before + [x])[begin..end] == before[begin..end];
  }

  lemma LastPart(before: seq<TcpCall>, x: TcpCall, part: seq<string>, begin: nat)
    requires PartAt(before, part, begin, |before|)
    ensures PartAt(before + [x], part + if x.Transmit? && x.ok then [x.msg] else [], begin, |before| + 1)
  {
    assert (before + [x])[begin..|before| + 1] == before[begin..|before|] + [x];
    TransmittedSnoc(before[begin..|before|], x);
  }

  lemma SameParts(before: seq<TcpCall>, x: TcpCall, ps: seq<nat>, parts: seq<seq<string>>)
    requires !(x.Transmit? && x.ok) && PartsBetween(before, ps, parts)
    ensures PartsBetween(before + [x], ps, parts)
  {
    forall k | 0 <= k < |ps| ensures PartAt(before + [x], parts[k], ps[k], PartEnd(ps, k, |before| + 1)) {
      assert PartAt(before, parts[k], ps[k], PartEnd(ps, k, |before|));
      if k + 1 < |ps| {
        SamePart(before, x, parts[k], ps[k], ps[k + 1]);
      } else {
        LastPart(before, x, parts[k], ps[k]);
        assert parts[k] + [] == parts[k];
      }
    }
  }

  lemma LongerPart(before: seq<TcpCall>, x: TcpCall, ps: seq<nat>, parts: seq<seq<string>>)
    requires x.Transmit? && x.ok && ps != [] && PartsBetween(before, ps, parts)
    ensures PartsBetween(before + [x], ps, parts[..|parts| - 1] + [parts[|parts| - 1] + [x.msg]])
  {
    var all := parts[..|parts| - 1] + [parts[|parts| - 1] + [x.msg]];
    forall k | 0 <= k < |ps| ensures PartAt(before + [x], all[k], ps[k], PartEnd(ps, k, |before| + 1)) {
      assert PartAt(before, parts[k], ps[k], PartEnd(ps, k, |before|));
      if k + 1 < |ps| {
        assert all[k] == parts[k];
        SamePart(before, x, parts[k], ps[k], ps[k + 1]);
      } else {
        assert all[k] == parts[k] + [x.msg];
        LastPart(before, x, parts[k], ps[k]);
      }
    }
  }

  lemma TransmittedSnoc(calls: seq<TcpCall>, x: TcpCall)
    ensures Transmitted(calls + [x]) == Transmitted(calls) + if x.Transmit? && x.ok then [x.msg] else []
  {
    assert (calls + [x])[..|calls|] == calls;
  }

  /** The relay's own calls begin with a connect. */
  lemma {:induction false} OrderlyConnects(calls: seq<TcpCall>, lines: seq<string>, ok: seq<bool>)
    requires |lines| == |ok| && Orderly(calls, lines, ok)
    ensures ConnectedFirst(calls) && (Up(ok) ==> HasConnect(calls))
    decreases |lines|
  {
    if lines != [] {
      var n := |lines| - 1;
      if LastCalls(calls, lines, ok, 1) && Orderly(calls[..|calls| - 1], lines[..n], ok[..n]) {
        OrderlyConnects(calls[..|calls| - 1], lines[..n], ok[..n]);
        LastLineConnects(calls, lines, ok, 1);
      } else {
        OrderlyConnects(calls[..|calls| - 2], lines[..n], ok[..n]);
        LastLineConnects(calls, lines, ok, 2);
      }
    }
  }

  lemma LastLineConnects(calls: seq<TcpCall>, lines: seq<string>, ok: seq<bool>, k: nat)
    requires |lines| == |ok| > 0 && LastCalls(calls, lines, ok, k) && ConnectedFirst(calls[..|calls| - k])
    requires Up(ok[..|ok| - 1]) ==> HasConnect(calls[..|calls| - k])
    ensures ConnectedFirst(calls) && (Up(ok) ==> HasConnect(calls))
  {
    var n := |lines| - 1;
    var before, made := calls[..|calls| - k], calls[|calls| - k..];
    assert calls == before + made;
    ConnectsLater(calls, before, made, Up(ok[..n]), lines[n], ok[n]);
  }

  ghost predicate HasConnect(calls: seq<TcpCall>) {
    exists q :: 0 <= q < |calls| && calls[q] == Connected(true)
  }

  lemma ConnectsLater(
      calls: seq<TcpCall>, before: seq<TcpCall>, made: seq<TcpCall>, up: bool, msg: string, ok: bool)
    requires calls == before + made && CallsForLine(up, msg, ok, made) && ConnectedFirst(before)
    requires up ==> HasConnect(before)
    ensures ConnectedFirst(calls) && (ok ==> HasConnect(calls))
  {
    var b := |before|;
    if up {
      var q :| 0 <= q < b && before[q] == Connected(true);
      assert calls[q] == Connected(true);
    } else if |made| == 2 {
      assert calls[b] == Connected(true);
    }
    forall p | 0 <= p < |calls| && calls[p].Transmit? && calls[p].ok
      ensures exists q :: 0 <= q < p && calls[q] == Connected(true)
    {
      if p < b {
        assert before[p] == calls[p];
        var q :| 0 <= q < p && before[q] == Connected(true);
        assert calls[q] == Connected(true);
      } else {
        assert made[p - b] == calls[p];
      }
    }
  }
}
