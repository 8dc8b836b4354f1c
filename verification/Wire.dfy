/** The sensor frame, the text line it becomes, and the message the server reads back. */
module Wire {
  import opened Options
  import opened Text
  import opened Sessions
  import Decimal

  const FRAME_SIZE: nat := 48
  const WIRE_SIZE: nat := 128

  // ----- frame to line -----

  /** The text fields of a frame, as C strings. */
  datatype Frame = Frame(kind: char, id: string, lat: string, lon: string, city: string)

  /** The frame after its four text fields have been forcibly terminated. */
  function Terminated(buf: seq<char>): seq<char>
    requires |buf| == FRAME_SIZE
  {
    buf[15 := '\0'][23 := '\0'][31 := '\0'][47 := '\0']
  }

  function FieldsOf(buf: seq<char>): (f: Frame)
    requires |buf| == FRAME_SIZE
    ensures |f.id| < 15 && |f.lat| < 8 && |f.lon| < 8 && |f.city| < 16
    ensures '\0' !in f.id && '\0' !in f.lat && '\0' !in f.lon && '\0' !in f.city
  {
    var t := Terminated(buf);
    Bounded(t[1..16]);
    Bounded(t[16..24]);
    Bounded(t[24..32]);
    Bounded(t[32..48]);
    Frame(t[0], CStr(t[1..16]), CStr(t[16..24]), CStr(t[24..32]), CStr(t[32..48]))
  }

  lemma Bounded(field: string)
    requires field != "" && field[|field| - 1] == '\0'
    ensures |CStr(field)| < |field|
  {
  }

  /** "TYPE|ID|LAT,LON|CITY", the wire line without its newline. */
  function Line(f: Frame): string {
    [f.kind, '|'] + (f.id + (['|'] + (f.lat + ([','] + (f.lon + (['|'] + f.city))))))
  }

  predicate KnownKind(c: char) {
    c == MSG_START || c == MSG_END
  }

  /** One frame read by the I2C process: the fields are terminated in place, a bad
      type is dropped, and the line always fits the 128-byte wire buffer. */
  method EncodeFrame(buf: array<char>) returns (wire: Option<string>)
    requires buf.Length == FRAME_SIZE
    modifies buf
    ensures buf[..] == Terminated(old(buf[..]))
    ensures wire.None? <==> old(buf[0]) != 'S' && old(buf[0]) != 'E'
    ensures wire.Some? ==> wire.value == Line(FieldsOf(old(buf[..]))) + "\n"
    ensures wire.Some? ==> |wire.value| <= 49
  {
    ghost var raw := buf[..];
    buf[15] := '\0';
    buf[23] := '\0';
    buf[31] := '\0';
    buf[47] := '\0';
    assert buf[..] == Terminated(raw);
    if !KnownKind(buf[0]) {
      return None;
    }
    var id, lat, lon, city := CStr(buf[1..16]), CStr(buf[16..24]), CStr(buf[24..32]), CStr(buf[32..48]);
    assert Frame(buf[0], id, lat, lon, city) == FieldsOf(raw) by {
      assert buf[1..16] == Terminated(raw)[1..16] && buf[16..24] == Terminated(raw)[16..24];
      assert buf[24..32] == Terminated(raw)[24..32] && buf[32..48] == Terminated(raw)[32..48];
    }
    var text := Line(Frame(buf[0], id, lat, lon, city)) + "\n";
    assert |text| <= 49 < WIRE_SIZE;
    wire := Some(text);
  }

  // ----- line to message -----

  /** `std::getline` on what is left of a string stream: the token and the rest,
      or None when nothing is left. */
  function GetLine(rest: string, delim: char): Option<(string, string)> {
    if rest == "" then None else
      var n := Find(rest, delim);
      Some((rest[..n], if n == |rest| then "" else rest[n + 1..]))
  }

  /** The five fields of a line, still as text. */
  function Tokens(line: string): Option<Frame> {
    var (kind, rest) :- GetLine(line, '|');
    if |kind| != 1 || !KnownKind(kind[0]) then None else IdTokens(kind[0], rest)
  }

  /** What follows the type ... */
  function IdTokens(kind: char, line: string): (r: Option<Frame>)
    ensures r.Some? ==> r.value.kind == kind
  {
    var (id, rest) :- GetLine(line, '|');
    if id == "" then None else CoordTokens(kind, id, rest)
  }

  /** ... the id ... */
  function CoordTokens(kind: char, id: string, line: string): (r: Option<Frame>)
    ensures r.Some? ==> r.value.kind == kind && r.value.id == id
  {
    var (coords, rest) :- GetLine(line, '|');
    var comma := Find(coords, ',');
    if comma == |coords| then None else CityToken(kind, id, coords[..comma], coords[comma + 1..], rest)
  }

  /** ... and the coordinates. */
  function CityToken(kind: char, id: string, lat: string, lon: string, line: string): (r: Option<Frame>)
    ensures r.Some? ==> r.value == Frame(kind, id, lat, lon, r.value.city)
  {
    var (city, _) :- GetLine(line, '\n');
    if city == "" then None else Some(Frame(kind, id, lat, lon, city))
  }

  /** What a server makes of a line; None is `ERR:bad_msg`. */
  function Parse(line: string): Option<Msg> {
    var f :- Tokens(line);
    var lat :- Decimal.Stod(f.lat);
    var lon :- Decimal.Stod(f.lon);
    Some(Msg(f.kind, Field(f.id, ID_LEN), lat, lon, Field(f.city, CITY_LEN)))
  }

  /** The cursor form of the tokeniser: each `getline` moves the rest of the stream
      on, and the first bad token rejects the line. */
  method Tokenize(line: string) returns (r: Option<Frame>)
    ensures r == Tokens(line)
  {
    var cursor := GetLine(line, '|');
    if cursor.None? { return None; }
    var (token, rest) := cursor.value;
    if |token| != 1 || !KnownKind(token[0]) { return None; }
    var kind := token[0];

    cursor := GetLine(rest, '|');
    if cursor.None? { return None; }
    var id := cursor.value.0;
    rest := cursor.value.1;
    if id == "" { return None; }

    cursor := GetLine(rest, '|');
    if cursor.None? { return None; }
    var coords := cursor.value.0;
    rest := cursor.value.1;
    var comma := Find(coords, ',');
    if comma == |coords| { return None; }

    cursor := GetLine(rest, '\n');
    if cursor.None? || cursor.value.0 == "" { return None; }
    return Some(Frame(kind, id, coords[..comma], coords[comma + 1..], cursor.value.0));
  }

  /** `MessageParser::parse`. */
  method ParseLine(line: string) returns (r: Option<Msg>)
    ensures r == Parse(line)
  {
    var f := Tokenize(line);
    if f.None? { return None; }
    var lat, lon := Decimal.Stod(f.value.lat), Decimal.Stod(f.value.lon);
    if lat.None? || lon.None? { return None; }
    return Some(Msg(f.value.kind, Field(f.value.id, ID_LEN), lat.value, lon.value, Field(f.value.city, CITY_LEN)));
  }

  // ----- the two are inverse -----

  /** Fields that the separators of the line format cannot be confused with. */
  predicate Clean(f: Frame) {
    && KnownKind(f.kind)
    && f.id != "" && '|' !in f.id
    && '|' !in f.lat && ',' !in f.lat && '|' !in f.lon
    && f.city != "" && '\n' !in f.city
  }

  lemma GetLineOn(token: string, delim: char, rest: string)
    requires delim !in token
    ensures GetLine(token + ([delim] + rest), delim) == Some((token, rest))
  {
    var s := token + ([delim] + rest);
    assert s[..|token|] == token;
    FindIs(s, delim, |token|);
    assert s[|token| + 1..] == rest;
  }

  lemma GetLineAll(rest: string, delim: char)
    requires rest != "" && delim !in rest
    ensures GetLine(rest, delim) == Some((rest, ""))
  {
    FindAbsent(rest, delim);
    assert rest[..|rest|] == rest;
  }

  lemma CutAtIndex(s: string, n: nat)
    requires n < |s| && '\n' !in s
    ensures s == s[..n] + ([s[n]] + s[n + 1..]) && '\n' !in s[n + 1..]
  {
    assert forall i | n < i < |s| :: s[n + 1..][i - n - 1] == s[i];
  }

  lemma GetLineBack(s: string, delim: char)
    requires '\n' !in s && GetLine(s, delim).Some? && GetLine(s, delim).value.1 != ""
    ensures var (token, rest) := GetLine(s, delim).value;
            delim !in token && '\n' !in rest && s == token + ([delim] + rest)
  {
    CutAtIndex(s, Find(s, delim));
  }

  lemma GetLastLine(s: string)
    requires '\n' !in s && s != ""
    ensures GetLine(s, '\n') == Some((s, ""))
  {
    GetLineAll(s, '\n');
  }

  lemma Coords(lat: string, lon: string)
    requires ',' !in lat
    ensures var coords := lat + ([','] + lon);
            Find(coords, ',') == |lat| && coords[..|lat|] == lat && coords[|lat| + 1..] == lon
  {
    var coords := lat + ([','] + lon);
    assert coords[..|lat|] == lat;
    FindIs(coords, ',', |lat|);
  }

  lemma LineShape(f: Frame, coords: string)
    requires coords == f.lat + ([','] + f.lon)
    ensures Line(f) == [f.kind] + (['|'] + (f.id + (['|'] + (coords + (['|'] + f.city)))))
  {
    assert f.lat + ([','] + (f.lon + (['|'] + f.city))) == coords + (['|'] + f.city);
    assert [f.kind, '|'] == [f.kind] + ['|'];
  }

  /** Formatting is undone by tokenising. */
  lemma TokensOfLine(f: Frame)
    requires Clean(f)
    ensures Tokens(Line(f)) == Some(f)
  {
    var coords := f.lat + ([','] + f.lon);
    LineShape(f, coords);
    var r2 := coords + (['|'] + f.city);
    var r1 := f.id + (['|'] + r2);
    GetLineOn([f.kind], '|', r1);
    IdOfLine(f, r2);
    CoordsOfLine(f, coords);
  }

  lemma IdOfLine(f: Frame, r2: string)
    requires Clean(f)
    ensures IdTokens(f.kind, f.id + (['|'] + r2)) == CoordTokens(f.kind, f.id, r2)
  {
    GetLineOn(f.id, '|', r2);
  }

  lemma CoordsOfLine(f: Frame, coords: string)
    requires Clean(f) && coords == f.lat + ([','] + f.lon)
    ensures CoordTokens(f.kind, f.id, coords + (['|'] + f.city)) == Some(f)
  {
    GetLineOn(coords, '|', f.city);
    Coords(f.lat, f.lon);
    GetLineAll(f.city, '\n');
  }

  lemma SplitCoords(coords: string)
    requires '|' !in coords && Find(coords, ',') < |coords|
    ensures var n := Find(coords, ',');
            var lat, lon := coords[..n], coords[n + 1..];
            coords == lat + ([','] + lon) && '|' !in lat && ',' !in lat && '|' !in lon
  {
    var n := Find(coords, ',');
    assert coords == coords[..n] + ([coords[n]] + coords[n + 1..]);
  }

  /** The tokens an accepted line is made of, one after the other. */
  lemma KindPart(line: string, f: Frame) returns (r1: string)
    requires Tokens(line) == Some(f)
    ensures KnownKind(f.kind) && GetLine(line, '|') == Some(([f.kind], r1))
    ensures IdTokens(f.kind, r1) == Some(f) && r1 != ""
  {
    var (kind, rest) := GetLine(line, '|').value;
    assert kind == [kind[0]];
    r1 := rest;
  }

  lemma IdPart(r1: string, f: Frame) returns (r2: string)
    requires IdTokens(f.kind, r1) == Some(f)
    ensures f.id != "" && GetLine(r1, '|') == Some((f.id, r2))
    ensures CoordTokens(f.kind, f.id, r2) == Some(f) && r2 != ""
  {
    r2 := GetLine(r1, '|').value.1;
  }

  lemma CoordPart(r2: string, f: Frame) returns (coords: string, r3: string)
    requires CoordTokens(f.kind, f.id, r2) == Some(f)
    ensures GetLine(r2, '|') == Some((coords, r3)) && Find(coords, ',') < |coords|
    ensures f.lat == coords[..Find(coords, ',')] && f.lon == coords[Find(coords, ',') + 1..]
    ensures CityToken(f.kind, f.id, f.lat, f.lon, r3) == Some(f) && r3 != ""
  {
    var (token, rest) := GetLine(r2, '|').value;
    coords, r3 := token, rest;
  }

  lemma CityPart(r3: string, f: Frame)
    requires CityToken(f.kind, f.id, f.lat, f.lon, r3) == Some(f) && '\n' !in r3
    ensures f.city != "" && f.city == r3
  {
    GetLastLine(r3);
  }

  /** Tokenising is undone by formatting: a line that yields fields is exactly
      their wire line. */
  lemma LineOfTokens(line: string)
    requires '\n' !in line && Tokens(line).Some?
    ensures Clean(Tokens(line).value) && Line(Tokens(line).value) == line
  {
    var f := Tokens(line).value;
    var r1 := KindPart(line, f);
    var r2 := IdPart(r1, f);
    var coords, r3 := CoordPart(r2, f);
    LineOfParts(line, f, r1, r2, coords, r3);
  }

  lemma LineOfParts(line: string, f: Frame, r1: string, r2: string, coords: string, r3: string)
    requires '\n' !in line
    requires KnownKind(f.kind) && GetLine(line, '|') == Some(([f.kind], r1))
    requires f.id != "" && GetLine(r1, '|') == Some((f.id, r2))
    requires GetLine(r2, '|') == Some((coords, r3)) && Find(coords, ',') < |coords|
    requires f.lat == coords[..Find(coords, ',')] && f.lon == coords[Find(coords, ',') + 1..]
    requires CityToken(f.kind, f.id, f.lat, f.lon, r3) == Some(f)
    requires r1 != "" && r2 != "" && r3 != ""
    ensures Clean(f) && Line(f) == line
  {
    GetLineBack(line, '|');
    GetLineBack(r1, '|');
    GetLineBack(r2, '|');
    CityPart(r3, f);
    SplitCoords(coords);
    LineShape(f, coords);
  }

  /** A newline-free line is accepted exactly when it is the wire line of clean
      fields with two readable coordinates; the message carries those. */
  lemma ParseIff(line: string, m: Msg)
    requires '\n' !in line
    ensures Parse(line) == Some(m) <==> exists f :: ReadsAs(line, f, m)
  {
    if Parse(line) == Some(m) {
      var f := ParsedFrame(line, m);
    }
    if f :| ReadsAs(line, f, m) {
      ReadsParsed(line, f, m);
    }
  }

  lemma ParsedFrame(line: string, m: Msg) returns (f: Frame)
    requires '\n' !in line && Parse(line) == Some(m)
    ensures ReadsAs(line, f, m)
  {
    f := Tokens(line).value;
    LineOfTokens(line);
    MsgOfFrame(line, f, m);
  }

  lemma MsgOfFrame(line: string, f: Frame, m: Msg)
    requires Parse(line) == Some(m) && Tokens(line) == Some(f)
    ensures Decimal.Stod(f.lat) == Some(m.lat) && Decimal.Stod(f.lon) == Some(m.lon)
    ensures m.kind == f.kind && m.id == Field(f.id, ID_LEN) && m.city == Field(f.city, CITY_LEN)
  {
  }

  lemma ReadsParsed(line: string, f: Frame, m: Msg)
    requires ReadsAs(line, f, m)
    ensures Parse(line) == Some(m)
  {
    TokensOfLine(f);
  }

  ghost predicate ReadsAs(line: string, f: Frame, m: Msg) {
    && Clean(f) && line == Line(f)
    && Decimal.Stod(f.lat) == Some(m.lat) && Decimal.Stod(f.lon) == Some(m.lon)
    && m.kind == f.kind && m.id == Field(f.id, ID_LEN) && m.city == Field(f.city, CITY_LEN)
  }

  /** Fields that survive the trip through a stream of lines to the server. */
  predicate Sendable(f: Frame) {
    && Clean(f) && '\n' !in f.id && '\n' !in f.lat && '\n' !in f.lon
    && f.city[|f.city| - 1] != '\r'
    && Decimal.Stod(f.lat).Some? && Decimal.Stod(f.lon).Some?
  }

  /** The message the server should get for a frame. */
  function MsgOf(f: Frame): Msg
    requires Sendable(f)
  {
    Msg(f.kind, f.id, Decimal.Stod(f.lat).value, Decimal.Stod(f.lon).value, f.city)
  }

  lemma LineIsOneLine(f: Frame)
    requires Sendable(f)
    ensures '\n' !in Line(f) && Line(f) != "" && StripCr(Line(f)) == Line(f)
  {
    var l := Line(f);
    var front := [f.kind, '|'] + (f.id + (['|'] + (f.lat + ([','] + (f.lon + ['|'])))));
    assert l == front + f.city;
    assert l[|l| - 1] == f.city[|f.city| - 1];
  }

  /** Frame to wire to message: the line of any sendable 48-byte frame is one message
      line, and the server reads from it the frame's own type, id, coordinates and city. */
  lemma FrameRoundTrip(buf: seq<char>)
    requires |buf| == FRAME_SIZE && Sendable(FieldsOf(buf))
    ensures var f := FieldsOf(buf);
            && Lines(Line(f) + "\n") == [Line(f)] && Tail(Line(f) + "\n") == ""
            && Messages([Line(f)]) == [Line(f)]
            && Parse(Line(f)) == Some(MsgOf(f))
  {
    var f := FieldsOf(buf);
    LineIsOneLine(f);
    LinesCons(Line(f), "");
    assert Line(f) + "\n" + "" == Line(f) + "\n";
    assert Lines("") == [] && [Line(f)] + [] == [Line(f)];
    assert Messages([]) == [];
    TokensOfLine(f);
  }

  // ----- the formats in plain terms -----

  /** The text of a wire line. */
  function Spelled(kind: char, id: string, lat: string, lon: string, city: string): string {
    [kind] + "|" + id + "|" + lat + "," + lon + "|" + city
  }

  lemma LineSpelled(f: Frame)
    ensures Line(f) == Spelled(f.kind, f.id, f.lat, f.lon, f.city)
  {
    var a, b, c := ['|'] + (f.lat + ([','] + (f.lon + (['|'] + f.city)))), ['|'] + f.city, [f.kind, '|'];
    assert c == [f.kind] + "|";
    assert f.lat + ([','] + (f.lon + b)) == f.lat + "," + f.lon + "|" + f.city;
    assert c + (f.id + a) == c + f.id + "|" + (f.lat + "," + f.lon + "|" + f.city);
    assert c + f.id + "|" + (f.lat + "," + f.lon + "|" + f.city) == c + f.id + "|" + f.lat + "," + f.lon + "|" + f.city;
  }

  /** What the server reads in a line of five clean texts. */
  lemma SpelledReads(line: string, f: Frame, x: real, y: real)
    requires line == Spelled(f.kind, f.id, f.lat, f.lon, f.city) && Clean(f)
    requires Decimal.Stod(f.lat) == Some(x) && Decimal.Stod(f.lon) == Some(y)
    ensures Parse(line) == Some(Msg(f.kind, Field(f.id, 64), x, y, Field(f.city, 64)))
  {
    LineSpelled(f);
    TokensOfLine(f);
  }

  /** A field of a frame holds a text that fits, up to its end or its first NUL. */
  predicate Holds(field: seq<char>, text: string) {
    && |text| < |field| && '\0' !in text && field[..|text|] == text
    && (|text| + 1 == |field| || field[|text|] == '\0')
  }

  lemma HoldsReads(field: seq<char>, text: string)
    requires Holds(field, text)
    ensures CStr(field[|field| - 1 := '\0']) == text
  {
    var t := field[|field| - 1 := '\0'];
    assert t[..|text|] == text;
    FindIs(t, '\0', |text|);
  }

  lemma TerminatedFields(buf: seq<char>)
    requires |buf| == FRAME_SIZE
    ensures var t := Terminated(buf);
            && t[0] == buf[0]
            && t[1..16] == buf[1..16][14 := '\0'] && t[16..24] == buf[16..24][7 := '\0']
            && t[24..32] == buf[24..32][7 := '\0'] && t[32..48] == buf[32..48][15 := '\0']
  {
  }

  /** The line of a frame whose bytes hold five texts in their places. */
  lemma FrameSpelled(buf: seq<char>, id: string, lat: string, lon: string, city: string)
    requires |buf| == FRAME_SIZE
    requires Holds(buf[1..16], id) && Holds(buf[16..24], lat) && Holds(buf[24..32], lon) && Holds(buf[32..48], city)
    ensures FieldsOf(buf) == Frame(buf[0], id, lat, lon, city)
    ensures Line(FieldsOf(buf)) == Spelled(buf[0], id, lat, lon, city)
  {
    TerminatedFields(buf);
    HoldsReads(buf[1..16], id);
    HoldsReads(buf[16..24], lat);
    HoldsReads(buf[24..32], lon);
    HoldsReads(buf[32..48], city);
    LineSpelled(FieldsOf(buf));
  }
}
