/** The price file as its two readers understand it: the server's loader, which reads
    C strings with `fgets`, and the database's reloader, which reads lines. */
module PriceFile {
  import opened Options
  import opened Text
  import opened Decimal

  const SHM_MAX_CITIES: nat := 64
  const CITY_NAME_LEN: nat := 64
  const MAX_LINE: nat := 256

  /** One row of the shared price table. */
  datatype Row = Row(city: string, price: real, active: bool)

  /** What the reloader takes from one line. */
  datatype Change = Remove(city: string) | Add(city: string, price: real)

  /** The lines of a file; the last one need not be terminated. */
  function FileLines(content: string): seq<string> {
    Lines(content) + if Tail(content) == "" then [] else [Tail(content)]
  }

  function ReloadLine(l: string): seq<Change> {
    ReloadBody(StripCr(l))
  }

  function ReloadBody(body: string): seq<Change> {
    if body == "" || body[0] == '#' then []
    else if body[0] == '-' then [Remove(body[1..])]
    else
      var comma := Find(body, ',');
      if comma == |body| then [] else AddEntry(body[..comma], Stod(body[comma + 1..]))
  }

  /** An entry whose price `stod` refused is passed over. */
  function AddEntry(city: string, price: Option<real>): seq<Change> {
    if price.Some? then [Add(city, price.value)] else []
  }

  function Changes(ls: seq<string>): seq<Change> {
    if ls == [] then [] else ReloadLine(ls[0]) + Changes(ls[1..])
  }

  lemma {:induction false} ChangesAppend(a: seq<string>, b: seq<string>)
    ensures Changes(a + b) == Changes(a) + Changes(b)
  {
    if a == [] {
      assert a + b == b;
    } else {
      ConsAppend(a, b);
      ChangesAppend(a[1..], b);
      Regroup(ReloadLine(a[0]), Changes(a[1..]), Changes(b));
    }
  }

  /** At most the first 64 rows. */
  function Capped(rows: seq<Row>): seq<Row> {
    if |rows| <= SHM_MAX_CITIES then rows else rows[..SHM_MAX_CITIES]
  }

  /** The table has room for 64 rows. */
  lemma CappedAt64(rows: seq<Row>)
    ensures Capped(rows) == if |rows| <= 64 then rows else rows[..64]
  {
  }

  function RowOf(city: string, price: real): Row {
    Row(Field(city, CITY_NAME_LEN), price, true)
  }

  function AddedRows(cs: seq<Change>): seq<Row> {
    if cs == [] then [] else
      (if cs[0].Add? then [RowOf(cs[0].city, cs[0].price)] else []) + AddedRows(cs[1..])
  }

  lemma {:induction false} AddedRowsAppend(a: seq<Change>, b: seq<Change>)
    ensures AddedRows(a + b) == AddedRows(a) + AddedRows(b)
  {
    if a == [] {
      assert a + b == b;
    } else {
      ConsAppend(a, b);
      AddedRowsAppend(a[1..], b);
      Regroup(if a[0].Add? then [RowOf(a[0].city, a[0].price)] else [], AddedRows(a[1..]), AddedRows(b));
    }
  }

  // ----- the loader -----

  /** How much of the rest of the file one `fgets` takes. */
  function FgetsLen(rest: string): (n: nat)
    ensures n <= |rest| && n < MAX_LINE
    ensures rest != "" ==> n > 0
  {
    var line := Find(rest, '\n');
    var len := if line < |rest| then line + 1 else line;
    if len < MAX_LINE then len else MAX_LINE - 1
  }

  function Pieces(rest: string): seq<string>
    decreases |rest|
  {
    if rest == "" then [] else
      var n := FgetsLen(rest);
      [rest[..n]] + Pieces(rest[n..])
  }

  /** A C string cut at its first carriage return or newline. */
  function Chomp(piece: string): string {
    var s := CStr(piece);
    var cr, nl := Find(s, '\r'), Find(s, '\n');
    s[..if cr < nl then cr else nl]
  }

  function LoadLine(piece: string): seq<Row> {
    LoadBody(Chomp(piece))
  }

  function LoadBody(body: string): seq<Row> {
    if body == "" || body[0] == '#' then [] else
      var comma := Find(body, ',');
      if comma == |body| then [] else [RowOf(body[..comma], Atof(body[comma + 1..]))]
  }

  function LoadedRows(pieces: seq<string>): seq<Row> {
    if pieces == [] then [] else LoadLine(pieces[0]) + LoadedRows(pieces[1..])
  }

  // ----- where the two readers agree -----

  /** A line short enough for one `fgets`, without NULs, with no carriage return but
      perhaps one at its end. */
  predicate Simple(l: string) {
    |l| < MAX_LINE - 1 && '\0' !in l && '\n' !in l && '\r' !in StripCr(l)
  }

  /** The lines the readers take differently: a removal with a comma in it, which the
      loader takes for a city, and an entry whose price is not a number, which the
      loader takes for 0. */
  predicate Disputed(l: string) {
    DisputedBody(StripCr(l))
  }

  predicate DisputedBody(body: string) {
    var comma := Find(body, ',');
    body != "" && body[0] != '#' && comma < |body| && (body[0] == '-' || Stod(body[comma + 1..]).None?)
  }

  lemma ChompSimple(l: string, end: string)
    requires Simple(l) && (end == "" || end == "\n")
    ensures Chomp(l + end) == StripCr(l)
  {
    var s, body := l + end, StripCr(l);
    assert '\0' !in s;
    assert CStr(s) == s;
    assert s[..|body|] == body;
    var cr, nl := Find(s, '\r'), Find(s, '\n');
    assert s[..|l|] == l;
    FindIs(s, '\n', |l|);
    if body == l {
      if end == "" { FindAbsent(s, '\r'); } else { assert '\r' !in s; FindAbsent(s, '\r'); }
    } else {
      FindIs(s, '\r', |body|);
    }
  }

  /** On a simple line the loader and the reloader leave the same rows exactly when
      the line is not disputed; on a disputed line the loader takes one more. */
  lemma LineAgreement(l: string, end: string)
    requires Simple(l) && (end == "" || end == "\n")
    ensures LoadLine(l + end) == AddedRows(ReloadLine(l)) <==> !Disputed(l)
    ensures |LoadLine(l + end)| == |AddedRows(ReloadLine(l))| + if Disputed(l) then 1 else 0
  {
    ChompSimple(l, end);
    BodyAgreement(StripCr(l));
  }

  lemma BodyAgreement(body: string)
    ensures LoadBody(body) == AddedRows(ReloadBody(body)) <==> !DisputedBody(body)
    ensures |LoadBody(body)| == |AddedRows(ReloadBody(body))| + if DisputedBody(body) then 1 else 0
  {
    if body == "" || body[0] == '#' || Find(body, ',') == |body| {
      NoRows(ReloadBody(body));
    } else {
      EntryAgreement(body, Find(body, ','));
    }
  }

  lemma NoRows(cs: seq<Change>)
    requires |cs| <= 1 && (cs != [] ==> cs[0].Remove?)
    ensures AddedRows(cs) == []
  {
    if cs != [] { assert cs[1..] == []; }
  }

  /** The line with a comma, neither blank nor a comment. */
  lemma EntryAgreement(body: string, comma: nat)
    requires body != "" && body[0] != '#' && comma == Find(body, ',') < |body|
    ensures [RowOf(body[..comma], Atof(body[comma + 1..]))] == AddedRows(ReloadBody(body))
       <==> body[0] != '-' && Stod(body[comma + 1..]).Some?
    ensures |AddedRows(ReloadBody(body))| == if body[0] != '-' && Stod(body[comma + 1..]).Some? then 1 else 0
  {
    if body[0] == '-' {
      NoRows(ReloadBody(body));
    } else {
      EntryBody(body, comma);
      AddedEntry(body[..comma], Stod(body[comma + 1..]));
    }
  }

  lemma EntryBody(body: string, comma: nat)
    requires body != "" && body[0] != '#' && body[0] != '-' && comma == Find(body, ',') < |body|
    ensures ReloadBody(body) == AddEntry(body[..comma], Stod(body[comma + 1..]))
  {
  }

  lemma AddedEntry(city: string, price: Option<real>)
    ensures AddedRows(AddEntry(city, price)) == if price.Some? then [RowOf(city, price.value)] else []
  {
    if price.Some? {
      assert AddEntry(city, price)[1..] == [] && AddedRows([]) == [];
    }
  }

  lemma FileLinesCons(l: string, rest: string)
    requires '\n' !in l
    ensures FileLines(l + "\n" + rest) == [l] + FileLines(rest)
  {
    LinesCons(l, rest);
    Regroup([l], Lines(rest), if Tail(rest) == "" then [] else [Tail(rest)]);
  }

  lemma PiecesCons(l: string, rest: string)
    requires '\n' !in l && |l| < MAX_LINE - 1
    ensures Pieces(l + "\n" + rest) == [l + "\n"] + Pieces(rest)
  {
    var s := l + "\n" + rest;
    assert s[..|l|] == l;
    FindIs(s, '\n', |l|);
    assert s[..|l| + 1] == l + "\n" && s[|l| + 1..] == rest;
  }

  /** One `fgets` more. */
  lemma LoadStep(rest: string)
    requires rest != ""
    ensures LoadedRows(Pieces(rest)) == LoadLine(rest[..FgetsLen(rest)]) + LoadedRows(Pieces(rest[FgetsLen(rest)..]))
  {
    var n := FgetsLen(rest);
    ConsAppend([rest[..n]], Pieces(rest[n..]));
    assert Pieces(rest)[1..] == [] + Pieces(rest[n..]) == Pieces(rest[n..]);
  }

  lemma LastLine(content: string)
    requires Find(content, '\n') == |content|
    ensures FileLines(content) == if content == "" then [] else [content]
  {
    assert content[..|content|] == content;
  }

  /** The rows the loader takes, line by line. */
  function LoadedLines(ls: seq<string>): seq<Row> {
    if ls == [] then [] else LoadLine(ls[0]) + LoadedLines(ls[1..])
  }

  predicate SimpleLines(ls: seq<string>) {
    forall i | 0 <= i < |ls| :: Simple(ls[i])
  }

  /** On simple lines `fgets` cuts the file where the lines end. */
  lemma {:induction false} PiecesAreLines(content: string)
    requires SimpleLines(FileLines(content))
    ensures LoadedRows(Pieces(content)) == LoadedLines(FileLines(content))
    decreases |content|
  {
    var n := Find(content, '\n');
    if n < |content| {
      var l, rest := content[..n], content[n + 1..];
      CutAt(content, n);
      FileLinesCons(l, rest);
      SimpleRest(l, FileLines(rest));
      PiecesAreLines(rest);
      PiecesCons(l, rest);
      ConsRows(l, "\n", Pieces(rest), FileLines(rest));
    } else {
      LastLine(content);
      if content != "" {
        assert Simple(FileLines(content)[0]);
        LastPiece(content);
        ConsRows(content, "", [], []);
      }
    }
  }

  lemma SimpleRest(l: string, ls: seq<string>)
    requires SimpleLines([l] + ls)
    ensures Simple(l) && SimpleLines(ls)
  {
    assert ([l] + ls)[0] == l;
    forall i | 0 <= i < |ls| ensures Simple(ls[i]) {
      assert ([l] + ls)[i + 1] == ls[i];
    }
  }

  lemma LastPiece(content: string)
    requires content != "" && Find(content, '\n') == |content| < MAX_LINE
    ensures Pieces(content) == [content] + [] && content + "" == content
  {
    assert content[..|content|] == content && content[|content|..] == "";
  }

  lemma ConsRows(l: string, end: string, pieces: seq<string>, ls: seq<string>)
    requires Simple(l) && (end == "" || end == "\n") && LoadedRows(pieces) == LoadedLines(ls)
    ensures LoadedRows([l + end] + pieces) == LoadedLines([l] + ls)
  {
    ChompSimple(l, end);
    ChompSimple(l, "");
    assert l + "" == l;
    assert ([l + end] + pieces)[1..] == pieces && ([l] + ls)[1..] == ls;
  }

  function DisputedCount(ls: seq<string>): nat {
    if ls == [] then 0 else (if Disputed(ls[0]) then 1 else 0) + DisputedCount(ls[1..])
  }

  lemma {:induction false} NoneDisputed(ls: seq<string>)
    ensures DisputedCount(ls) == 0 <==> forall l | l in ls :: !Disputed(l)
  {
    if ls != [] {
      NoneDisputed(ls[1..]);
      assert forall l :: l in ls <==> l == ls[0] || l in ls[1..];
    }
  }

  /** The loader takes one more row for every disputed line. */
  lemma {:induction false} RowCount(ls: seq<string>)
    requires SimpleLines(ls)
    ensures |LoadedLines(ls)| == |AddedRows(Changes(ls))| + DisputedCount(ls)
    ensures DisputedCount(ls) == 0 ==> LoadedLines(ls) == AddedRows(Changes(ls))
  {
    if ls != [] {
      assert SimpleLines(ls[1..]);
      RowCount(ls[1..]);
      LineAgreement(ls[0], "");
      assert ls[0] + "" == ls[0];
      AddedRowsAppend(ReloadLine(ls[0]), Changes(ls[1..]));
    }
  }

  /** The two readers take the same rows from a file of simple lines if and only if none
      of the lines is disputed. */
  lemma FileAgreement(content: string)
    requires SimpleLines(FileLines(content))
    ensures LoadedRows(Pieces(content)) == AddedRows(Changes(FileLines(content)))
       <==> forall l | l in FileLines(content) :: !Disputed(l)
  {
    PiecesAreLines(content);
    RowCount(FileLines(content));
    NoneDisputed(FileLines(content));
  }

  // ----- what the 64 rows of the table make of it -----

  /** The rows both readers take before the first disputed line. */
  function AgreedRows(ls: seq<string>): seq<Row> {
    if ls == [] || Disputed(ls[0]) then [] else LoadLine(ls[0]) + AgreedRows(ls[1..])
  }

  /** The rows the loader takes from there on, the disputed line's first. */
  function LoadedOn(ls: seq<string>): seq<Row> {
    if ls == [] then [] else if Disputed(ls[0]) then LoadedLines(ls) else LoadedOn(ls[1..])
  }

  function AddedOn(ls: seq<string>): seq<Row> {
    if ls == [] then [] else if Disputed(ls[0]) then AddedRows(Changes(ls)) else AddedOn(ls[1..])
  }

  /** Both readers take the agreed rows first; from the first disputed line on the loader
      takes its row, and all that the reloader takes. */
  lemma {:induction false} SplitAtDispute(ls: seq<string>)
    requires SimpleLines(ls)
    ensures LoadedLines(ls) == AgreedRows(ls) + LoadedOn(ls)
    ensures AddedRows(Changes(ls)) == AgreedRows(ls) + AddedOn(ls)
    ensures |LoadedOn(ls)| == |AddedOn(ls)| + DisputedCount(ls)
    ensures DisputedCount(ls) == 0 ==> LoadedOn(ls) == AddedOn(ls) == []
    ensures forall row | row in AddedOn(ls) :: row in LoadedOn(ls)[if DisputedCount(ls) > 0 then 1 else 0..]
    decreases |ls|
  {
    if ls != [] {
      var l, rest := ls[0], ls[1..];
      assert SimpleLines(rest);
      LineAgreement(l, "");
      assert l + "" == l;
      AddedRowsAppend(ReloadLine(l), Changes(rest));
      if Disputed(l) {
        OneRow(l);
        RowCount(rest);
        RowsAmong(rest);
        assert [] + AddedRows(Changes(rest)) == AddedRows(Changes(rest));
        assert LoadedLines(ls)[1..] == LoadedLines(rest);
      } else {
        SplitAtDispute(rest);
        Regroup(LoadLine(l), AgreedRows(rest), LoadedOn(rest));
        Regroup(LoadLine(l), AgreedRows(rest), AddedOn(rest));
      }
    }
  }

  lemma OneRow(l: string)
    ensures |LoadLine(l)| <= 1
  {
  }

  lemma {:induction false} RowsAmong(ls: seq<string>)
    requires SimpleLines(ls)
    ensures forall row | row in AddedRows(Changes(ls)) :: row in LoadedLines(ls)
  {
    if ls != [] {
      assert SimpleLines(ls[1..]);
      RowsAmong(ls[1..]);
      LineAgreement(ls[0], "");
      OneRow(ls[0]);
      assert ls[0] + "" == ls[0];
      AddedRowsAppend(ReloadLine(ls[0]), Changes(ls[1..]));
    }
  }

  ghost predicate DistinctCities(rows: seq<Row>) {
    forall i, j | 0 <= i < j < |rows| :: rows[i].city != rows[j].city
  }

  /** The tables: they agree if no line is disputed before the 64th row. Otherwise they
      can only agree if the table is full and the first disputed line's row is also the
      next one the reloader takes; so they agree exactly when no line is disputed, as
      long as the table is not full, and exactly when none is disputed before the 64th
      row, as long as the loader reads no city twice. */
  lemma TableAgreement(content: string)
    requires SimpleLines(FileLines(content))
    ensures var ls := FileLines(content);
            var agree := Capped(LoadedRows(Pieces(content))) == Capped(AddedRows(Changes(ls)));
            var early := DisputedCount(ls) > 0 && |AgreedRows(ls)| < SHM_MAX_CITIES;
            && (!early ==> agree)
            && (early && agree ==> |AddedRows(Changes(ls))| >= SHM_MAX_CITIES
                                   && LoadedOn(ls) != [] && AddedOn(ls) != [] && AddedOn(ls)[0] == LoadedOn(ls)[0])
            && (|AddedRows(Changes(ls))| < SHM_MAX_CITIES ==> (agree <==> DisputedCount(ls) == 0))
            && (DistinctCities(LoadedRows(Pieces(content))) ==> (agree <==> !early))
  {
    var ls := FileLines(content);
    PiecesAreLines(content);
    SplitAtDispute(ls);
    CappedTables(AgreedRows(ls), LoadedOn(ls), AddedOn(ls), DisputedCount(ls));
  }

  lemma CappedTables(agreed: seq<Row>, loaded: seq<Row>, added: seq<Row>, more: nat)
    requires |loaded| == |added| + more && (more == 0 ==> loaded == added)
    requires more > 0 ==> forall row | row in added :: row in loaded[1..]
    ensures var agree := Capped(agreed + loaded) == Capped(agreed + added);
            var early := more > 0 && |agreed| < SHM_MAX_CITIES;
            && (!early ==> agree)
            && (early && agree ==> |agreed + added| >= SHM_MAX_CITIES
                                   && added != [] && added[0] == loaded[0])
            && (|agreed + added| < SHM_MAX_CITIES ==> (agree <==> more == 0))
            && (DistinctCities(agreed + loaded) ==> (agree <==> !early))
  {
    var n := |agreed|;
    if more > 0 && n >= SHM_MAX_CITIES {
      assert Capped(agreed + loaded) == agreed[..SHM_MAX_CITIES] == Capped(agreed + added);
    } else if more > 0 && Capped(agreed + loaded) == Capped(agreed + added) {
      assert Capped(agreed + loaded)[n] == loaded[0];
      assert |agreed + added| >= SHM_MAX_CITIES;
      assert Capped(agreed + added)[n] == added[0];
      assert added[0] in loaded[1..];
      var k :| 0 <= k < |loaded[1..]| && loaded[1..][k] == added[0];
      assert (agreed + loaded)[n] == (agreed + loaded)[n + 1 + k];
    }
  }

  // ----- the file format in plain terms -----

  /** The reloader: an entry is a name and a number, ... */
  lemma ReloadsEntry(l: string, city: string, text: string)
    requires l == city + ("," + text) && ',' !in city && l[|l| - 1] != '\r'
    requires city != "" ==> city[0] != '#' && city[0] != '-'
    ensures Stod(text) == None ==> ReloadLine(l) == []
    ensures forall x | Stod(text) == Some(x) :: ReloadLine(l) == [Add(city, x)]
  {
    EntryIsAdd(l, city, text, Stod(text));
  }

  lemma EntryIsAdd(l: string, city: string, text: string, price: Option<real>)
    requires l == city + ("," + text) && ',' !in city && l[|l| - 1] != '\r' && price == Stod(text)
    requires city != "" ==> city[0] != '#' && city[0] != '-'
    ensures ReloadLine(l) == AddEntry(city, price)
  {
    CutEntry(l, city, text);
    CutIsAdd(l, city, text, price);
  }

  lemma CutEntry(l: string, city: string, text: string)
    requires l == city + ("," + text) && ',' !in city
    ensures Find(l, ',') == |city| < |l| && l[..|city|] == city && l[|city| + 1..] == text
    ensures l[0] == if city == "" then ',' else city[0]
  {
    assert l[..|city|] == city && l[|city| + 1..] == text;
    FindIs(l, ',', |city|);
  }

  lemma CutIsAdd(l: string, city: string, text: string, price: Option<real>)
    requires Find(l, ',') == |city| < |l| && l[..|city|] == city && l[|city| + 1..] == text && price == Stod(text)
    requires l[0] != '#' && l[0] != '-' && l[|l| - 1] != '\r'
    ensures ReloadLine(l) == AddEntry(city, price)
  {
    assert StripCr(l) == l;
    EntryBody(l, |city|);
  }

  /** ... a removal a dash and a name, ... */
  lemma ReloadsRemoval(city: string)
    requires city != "" ==> city[|city| - 1] != '\r'
    ensures ReloadLine("-" + city) == [Remove(city)]
  {
    var l := "-" + city;
    assert StripCr(l) == l && l[1..] == city;
  }

  /** ... and blanks, comments and lines without a comma are nothing. */
  lemma ReloadsNothing(l: string)
    requires l == "" || l[0] == '#' || (l[0] != '-' && ',' !in l)
    ensures ReloadLine(l) == []
  {
    var body := StripCr(l);
    if ',' !in l {
      FindAbsent(body, ',');
    }
  }

  /** A carriage return at the end of a line means nothing. */
  lemma ReloadsCr(l: string)
    requires l != "" ==> l[|l| - 1] != '\r'
    ensures ReloadLine(l + "\r") == ReloadLine(l)
  {
    StripOne(l);
  }

  predicate LineEnd(end: string) {
    end == "" || end == "\n" || end == "\r\n"
  }

  lemma ChompEnds(body: string, end: string)
    requires '\0' !in body && '\r' !in body && '\n' !in body && LineEnd(end)
    ensures Chomp(body + end) == body
  {
    var s := body + end;
    assert '\0' !in s;
    assert s[..|body|] == body;
    if end == "\r\n" {
      FindIs(s, '\r', |body|);
      assert Find(s, '\n') >= |body|;
    } else {
      FindIs(s, '\n', |body|);
      assert '\r' !in s;
    }
  }

  /** The loader: a name and a number, which is 0 where there is none, ... */
  lemma LoadsEntry(body: string, city: string, text: string, end: string)
    requires body == city + ("," + text) && ',' !in city && (city != "" ==> city[0] != '#')
    requires '\0' !in body && '\r' !in body && '\n' !in body && LineEnd(end)
    ensures |LoadLine(body + end)| == 1
    ensures var row := LoadLine(body + end)[0];
            && row.city == (if |city| < 64 then city else city[..63]) && row.active
            && (Stod(text) == None ==> row.price == 0.0)
    ensures forall x | Stod(text) == Some(x) :: LoadLine(body + end)[0].price == x
  {
    ChompEnds(body, end);
    BodyLoads(body, city, text);
    assert forall i | 0 <= i < |city| :: city[i] == body[i];
    RowMeans(city, text, Stod(text));
  }

  lemma BodyLoads(body: string, city: string, text: string)
    requires body == city + ("," + text) && ',' !in city && (city != "" ==> city[0] != '#')
    ensures LoadBody(body) == [RowOf(city, Atof(text))]
  {
    CutEntry(body, city, text);
  }

  lemma RowMeans(city: string, text: string, price: Option<real>)
    requires '\0' !in city && price == Stod(text)
    ensures var row := RowOf(city, Atof(text));
            && row.city == (if |city| < 64 then city else city[..63]) && row.active
            && row.price == if price.Some? then price.value else 0.0
  {
    assert CStr(city) == city;
  }

  /** ... and blanks, comments and lines without a comma are nothing. */
  lemma LoadsNothing(body: string, end: string)
    requires '\0' !in body && '\r' !in body && '\n' !in body && LineEnd(end)
    requires body == "" || body[0] == '#' || ',' !in body
    ensures LoadLine(body + end) == []
  {
    ChompEnds(body, end);
    if ',' !in body {
      FindAbsent(body, ',');
    }
  }

  /** One `fgets`: up to the end of the line or 255 bytes. */
  predicate IsPiece(piece: string, last: bool) {
    && 0 < |piece| <= 255 && '\n' !in piece[..|piece| - 1]
    && (piece[|piece| - 1] == '\n' || |piece| == 255 || last)
  }

  lemma {:induction false} PiecesMean(content: string)
    ensures Concat(Pieces(content)) == content
    ensures forall i | 0 <= i < |Pieces(content)| :: IsPiece(Pieces(content)[i], i == |Pieces(content)| - 1)
    decreases |content|
  {
    if content != "" {
      var n := FgetsLen(content);
      var rest := content[n..];
      PiecesMean(rest);
      FirstPiece(content);
      assert Pieces(content) == [content[..n]] + Pieces(rest);
      assert Pieces(content)[1..] == Pieces(rest);
      assert content[..n] + rest == content;
      forall i | 0 <= i < |Pieces(content)| ensures IsPiece(Pieces(content)[i], i == |Pieces(content)| - 1) {
        if i > 0 {
          assert Pieces(content)[i] == Pieces(rest)[i - 1];
        }
      }
    }
  }

  lemma FirstPiece(content: string)
    requires content != ""
    ensures var n := FgetsLen(content); IsPiece(content[..n], Pieces(content[n..]) == [])
  {
    var n, line := FgetsLen(content), Find(content, '\n');
    assert content[..n][..n - 1] == content[..n - 1];
    assert forall i | 0 <= i < n - 1 :: content[i] == content[..line][i];
  }
}
