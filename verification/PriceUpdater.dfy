/** The command line tool that edits the price file. */
module PriceUpdater {
  import opened Options
  import opened Text
  import opened Decimal
  import opened PriceFile
  import opened PriceTable
  import opened PriceReloader

  /** The line `add` writes, without its newline. */
  function EntryLine(city: string, price: real): string {
    city + ("," + Printed(price))
  }

  /** A file piece that `add` takes for the city's old entry. */
  predicate IsEntryOf(piece: string, city: string) {
    var copy := Chomp(piece);
    var comma := Find(copy, ',');
    comma < |copy| && copy[..comma] == city
  }

  function Others(pieces: seq<string>, city: string): seq<string> {
    if pieces == [] then [] else
      (if IsEntryOf(pieces[0], city) then [] else [CStr(pieces[0])]) + Others(pieces[1..], city)
  }

  /** The file `add` leaves behind. */
  function Added(content: string, city: string, price: real): string {
    Concat(Others(Pieces(content), city)) + (EntryLine(city, price) + "\n")
  }

  /** The file `remove` leaves behind. */
  function Removed(content: string, city: string): string {
    content + ("-" + city + "\n")
  }

  method CopyOthers(content: string, city: string) returns (out: string)
    ensures out == Concat(Others(Pieces(content), city))
  {
    out := "";
    var rest := content;
    ghost var all := Concat(Others(Pieces(rest), city));
    assert "" + all == all;
    while rest != ""
      invariant out + Concat(Others(Pieces(rest), city)) == all
      decreases |rest|
    {
      var n := FgetsLen(rest);
      var line := rest[..n];
      OthersStep(rest, out, city);
      rest := rest[n..];
      var copy := Chomp(line);
      var comma := Find(copy, ',');
      if comma < |copy| && copy[..comma] == city { continue; }
      out := out + CStr(line);
    }
    assert out + "" == out;
  }

  /** `cmd_add`: every other piece is copied, the city's entries are dropped, the new
      one goes last. The result is written to a temporary file, which then takes the
      file's place; if either fails the file stays as it is. None stands for a file
      that does not exist. */
  method CmdAdd(file: Option<string>, city: string, price: real, opens: bool, renames: bool)
      returns (rc: int, after: Option<string>)
    ensures rc == if opens && renames then 0 else -1
    ensures after == if rc == 0 then Some(Added(if file.Some? then file.value else "", city, price)) else file
  {
    if !opens { return -1, file; }
    var out := "";
    if file.Some? {
      out := CopyOthers(file.value, city);
    }
    out := out + (EntryLine(city, price) + "\n");
    if !renames { return -1, file; }
    return 0, Some(out);
  }

  lemma OthersStep(rest: string, out: string, city: string)
    requires rest != ""
    ensures out + Concat(Others(Pieces(rest), city))
         == (if IsEntryOf(rest[..FgetsLen(rest)], city) then out else out + CStr(rest[..FgetsLen(rest)]))
            + Concat(Others(Pieces(rest[FgetsLen(rest)..]), city))
  {
    OthersMove(rest[..FgetsLen(rest)], Pieces(rest[FgetsLen(rest)..]), out, city);
  }

  lemma OthersMove(piece: string, more: seq<string>, out: string, city: string)
    ensures out + Concat(Others([piece] + more, city))
         == (if IsEntryOf(piece, city) then out else out + CStr(piece)) + Concat(Others(more, city))
  {
    OthersCons(piece, more, city);
    Regroup(out, CStr(piece), Concat(Others(more, city)));
  }

  lemma OthersCons(piece: string, more: seq<string>, city: string)
    ensures IsEntryOf(piece, city) ==> Concat(Others([piece] + more, city)) == Concat(Others(more, city))
    ensures !IsEntryOf(piece, city) ==> Concat(Others([piece] + more, city)) == CStr(piece) + Concat(Others(more, city))
  {
    assert ([piece] + more)[1..] == more;
    var rest := Others(more, city);
    if IsEntryOf(piece, city) {
      assert [] + rest == rest;
    } else {
      assert ([CStr(piece)] + rest)[1..] == rest;
    }
  }

  // ----- what an edit does to the lines -----

  predicate LineIsEntry(l: string, city: string) {
    var body := StripCr(l);
    var comma := Find(body, ',');
    comma < |body| && body[..comma] == city
  }

  function OtherLines(ls: seq<string>, city: string): seq<string> {
    if ls == [] then [] else
      (if LineIsEntry(ls[0], city) then [] else [ls[0]]) + OtherLines(ls[1..], city)
  }

  /** What `add` copies, as lines; an unterminated last line is copied as it is. */
  lemma {:induction false} CopiedLines(content: string, city: string)
    requires SimpleLines(FileLines(content))
    ensures Concat(Others(Pieces(content), city))
         == Join(OtherLines(Lines(content), city), if LineIsEntry(Tail(content), city) then "" else Tail(content))
    decreases |content|
  {
    var n := Find(content, '\n');
    if n < |content| {
      SimpleCut(content, n);
      CopiedLines(content[n + 1..], city);
      CopiedCut(content, n, city);
    } else {
      LastLine(content);
      LinesNone(content);
      if content != "" {
        assert Simple(FileLines(content)[0]);
        CopiedLast(content, city);
      }
    }
  }

  lemma SimpleCut(content: string, n: nat)
    requires SimpleLines(FileLines(content)) && n == Find(content, '\n') < |content|
    ensures Simple(content[..n]) && SimpleLines(FileLines(content[n + 1..]))
  {
    var l, rest := content[..n], content[n + 1..];
    CutAt(content, n);
    FileLinesCons(l, rest);
    SimpleRest(l, FileLines(rest));
  }

  lemma CopiedCut(content: string, n: nat, city: string)
    requires n == Find(content, '\n') < |content| && Simple(content[..n])
    requires Concat(Others(Pieces(content[n + 1..]), city))
          == Join(OtherLines(Lines(content[n + 1..]), city),
                  if LineIsEntry(Tail(content[n + 1..]), city) then "" else Tail(content[n + 1..]))
    ensures Concat(Others(Pieces(content), city))
         == Join(OtherLines(Lines(content), city), if LineIsEntry(Tail(content), city) then "" else Tail(content))
  {
    var l, rest := content[..n], content[n + 1..];
    CutAt(content, n);
    LinesCons(l, rest);
    PiecesCons(l, rest);
    CopiedCons(l, rest, city);
  }

  lemma CopiedLast(content: string, city: string)
    requires content != "" && Simple(content)
    ensures Concat(Others(Pieces(content), city)) == if LineIsEntry(content, city) then "" else content
  {
    FindAbsent(content, '\n');
    LastPiece(content);
    ChompSimple(content, "");
    OthersCons(content, [], city);
    assert Concat(Others([], city)) == "";
  }

  lemma CopiedCons(l: string, rest: string, city: string)
    requires Simple(l)
    requires Concat(Others(Pieces(rest), city))
          == Join(OtherLines(Lines(rest), city), if LineIsEntry(Tail(rest), city) then "" else Tail(rest))
    ensures Concat(Others([l + "\n"] + Pieces(rest), city))
         == Join(OtherLines([l] + Lines(rest), city), if LineIsEntry(Tail(rest), city) then "" else Tail(rest))
  {
    ChompSimple(l, "\n");
    OthersCons(l + "\n", Pieces(rest), city);
    assert '\0' !in l + "\n";
    OtherLinesCons(l, Lines(rest), city, if LineIsEntry(Tail(rest), city) then "" else Tail(rest));
  }

  lemma OtherLinesCons(l: string, ls: seq<string>, city: string, t: string)
    ensures LineIsEntry(l, city) ==> OtherLines([l] + ls, city) == OtherLines(ls, city)
    ensures !LineIsEntry(l, city) ==> OtherLines([l] + ls, city) == [l] + OtherLines(ls, city)
    ensures !LineIsEntry(l, city) ==> Join(OtherLines([l] + ls, city), t) == l + "\n" + Join(OtherLines(ls, city), t)
  {
    assert ([l] + ls)[1..] == ls;
    if LineIsEntry(l, city) {
      assert [] + OtherLines(ls, city) == OtherLines(ls, city);
    } else {
      JoinCons(l, OtherLines(ls, city), t);
    }
  }

  lemma {:induction false} OtherLinesClean(ls: seq<string>, city: string)
    requires NewlineFree(ls)
    ensures NewlineFree(OtherLines(ls, city))
  {
    if ls != [] {
      OtherLinesClean(ls[1..], city);
    }
  }

  /** The lines of the file after `add`: the other lines, then the new entry - behind
      whatever was left unterminated. */
  lemma AddedLines(content: string, city: string, price: real)
    requires SimpleLines(FileLines(content)) && '\n' !in EntryLine(city, price)
    ensures var left := if LineIsEntry(Tail(content), city) then "" else Tail(content);
            && Lines(Added(content, city, price))
            == OtherLines(Lines(content), city) + [left + EntryLine(city, price)]
            && Tail(Added(content, city, price)) == ""
  {
    var left := if LineIsEntry(Tail(content), city) then "" else Tail(content);
    var entry := EntryLine(city, price);
    CopiedLines(content, city);
    LinesAreLines(content);
    OtherLinesClean(Lines(content), city);
    OneMoreLine(OtherLines(Lines(content), city), left, entry);
  }

  lemma OneMoreLine(kept: seq<string>, left: string, entry: string)
    requires NewlineFree(kept) && '\n' !in left && '\n' !in entry
    ensures Lines(Join(kept, left) + (entry + "\n")) == kept + [left + entry]
    ensures Tail(Join(kept, left) + (entry + "\n")) == ""
  {
    JoinThen(kept, left, entry + "\n");
    LinesOfJoin(kept, left + (entry + "\n"));
    LastLineEnds(left, entry);
  }

  lemma LastLineEnds(left: string, entry: string)
    requires '\n' !in left && '\n' !in entry
    ensures Lines(left + (entry + "\n")) == [left + entry] && Tail(left + (entry + "\n")) == ""
  {
    assert left + (entry + "\n") == (left + entry) + "\n" + "";
    LinesCons(left + entry, "");
    assert Lines("") == [] && [left + entry] + [] == [left + entry];
  }

  /** `add` puts its entry on a line of its own exactly when the file was terminated,
      or its unterminated last line was the city's own entry. */
  lemma AddedLineIff(content: string, city: string, price: real)
    requires SimpleLines(FileLines(content)) && '\n' !in EntryLine(city, price)
    ensures Lines(Added(content, city, price)) == OtherLines(FileLines(content), city) + [EntryLine(city, price)]
       <==> Tail(content) == "" || LineIsEntry(Tail(content), city)
  {
    AddedLines(content, city, price);
    var kept, entry, tail := OtherLines(Lines(content), city), EntryLine(city, price), Tail(content);
    assert "" + entry == entry;
    if tail == "" {
      assert FileLines(content) == Lines(content);
    } else {
      OtherLinesAppend(Lines(content), [tail], city);
      OtherLinesCons(tail, [], city, "");
      assert [tail] + [] == [tail] && OtherLines([], city) == [];
      if LineIsEntry(tail, city) {
        assert kept + [] == kept;
      } else {
        Longer(kept, tail, entry, tail + entry);
      }
    }
  }

  lemma Longer(kept: seq<string>, tail: string, entry: string, merged: string)
    ensures kept + [merged] != (kept + [tail]) + [entry]
  {
    assert |(kept + [tail]) + [entry]| == |kept| + 2;
  }

  lemma {:induction false} OtherLinesAppend(a: seq<string>, b: seq<string>, city: string)
    ensures OtherLines(a + b, city) == OtherLines(a, city) + OtherLines(b, city)
  {
    if a == [] {
      assert a + b == b;
    } else {
      ConsAppend(a, b);
      OtherLinesAppend(a[1..], b, city);
      Regroup(if LineIsEntry(a[0], city) then [] else [a[0]], OtherLines(a[1..], city), OtherLines(b, city));
    }
  }

  // ----- what an edit means -----

  /** A name of one line. */
  predicate LineText(city: string) {
    '\r' !in city && '\n' !in city && '\0' !in city
  }

  /** A name the file format keeps apart from comments, removals and prices. */
  predicate Keepable(city: string) {
    ',' !in city && (city != "" ==> city[0] != '#' && city[0] != '-')
  }

  predicate PlainCity(city: string) {
    LineText(city) && Keepable(city)
  }

  function WithoutAdds(cs: seq<Change>, city: string): seq<Change> {
    if cs == [] then [] else
      (if cs[0].Add? && CStr(cs[0].city) == city then [] else [cs[0]]) + WithoutAdds(cs[1..], city)
  }

  lemma {:induction false} WithoutAddsAppend(a: seq<Change>, b: seq<Change>, city: string)
    ensures WithoutAdds(a + b, city) == WithoutAdds(a, city) + WithoutAdds(b, city)
  {
    if a == [] {
      assert a + b == b;
    } else {
      ConsAppend(a, b);
      WithoutAddsAppend(a[1..], b, city);
      Regroup(if a[0].Add? && CStr(a[0].city) == city then [] else [a[0]],
              WithoutAdds(a[1..], city), WithoutAdds(b, city));
    }
  }

  lemma LineWithoutAdd(l: string, city: string)
    requires Simple(l) && PlainCity(city)
    ensures WithoutAdds(ReloadLine(l), city) == if LineIsEntry(l, city) then [] else ReloadLine(l)
  {
    var cs := ReloadLine(l);
    if cs != [] {
      assert cs[1..] == [];
      assert WithoutAdds([], city) == [];
      var body := StripCr(l);
      assert '\0' !in body;
      if cs[0].Add? {
        assert '\0' !in cs[0].city;
      }
    }
  }

  lemma {:induction false} OtherChanges(ls: seq<string>, city: string)
    requires SimpleLines(ls) && PlainCity(city)
    ensures Changes(OtherLines(ls, city)) == WithoutAdds(Changes(ls), city)
  {
    if ls != [] {
      OtherChanges(ls[1..], city);
      LineWithoutAdd(ls[0], city);
      WithoutAddsAppend(ReloadLine(ls[0]), Changes(ls[1..]), city);
      ChangesAppend(if LineIsEntry(ls[0], city) then [] else [ls[0]], OtherLines(ls[1..], city));
      ChangesOne(ls[0]);
    }
  }

  lemma ChangesOne(l: string)
    ensures Changes([l]) == ReloadLine(l)
  {
    assert [l][1..] == [] && Changes([]) == [];
  }

  // ----- runs of `add` -----

  predicate NumberChar(c: char) {
    IsDigit(c) || c == '.' || c == '-'
  }

  predicate NumberText(s: string) {
    s != "" && forall i | 0 <= i < |s| :: NumberChar(s[i])
  }

  lemma {:induction false} DigitsAreNumber(n: nat)
    ensures NumberText(Digits(n))
  {
    if n >= 10 {
      DigitsAreNumber(n / 10);
    }
  }

  lemma {:induction false} PaddedIsNumber(n: nat, k: nat)
    requires k > 0
    ensures NumberText(Padded(n, k))
  {
    if k > 1 {
      PaddedIsNumber(n / 10, k - 1);
    } else {
      assert Padded(n / 10, 0) == "";
    }
  }

  lemma PrintedIsNumber(price: real)
    ensures NumberText(Printed(price))
  {
    var n := MicroSize(price);
    DigitsAreNumber(n / MICRO);
    PaddedIsNumber(n % MICRO, 6);
  }

  /** The entry `add` writes is read back as the addition it stands for. */
  lemma EntryReads(city: string, price: real)
    requires PlainCity(city)
    ensures ReloadLine(EntryLine(city, price)) == [Add(city, Rounded(price))]
    ensures |EntryLine(city, price)| < MAX_LINE - 1 ==> Simple(EntryLine(city, price))
    ensures '\n' !in EntryLine(city, price) && EntryLine(city, price) != ""
  {
    var text := Printed(price);
    PrintedIsNumber(price);
    PrintedReadsBack(price, "");
    assert text + "" == text;
    EntryShape(city, text);
  }

  lemma EntryChars(city: string, price: string)
    requires LineText(city) && NumberText(price)
    ensures var l := city + ("," + price);
            '\n' !in l && '\r' !in l && '\0' !in l && l != "" && StripCr(l) == l
  {
    var l := city + ("," + price);
    forall i | 0 <= i < |l| ensures l[i] != '\n' && l[i] != '\r' && l[i] != '\0' {
      if i < |city| {
        assert l[i] == city[i] && city[i] in city;
      } else if i > |city| {
        assert l[i] == price[i - |city| - 1] && NumberChar(price[i - |city| - 1]);
      }
    }
  }

  lemma EntryParts(city: string, price: string)
    requires ',' !in city
    ensures var l := city + ("," + price);
            Find(l, ',') == |city| < |l| && l[..|city|] == city && l[|city| + 1..] == price
  {
    var l := city + ("," + price);
    assert l[..|city|] == city;
    FindIs(l, ',', |city|);
  }

  lemma EntryShape(city: string, price: string)
    requires PlainCity(city) && NumberText(price) && Stod(price).Some?
    ensures var l := city + ("," + price);
            && ReloadLine(l) == [Add(city, Stod(price).value)]
            && '\n' !in l && '\r' !in l && '\0' !in l && StripCr(l) == l && l != ""
  {
    EntryChars(city, price);
    EntryParts(city, price);
    EntryChange(city + ("," + price), city, price);
  }

  lemma EntryChange(l: string, city: string, price: string)
    requires l != "" && StripCr(l) == l && l[0] != '#' && l[0] != '-'
    requires Find(l, ',') == |city| < |l| && l[..|city|] == city && l[|city| + 1..] == price
    requires Stod(price).Some?
    ensures ReloadLine(l) == [Add(city, Stod(price).value)]
  {
    EntryBody(l, |city|);
  }

  /** A terminated file of lines both readers can read. */
  predicate GoodFile(content: string) {
    Tail(content) == "" && SimpleLines(Lines(content))
  }

  function ChangesIn(content: string): seq<Change> {
    Changes(FileLines(content))
  }

  ghost predicate OnePerCity(cs: seq<Change>) {
    forall i, j | 0 <= i < j < |cs| && cs[i].Add? && cs[j].Add? :: CStr(cs[i].city) != CStr(cs[j].city)
  }

  lemma {:induction false} SimpleOthers(ls: seq<string>, city: string)
    requires SimpleLines(ls)
    ensures SimpleLines(OtherLines(ls, city))
  {
    if ls != [] {
      SimpleOthers(ls[1..], city);
    }
  }

  /** A file of lines both readers can read, where a new entry gets a line of its own. */
  predicate Appendable(content: string, city: string) {
    SimpleLines(FileLines(content)) && (Tail(content) == "" || LineIsEntry(Tail(content), city))
  }

  lemma GoodIsAppendable(content: string, city: string)
    requires GoodFile(content)
    ensures Appendable(content, city)
  {
    assert Lines(content) + [] == Lines(content);
  }

  lemma AddChanges(content: string, city: string, price: real)
    requires Appendable(content, city) && PlainCity(city)
    ensures ChangesIn(Added(content, city, price)) == WithoutAdds(ChangesIn(content), city) + [Add(city, Rounded(price))]
    ensures |EntryLine(city, price)| < MAX_LINE - 1 ==> GoodFile(Added(content, city, price))
  {
    var ls, entry := FileLines(content), EntryLine(city, price);
    var out := Added(content, city, price);
    EntryReads(city, price);
    AddedLineIff(content, city, price);
    AddedLines(content, city, price);
    assert FileLines(out) == Lines(out) == OtherLines(ls, city) + [entry];
    SimpleOthers(ls, city);
    ChangesSnoc(OtherLines(ls, city), entry);
    OtherChanges(ls, city);
    if |entry| < MAX_LINE - 1 {
      SimpleSnoc(OtherLines(ls, city), entry);
    }
  }

  lemma SimpleSnoc(ls: seq<string>, l: string)
    requires SimpleLines(ls) && Simple(l)
    ensures SimpleLines(ls + [l])
  {
  }

  lemma FirstAddCons(c: Change, cs: seq<Change>, name: string)
    ensures FirstAdd([c] + cs, name)
         == if c.Add? && CStr(c.city) == name then Some(c.price) else FirstAdd(cs, name)
  {
    assert ([c] + cs)[1..] == cs;
  }

  /** Dropping a city's additions drops them all and nothing else. */
  lemma {:induction false} FirstAddWithout(cs: seq<Change>, city: string, name: string)
    ensures FirstAdd(WithoutAdds(cs, city), name) == if name == city then None else FirstAdd(cs, name)
  {
    if cs != [] {
      FirstAddWithout(cs[1..], city, name);
      var rest := WithoutAdds(cs[1..], city);
      if cs[0].Add? && CStr(cs[0].city) == city {
        assert [] + rest == rest;
      } else {
        FirstAddCons(cs[0], rest, name);
      }
    }
  }

  ghost predicate NoAddOf(cs: seq<Change>, city: string) {
    forall i | 0 <= i < |cs| && cs[i].Add? :: CStr(cs[i].city) != city
  }

  lemma {:induction false} NoAddKept(cs: seq<Change>, city: string, other: string)
    ensures NoAddOf(WithoutAdds(cs, city), city)
    ensures NoAddOf(cs, other) ==> NoAddOf(WithoutAdds(cs, city), other)
  {
    if cs != [] {
      NoAddKept(cs[1..], city, other);
      assert NoAddOf(cs, other) ==> NoAddOf(cs[1..], other);
    }
  }

  lemma {:induction false} OnePerCityWithout(cs: seq<Change>, city: string)
    requires OnePerCity(cs)
    ensures OnePerCity(WithoutAdds(cs, city))
  {
    if cs != [] {
      OnePerCityWithout(cs[1..], city);
      if cs[0].Add? {
        assert NoAddOf(cs[1..], CStr(cs[0].city));
        NoAddKept(cs[1..], city, CStr(cs[0].city));
      }
    }
  }

  lemma OnePerCitySnoc(cs: seq<Change>, c: Change)
    requires OnePerCity(cs) && c.Add? && NoAddOf(cs, CStr(c.city))
    ensures OnePerCity(cs + [c])
  {
  }

  /** One `add`: the city has the new price, every other city the one it had, and no
      city gets a second entry. */
  lemma AddUpdates(content: string, city: string, price: real, name: string)
    requires Appendable(content, city) && PlainCity(city)
    ensures FirstAdd(ChangesIn(Added(content, city, price)), name)
         == if name == city then Some(Rounded(price)) else FirstAdd(ChangesIn(content), name)
    ensures OnePerCity(ChangesIn(content)) ==> OnePerCity(ChangesIn(Added(content, city, price)))
  {
    var cs, c := ChangesIn(content), Add(city, Rounded(price));
    AddChanges(content, city, price);
    assert CStr(city) == city;
    FirstAddWithout(cs, city, name);
    FirstAddAppend(WithoutAdds(cs, city), [c], name);
    FirstAddCons(c, [], name);
    assert [c] + [] == [c];
    if OnePerCity(cs) {
      OnePerCityWithout(cs, city);
      NoAddKept(cs, city, city);
      OnePerCitySnoc(WithoutAdds(cs, city), c);
    }
  }

  /** What `add` keeps of any file at all. */
  function KeptText(content: string, city: string): string {
    Concat(Others(Pieces(content), city))
  }

  /** For any file: what a reload reads after `add` are the changes in what was kept, and
      then those of the new entry behind whatever was kept unterminated. */
  lemma ChangesOfAdded(content: string, city: string, price: real)
    requires '\n' !in city
    ensures ChangesIn(Added(content, city, price))
         == Changes(Lines(KeptText(content, city)))
            + ReloadLine(Tail(KeptText(content, city)) + EntryLine(city, price))
  {
    var kept, entry := KeptText(content, city), EntryLine(city, price);
    EntryHasNoNewline(city, price);
    JoinOfSplit(kept);
    LinesAreLines(kept);
    OneMoreLine(Lines(kept), Tail(kept), entry);
    assert FileLines(Added(content, city, price)) == Lines(kept) + [Tail(kept) + entry];
    ChangesSnoc(Lines(kept), Tail(kept) + entry);
  }

  lemma EntryHasNoNewline(city: string, price: real)
    requires '\n' !in city
    ensures '\n' !in EntryLine(city, price)
  {
    PrintedIsNumber(price);
    var text := Printed(price);
    assert forall i | 0 <= i < |text| :: NumberChar(text[i]);
  }

  // ----- when `add` has no effect -----

  /** No line can add a city the format does not keep apart. */
  lemma LineAddsKeepable(l: string, city: string)
    requires '\0' !in l && !Keepable(city)
    ensures FirstAdd(ReloadLine(l), city) == None
  {
    var cs := ReloadLine(l);
    if cs != [] {
      assert cs[1..] == [];
      var body := StripCr(l);
      assert '\0' !in body;
      if cs[0].Add? {
        var comma := Find(body, ',');
        assert cs[0].city == body[..comma];
        assert CStr(cs[0].city) == cs[0].city;
        assert comma > 0 ==> body[..comma][0] == body[0];
      }
    }
  }

  lemma {:induction false} LinesAddKeepable(ls: seq<string>, city: string)
    requires (forall i | 0 <= i < |ls| :: '\0' !in ls[i]) && !Keepable(city)
    ensures FirstAdd(Changes(ls), city) == None
  {
    if ls != [] {
      LineAddsKeepable(ls[0], city);
      LinesAddKeepable(ls[1..], city);
      FirstAddAppend(ReloadLine(ls[0]), Changes(ls[1..]), city);
    }
  }

  /** An entry glued to an unterminated line is an entry for some other city, if any. */
  lemma GluedEntry(tail: string, city: string, text: string)
    requires tail != "" && Simple(tail) && !LineIsEntry(tail, city) && ',' !in city
    ensures var l := tail + (city + ("," + text));
            Find(l, ',') < |l| && l[..Find(l, ',')] != city
  {
    var l := tail + (city + ("," + text));
    var n := Find(tail, ',');
    if n < |tail| {
      assert l[..n] == tail[..n] && l[n] == ',';
      FindIs(l, ',', n);
      assert StripCr(tail)[..n] == tail[..n];
      FindIs(StripCr(tail), ',', n);
    } else {
      assert tail[..n] == tail;
      assert l[..|tail| + |city|] == tail + city && l[|tail| + |city|] == ',';
      FindIs(l, ',', |tail| + |city|);
      assert |tail + city| > |city|;
    }
  }

  lemma GluedAddsOther(tail: string, city: string, price: real)
    requires tail != "" && Simple(tail) && !LineIsEntry(tail, city) && PlainCity(city)
    ensures FirstAdd(ReloadLine(tail + EntryLine(city, price)), city) == None
  {
    var text := Printed(price);
    var l := tail + (city + ("," + text));
    PrintedIsNumber(price);
    GluedEntry(tail, city, text);
    EntryChars(city, text);
    assert l[|l| - 1] == text[|text| - 1] && NumberChar(text[|text| - 1]);
    assert '\0' !in l;
    OtherCity(l, city);
  }

  lemma OtherCity(l: string, city: string)
    requires l != "" && l[|l| - 1] != '\r' && '\0' !in l
    requires Find(l, ',') < |l| && l[..Find(l, ',')] != city
    ensures FirstAdd(ReloadLine(l), city) == None
  {
    var cs := ReloadLine(l);
    if cs != [] {
      assert cs[1..] == [];
      if cs[0].Add? {
        assert cs[0].city == l[..Find(l, ',')];
        assert CStr(cs[0].city) == cs[0].city;
      }
    }
  }

  /** `add` gives the city its price if and only if its name is one the format keeps
      apart and its entry gets a line of its own. */
  lemma AddTakesEffectIff(content: string, city: string, price: real)
    requires SimpleLines(FileLines(content)) && LineText(city)
    ensures FirstAdd(ChangesIn(Added(content, city, price)), city) == Some(Rounded(price))
       <==> Keepable(city) && (Tail(content) == "" || LineIsEntry(Tail(content), city))
  {
    if !Keepable(city) {
      OddNameLost(content, city, price);
    } else if Appendable(content, city) {
      AddUpdates(content, city, price, city);
    } else {
      GluedLost(content, city, price);
    }
  }

  lemma OddNameLost(content: string, city: string, price: real)
    requires SimpleLines(FileLines(content)) && LineText(city) && !Keepable(city)
    ensures FirstAdd(ChangesIn(Added(content, city, price)), city) == None
  {
    var left := if LineIsEntry(Tail(content), city) then "" else Tail(content);
    var kept, l := OtherLines(Lines(content), city), left + EntryLine(city, price);
    EntryIsLineText(city, price);
    ChangesAfterAdd(content, city, price, left);
    TailIsSimple(content);
    SimpleOthers(Lines(content), city);
    NulFreeLine(left, EntryLine(city, price));
    LinesAddKeepable(kept, city);
    LineAddsKeepable(l, city);
    FirstAddAppend(Changes(kept), ReloadLine(l), city);
  }

  lemma NulFreeLine(left: string, entry: string)
    requires '\0' !in left && '\0' !in entry
    ensures '\0' !in left + entry
  {
  }

  lemma ChangesAfterAdd(content: string, city: string, price: real, left: string)
    requires SimpleLines(FileLines(content)) && '\n' !in EntryLine(city, price)
    requires left == if LineIsEntry(Tail(content), city) then "" else Tail(content)
    ensures ChangesIn(Added(content, city, price))
         == Changes(OtherLines(Lines(content), city)) + ReloadLine(left + EntryLine(city, price))
  {
    var kept, l := OtherLines(Lines(content), city), left + EntryLine(city, price);
    AddedLines(content, city, price);
    assert FileLines(Added(content, city, price)) == kept + [l];
    ChangesSnoc(kept, l);
  }

  lemma EntryIsLineText(city: string, price: real)
    requires LineText(city)
    ensures LineText(EntryLine(city, price))
  {
    PrintedIsNumber(price);
    EntryChars(city, Printed(price));
  }

  lemma TailIsSimple(content: string)
    requires SimpleLines(FileLines(content))
    ensures SimpleLines(Lines(content)) && (Tail(content) != "" ==> Simple(Tail(content)))
  {
    var ls, fl := Lines(content), FileLines(content);
    forall i | 0 <= i < |ls| ensures Simple(ls[i]) {
      assert fl[i] == ls[i];
    }
    if Tail(content) != "" {
      assert fl[|ls|] == Tail(content);
    }
  }

  lemma GluedLost(content: string, city: string, price: real)
    requires SimpleLines(FileLines(content)) && PlainCity(city) && !Appendable(content, city)
    ensures FirstAdd(ChangesIn(Added(content, city, price)), city) == None
  {
    var tail, entry := Tail(content), EntryLine(city, price);
    var kept := OtherLines(Lines(content), city);
    TailIsSimple(content);
    EntryReads(city, price);
    ChangesAfterAdd(content, city, price, tail);
    OtherChanges(Lines(content), city);
    FirstAddWithout(Changes(Lines(content)), city, city);
    GluedAddsOther(tail, city, price);
    FirstAddAppend(Changes(kept), ReloadLine(tail + entry), city);
  }

  // ----- runs of `add`, and `remove` -----

  /** The file after a run of `add` commands, oldest first. */
  function AddRun(content: string, adds: seq<(string, real)>): string {
    if adds == [] then content else
      var last := adds[|adds| - 1];
      Added(AddRun(content, adds[..|adds| - 1]), last.0, last.1)
  }

  /** The map update a run stands for, at one name. */
  function Updated(before: Option<real>, adds: seq<(string, real)>, name: string): Option<real> {
    if adds == [] then before
    else if adds[|adds| - 1].0 == name then Some(Rounded(adds[|adds| - 1].1))
    else Updated(before, adds[..|adds| - 1], name)
  }

  predicate Addable(add: (string, real)) {
    PlainCity(add.0) && |EntryLine(add.0, add.1)| < MAX_LINE - 1
  }

  /** Files and runs whose entries both readers can read; only the first `add` can meet
      an unterminated file. */
  predicate GoodRun(content: string, adds: seq<(string, real)>) {
    && SimpleLines(FileLines(content))
    && (adds != [] ==> Appendable(content, adds[0].0))
    && forall i | 0 <= i < |adds| :: Addable(adds[i])
  }

  lemma {:induction false} RunUpdates(content: string, adds: seq<(string, real)>, name: string)
    requires GoodRun(content, adds)
    ensures adds != [] ==> GoodFile(AddRun(content, adds))
    ensures FirstAdd(ChangesIn(AddRun(content, adds)), name) == Updated(FirstAdd(ChangesIn(content), name), adds, name)
    ensures OnePerCity(ChangesIn(content)) ==> OnePerCity(ChangesIn(AddRun(content, adds)))
  {
    if adds != [] {
      var n := |adds| - 1;
      var before := AddRun(content, adds[..n]);
      RunUpdates(content, adds[..n], name);
      if n > 0 {
        GoodIsAppendable(before, adds[n].0);
      }
      assert Addable(adds[n]);
      AddUpdates(before, adds[n].0, adds[n].1, name);
      AddChanges(before, adds[n].0, adds[n].1);
    }
  }

  /** After any run of `add` commands and a reload, the server's lookup is the abstract
      map update, while the file has at most 64 entries with names shorter than 64 bytes;
      and a file with at most one entry per city still has at most one. */
  lemma LookupAfterRun(content: string, adds: seq<(string, real)>, name: string)
    requires GoodRun(content, adds)
    requires ShortNames(ChangesIn(AddRun(content, adds)))
    requires |AddedRows(ChangesIn(AddRun(content, adds)))| <= SHM_MAX_CITIES
    ensures FirstMatch(Capped(AddedRows(ChangesIn(AddRun(content, adds)))), name)
         == Updated(FirstAdd(ChangesIn(content), name), adds, name)
    ensures OnePerCity(ChangesIn(content)) ==> OnePerCity(ChangesIn(AddRun(content, adds)))
  {
    RunUpdates(content, adds, name);
    TableKeepsFirst(ChangesIn(AddRun(content, adds)), name);
  }

  /** The lines after `remove`: a new one, or the old last one made longer. */
  lemma RemovedLines(content: string, city: string)
    requires '\n' !in city
    ensures FileLines(Removed(content, city)) == Lines(content) + [Tail(content) + ("-" + city)]
  {
    var l := "-" + city;
    JoinOfSplit(content);
    LinesAreLines(content);
    OneMoreLine(Lines(content), Tail(content), l);
    assert Removed(content, city) == content + (l + "\n");
  }

  /** `remove` adds its removal to the changes, and changes nothing else, if and only if
      the file was terminated. */
  lemma RemoveChanges(content: string, city: string)
    requires LineText(city)
    ensures ChangesIn(Removed(content, city)) == ChangesIn(content) + [PriceFile.Remove(city)] <==> Tail(content) == ""
  {
    var ls, tail := Lines(content), Tail(content);
    RemovedLines(content, city);
    ChangesSnoc(ls, tail + ("-" + city));
    if tail == "" {
      assert "" + ("-" + city) == "-" + city;
      assert FileLines(content) == ls;
      RemovalReads(city);
    } else {
      ChangesSnoc(ls, tail);
      GluedRemoval(tail, city);
      NotBoth(Changes(ls), ReloadLine(tail), ReloadLine(tail + ("-" + city)), PriceFile.Remove(city));
    }
  }

  /** What an unterminated line says, and then a removal, is never said by the two glued
      together. */
  lemma GluedRemoval(tail: string, city: string)
    requires tail != "" && LineText(city)
    ensures ReloadLine(tail + ("-" + city)) != ReloadLine(tail) + [PriceFile.Remove(city)]
  {
    var l := tail + ("-" + city);
    assert StripCr(l) == l;
    assert l[0] == tail[0];
    if tail[0] == '-' {
      assert StripCr(tail)[0] == '-' && ReloadLine(tail) != [] && |ReloadLine(l)| <= 1;
    } else {
      assert ReloadLine(l) == [] || ReloadLine(l)[0].Add?;
    }
  }

  lemma NotBoth(before: seq<Change>, plain: seq<Change>, glued: seq<Change>, c: Change)
    requires glued != plain + [c]
    ensures before + glued != (before + plain) + [c]
  {
    assert (before + glued)[|before|..] == glued;
    assert ((before + plain) + [c])[|before|..] == plain + [c];
  }

  lemma ChangesSnoc(ls: seq<string>, l: string)
    ensures Changes(ls + [l]) == Changes(ls) + ReloadLine(l)
  {
    ChangesAppend(ls, [l]);
    ChangesOne(l);
  }

  lemma RemovalReads(city: string)
    requires LineText(city)
    ensures ReloadLine("-" + city) == [PriceFile.Remove(city)]
  {
    var l := "-" + city;
    assert StripCr(l) == l && l[1..] == city;
  }

  /** What the operator sees: after `remove` and a reload the database has no price for
      the city, but the shared table is the one before, and the server still charges the
      price the city first had in the file. */
  lemma RemoveLeavesServerPrice(db: map<string, real>, content: string, city: string)
    requires Tail(content) == "" && LineText(city)
    ensures var before, after := ChangesIn(content), ChangesIn(Removed(content, city));
            && city !in ApplyAll(db, after)
            && AddedRows(after) == AddedRows(before)
            && (ShortNames(before) && |AddedRows(before)| <= SHM_MAX_CITIES
                ==> FirstMatch(Capped(AddedRows(after)), city) == FirstAdd(before, city))
  {
    RemoveChanges(content, city);
    RemovalMissesServer(db, ChangesIn(content), city);
  }
}
