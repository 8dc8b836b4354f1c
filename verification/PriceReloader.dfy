/** The database process's reload: one list of changes applied to two targets, the
    price rows of the database and the shared table the server looks prices up in. */
module PriceReloader {
  import opened Options
  import opened Text
  import opened Wire
  import opened PriceFile
  import opened PriceTable

  /** One change to the database, which keys its rows by C strings. */
  function Apply(db: map<string, real>, c: Change): map<string, real> {
    match c
    case Remove(city) => db - {CStr(city)}
    case Add(city, price) => db[CStr(city) := price]
  }

  function ApplyAll(db: map<string, real>, cs: seq<Change>): map<string, real> {
    if cs == [] then db else Apply(ApplyAll(db, cs[..|cs| - 1]), cs[|cs| - 1])
  }

  class Reloader {
    const table: PriceTable
    var db: map<string, real>

    constructor (table: PriceTable)
      ensures this.table == table && db == map[]
    {
      this.table := table;
      db := map[];
    }

    /** Read the change list off the file. */
    method ReadChanges(content: string) returns (changes: seq<Change>)
      ensures changes == Changes(FileLines(content))
    {
      changes := [];
      var rest := content;
      assert [] + Changes(FileLines(content)) == Changes(FileLines(content));
      while rest != ""
        invariant changes + Changes(FileLines(rest)) == Changes(FileLines(content))
        decreases |rest|
      {
        var (line, next) := GetLine(rest, '\n').value;
        NextFileLine(rest);
        Regroup(changes, ReloadLine(line), Changes(FileLines(next)));
        var read := ReadLine(line);
        changes := changes + read;
        rest := next;
      }
      assert Changes([]) == [];
    }

    /** What one line contributes: nothing, a removal, or an addition. */
    method ReadLine(l: string) returns (read: seq<Change>)
      ensures read == ReloadLine(l)
    {
      var line := l;
      if line != "" && line[|line| - 1] == '\r' {
        line := line[..|line| - 1];
      }
      assert line == StripCr(l);
      if line == "" || line[0] == '#' { return []; }
      if line[0] == '-' { return [Remove(line[1..])]; }
      var comma := Find(line, ',');
      if comma == |line| { return []; }
      EntryBody(line, comma);
      var price := Decimal.Stod(line[comma + 1..]);
      if price.None? { return []; }
      return [Add(line[..comma], price.value)];
    }

    method ApplyToDb(changes: seq<Change>)
      modifies `db
      ensures db == ApplyAll(old(db), changes)
    {
      var i := 0;
      while i < |changes|
        invariant i <= |changes|
        invariant db == ApplyAll(old(db), changes[..i])
      {
        assert changes[..i + 1][..i] == changes[..i];
        match changes[i] {
          case Remove(city) => db := db - {CStr(city)};
          case Add(city, price) => db := db[CStr(city) := price];
        }
        i := i + 1;
      }
      assert changes[..i] == changes;
    }

    method AddRow(city: string, price: real)
      requires table.Valid() && table.priceCount < SHM_MAX_CITIES
      modifies table, table.rows
      ensures table.Valid() && table.Table() == old(table.Table()) + [RowOf(city, price)]
    {
      table.rows[table.priceCount] := RowOf(city, price);
      table.priceCount := table.priceCount + 1;
    }

    /** Rebuild the shared table: additions only, in order, until it is full. */
    method RebuildTable(changes: seq<Change>)
      requires table.Valid()
      modifies table, table.rows
      ensures table.Valid() && table.Table() == Capped(AddedRows(changes))
    {
      table.priceCount := 0;
      var i := 0;
      assert changes[0..] == changes && [] + AddedRows(changes) == AddedRows(changes);
      while i < |changes|
        invariant i <= |changes| && table.Valid()
        invariant table.Table() + AddedRows(changes[i..]) == AddedRows(changes)
      {
        var c := changes[i];
        AddedStep(changes, i);
        if c.Add? {
          if table.priceCount >= SHM_MAX_CITIES { break; }
          Regroup(table.Table(), [RowOf(c.city, c.price)], AddedRows(changes[i + 1..]));
          AddRow(c.city, c.price);
        }
        i := i + 1;
      }
      assert table.Table() == Capped(AddedRows(changes));
    }

    /** `reload`: None is a file that cannot be opened. */
    method Reload(file: Option<string>) returns (n: int)
      requires table.Valid()
      modifies this, table, table.rows
      ensures table.Valid()
      ensures file.None? ==> n == -1
      ensures file.Some? ==> n == |Changes(FileLines(file.value))|
      ensures n <= 0 ==> db == old(db) && table.Table() == old(table.Table())
      ensures n > 0 ==>
                && db == ApplyAll(old(db), Changes(FileLines(file.value)))
                && table.Table() == Capped(AddedRows(Changes(FileLines(file.value))))
    {
      if file.None? { return -1; }
      var changes := ReadChanges(file.value);
      if changes == [] { return 0; }
      ApplyToDb(changes);
      RebuildTable(changes);
      n := |changes|;
    }
  }

  lemma AddedStep(cs: seq<Change>, i: nat)
    requires i < |cs|
    ensures AddedRows(cs[i..]) == (if cs[i].Add? then [RowOf(cs[i].city, cs[i].price)] else []) + AddedRows(cs[i + 1..])
    ensures !cs[i].Add? ==> AddedRows(cs[i..]) == AddedRows(cs[i + 1..])
  {
    assert cs[i..][1..] == cs[i + 1..];
  }

  lemma NextFileLine(rest: string)
    requires rest != ""
    ensures GetLine(rest, '\n').Some?
    ensures var (line, next) := GetLine(rest, '\n').value;
            Changes(FileLines(rest)) == ReloadLine(line) + Changes(FileLines(next))
  {
    var n := Find(rest, '\n');
    var (line, next) := GetLine(rest, '\n').value;
    if n < |rest| {
      CutAt(rest, n);
      FileLinesCons(line, next);
    } else {
      LastLine(rest);
      assert rest[..n] == rest;
      assert FileLines("") == [];
      assert [rest] + [] == [rest];
    }
    ConsAppend([line], FileLines(next));
    assert ([line] + FileLines(next))[1..] == FileLines(next);
  }

  // ----- the two targets compared -----

  /** The first price added for a city, and the last change made to it. */
  function FirstAdd(cs: seq<Change>, city: string): (r: Option<real>)
    ensures r.Some? ==> exists i :: FirstAddAt(cs, city, i) && cs[i].price == r.value
    ensures r.None? ==> forall i | 0 <= i < |cs| && CStr(cs[i].city) == city :: cs[i].Remove?
  {
    if cs == [] then None
    else if cs[0].Add? && CStr(cs[0].city) == city then
      assert FirstAddAt(cs, city, 0);
      Some(cs[0].price)
    else
      var r := FirstAdd(cs[1..], city);
      assert r.Some? ==> exists i :: FirstAddAt(cs, city, i) && cs[i].price == r.value by {
        if r.Some? {
          var i :| FirstAddAt(cs[1..], city, i) && cs[1..][i].price == r.value;
          assert FirstAddAt(cs, city, i + 1);
        }
      }
      r
  }

  ghost predicate FirstAddAt(cs: seq<Change>, city: string, i: int) {
    && 0 <= i < |cs| && cs[i].Add? && CStr(cs[i].city) == city
    && forall j | 0 <= j < i :: !(cs[j].Add? && CStr(cs[j].city) == city)
  }

  function LastChange(cs: seq<Change>, city: string): (r: Option<Change>)
    ensures r.Some? ==> exists i :: LastChangeAt(cs, city, i) && cs[i] == r.value
    ensures r.None? ==> forall i | 0 <= i < |cs| :: CStr(cs[i].city) != city
  {
    if cs == [] then None
    else if CStr(cs[|cs| - 1].city) == city then
      assert LastChangeAt(cs, city, |cs| - 1);
      Some(cs[|cs| - 1])
    else
      var r := LastChange(cs[..|cs| - 1], city);
      assert r.Some? ==> exists i :: LastChangeAt(cs, city, i) && cs[i] == r.value by {
        if r.Some? {
          var i :| LastChangeAt(cs[..|cs| - 1], city, i) && cs[i] == r.value;
          assert LastChangeAt(cs, city, i);
        }
      }
      r
  }

  ghost predicate LastChangeAt(cs: seq<Change>, city: string, i: int) {
    && 0 <= i < |cs| && CStr(cs[i].city) == city
    && forall j | i < j < |cs| :: CStr(cs[j].city) != city
  }

  function DbPrice(db: map<string, real>, city: string): Option<real> {
    if city in db then Some(db[city]) else None
  }

  /** What a city's last change says, and without one what the database had. */
  function SaidLast(db: map<string, real>, cs: seq<Change>, city: string): Option<real> {
    match LastChange(cs, city)
    case None => DbPrice(db, city)
    case Some(Remove(_)) => None
    case Some(Add(_, p)) => Some(p)
  }

  /** The database keeps what the last change says, and otherwise what it had. */
  lemma {:induction false} DbKeepsLast(db: map<string, real>, cs: seq<Change>, city: string)
    ensures DbPrice(ApplyAll(db, cs), city)
         == SaidLast(db, cs, city)
  {
    if cs != [] {
      DbKeepsLast(db, cs[..|cs| - 1], city);
    }
  }

  ghost predicate ShortNames(cs: seq<Change>) {
    forall i | 0 <= i < |cs| && cs[i].Add? :: |CStr(cs[i].city)| < CITY_NAME_LEN
  }

  /** The shared table answers with the first addition. */
  lemma {:induction false} TableKeepsFirst(cs: seq<Change>, city: string)
    requires ShortNames(cs)
    ensures FirstMatch(AddedRows(cs), city) == FirstAdd(cs, city)
  {
    if cs != [] {
      TableKeepsFirst(cs[1..], city);
      var rest := AddedRows(cs[1..]);
      if cs[0].Add? {
        assert ([RowOf(cs[0].city, cs[0].price)] + rest)[1..] == rest;
      } else {
        assert [] + rest == rest;
      }
    }
  }

  /** The table has room for `room` more additions and keeps 63 bytes of a name: the
      price of the first of them that then reads as the city. */
  function FirstListed(cs: seq<Change>, city: string, room: nat): Option<real> {
    if cs == [] || room == 0 then None
    else if ReadsAsCity(cs[0], city) then Some(cs[0].price)
    else FirstListed(cs[1..], city, if cs[0].Add? then room - 1 else room)
  }

  lemma {:induction false} FirstListedMeans(cs: seq<Change>, city: string, room: nat)
    ensures match FirstListed(cs, city, room)
            case Some(p) => exists i :: ListedAt(cs, city, room, i) && cs[i].price == p
            case None => forall i :: !ListedAt(cs, city, room, i)
  {
    if cs != [] && room > 0 {
      var left := if cs[0].Add? then room - 1 else room;
      FirstListedMeans(cs[1..], city, left);
      if ReadsAsCity(cs[0], city) {
        assert cs[..0] == [] && ListedAt(cs, city, room, 0);
      } else {
        forall i | 0 <= i < |cs| - 1
          ensures ListedAt(cs[1..], city, left, i) <==> ListedAt(cs, city, room, i + 1)
        {
          ListedLater(cs, city, room, i);
        }
        assert forall i :: ListedAt(cs, city, room, i) ==> 0 <= i - 1 && ListedAt(cs[1..], city, left, i - 1);
      }
    }
  }

  lemma ListedLater(cs: seq<Change>, city: string, room: nat, i: nat)
    requires i + 1 < |cs| && room > 0 && !ReadsAsCity(cs[0], city)
    ensures ListedAt(cs[1..], city, if cs[0].Add? then room - 1 else room, i) <==> ListedAt(cs, city, room, i + 1)
  {
    RowsBefore(cs, i + 1);
    assert forall j | 0 <= j <= i :: cs[1..][j] == cs[j + 1];
    assert forall j | 1 <= j <= i :: cs[j] == cs[1..][j - 1];
  }

  predicate ReadsAsCity(c: Change, city: string) {
    c.Add? && Field(c.city, CITY_NAME_LEN) == city
  }

  ghost predicate ListedAt(cs: seq<Change>, city: string, room: nat, i: int) {
    && 0 <= i < |cs| && ReadsAsCity(cs[i], city) && |AddedRows(cs[..i])| < room
    && forall j | 0 <= j < i :: !ReadsAsCity(cs[j], city)
  }

  lemma RowsBefore(cs: seq<Change>, i: nat)
    requires 0 < i <= |cs|
    ensures |AddedRows(cs[..i])| == |AddedRows(cs[1..][..i - 1])| + if cs[0].Add? then 1 else 0
  {
    assert cs[..i][1..] == cs[1..][..i - 1];
  }

  function FirstRows(rows: seq<Row>, room: nat): seq<Row> {
    if |rows| <= room then rows else rows[..room]
  }

  /** What the server's lookup finds in the rebuilt table, for any changes. */
  lemma {:induction false} TableAnswers(cs: seq<Change>, city: string, room: nat)
    ensures FirstMatch(FirstRows(AddedRows(cs), room), city) == FirstListed(cs, city, room)
  {
    if cs != [] && room > 0 {
      var left := if cs[0].Add? then room - 1 else room;
      TableAnswers(cs[1..], city, left);
      var rest := AddedRows(cs[1..]);
      if cs[0].Add? {
        var row := RowOf(cs[0].city, cs[0].price);
        assert FirstRows([row] + rest, room) == [row] + FirstRows(rest, left);
        assert ([row] + FirstRows(rest, left))[1..] == FirstRows(rest, left);
      } else {
        assert [] + rest == rest;
      }
    }
  }

  /** The shared table after a reload: without changes it is left alone. */
  function TableAfter(rows: seq<Row>, cs: seq<Change>): seq<Row> {
    if cs == [] then rows else Capped(AddedRows(cs))
  }

  /** After any reload the server and the database agree about a city exactly when they
      did before and there was no change at all, or the first of the first 64 additions
      that reads as the city, names cut to 63 bytes, says what the city's last change
      says: its price, or nothing after a removal, or what the database had if the file
      does not mention the city. */
  lemma TargetsAgreeIff(db: map<string, real>, rows: seq<Row>, cs: seq<Change>, city: string)
    ensures FirstMatch(TableAfter(rows, cs), city) == DbPrice(ApplyAll(db, cs), city)
       <==> if cs == [] then FirstMatch(rows, city) == DbPrice(db, city)
            else FirstListed(cs, city, SHM_MAX_CITIES) == SaidLast(db, cs, city)
  {
    TableAnswers(cs, city, SHM_MAX_CITIES);
    DbKeepsLast(db, cs, city);
  }

  /** With at most 64 additions and names shorter than 64 bytes that is, for a file with
      changes: the city is not in the file and was not in the database; or all its
      changes are removals; or its last change is an addition at the price of its first
      addition. */
  lemma ShortTargetsAgreeIff(db: map<string, real>, rows: seq<Row>, cs: seq<Change>, city: string)
    requires cs != [] && ShortNames(cs) && |AddedRows(cs)| <= SHM_MAX_CITIES
    ensures FirstMatch(TableAfter(rows, cs), city) == DbPrice(ApplyAll(db, cs), city)
       <==> match LastChange(cs, city)
            case None => city !in db
            case Some(Remove(_)) => FirstAdd(cs, city) == None
            case Some(Add(_, p)) => FirstAdd(cs, city) == Some(p)
  {
    TableKeepsFirst(cs, city);
    DbKeepsLast(db, cs, city);
  }

  lemma {:induction false} FirstAddAppend(a: seq<Change>, b: seq<Change>, city: string)
    ensures FirstAdd(a + b, city) == if FirstAdd(a, city).Some? then FirstAdd(a, city) else FirstAdd(b, city)
  {
    if a == [] {
      assert a + b == b;
    } else {
      ConsAppend(a, b);
      FirstAddAppend(a[1..], b, city);
    }
  }

  /** A removal never reaches the server: added to the file it deletes the city from the
      database, but the shared table stays as it is, so the server goes on charging the
      price the file first gives the city. */
  lemma RemovalMissesServer(db: map<string, real>, cs: seq<Change>, city: string)
    requires '\0' !in city
    ensures var after := cs + [Remove(city)];
            && city !in ApplyAll(db, after)
            && AddedRows(after) == AddedRows(cs)
            && (ShortNames(cs) && |AddedRows(cs)| <= SHM_MAX_CITIES
                ==> FirstMatch(Capped(AddedRows(after)), city) == FirstAdd(cs, city))
  {
    var after := cs + [Remove(city)];
    assert after[..|cs|] == cs;
    AddedRowsAppend(cs, [Remove(city)]);
    assert AddedRows([Remove(city)]) == [] + AddedRows([]) == [];
    assert AddedRows(after) == AddedRows(cs);
    if ShortNames(cs) {
      TableKeepsFirst(cs, city);
    }
  }
}
