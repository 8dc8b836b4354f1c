/** The price half of the shared segment, and the server's lookup in it. */
module PriceTable {
  import opened Options
  import opened Decimal
  import opened PriceFile
  import opened Text

  predicate Matches(row: Row, city: string) {
    row.active && row.city == city
  }

  ghost predicate FirstMatchAt(rows: seq<Row>, city: string, i: int) {
    0 <= i < |rows| && Matches(rows[i], city) && forall j | 0 <= j < i :: !Matches(rows[j], city)
  }

  /** The price in the first active row for the city. */
  function FirstMatch(rows: seq<Row>, city: string): (r: Option<real>)
    ensures r.Some? ==> exists i :: FirstMatchAt(rows, city, i) && rows[i].price == r.value
    ensures r.None? ==> forall i | 0 <= i < |rows| :: !Matches(rows[i], city)
  {
    if rows == [] then None
    else if Matches(rows[0], city) then
      assert FirstMatchAt(rows, city, 0);
      Some(rows[0].price)
    else
      var r := FirstMatch(rows[1..], city);
      assert r.Some? ==> exists i :: FirstMatchAt(rows, city, i) && rows[i].price == r.value by {
        if i :| FirstMatchAt(rows[1..], city, i) && rows[1..][i].price == r.value {
          assert rows[1..][i] == rows[i + 1];
          assert forall j | 1 <= j <= i :: rows[j] == rows[1..][j - 1];
          assert FirstMatchAt(rows, city, i + 1);
        }
      }
      assert r.None? ==> forall i | 0 <= i < |rows| :: !Matches(rows[i], city) by {
        assert forall i | 1 <= i < |rows| :: rows[i] == rows[1..][i - 1];
      }
      r
  }

  /** What the fee calculation sees: -1 stands for an unknown city. */
  function Price(rows: seq<Row>, city: string): real {
    match FirstMatch(rows, city)
    case None => -1.0
    case Some(p) => p
  }

  /** The answer is the price of the first row that matches, or -1. */
  lemma OneAnswer(rows: seq<Row>, city: string)
    ensures forall i | FirstMatchAt(rows, city, i) :: Price(rows, city) == rows[i].price
    ensures (forall i | 0 <= i < |rows| :: !Matches(rows[i], city)) ==> Price(rows, city) == -1.0
  {
    forall i | FirstMatchAt(rows, city, i) ensures Price(rows, city) == rows[i].price {
      if FirstMatch(rows, city).Some? {
        var k :| FirstMatchAt(rows, city, k) && rows[k].price == FirstMatch(rows, city).value;
        assert !(i < k) && !(k < i);
      }
    }
  }

  /** What the shared table can hold. */
  type PriceList = rows: seq<Row> | |rows| <= SHM_MAX_CITIES witness []

  class PriceTable {
    const rows: array<Row>
    var priceCount: nat

    ghost predicate Valid()
      reads this
    {
      rows.Length == SHM_MAX_CITIES && priceCount <= SHM_MAX_CITIES
    }

    function Table(): seq<Row>
      requires Valid()
      reads this, rows
    {
      rows[..priceCount]
    }

    constructor ()
      ensures Valid() && Table() == [] && fresh(rows)
    {
      rows := new Row[SHM_MAX_CITIES](_ => Row("", 0.0, false));
      priceCount := 0;
    }

    /** The database process rewrites the table. */
    method Rewrite(list: PriceList)
      requires Valid()
      modifies this, rows
      ensures Valid() && Table() == list
    {
      forall i | 0 <= i < |list| { rows[i] := list[i]; }
      priceCount := |list|;
    }

    method Lookup(city: string) returns (price: real)
      requires Valid()
      ensures price == Price(Table(), city)
      ensures forall i | FirstMatchAt(Table(), city, i) :: price == Table()[i].price
      ensures (forall i | 0 <= i < |Table()| :: !Matches(Table()[i], city)) ==> price == -1.0
    {
      price := -1.0;
      var i := 0;
      assert Table()[0..] == Table();
      while i < priceCount
        invariant i <= priceCount
        invariant price == -1.0
        invariant FirstMatch(Table(), city) == FirstMatch(Table()[i..], city)
      {
        assert Table()[i..][0] == rows[i] && Table()[i..][1..] == Table()[i + 1..];
        if rows[i].active && city == rows[i].city {
          price := rows[i].price;
          break;
        }
        i := i + 1;
      }
      assert price == Price(Table(), city);
      OneAnswer(Table(), city);
    }

    method LoadPiece(piece: string)
      requires Valid() && priceCount < SHM_MAX_CITIES
      modifies this, rows
      ensures Valid() && Table() == old(Table()) + LoadLine(piece)
    {
      var line := Chomp(piece);
      if line == "" || line[0] == '#' { return; }
      var comma := Find(line, ',');
      if comma == |line| { return; }
      rows[priceCount] := RowOf(line[..comma], Atof(line[comma + 1..]));
      priceCount := priceCount + 1;
    }

    /** `loadFromFile`: rows from as many `fgets` pieces as the table has room for;
        None stands for a file that cannot be opened. */
    method LoadFromFile(file: Option<string>) returns (loaded: int)
      requires Valid()
      modifies this, rows
      ensures Valid()
      ensures file.None? ==> loaded == -1 && Table() == old(Table())
      ensures file.Some? ==> Table() == Capped(LoadedRows(Pieces(file.value))) && loaded == |Table()|
    {
      if file.None? { return -1; }
      priceCount := 0;
      var rest := file.value;
      ghost var all := LoadedRows(Pieces(rest));
      assert [] + all == all;
      while rest != "" && priceCount < SHM_MAX_CITIES
        invariant Valid()
        invariant Table() + LoadedRows(Pieces(rest)) == all
        decreases |rest|
      {
        var n := FgetsLen(rest);
        LoadStep(rest);
        Regroup(Table(), LoadLine(rest[..n]), LoadedRows(Pieces(rest[n..])));
        LoadPiece(rest[..n]);
        rest := rest[n..];
      }
      assert Table() == Capped(all);
      loaded := priceCount;
    }
  }
}
