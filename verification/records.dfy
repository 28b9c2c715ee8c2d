/** A fetched company record and its projection onto the ledger's fixed
    18-column row. */
module Records {
  import opened Wrappers
  import opened Json
  import Decimal
  import Join
  import UnixDate

  /** A list-valued field as JSON carries it: `null` or an array of strings. */
  datatype StringList = NullList | Items(items: seq<string>)

  /** A company record from the listing; every field may be missing (`None`). */
  datatype Company = Company(
    id: Option<Scalar>,
    name: Option<Scalar>,
    slug: Option<Scalar>,
    website: Option<Scalar>,
    batch: Option<Scalar>,
    stage: Option<Scalar>,
    status: Option<Scalar>,
    industry: Option<Scalar>,
    subindustry: Option<Scalar>,
    allLocations: Option<Scalar>,
    teamSize: Option<Scalar>,
    launchedAt: Option<Scalar>,
    oneLiner: Option<Scalar>,
    url: Option<Scalar>,
    api: Option<Scalar>,
    tags: Option<StringList>,
    regions: Option<StringList>,
    industries: Option<StringList>)

  /** The ledger's columns. */
  datatype Column =
    | Id | Name | Slug | Website | Batch | Stage | Status | Industry | Subindustry
    | AllLocations | TeamSize | LaunchedAtDate | OneLiner | Url | Api
    | Tags | Regions | Industries
  {
    /** Columns holding a list field joined into one string. */
    predicate IsList() {
      Tags? || Regions? || Industries?
    }

    /** Columns that copy the record's field of the same name unchanged. */
    predicate IsCopied() {
      !Id? && !LaunchedAtDate? && !IsList()
    }
  }

  /** The columns in the order the header lists them. */
  const Columns: seq<Column> := [
    Id, Name, Slug, Website, Batch, Stage, Status, Industry, Subindustry,
    AllLocations, TeamSize, LaunchedAtDate, OneLiner, Url, Api,
    Tags, Regions, Industries]

  /** A column's name in the header. */
  function ColumnName(col: Column): string {
    match col
    case Id => "id"
    case Name => "name"
    case Slug => "slug"
    case Website => "website"
    case Batch => "batch"
    case Stage => "stage"
    case Status => "status"
    case Industry => "industry"
    case Subindustry => "subindustry"
    case AllLocations => "all_locations"
    case TeamSize => "team_size"
    case LaunchedAtDate => "launched_at_date"
    case OneLiner => "one_liner"
    case Url => "url"
    case Api => "api"
    case Tags => "tags"
    case Regions => "regions"
    case Industries => "industries"
  }

  /** The header row. */
  const Fieldnames: seq<string> := [
    "id", "name", "slug", "website", "batch", "stage", "status", "industry",
    "subindustry", "all_locations", "team_size", "launched_at_date", "one_liner",
    "url", "api", "tags", "regions", "industries"]

  /** The header names every column once, in column order, starting with `id`. */
  lemma FieldnamesNameColumns()
    ensures |Fieldnames| == |Columns| == 18
    ensures forall i :: 0 <= i < |Columns| ==> Fieldnames[i] == ColumnName(Columns[i])
    ensures forall i, j :: 0 <= i < j < |Columns| ==> Columns[i] != Columns[j]
    ensures Fieldnames[0] == "id"
  {
    forall i, j | 0 <= i < j < |Columns|
      ensures Columns[i] != Columns[j]
    {
      ColumnIndexAt(i);
      ColumnIndexAt(j);
    }
  }

  /** The column at position `i` of the header is found back at `i`. */
  lemma ColumnIndexAt(i: int)
    requires 0 <= i < |Columns|
    ensures ColumnIndex(Columns[i]) == i
  {
  }

  /** A column's position in the header. */
  function ColumnIndex(col: Column): (i: nat)
    ensures i < |Columns| && Columns[i] == col
    ensures i < |Fieldnames| && Fieldnames[i] == ColumnName(col)
  {
    match col
    case Id => 0
    case Name => 1
    case Slug => 2
    case Website => 3
    case Batch => 4
    case Stage => 5
    case Status => 6
    case Industry => 7
    case Subindustry => 8
    case AllLocations => 9
    case TeamSize => 10
    case LaunchedAtDate => 11
    case OneLiner => 12
    case Url => 13
    case Api => 14
    case Tags => 15
    case Regions => 16
    case Industries => 17
  }

  lemma FieldnameIsColumnName(k: string)
    requires k in Fieldnames
    ensures exists col :: col in Columns && ColumnName(col) == k
  {
    FieldnamesNameColumns();
    var i :| 0 <= i < |Fieldnames| && Fieldnames[i] == k;
    assert ColumnName(Columns[i]) == k;
  }

  /** Different columns have different names. */
  lemma ColumnNameInjective(a: Column, b: Column)
    requires ColumnName(a) == ColumnName(b)
    ensures a == b
  {
    var n := ColumnName(a);
    match b
    case Id => assert |n| == 2;
    case Name => assert |n| == 4 && n[0] == 'n';
    case Slug => assert |n| == 4 && n[0] == 's';
    case Website => assert |n| == 7 && n[0] == 'w';
    case Batch => assert |n| == 5 && n[0] == 'b';
    case Stage => assert |n| == 5 && n[0] == 's' && n[2] == 'a';
    case Status => assert |n| == 6 && n[0] == 's';
    case Industry => assert |n| == 8 && n[0] == 'i';
    case Subindustry => assert |n| == 11 && n[0] == 's';
    case AllLocations => assert |n| == 13 && n[0] == 'a';
    case TeamSize => assert |n| == 9 && n[0] == 't';
    case LaunchedAtDate => assert |n| == 16;
    case OneLiner => assert |n| == 9 && n[0] == 'o';
    case Url => assert |n| == 3 && n[0] == 'u';
    case Api => assert |n| == 3 && n[0] == 'a';
    case Tags => assert |n| == 4 && n[0] == 't';
    case Regions => assert |n| == 7 && n[0] == 'r';
    case Industries => assert |n| == 10 && n[0] == 'i';
  }

  /** `c.get(key)` for the field a copied column takes its value from. */
  function Field(c: Company, col: Column): Option<Scalar>
    requires col.IsCopied()
  {
    match col
    case Name => c.name
    case Slug => c.slug
    case Website => c.website
    case Batch => c.batch
    case Stage => c.stage
    case Status => c.status
    case Industry => c.industry
    case Subindustry => c.subindustry
    case AllLocations => c.allLocations
    case TeamSize => c.teamSize
    case OneLiner => c.oneLiner
    case Url => c.url
    case Api => c.api
  }

  /** `c.get(key)` for the field a list column takes its items from. */
  function ListField(c: Company, col: Column): Option<StringList>
    requires col.IsList()
  {
    match col
    case Tags => c.tags
    case Regions => c.regions
    case Industries => c.industries
  }

  /** `str(c.get("id"))`: the key a record is deduplicated by. A missing or
      null id becomes the text "None". */
  function IdKey(c: Company): string {
    PyStr(c.id.GetOr(Null))
  }

  /** What the key is for each kind of id: `None` for a missing or null id,
      the string itself, the text that parses back to the integer, or the
      boolean's name. */
  lemma IdKeyOfId(c: Company)
    ensures c.id.None? || c.id == Some(Null) ==> IdKey(c) == "None"
    ensures c.id.Some? && c.id.value.Str? ==> IdKey(c) == c.id.value.s
    ensures c.id.Some? && c.id.value.Int? ==> Decimal.ParseDecimal(IdKey(c)) == Some(c.id.value.i)
    ensures c.id.Some? && c.id.value.Bool? ==> IdKey(c) == if c.id.value.b then "True" else "False"
  {
    if c.id.Some? && c.id.value.Int? {
      Decimal.ParseDecimalString(c.id.value.i);
    }
  }

  /** `c.get(key, []) or []`: a missing, null or empty list gives no items. */
  function ListItems(f: Option<StringList>): (xs: seq<string>)
    ensures f.Some? && f.value.Items? ==> xs == f.value.items
    ensures f.None? || f.value.NullList? ==> xs == []
  {
    match f
    case Some(Items(items)) => items
    case _ => []
  }

  /** The value the row dictionary holds in a column for a record. */
  function Cell(c: Company, col: Column): Scalar {
    match col
    case Id => Str(IdKey(c))
    case LaunchedAtDate => Str(UnixDate.UnixToDate(c.launchedAt))
    case Tags => Str(Join.Join(ListItems(c.tags)))
    case Regions => Str(Join.Join(ListItems(c.regions)))
    case Industries => Str(Join.Join(ListItems(c.industries)))
    case _ => Field(c, col).GetOr(Null)
  }

  /** A ledger row: column name to cell text, as the CSV reader yields it. */
  type Row = map<string, string>

  /** The header names are exactly the column names, each naming one column. */
  lemma ColumnsNameFieldnames()
    ensures forall col :: col in Columns && ColumnName(col) in Fieldnames
    ensures forall k :: k in Fieldnames ==> exists col :: col in Columns && ColumnName(col) == k
    ensures forall a: Column, b: Column :: ColumnName(a) == ColumnName(b) ==> a == b
  {
    forall k | k in Fieldnames
      ensures exists col :: col in Columns && ColumnName(col) == k
    {
      FieldnameIsColumnName(k);
    }
    forall col: Column
      ensures col in Columns && ColumnName(col) in Fieldnames
    {
      var i := ColumnIndex(col);
    }
    forall a: Column, b: Column | ColumnName(a) == ColumnName(b)
      ensures a == b
    {
      ColumnNameInjective(a, b);
    }
  }

  /** One entry per column: the column's name mapped to its cell text. */
  function CellMap(c: Company): Row {
    ColumnsNameFieldnames();
    map col | col in Columns :: ColumnName(col) := CellText(Cell(c, col))
  }

  lemma CellMapKeys(c: Company)
    ensures forall k :: k in CellMap(c) <==> k in Fieldnames
  {
    ColumnsNameFieldnames();
  }

  lemma CellMapCells(c: Company)
    ensures forall col :: ColumnName(col) in CellMap(c) && CellMap(c)[ColumnName(col)] == CellText(Cell(c, col))
  {
    ColumnsNameFieldnames();
  }

  /** The row `csv.DictWriter` writes for a record: one cell per header name. */
  function RowOf(c: Company): (row: Row)
    ensures forall k :: k in row <==> k in Fieldnames
    ensures "id" in row && row["id"] == IdKey(c)
    ensures forall col :: ColumnName(col) in row && row[ColumnName(col)] == CellText(Cell(c, col))
  {
    CellMapKeys(c);
    CellMapCells(c);
    assert ColumnName(Id) == "id";
    CellMap(c)
  }

  /** The record lacks the field a column is built from. */
  predicate Missing(c: Company, col: Column) {
    match col
    case Id => c.id.None?
    case LaunchedAtDate => c.launchedAt.None?
    case Tags => c.tags.None?
    case Regions => c.regions.None?
    case Industries => c.industries.None?
    case _ => Field(c, col).None?
  }

  /** A missing field never stops the row from being written: its cell is
      empty, except the id's, which is `str(None)`. */
  lemma MissingFieldWritesEmptyCell(c: Company, col: Column)
    requires Missing(c, col)
    ensures RowOf(c)[ColumnName(col)] == if col.Id? then "None" else ""
  {
    if col.IsList() {
      assert ListItems(ListField(c, col)) == [];
    }
  }

  /** A list column's cell is the join of the field's items. */
  lemma ListCellText(c: Company, col: Column)
    requires col.IsList()
    ensures RowOf(c)[ColumnName(col)] == Join.Join(ListItems(ListField(c, col)))
  {
    assert Cell(c, col) == Str(Join.Join(ListItems(ListField(c, col))));
  }

  /** A list cell is empty when the field gives no items, and otherwise
      splits back into the items, provided none contains the separator. */
  lemma ListCellRecoversItems(c: Company, col: Column)
    requires col.IsList()
    ensures ListItems(ListField(c, col)) == [] ==> RowOf(c)[ColumnName(col)] == ""
    ensures var items := ListItems(ListField(c, col));
      items != [] && (forall i :: 0 <= i < |items| ==> !Join.ContainsSeparator(items[i]))
      ==> Join.Split(RowOf(c)[ColumnName(col)]) == items
  {
    var items := ListItems(ListField(c, col));
    ListCellText(c, col);
    if items != [] && (forall i :: 0 <= i < |items| ==> !Join.ContainsSeparator(items[i])) {
      Join.SplitJoin(items);
    }
  }
}
