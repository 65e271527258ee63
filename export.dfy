/** The shape of what `Parser.save_data` writes: a JSON array with one object per film, its
    keys in insertion order, and a `;`-separated CSV table whose header precedes one row of
    values per film. Serialisation itself (JSON quoting and indentation, CSV quoting, the
    cp1251 encoding) and the time-stamped file names are not modelled. */
module Export {
  import opened Wrappers
  import opened PyInt
  import opened Film
  import opened Sequences

  /** A value of the record's dict: its strings, and its integers, among them the rating's 0. */
  datatype Cell = Text(text: string) | Number(number: int)

  /** The dict keys, in the order parse_page_soup inserts them. */
  const FieldNames: seq<string> := [
    "link", "title", "title_en", "release_date", "duration", "country", "genre", "director",
    "main_roles", "rating", "votes"]

  /** The rating as stored in the dict: its text, or the integer 0. */
  function RatingCell(r: Rating): (c: Cell)
    ensures r.RatingZero? <==> c == Number(0)
  {
    match r
    case RatingText(t) => Text(t)
    case RatingZero => Number(0)
  }

  /** `film.values()`: one value per key, in key order. */
  function Values(r: FilmRecord): (v: seq<Cell>)
    ensures |v| == |FieldNames|
  {
    [Text(r.link), Text(r.title), Text(r.titleEn), Number(r.releaseDate), Number(r.duration),
     Text(r.country), Text(r.genre), Text(r.director), Text(r.mainRoles), RatingCell(r.rating),
     Number(r.votes)]
  }

  /** Reading a record back from its eleven values, `None` when the values do not have the
      record's shape. */
  function FromValues(v: seq<Cell>): Option<FilmRecord> {
    if |v| == 11 && v[0].Text? && v[1].Text? && v[2].Text? && v[3].Number? && v[4].Number?
      && v[5].Text? && v[6].Text? && v[7].Text? && v[8].Text? && v[10].Number?
      && (v[9].Text? || v[9] == Number(0))
    then
      var rating := if v[9].Text? then RatingText(v[9].text) else RatingZero;
      Some(FilmRecord(v[0].text, v[1].text, v[2].text, v[3].number, v[4].number, v[5].text,
        v[6].text, v[7].text, v[8].text, rating, v[10].number))
    else None
  }

  /** The values of a record determine it: nothing is lost between the record and a row. */
  lemma ValuesRoundTrip(r: FilmRecord)
    ensures FromValues(Values(r)) == Some(r)
  {
    match r.rating
    case RatingText(t) =>
    case RatingZero =>
  }

  /** Two records with the same values are the same record. */
  lemma ValuesInjective(r: FilmRecord, s: FilmRecord)
    requires Values(r) == Values(s)
    ensures r == s
  {
    ValuesRoundTrip(r);
    ValuesRoundTrip(s);
  }

  /** A JSON object: its members as key and value, in order. */
  function JsonObject(r: FilmRecord): (o: seq<(string, Cell)>)
    ensures |o| == |FieldNames|
    ensures forall i :: 0 <= i < |o| ==> o[i] == (FieldNames[i], Values(r)[i])
  {
    var v := Values(r);
    seq(|FieldNames|, i requires 0 <= i < |FieldNames| => (FieldNames[i], v[i]))
  }

  /** The CSV header row: ten labels for eleven columns, since the rating and vote labels
      are written without a comma between them and Python concatenates the two literals. */
  const CsvHeader: seq<string> := [
    "Ссылка", "Название", "Название ин.", "Дата выхода", "Длительность", "Страна", "Жанр",
    "Режиссёр", "В главных ролях", "Рейтинг" + "Кол-во оценок"]

  /** The header has one label fewer than every row has values, and its last label is the
      rating and vote labels run together. */
  lemma HeaderOneShort(r: FilmRecord)
    ensures |CsvHeader| + 1 == |Values(r)|
    ensures CsvHeader[|CsvHeader| - 1] == "РейтингКол-во оценок"
  {
  }

  /** What `csv.writer` writes for a value: the text itself, or the decimal digits of the
      integer. */
  function CellText(c: Cell): string {
    match c
    case Text(t) => t
    case Number(n) => Decimal(n)
  }

  /** An integer column reads back as the integer written. */
  lemma NumberCellReadsBack(n: int)
    ensures ParseInt(CellText(Number(n))) == Some(n)
  {
    ParseDecimal(n);
  }

  /** One CSV data row, `writer.writerow(film.values())`. */
  function CsvRow(r: FilmRecord): (row: seq<string>)
    ensures |row| == |FieldNames|
  {
    Map(CellText, Values(r))
  }

  /** The files save_data writes: the JSON document when `json_flag` is set and the CSV
      table when `csv_flag` is set; the rows loop appends one row per film after the
      header. */
  method SaveData(films: seq<FilmRecord>, jsonFlag: bool, csvFlag: bool)
    returns (json: Option<seq<seq<(string, Cell)>>>, csv: Option<seq<seq<string>>>)
    ensures json == if jsonFlag then Some(Map(JsonObject, films)) else None
    ensures csv == if csvFlag then Some([CsvHeader] + Map(CsvRow, films)) else None
  {
    json := if jsonFlag then Some(Map(JsonObject, films)) else None;
    csv := None;
    if csvFlag {
      var rows := [CsvHeader];
      var i := 0;
      while i < |films|
        invariant 0 <= i <= |films|
        invariant rows == [CsvHeader] + Map(CsvRow, films[..i])
      {
        MapStep(CsvRow, films, i);
        AppendAssoc([CsvHeader], Map(CsvRow, films[..i]), [CsvRow(films[i])]);
        rows := rows + [CsvRow(films[i])];
        i := i + 1;
      }
      assert films[..i] == films;
      csv := Some(rows);
    }
  }

  /** The CSV table has the header and then exactly one row per film, each row holding the
      film's values in key order. */
  lemma CsvTableShape(films: seq<FilmRecord>)
    ensures var table := [CsvHeader] + Map(CsvRow, films);
      && |table| == |films| + 1 && table[0] == CsvHeader
      && forall i :: 0 <= i < |films| ==> table[i + 1] == Map(CellText, Values(films[i]))
  {
    MapPointwise(CsvRow, films);
  }
}
