/**
 * The text `exportToCSV` hands to the download (index.js:296-318): a header
 * line of the thirteen column names joined by commas, then one line per shown
 * record holding its thirteen values, each in double quotes and joined by
 * commas, all lines joined by a line feed.
 */
module Csv {

  import opened Text
  import opened HostRecord

  /** The record key each column reads, in column order. */
  const Columns: seq<Field> := [Ip, Port, Country, Region, City, Asn, Organization, Date,
                                Server, Title, Protocol, Domain, Cloud]

  /** A column's name, written without quotes. */
  function HeaderOf(f: Field): string {
    match f
    case Ip => "IP"
    case Port => "Port"
    case Country => "Country"
    case Region => "Region"
    case City => "City"
    case Asn => "ASN"
    case Organization => "Organization"
    case Date => "Date"
    case Server => "Server"
    case Title => "Title"
    case Protocol => "Protocol"
    case Domain => "Domain"
    case Cloud => "Cloud"
  }

  /** `headers`. */
  const Headers: seq<string> := seq(|Columns|, k requires 0 <= k < |Columns| => HeaderOf(Columns[k]))

  /** The columns written as `item.key || ''`. */
  predicate Defaulted(f: Field) {
    f == Server || f == Title || f == Domain || f == Cloud
  }

  /** The text a cell's template literal renders: a missing key renders as `undefined` unless it defaults to ''. */
  function Cell(e: Entry, f: Field): string {
    if Defaulted(f) then OrEmpty(e, f)
    else if f in e then e[f]
    else "undefined"
  }

  /** `"${cell}"`: the value between double quotes, with nothing inside escaped. */
  function Quote(s: string): string {
    "\"" + s + "\""
  }

  function Row(e: Entry): seq<string> {
    seq(|Columns|, k requires 0 <= k < |Columns| => Quote(Cell(e, Columns[k])))
  }

  function RowLine(e: Entry): string {
    Join(Row(e), ",")
  }

  const HeaderLine: string := Join(Headers, ",")

  function Lines(items: seq<Entry>): seq<string> {
    [HeaderLine] + seq(|items|, k requires 0 <= k < |items| => RowLine(items[k]))
  }

  /** `csvContent`. */
  function CsvContent(items: seq<Entry>): string {
    Join(Lines(items), "\n")
  }

  /** No value of the record holds the character `c`. */
  predicate Avoids(e: Entry, c: char) {
    forall f :: f in e ==> c !in e[f]
  }

  /** A present key's value is its cell; a missing key gives '' for server, title, domain and cloud and `undefined` otherwise. */
  lemma CellSpec(e: Entry, f: Field)
    ensures f in e ==> Cell(e, f) == e[f]
    ensures f !in e && f in {Server, Title, Domain, Cloud} ==> Cell(e, f) == ""
    ensures f !in e && f !in {Server, Title, Domain, Cloud} ==> Cell(e, f) == "undefined"
  {
  }

  /** The header line splits at its commas back into the thirteen names, and holds no quote and no line feed. */
  lemma HeaderLineSpec()
    ensures Split(HeaderLine, ",") == Headers
    ensures '"' !in HeaderLine && '\n' !in HeaderLine
  {
    HeadersPlain();
    SplitJoin(Headers, ',');
    JoinAvoids(Headers, ",", '"');
    JoinAvoids(Headers, ",", '\n');
  }

  lemma HeaderLineNonEmpty()
    ensures |HeaderLine| > 0
  {
    JoinEndsWith(Headers, ",");
  }

  lemma HeadersPlain()
    ensures forall k :: 0 <= k < |Headers| ==> ',' !in Headers[k] && '"' !in Headers[k] && '\n' !in Headers[k]
  {
    forall k | 0 <= k < |Headers| ensures ',' !in Headers[k] && '"' !in Headers[k] && '\n' !in Headers[k] {
      HeaderPlain(Columns[k]);
    }
  }

  /** Column names are non-empty and made of ASCII letters only, so they need no quoting. */
  lemma HeaderPlain(f: Field)
    ensures HeaderOf(f) != []
    ensures forall i :: 0 <= i < |HeaderOf(f)| ==> 'A' <= HeaderOf(f)[i] <= 'Z' || 'a' <= HeaderOf(f)[i] <= 'z'
    ensures ',' !in HeaderOf(f) && '"' !in HeaderOf(f) && '\n' !in HeaderOf(f)
  {
    var h := HeaderOf(f);
    forall i | 0 <= i < |h| ensures 'A' <= h[i] <= 'Z' || 'a' <= h[i] <= 'z' {
    }
  }

  /** Every key has a column. */
  function ColumnOf(f: Field): (k: nat)
    ensures k < |Columns| && Columns[k] == f
  {
    match f
    case Ip => 0
    case Port => 1
    case Country => 2
    case Region => 3
    case City => 4
    case Asn => 5
    case Organization => 6
    case Date => 7
    case Server => 8
    case Title => 9
    case Protocol => 10
    case Domain => 11
    case Cloud => 12
  }

  lemma CellAvoids(e: Entry, f: Field, c: char)
    requires Avoids(e, c)
    requires c !in "undefined"
    ensures c !in Cell(e, f)
  {
  }

  /**
   * Values are written unescaped, so a row line splits at its commas into one
   * cell more than thirteen for every comma inside a value; it gives exactly
   * the thirteen quoted cells, in column order, when no value holds a comma.
   */
  lemma RowLineSpec(e: Entry)
    ensures var cells := Split(RowLine(e), ",");
      |cells| == |Headers| + CountAll(Row(e), ',') &&
      (|cells| == |Headers| <==> Avoids(e, ',')) &&
      (Avoids(e, ',') ==> forall k :: 0 <= k < |Headers| ==> cells[k] == "\"" + Cell(e, Columns[k]) + "\"")
  {
    var row := Row(e);
    SplitFromCount(RowLine(e), ',', "");
    JoinCount(row, ',');
    if Avoids(e, ',') {
      forall k | 0 <= k < |Columns| ensures ',' !in row[k] {
        CellAvoids(e, Columns[k], ',');
      }
      SplitJoin(row, ',');
    } else {
      var f :| f in e && ',' in e[f];
      var k := ColumnOf(f);
      assert ',' in row[k];
    }
  }

  /** A record without line feeds gives a one-line row. */
  lemma RowLineAvoidsNewline(e: Entry)
    requires Avoids(e, '\n')
    ensures '\n' !in RowLine(e)
  {
    forall k | 0 <= k < |Columns| ensures '\n' !in Row(e)[k] {
      CellAvoids(e, Columns[k], '\n');
    }
    JoinAvoids(Row(e), ",", '\n');
  }

  lemma LinesShape(items: seq<Entry>)
    ensures |Lines(items)| == |items| + 1 && Lines(items)[0] == HeaderLine
    ensures forall k :: 0 <= k < |items| ==> Lines(items)[k + 1] == RowLine(items[k])
  {
    var rows := seq(|items|, k requires 0 <= k < |items| => RowLine(items[k]));
    assert Lines(items) == [HeaderLine] + rows;
    forall k | 0 <= k < |items| ensures Lines(items)[k + 1] == RowLine(items[k]) {
      assert ([HeaderLine] + rows)[k + 1] == rows[k];
    }
  }

  /**
   * When no value holds a line feed, the text splits at its line feeds into
   * the header line followed by one row line per record, in record order.
   */
  lemma CsvContentSpec(items: seq<Entry>)
    requires forall k :: 0 <= k < |items| ==> Avoids(items[k], '\n')
    ensures var lines := Split(CsvContent(items), "\n");
      |lines| == |items| + 1 && lines[0] == HeaderLine &&
      forall k :: 0 <= k < |items| ==> lines[k + 1] == RowLine(items[k])
  {
    var lines := Lines(items);
    LinesShape(items);
    HeaderLineSpec();
    forall k | 0 <= k < |lines| ensures '\n' !in lines[k] {
      if k > 0 {
        RowLineAvoidsNewline(items[k - 1]);
      }
    }
    SplitJoin(lines, '\n');
  }

  /** A row line ends with the closing quote of its cloud cell. */
  lemma RowLineEnd(e: Entry)
    ensures |RowLine(e)| > 0 && RowLine(e)[|RowLine(e)| - 1] == '"'
  {
    var row := Row(e);
    JoinEndsWith(row, ",");
    var last, j := row[|row| - 1], RowLine(e);
    assert last == Quote(Cell(e, Cloud));
    assert j[|j| - 1] == j[|j| - |last|..][|last| - 1];
  }

  /** The text never ends with a line feed: it ends with the closing quote of the last row, or with the header line. */
  lemma NoTrailingNewline(items: seq<Entry>)
    ensures var s := CsvContent(items); |s| > 0 && s[|s| - 1] != '\n'
  {
    var lines := Lines(items);
    LinesShape(items);
    var last := lines[|lines| - 1];
    JoinEndsWith(lines, "\n");
    if |items| == 0 {
      HeaderLineSpec();
      HeaderLineNonEmpty();
    } else {
      RowLineEnd(items[|items| - 1]);
    }
    var s := CsvContent(items);
    assert s[|s| - 1] == s[|s| - |last|..][|last| - 1];
  }
}
