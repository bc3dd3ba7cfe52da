/** A fetched documentation page as plain data, in place of the parsed HTML
    tree, together with the site's URLs and the two ways a fetch can fail.
    Every text is the element's `get_text(strip=True)`, except `Page.text`,
    which is the whole page's unstripped `get_text()`. */
module DocPages {
  import opened Wrappers
  import opened PyStrings

  /** A table cell: a `th` or a `td` element. */
  datatype Cell = Th(text: string) | Td(text: string)

  /** A `tr` element's cells, in order. */
  type Row = seq<Cell>

  /** A `table` element's `tr` rows, in document order. */
  type Table = seq<Row>

  /** One element of the flat sequence of siblings that holds the page's
      headings and paragraphs, with its tag name ("h2", "h3", "h4", "p", ...). */
  datatype Block = Block(tag: string, text: string)

  /** An `a` element that has an `href` attribute. */
  datatype Anchor = Anchor(text: string, href: string)

  datatype Page = Page(tables: seq<Table>, blocks: seq<Block>, anchors: seq<Anchor>, text: string)

  /** `requests.RequestException`, or any other exception raised while
      fetching and parsing a page. */
  datatype FetchError = RequestFailed | OtherFailure

  /** The `{"error": ...}` payloads of the tools: "Failed to fetch MuleSoft
      documentation" and "Failed to parse MuleSoft documentation". */
  datatype ScrapeError = FetchFailed | ParseFailed

  /** The HTTP GET and HTML parse of a URL. */
  type Fetch = string -> Result<Page, FetchError>

  /** The `except requests.RequestException` branch comes first, so only the
      other exceptions reach the generic `except Exception` branch. */
  function ErrorOf(e: FetchError): (r: ScrapeError)
    ensures r == FetchFailed <==> e == RequestFailed
  {
    match e
    case RequestFailed => FetchFailed
    case OtherFailure => ParseFailed
  }

  /** The texts of `row.find_all(['td'])`, in order. */
  function TdTexts(row: Row): (ts: seq<string>)
    ensures |ts| <= |row|
  {
    if row == [] then []
    else
      var last := row[|row| - 1];
      TdTexts(row[..|row| - 1]) + (if last.Td? then [last.text] else [])
  }

  /** `[cell.get_text(strip=True).lower() for cell in row.find_all(['th', 'td'])]` */
  function HeaderTexts(row: Row): (ts: seq<string>)
    ensures |ts| == |row|
    ensures forall i | 0 <= i < |row| :: ts[i] == Lower(row[i].text)
  {
    seq(|row|, i requires 0 <= i < |row| => Lower(row[i].text))
  }

  /** `rows[1:]` of a table that passes `if len(rows) > 1`; nothing otherwise. */
  function DataRows(t: Table): (rows: seq<Row>)
    ensures |t| > 1 ==> rows == t[1..]
    ensures |t| <= 1 ==> rows == []
  {
    if |t| > 1 then t[1..] else []
  }

  /** The `td` texts of every data row of every table, in document order: what
      the runtime, Java and DataWeave scans iterate over. */
  function DataRowCells(tables: seq<Table>): (cs: seq<seq<string>>)
  {
    if tables == [] then []
    else DataRowCells(tables[..|tables| - 1]) + RowCells(DataRows(tables[|tables| - 1]))
  }

  function RowCells(rows: seq<Row>): (cs: seq<seq<string>>)
    ensures |cs| == |rows|
    ensures forall i | 0 <= i < |rows| :: cs[i] == TdTexts(rows[i])
  {
    seq(|rows|, i requires 0 <= i < |rows| => TdTexts(rows[i]))
  }

  /** Each scanned row is a row other than the first of a table that has more
      than one row. */
  lemma {:induction false} DataRowCellsFrom(tables: seq<Table>, k: nat)
    requires k < |DataRowCells(tables)|
    ensures exists ti, ri | 0 <= ti < |tables| && 1 <= ri < |tables[ti]| ::
      DataRowCells(tables)[k] == TdTexts(tables[ti][ri])
    decreases |tables|
  {
    var n := |tables| - 1;
    var front := DataRowCells(tables[..n]);
    if k < |front| {
      DataRowCellsFrom(tables[..n], k);
      var ti, ri :| 0 <= ti < n && 1 <= ri < |tables[..n][ti]| && front[k] == TdTexts(tables[..n][ti][ri]);
      assert tables[..n][ti] == tables[ti];
    } else {
      var ri := k - |front| + 1;
      assert DataRowCells(tables)[k] == TdTexts(tables[n][ri]);
    }
  }

  /** Headings are the `h2`, `h3` and `h4` elements. */
  predicate IsHeading(b: Block) {
    b.tag == "h2" || b.tag == "h3" || b.tag == "h4"
  }

  /** The documentation URLs the scrapers read. */
  datatype Config = Config(
    ltsEdgeReleaseCadence: string,
    javaSupport: string,
    dataweave: string,
    connectors: string,
    connectorReleaseNotes: string,
    releaseNotesPrefix: string,
    releaseNotesSuffix: string)

  const SiteRoot: string := "https://docs.mulesoft.com"

  /** The repository's URL table; the release-notes template
      ".../dataweave-{version}-release-notes" is split around `{version}`. */
  const DefaultConfig: Config := Config(
    "https://docs.mulesoft.com/release-notes/mule-runtime/lts-edge-release-cadence",
    "https://docs.mulesoft.com/general/java-support",
    "https://docs.mulesoft.com/dataweave/",
    "https://docs.mulesoft.com/connectors/",
    "https://docs.mulesoft.com/connectors/introduction/connector-release-notes",
    "https://docs.mulesoft.com/release-notes/dataweave/dataweave-",
    "-release-notes")

  /** `template.format(version=v)` */
  function ReleaseNotesUrl(cfg: Config, v: string): (url: string)
    ensures |url| == |cfg.releaseNotesPrefix| + |v| + |cfg.releaseNotesSuffix|
    ensures cfg.releaseNotesPrefix <= url
    ensures url[|cfg.releaseNotesPrefix|..|cfg.releaseNotesPrefix| + |v|] == v
    ensures url[|cfg.releaseNotesPrefix| + |v|..] == cfg.releaseNotesSuffix
  {
    cfg.releaseNotesPrefix + v + cfg.releaseNotesSuffix
  }

  /** The two `get_html_content` calls of a tool, in order: the first failure
      becomes the tool's error and stops the second fetch. */
  function FetchTwo(fetch: Fetch, first: string, second: string): (r: Result<(Page, Page), ScrapeError>)
    ensures fetch(first).Failure? ==> r == Failure(ErrorOf(fetch(first).error))
    ensures fetch(first).Success? && fetch(second).Failure? ==> r == Failure(ErrorOf(fetch(second).error))
    ensures r.Success? <==> fetch(first).Success? && fetch(second).Success?
    ensures r.Success? ==> r.value == (fetch(first).value, fetch(second).value)
  {
    match fetch(first)
    case Failure(e) => Failure(ErrorOf(e))
    case Success(p1) =>
      match fetch(second)
      case Failure(e) => Failure(ErrorOf(e))
      case Success(p2) => Success((p1, p2))
  }
}
