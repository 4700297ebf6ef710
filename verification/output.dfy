/** The projections of a board for output: the comment-download switch of the HTML generator modes,
  * the rows a card contributes to the table, the 13-column table rows, the nested output records,
  * and the report of files written per board. */
module Output {
  import opened Wrappers
  import opened Model
  import CardFilter
  import Strs

  /** What the HTML generator includes of a card. */
  datatype GeneratorConfig = GeneratorConfig(
    includeLabels: bool, includeDueDate: bool, includeChecklists: bool,
    includeActivity: bool, includeComments: bool)
  {
    predicate DownloadComments() { includeComments && includeActivity }
  }

  datatype GeneratorMode = Minimal | Basic | Full {
    function Config(): GeneratorConfig {
      match this
      case Minimal => GeneratorConfig(false, false, true, false, false)
      case Basic => GeneratorConfig(true, true, true, false, false)
      case Full => GeneratorConfig(true, true, true, true, true)
    }
  }

  /** Of the three modes only FULL asks for comments to be downloaded. */
  lemma OnlyFullDownloadsComments(m: GeneratorMode)
    ensures m.Config().DownloadComments() <==> m == Full
  {
    match m
    case Minimal =>
    case Basic =>
    case Full =>
  }

  /** The port the attachment file server listens on. */
  const HttpServerPort: nat := 8000

  function LocalhostPrefix(port: nat): string {
    "http://localhost:" + Strs.NatToString(port) + "/"
  }

  lemma DefaultLocalhostPrefix()
    ensures LocalhostPrefix(HttpServerPort) == "http://localhost:8000/"
  {
  }

  /** The URL the local file server serves a downloaded attachment under: the file's last path
    * segment below the server root; nothing for an attachment that was not downloaded. */
  function LocalServerPath(port: nat, downloaded: Option<string>): (r: string)
    ensures !Truthy(downloaded) ==> r == ""
    ensures Truthy(downloaded) ==>
      var p := LocalhostPrefix(port);
      Strs.StartsWith(r, p)
      && var name := r[|p|..];
      var path := downloaded.value;
      '/' !in name && |name| <= |path| && path[|path| - |name|..] == name
      && (|name| < |path| ==> path[|path| - |name| - 1] == '/')
  {
    if Truthy(downloaded) then
      var p := LocalhostPrefix(port);
      var r := p + Strs.LastSegment(downloaded.value, '/');
      assert r[..|p|] == p && r[|p|..] == Strs.LastSegment(downloaded.value, '/');
      r
    else ""
  }

  lemma LocalServerPathExample()
    ensures LocalServerPath(HttpServerPort, Some("files/x.pdf")) == "http://localhost:8000/x.pdf"
  {
    var d := Some("files/x.pdf");
    LocalServerPathOf(HttpServerPort, d);
    DefaultLocalhostPrefix();
    Strs.LastSegmentExample();
    JoinExample(LocalhostPrefix(HttpServerPort), Strs.LastSegment(d.value, '/'));
  }

  lemma JoinExample(p: string, n: string)
    requires p == "http://localhost:8000/" && n == "x.pdf"
    ensures p + n == "http://localhost:8000/x.pdf"
  {
  }

  lemma LocalServerPathOf(port: nat, d: Option<string>)
    requires Truthy(d)
    ensures LocalServerPath(port, d) == LocalhostPrefix(port) + Strs.LastSegment(d.value, '/')
  {
  }

  // ---------------------------------------------------------------- rows of one card

  /** One table row's worth of card data: the description plus either one attachment or one
    * checklist item. Only the item's URL title may be missing. */
  datatype Extracted = Extracted(
    description: string, attachmentName: string, attachmentUrl: string, attachmentFilePath: string,
    localServerPath: string, itemName: string, itemUrlTitle: Option<string>, itemUrl: string)

  function DescriptionRow(desc: string): Extracted {
    Extracted(desc, "", "", "", "", "", Some(""), "")
  }

  /** An attachment row names the attachment, its URL and, when downloaded, its file and local URL. */
  function AttachmentRow(desc: string, a: Attachment): (r: Extracted)
    ensures r.attachmentName == a.name && r.attachmentUrl == a.url
    ensures Truthy(a.downloadedFilePath) <==> r.attachmentFilePath != ""
    ensures Truthy(a.downloadedFilePath) <==> r.localServerPath != ""
    ensures r.itemName == "" && r.itemUrl == "" && r.itemUrlTitle == Some("")
  {
    var path := if Truthy(a.downloadedFilePath) then a.downloadedFilePath.value else "";
    var local := LocalServerPath(HttpServerPort, a.downloadedFilePath);
    assert Truthy(a.downloadedFilePath) ==> |local| >= |LocalhostPrefix(HttpServerPort)| > 0;
    Extracted(desc, a.name, a.url, path, local, "", Some(""), "")
  }

  /** A linked item fills the title and URL cells and leaves the name empty; any other item fills
    * only the name. */
  function ItemRow(desc: string, item: ChecklistItem): (r: Extracted)
    ensures r.attachmentName == "" && r.attachmentUrl == "" && r.attachmentFilePath == "" && r.localServerPath == ""
    ensures Truthy(item.url) ==> r.itemName == "" && r.itemUrl == item.url.value && r.itemUrlTitle == item.urlTitle
    ensures !Truthy(item.url) ==> r.itemName == item.value && r.itemUrl == "" && r.itemUrlTitle == Some("")
  {
    if Truthy(item.url) then Extracted(desc, "", "", "", "", "", item.urlTitle, item.url.value)
    else Extracted(desc, "", "", "", "", item.value, Some(""), "")
  }

  function AttachmentRows(desc: string, atts: seq<Attachment>): (r: seq<Extracted>)
    ensures |r| == |atts|
    ensures forall i :: 0 <= i < |atts| ==> r[i] == AttachmentRow(desc, atts[i])
  {
    seq(|atts|, i requires 0 <= i < |atts| => AttachmentRow(desc, atts[i]))
  }

  /** The items of all checklists, checklist by checklist, each in order. */
  function Items(cls: seq<Checklist>): seq<ChecklistItem> {
    if |cls| == 0 then [] else cls[0].items + Items(cls[1..])
  }

  function ItemRows(desc: string, cls: seq<Checklist>): (r: seq<Extracted>)
    ensures |r| == |Items(cls)|
  {
    if |cls| == 0 then []
    else
      var items := cls[0].items;
      seq(|items|, i requires 0 <= i < |items| => ItemRow(desc, items[i])) + ItemRows(desc, cls[1..])
  }

  /** The checklist rows are one row per item across the checklists, in order. */
  lemma {:induction false} ItemRowsPerItem(desc: string, cls: seq<Checklist>)
    ensures var r := ItemRows(desc, cls);
      forall i :: 0 <= i < |r| ==> r[i] == ItemRow(desc, Items(cls)[i])
  {
    if |cls| > 0 {
      ItemRowsPerItem(desc, cls[1..]);
      var items := cls[0].items;
      var r := ItemRows(desc, cls);
      forall i | 0 <= i < |r| ensures r[i] == ItemRow(desc, Items(cls)[i]) {
        if i >= |items| {
          assert r[i] == ItemRows(desc, cls[1..])[i - |items|];
          assert Items(cls)[i] == Items(cls[1..])[i - |items|];
        }
      }
    }
  }

  /** The rows before the description fallback: attachments first, then checklist items. */
  function PropertyRows(card: Card, flags: CardFilter.Flags, desc: string): (r: seq<Extracted>)
    ensures |r| == (if CardFilter.WithAttachment in flags then |card.attachments| else 0)
      + (if CardFilter.WithChecklist in flags then |Items(card.checklists)| else 0)
  {
    (if CardFilter.WithAttachment in flags then AttachmentRows(desc, card.attachments) else [])
    + (if CardFilter.WithChecklist in flags then ItemRows(desc, card.checklists) else [])
  }

  lemma {:induction false} ItemRowsDescription(desc: string, cls: seq<Checklist>)
    ensures forall e :: e in ItemRows(desc, cls) ==> e.description == desc
  {
    ItemRowsPerItem(desc, cls);
  }

  /** The rows a card contributes to the table under a flag set. */
  function ExtractCardData(card: Card, flags: CardFilter.Flags, md: string -> string): (r: seq<Extracted>)
    ensures forall e :: e in r ==> e.description == md(card.description)
    ensures flags == {CardFilter.WithDescription} ==> r == [DescriptionRow(md(card.description))]
    ensures CardFilter.WithDescription in flags ==> |r| >= 1
    ensures flags != {CardFilter.WithDescription} ==>
      var n := |PropertyRows(card, flags, md(card.description))|;
      |r| == (if n == 0 && CardFilter.WithDescription in flags then 1 else n)
  {
    var desc := md(card.description);
    if flags == {CardFilter.WithDescription} then [DescriptionRow(desc)]
    else
      var rows := PropertyRows(card, flags, desc);
      ItemRowsDescription(desc, card.checklists);
      if |rows| == 0 && CardFilter.WithDescription in flags then [DescriptionRow(desc)] else rows
  }

  /** With attachments enabled, a card's first rows are its attachments' rows, one each, in order;
    * with checklists enabled, its item rows follow, one per item, in order. */
  lemma ExtractedRowsInOrder(card: Card, flags: CardFilter.Flags, md: string -> string)
    requires flags != {CardFilter.WithDescription}
    ensures var r := ExtractCardData(card, flags, md);
      var desc := md(card.description);
      var na := if CardFilter.WithAttachment in flags then |card.attachments| else 0;
      (CardFilter.WithAttachment in flags ==>
        forall i :: 0 <= i < |card.attachments| ==> r[i] == AttachmentRow(desc, card.attachments[i]))
      && (CardFilter.WithChecklist in flags ==>
        forall i :: 0 <= i < |Items(card.checklists)| ==> r[na + i] == ItemRow(desc, Items(card.checklists)[i]))
  {
    var desc := md(card.description);
    var r := ExtractCardData(card, flags, md);
    var rows := PropertyRows(card, flags, desc);
    var atts := if CardFilter.WithAttachment in flags then AttachmentRows(desc, card.attachments) else [];
    var items := if CardFilter.WithChecklist in flags then ItemRows(desc, card.checklists) else [];
    assert rows == atts + items;
    if |rows| == 0 && CardFilter.WithDescription in flags {
      assert |atts| == 0 && |items| == 0;
    } else {
      assert r == rows;
      ItemRowsPerItem(desc, card.checklists);
      forall i | 0 <= i < |items| ensures r[|atts| + i] == items[i] {
      }
    }
  }

  /** Without attachments, checklists and description, a card contributes no row. */
  lemma NoPropertiesNoRows(card: Card, flags: CardFilter.Flags, md: string -> string)
    requires CardFilter.WithAttachment !in flags && CardFilter.WithChecklist !in flags
    requires CardFilter.WithDescription !in flags
    ensures ExtractCardData(card, flags, md) == []
  {
  }

  // ---------------------------------------------------------------- table rows

  /** The table's columns, in header order. */
  datatype Column =
    | BoardCol | ListCol | CardCol | LabelsCol | DueDateCol | DescriptionCol
    | AttachmentNameCol | AttachmentUrlCol | AttachmentLocalUrlCol | AttachmentFilePathCol
    | ItemNameCol | ItemUrlTitleCol | ItemUrlCol
  {
    function Header(): string {
      match this
      case BoardCol => "Board"
      case ListCol => "List"
      case CardCol => "Card"
      case LabelsCol => "Labels"
      case DueDateCol => "Due date"
      case DescriptionCol => "Description"
      case AttachmentNameCol => "Attachment name"
      case AttachmentUrlCol => "Attachment URL"
      case AttachmentLocalUrlCol => "Attachment Local URL"
      case AttachmentFilePathCol => "Attachment File path"
      case ItemNameCol => "Checklist item Name"
      case ItemUrlTitleCol => "Checklist item URL Title"
      case ItemUrlCol => "Checklist item URL"
    }

    function MemberName(): string {
      match this
      case BoardCol => "BOARD"
      case ListCol => "LIST"
      case CardCol => "CARD"
      case LabelsCol => "LABELS"
      case DueDateCol => "DUE_DATE"
      case DescriptionCol => "DESCRIPTION"
      case AttachmentNameCol => "ATTACHMENT_NAME"
      case AttachmentUrlCol => "ATTACHMENT_URL"
      case AttachmentLocalUrlCol => "ATTACHMENT_LOCAL_URL"
      case AttachmentFilePathCol => "ATTACHMENT_FILE_PATH"
      case ItemNameCol => "CHECKLIST_ITEM_NAME"
      case ItemUrlTitleCol => "CHECKLIST_ITEM_URL_TITLE"
      case ItemUrlCol => "CHECKLIST_ITEM_URL"
    }
  }

  const Columns: seq<Column> := [
    BoardCol, ListCol, CardCol, LabelsCol, DueDateCol, DescriptionCol,
    AttachmentNameCol, AttachmentUrlCol, AttachmentLocalUrlCol, AttachmentFilePathCol,
    ItemNameCol, ItemUrlTitleCol, ItemUrlCol]

  /** The mismatch message formats the header object itself, which has no string form of its own, so
    * it prints as the default object representation; the memory address inside it is left out. */
  const HeaderObjectRepr: string := "<trello_backup.display.output.TableHeader object>"

  function HeaderStrings(): (r: seq<string>)
    ensures |r| == |Columns| == 13
    ensures forall i :: 0 <= i < |Columns| ==> r[i] == Columns[i].Header()
  {
    seq(|Columns|, i requires 0 <= i < |Columns| => Columns[i].Header())
  }

  /** Every column appears in the header exactly once. */
  lemma ColumnsComplete(c: Column)
    ensures exists i :: 0 <= i < |Columns| && Columns[i] == c
    ensures forall i, j :: 0 <= i < j < |Columns| ==> Columns[i] != Columns[j]
  {
    match c
    case BoardCol => assert Columns[0] == c;
    case ListCol => assert Columns[1] == c;
    case CardCol => assert Columns[2] == c;
    case LabelsCol => assert Columns[3] == c;
    case DueDateCol => assert Columns[4] == c;
    case DescriptionCol => assert Columns[5] == c;
    case AttachmentNameCol => assert Columns[6] == c;
    case AttachmentUrlCol => assert Columns[7] == c;
    case AttachmentLocalUrlCol => assert Columns[8] == c;
    case AttachmentFilePathCol => assert Columns[9] == c;
    case ItemNameCol => assert Columns[10] == c;
    case ItemUrlTitleCol => assert Columns[11] == c;
    case ItemUrlCol => assert Columns[12] == c;
  }

  /** The value a column's getter reads for one row; only the item URL title can be missing. */
  function Cell(col: Column, board: Board, list: TrelloList, card: Card, e: Extracted): (r: Option<string>)
    ensures r.None? ==> col == ItemUrlTitleCol
  {
    match col
    case BoardCol => Some(board.name)
    case ListCol => Some(list.name)
    case CardCol => Some(card.name)
    case LabelsCol => Some(LabelsAsStr(card))
    case DueDateCol => Some(if Truthy(card.dueDate) then card.dueDate.value else "")
    case DescriptionCol => Some(e.description)
    case AttachmentNameCol => Some(e.attachmentName)
    case AttachmentUrlCol => Some(e.attachmentUrl)
    case AttachmentLocalUrlCol => Some(e.localServerPath)
    case AttachmentFilePathCol => Some(e.attachmentFilePath)
    case ItemNameCol => Some(e.itemName)
    case ItemUrlTitleCol => e.itemUrlTitle
    case ItemUrlCol => Some(e.itemUrl)
  }

  /** A missing value becomes "" in the URL-title column and is a ValueError in any other. */
  function CellValue(col: Column, board: Board, list: TrelloList, card: Card, e: Extracted): (r: Result<string, Exc>)
    ensures r.Err? <==> Cell(col, board, list, card, e).None? && col != ItemUrlTitleCol
    ensures Cell(col, board, list, card, e).Some? ==> r == Ok(Cell(col, board, list, card, e).value)
    ensures Cell(col, board, list, card, e).None? && col == ItemUrlTitleCol ==> r == Ok("")
  {
    match Cell(col, board, list, card, e)
    case Some(v) => Ok(v)
    case None =>
      if col == ItemUrlTitleCol then Ok("")
      else Err(ValueError("Value is None for column: TableHeaderFieldName." + col.MemberName()))
  }

  /** The cells of one row, column by column; the first missing value outside the URL-title column
    * is the error. */
  function BuildRow(cols: seq<Column>, board: Board, list: TrelloList, card: Card, e: Extracted): (r: Result<seq<string>, Exc>)
    ensures r.Ok? <==> forall i :: 0 <= i < |cols| ==> CellValue(cols[i], board, list, card, e).Ok?
    ensures r.Ok? ==> |r.value| == |cols|
    ensures r.Ok? ==> forall i :: 0 <= i < |cols| ==> r.value[i] == CellValue(cols[i], board, list, card, e).value
  {
    if |cols| == 0 then Ok([])
    else
      match CellValue(cols[0], board, list, card, e)
      case Err(x) => Err(x)
      case Ok(v) =>
        match BuildRow(cols[1..], board, list, card, e)
        case Err(x) => Err(x)
        case Ok(rest) =>
          assert forall i :: 1 <= i < |cols| ==> cols[i] == cols[1..][i - 1];
          Ok([v] + rest)
  }

  /** A complete row, with the row-width check against the header. */
  function TableRow(board: Board, list: TrelloList, card: Card, e: Extracted): (r: Result<seq<string>, Exc>)
    ensures r.Ok? ==> |r.value| == |HeaderStrings()|
    ensures r.Ok? ==> forall i :: 0 <= i < |Columns| ==>
      r.value[i] == CellValue(Columns[i], board, list, card, e).value
  {
    match BuildRow(Columns, board, list, card, e)
    case Err(x) => Err(x)
    case Ok(cells) =>
      if |cells| != |Columns| then
        Err(ValueError("Mismatch in number of columns in row(" + Strs.IntToString(|cells|) + ") vs. number of header columns (" + HeaderObjectRepr + ")"))
      else Ok(cells)
  }

  /** A typed row never raises: every cell has a value except possibly the URL title, which becomes "". */
  lemma TableRowNeverFails(board: Board, list: TrelloList, card: Card, e: Extracted)
    ensures TableRow(board, list, card, e).Ok?
    ensures var row := TableRow(board, list, card, e).value;
      row[0] == board.name && row[1] == list.name && row[2] == card.name && row[5] == e.description
      && row[11] == e.itemUrlTitle.GetOr("")
  {
    forall i | 0 <= i < |Columns| ensures CellValue(Columns[i], board, list, card, e).Ok? {
    }
  }

  function RowsOf(board: Board, list: TrelloList, card: Card, es: seq<Extracted>): (r: Result<seq<seq<string>>, Exc>)
    ensures r.Ok? ==> |r.value| == |es|
    ensures r.Ok? ==> forall i :: 0 <= i < |es| ==> TableRow(board, list, card, es[i]) == Ok(r.value[i])
  {
    if |es| == 0 then Ok([])
    else
      var row :- TableRow(board, list, card, es[0]);
      var rest :- RowsOf(board, list, card, es[1..]);
      assert forall i :: 1 <= i < |es| ==> es[i] == es[1..][i - 1];
      Ok([row] + rest)
  }

  function CardRows(board: Board, list: TrelloList, cards: seq<Card>, flags: CardFilter.Flags, md: string -> string)
    : (r: Result<seq<seq<string>>, Exc>)
    ensures r.Ok? ==> forall row :: row in r.value ==> |row| == 13 && row[0] == board.name && row[1] == list.name
  {
    if |cards| == 0 then Ok([])
    else
      var rows :- RowsOf(board, list, cards[0], ExtractCardData(cards[0], flags, md));
      var rest :- CardRows(board, list, cards[1..], flags, md);
      forall row | row in rows ensures |row| == 13 && row[0] == board.name && row[1] == list.name {
        var i :| 0 <= i < |rows| && rows[i] == row;
        TableRowNeverFails(board, list, cards[0], ExtractCardData(cards[0], flags, md)[i]);
      }
      Ok(rows + rest)
  }

  function ListRows(board: Board, lists: seq<TrelloList>, flags: CardFilter.Flags, md: string -> string)
    : (r: Result<seq<seq<string>>, Exc>)
    ensures r.Ok? ==> forall row :: row in r.value ==> |row| == 13 && row[0] == board.name
  {
    if |lists| == 0 then Ok([])
    else
      var rows :- CardRows(board, lists[0], CardFilter.FilterCards(lists[0].cards, flags), flags, md);
      var rest :- ListRows(board, lists[1..], flags, md);
      Ok(rows + rest)
  }

  /** The table of a board: each list's cards filtered, each card's rows, every row 13 cells wide
    * under the fixed header. */
  function ConvertToTableRows(board: Board, flags: CardFilter.Flags, md: string -> string)
    : (r: Result<(seq<seq<string>>, seq<string>), Exc>)
    ensures r.Ok? ==> r.value.1 == HeaderStrings()
    ensures r.Ok? ==> forall row :: row in r.value.0 ==> |row| == |r.value.1| && row[0] == board.name
  {
    var rows :- ListRows(board, board.lists, flags, md);
    Ok((rows, HeaderStrings()))
  }

  lemma {:induction false} RowsOfOk(board: Board, list: TrelloList, card: Card, es: seq<Extracted>)
    ensures RowsOf(board, list, card, es).Ok?
  {
    if |es| > 0 {
      TableRowNeverFails(board, list, card, es[0]);
      RowsOfOk(board, list, card, es[1..]);
    }
  }

  lemma {:induction false} CardRowsOk(board: Board, list: TrelloList, cards: seq<Card>, flags: CardFilter.Flags, md: string -> string)
    ensures CardRows(board, list, cards, flags, md).Ok?
  {
    if |cards| > 0 {
      RowsOfOk(board, list, cards[0], ExtractCardData(cards[0], flags, md));
      CardRowsOk(board, list, cards[1..], flags, md);
    }
  }

  lemma {:induction false} ListRowsOk(board: Board, lists: seq<TrelloList>, flags: CardFilter.Flags, md: string -> string)
    ensures ListRows(board, lists, flags, md).Ok?
  {
    if |lists| > 0 {
      CardRowsOk(board, lists[0], CardFilter.FilterCards(lists[0].cards, flags), flags, md);
      ListRowsOk(board, lists[1..], flags, md);
    }
  }

  /** Neither the None check nor the width check can fire on a typed board. */
  lemma ConvertToTableRowsNeverFails(board: Board, flags: CardFilter.Flags, md: string -> string)
    ensures ConvertToTableRows(board, flags, md).Ok?
  {
    ListRowsOk(board, board.lists, flags, md);
  }

  // ---------------------------------------------------------------- nested output records

  datatype AttachmentOutput = AttachmentOutput(name: string, url: string, localPath: Option<string>, localServerPath: string)
  datatype ItemOutput = ItemOutput(value: string, url: Option<string>, urlTitle: Option<string>, checked: bool)
  datatype ChecklistOutput = ChecklistOutput(name: string, items: seq<ItemOutput>)
  /** `labels` is None in the projection that leaves them out. */
  datatype CardOutput = CardOutput(
    id: string, name: string, closed: bool, description: string,
    attachments: seq<AttachmentOutput>, checklists: seq<ChecklistOutput>, labels: Option<seq<string>>)
  datatype ListOutput = ListOutput(name: string, cards: seq<CardOutput>)

  function AttachmentToOutput(port: nat, a: Attachment): AttachmentOutput {
    AttachmentOutput(a.name, a.url, a.downloadedFilePath, LocalServerPath(port, a.downloadedFilePath))
  }

  function ItemToOutput(item: ChecklistItem): ItemOutput {
    ItemOutput(item.value, item.url, item.urlTitle, item.checked)
  }

  /** The item an output record describes, given the id the projection drops. */
  function ItemFromOutput(id: string, o: ItemOutput): ChecklistItem {
    ChecklistItem(id, o.value, o.checked, o.url, o.urlTitle)
  }

  function ChecklistToOutput(cl: Checklist): (r: ChecklistOutput)
    ensures r.name == cl.name && |r.items| == |cl.items|
    ensures forall i :: 0 <= i < |cl.items| ==> ItemFromOutput(cl.items[i].id, r.items[i]) == cl.items[i]
  {
    ChecklistOutput(cl.name, seq(|cl.items|, i requires 0 <= i < |cl.items| => ItemToOutput(cl.items[i])))
  }

  /** A card's nested record: attachments and checklists in order, description as plain text. */
  function CardToOutput(card: Card, md: string -> string, port: nat, withLabels: bool): (r: CardOutput)
    ensures r.id == card.id && r.name == card.name && r.closed == card.closed
    ensures r.description == md(card.description)
    ensures |r.attachments| == |card.attachments| && |r.checklists| == |card.checklists|
    ensures forall i :: 0 <= i < |card.attachments| ==>
      r.attachments[i].name == card.attachments[i].name && r.attachments[i].url == card.attachments[i].url
      && r.attachments[i].localPath == card.attachments[i].downloadedFilePath
      && (r.attachments[i].localServerPath == "" <==> !Truthy(card.attachments[i].downloadedFilePath))
    ensures forall i :: 0 <= i < |card.checklists| ==> r.checklists[i] == ChecklistToOutput(card.checklists[i])
    ensures r.labels == (if withLabels then Some(card.labels) else None)
  {
    forall i | 0 <= i < |card.attachments|
      ensures LocalServerPath(port, card.attachments[i].downloadedFilePath) == "" <==> !Truthy(card.attachments[i].downloadedFilePath)
    {
      assert |LocalhostPrefix(port)| > 0;
    }
    CardOutput(
      card.id, card.name, card.closed, md(card.description),
      seq(|card.attachments|, i requires 0 <= i < |card.attachments| => AttachmentToOutput(port, card.attachments[i])),
      seq(|card.checklists|, i requires 0 <= i < |card.checklists| => ChecklistToOutput(card.checklists[i])),
      if withLabels then Some(card.labels) else None)
  }

  /** Every item of a card's output record reads back as the card's item. */
  lemma ItemsRoundTrip(card: Card, md: string -> string, port: nat, withLabels: bool, i: nat, j: nat)
    requires i < |card.checklists| && j < |card.checklists[i].items|
    ensures var o := CardToOutput(card, md, port, withLabels);
      j < |o.checklists[i].items|
      && ItemFromOutput(card.checklists[i].items[j].id, o.checklists[i].items[j]) == card.checklists[i].items[j]
  {
  }

  function ListToOutput(name: string, list: TrelloList, md: string -> string, port: nat, withLabels: bool): (r: ListOutput)
    ensures r.name == name && |r.cards| == |list.cards|
    ensures forall j :: 0 <= j < |list.cards| ==> r.cards[j] == CardToOutput(list.cards[j], md, port, withLabels)
  {
    ListOutput(name, seq(|list.cards|, j requires 0 <= j < |list.cards| => CardToOutput(list.cards[j], md, port, withLabels)))
  }

  /** One record per list, in container order, each named by its list and mirroring its cards. */
  function ConvertToOutputData(lists: seq<TrelloList>, md: string -> string, port: nat): (r: seq<ListOutput>)
    ensures |r| == |lists|
    ensures forall i :: 0 <= i < |lists| ==> r[i].name == lists[i].name && |r[i].cards| == |lists[i].cards|
    ensures forall i, j :: 0 <= i < |lists| && 0 <= j < |lists[i].cards| ==>
      r[i].cards[j] == CardToOutput(lists[i].cards[j], md, port, true)
  {
    seq(|lists|, i requires 0 <= i < |lists| => ListToOutput(lists[i].name, lists[i], md, port, true))
  }

  // ---------------------------------------------------------------- backup report

  datatype OutputType = HtmlFile | RichHtmlTable | CustomHtmlTable | Csv | BoardJson

  /** Files written per board and output type; `boards` keeps the boards in first-write order. */
  datatype BackupReport = BackupReport(boards: seq<string>, files: map<string, map<OutputType, seq<string>>>)

  ghost predicate ValidReport(rep: BackupReport) {
    (forall b :: b in rep.files <==> b in rep.boards)
    && (forall i, j :: 0 <= i < j < |rep.boards| ==> rep.boards[i] != rep.boards[j])
  }

  const EmptyReport := BackupReport([], map[])

  /** The paths one board wrote for one type. */
  function FilesFor(files: map<string, map<OutputType, seq<string>>>, b: string, t: OutputType): seq<string> {
    if b in files && t in files[b] then files[b][t] else []
  }

  /** Records one written file under its board and type, after those already recorded. */
  function FileWriteCallback(rep: BackupReport, b: string, t: OutputType, path: string): (r: BackupReport)
    requires ValidReport(rep)
    ensures ValidReport(r)
    ensures FilesFor(r.files, b, t) == FilesFor(rep.files, b, t) + [path]
    ensures forall b', t' :: (b', t') != (b, t) ==> FilesFor(r.files, b', t') == FilesFor(rep.files, b', t')
    ensures r.boards == if b in rep.files then rep.boards else rep.boards + [b]
  {
    var inner := if b in rep.files then rep.files[b] else map[];
    var old_paths := if t in inner then inner[t] else [];
    var files := rep.files[b := inner[t := old_paths + [path]]];
    BackupReport(if b in rep.files then rep.boards else rep.boards + [b], files)
  }

  function FilesOf(boards: seq<string>, files: map<string, map<OutputType, seq<string>>>, t: OutputType): (r: seq<string>)
    ensures forall p :: p in r <==> exists b :: b in boards && p in FilesFor(files, b, t)
  {
    if |boards| == 0 then []
    else
      var rest := FilesOf(boards[1..], files, t);
      assert forall b :: b in boards <==> b == boards[0] || b in boards[1..];
      FilesFor(files, boards[0], t) + rest
  }

  /** Every path of one type, board by board in first-write order: the first board's paths open the
    * list and the last board's close it, each in write order; a path is listed exactly when some
    * board wrote it with that type. */
  function GetFiles(rep: BackupReport, t: OutputType): (r: seq<string>)
    ensures forall p :: p in r <==> exists b :: b in rep.boards && p in FilesFor(rep.files, b, t)
    ensures |rep.boards| > 0 ==> FilesFor(rep.files, rep.boards[0], t) <= r
    ensures |rep.boards| > 0 ==>
      var last := FilesFor(rep.files, rep.boards[|rep.boards| - 1], t);
      |last| <= |r| && r[|r| - |last|..] == last
  {
    if |rep.boards| > 0 then
      var n := |rep.boards| - 1;
      assert rep.boards[..n] + [rep.boards[n]] == rep.boards;
      FilesOfAppend(rep.boards[..n], rep.boards[n], rep.files, t);
      FilesOf(rep.boards, rep.files, t)
    else FilesOf(rep.boards, rep.files, t)
  }

  lemma {:induction false} FilesOfSame(bs: seq<string>, f: map<string, map<OutputType, seq<string>>>,
                                       g: map<string, map<OutputType, seq<string>>>, t: OutputType)
    requires forall x :: x in bs ==> FilesFor(f, x, t) == FilesFor(g, x, t)
    ensures FilesOf(bs, f, t) == FilesOf(bs, g, t)
  {
    if |bs| > 0 {
      FilesOfSame(bs[1..], f, g, t);
    }
  }

  lemma {:induction false} FilesOfAppend(bs: seq<string>, b: string, f: map<string, map<OutputType, seq<string>>>, t: OutputType)
    ensures FilesOf(bs + [b], f, t) == FilesOf(bs, f, t) + FilesFor(f, b, t)
  {
    if |bs| > 0 {
      assert (bs + [b])[1..] == bs[1..] + [b];
      FilesOfAppend(bs[1..], b, f, t);
    }
  }

  /** Appending one path to one board's entry adds exactly that path to the concatenation. */
  lemma {:induction false} FilesOfGrow(bs: seq<string>, f: map<string, map<OutputType, seq<string>>>,
                                       g: map<string, map<OutputType, seq<string>>>, b: string, t: OutputType, path: string)
    requires b in bs
    requires forall i, j :: 0 <= i < j < |bs| ==> bs[i] != bs[j]
    requires forall x :: x in bs && x != b ==> FilesFor(f, x, t) == FilesFor(g, x, t)
    requires FilesFor(g, b, t) == FilesFor(f, b, t) + [path]
    ensures |FilesOf(bs, g, t)| == |FilesOf(bs, f, t)| + 1
    ensures path in FilesOf(bs, g, t)
    ensures multiset(FilesOf(bs, g, t)) == multiset(FilesOf(bs, f, t)) + multiset{path}
  {
    var rest := bs[1..];
    DistinctTail(bs);
    var hf := FilesFor(f, bs[0], t);
    var hg := FilesFor(g, bs[0], t);
    assert FilesOf(bs, f, t) == hf + FilesOf(rest, f, t);
    assert FilesOf(bs, g, t) == hg + FilesOf(rest, g, t);
    if bs[0] == b {
      FilesOfSame(rest, f, g, t);
      GrowsBy(hf, FilesOf(rest, f, t), path);
    } else {
      assert b in rest;
      FilesOfGrow(rest, f, g, b, t, path);
      GrowsAfter(hf, FilesOf(rest, f, t), FilesOf(rest, g, t), path);
    }
  }

  /** One more path at the end of the first part of a concatenation. */
  lemma GrowsBy(h: seq<string>, rest: seq<string>, path: string)
    ensures var a := h + rest; var b := (h + [path]) + rest;
      |b| == |a| + 1 && path in b && multiset(b) == multiset(a) + multiset{path}
  {
    var b := (h + [path]) + rest;
    assert b[|h|] == path;
  }

  /** One more path in the second part of a concatenation. */
  lemma GrowsAfter(h: seq<string>, rf: seq<string>, rg: seq<string>, path: string)
    requires |rg| == |rf| + 1 && path in rg && multiset(rg) == multiset(rf) + multiset{path}
    ensures var a := h + rf; var b := h + rg;
      |b| == |a| + 1 && path in b && multiset(b) == multiset(a) + multiset{path}
  {
  }

  lemma DistinctTail(bs: seq<string>)
    requires |bs| > 0 && forall i, j :: 0 <= i < j < |bs| ==> bs[i] != bs[j]
    ensures bs[0] !in bs[1..]
    ensures forall i, j :: 0 <= i < j < |bs[1..]| ==> bs[1..][i] != bs[1..][j]
  {
    forall k | 0 <= k < |bs[1..]| ensures bs[1..][k] != bs[0] {
      assert bs[1..][k] == bs[k + 1];
    }
  }

  /** After a write is reported, the files of its type include the new path once more; duplicates
    * are kept. */
  lemma CallbackThenGetFiles(rep: BackupReport, b: string, t: OutputType, path: string)
    requires ValidReport(rep)
    ensures var r := FileWriteCallback(rep, b, t, path);
      path in GetFiles(r, t)
      && |GetFiles(r, t)| == |GetFiles(rep, t)| + 1
      && multiset(GetFiles(r, t)) == multiset(GetFiles(rep, t)) + multiset{path}
  {
    var r := FileWriteCallback(rep, b, t, path);
    forall x | x in rep.boards && x != b ensures FilesFor(rep.files, x, t) == FilesFor(r.files, x, t) {
      assert (x, t) != (b, t);
    }
    if b in rep.files {
      FilesOfGrow(rep.boards, rep.files, r.files, b, t, path);
    } else {
      assert b !in rep.boards;
      FilesOfAppend(rep.boards, b, r.files, t);
      FilesOfSame(rep.boards, rep.files, r.files, t);
      assert FilesFor(r.files, b, t) == [path];
      GrowsAfter(FilesOf(rep.boards, rep.files, t), [], [path], path);
    }
  }

  /** A write of one type leaves the files of every other type as they were. */
  lemma CallbackKeepsOtherTypes(rep: BackupReport, b: string, t: OutputType, path: string, t': OutputType)
    requires ValidReport(rep) && t' != t
    ensures GetFiles(FileWriteCallback(rep, b, t, path), t') == GetFiles(rep, t')
  {
    var r := FileWriteCallback(rep, b, t, path);
    forall x | x in r.boards ensures FilesFor(rep.files, x, t') == FilesFor(r.files, x, t') {
      assert (x, t') != (b, t);
    }
    if b !in rep.files {
      FilesOfAppend(rep.boards, b, r.files, t');
      assert FilesFor(r.files, b, t') == [];
    }
    FilesOfSame(rep.boards, rep.files, r.files, t');
  }
}
