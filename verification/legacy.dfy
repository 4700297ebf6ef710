/** The standalone backup script, the predecessor of the package: its card filter, its table rows
  * checked against a header width given by the caller, and its checklist title walk, which treats
  * any cached key as a hit and survives a failing fetch. Its parsers are the dictionary-indexed
  * ones of `Parser`, with comments asked for only when the generator config downloads them. */
module LegacyScript {
  import opened Wrappers
  import opened Model
  import CardFilter
  import Output
  import Titles
  import TitleCache
  import Seqs
  import Strs

  // ---------------------------------------------------------------- card filter

  /** The three `keep = True` tests of the filter loop, OR-ed; OPEN is not among them. */
  predicate KeepCard(flags: CardFilter.Flags, c: Card) {
    (CardFilter.WithAttachment in flags && HasAttachments(c))
    || (CardFilter.WithDescription in flags && HasDescription(c))
    || (CardFilter.WithChecklist in flags && HasChecklist(c))
  }

  /** The filter loop: the cards some enabled test keeps, in list order. */
  function KeptCards(cards: seq<Card>, flags: CardFilter.Flags): (r: seq<Card>)
    ensures Seqs.IsSubsequence(r, cards)
    ensures forall c :: c in r <==> c in cards && KeepCard(flags, c)
  {
    if |cards| == 0 then []
    else
      var rest := KeptCards(cards[1..], flags);
      assert forall c :: c in cards <==> c == cards[0] || c in cards[1..];
      if KeepCard(flags, cards[0]) then
        assert ([cards[0]] + rest)[1..] == rest;
        [cards[0]] + rest
      else
        Seqs.SubsequenceDropHead(rest, cards);
        rest
  }

  /** `DataConverter.filter_cards`: every flag set returns the list's cards as they are; any other
    * set the cards passing one of its enabled tests. */
  function FilterCards(cards: seq<Card>, flags: CardFilter.Flags): (r: seq<Card>)
    ensures flags == CardFilter.All() ==> r == cards
    ensures flags != CardFilter.All() ==> forall c :: c in r <==> c in cards && KeepCard(flags, c)
  {
    if flags == CardFilter.All() then cards else KeptCards(cards, flags)
  }

  lemma {:induction false} KeptCardsIsFilter(cards: seq<Card>, flags: CardFilter.Flags)
    ensures KeptCards(cards, flags) == Seqs.Filter(c => CardFilter.Keep(flags, c), cards)
  {
    if |cards| > 0 {
      CardFilter.KeepIff(flags, cards[0]);
      KeptCardsIsFilter(cards[1..], flags);
    }
  }

  /** The script's filter and the package's filter keep the same cards in the same order for every
    * flag set. */
  lemma FilterCardsAgrees(cards: seq<Card>, flags: CardFilter.Flags)
    ensures FilterCards(cards, flags) == CardFilter.FilterCards(cards, flags)
  {
    if flags != CardFilter.All() {
      KeptCardsIsFilter(cards, flags);
    }
  }

  // ---------------------------------------------------------------- table rows

  /** A row as the script builds it: thirteen cells, the URL-title cell possibly None. */
  type Row = seq<Option<string>>

  /** The row for one extracted entry, in header order. */
  function RowOf(board: Board, list: TrelloList, card: Card, e: Output.Extracted): (r: Row)
    ensures |r| == |Output.Columns|
    ensures forall i :: 0 <= i < |Output.Columns| ==> r[i] == Output.Cell(Output.Columns[i], board, list, card, e)
  {
    var due := if Truthy(card.dueDate) then card.dueDate.value else "";
    [Some(board.name), Some(list.name), Some(card.name), Some(LabelsAsStr(card)), Some(due),
     Some(e.description), Some(e.attachmentName), Some(e.attachmentUrl), Some(e.localServerPath),
     Some(e.attachmentFilePath), Some(e.itemName), e.itemUrlTitle, Some(e.itemUrl)]
  }

  function MismatchError(rowLen: nat, headerLen: int): Exc {
    ValueError("Mismatch in number of columns in row(" + Strs.NatToString(rowLen)
      + ") vs. number of header columns (" + Strs.IntToString(headerLen) + ")")
  }

  /** The rows of one card's entries, each checked against the header width. */
  function EntryRows(board: Board, list: TrelloList, card: Card, es: seq<Output.Extracted>, headerLen: int)
    : (r: Result<seq<Row>, Exc>)
    ensures r.Ok? <==> |es| == 0 || headerLen == |Output.Columns|
    ensures r.Ok? ==> |r.value| == |es| && forall i :: 0 <= i < |es| ==> r.value[i] == RowOf(board, list, card, es[i])
    ensures r.Err? ==> r.error == MismatchError(|Output.Columns|, headerLen)
  {
    if |es| == 0 then Ok([])
    else
      var row := RowOf(board, list, card, es[0]);
      if headerLen != |row| then Err(MismatchError(|row|, headerLen))
      else
        match EntryRows(board, list, card, es[1..], headerLen)
        case Err(x) => Err(x)
        case Ok(rest) =>
          assert forall i :: 1 <= i < |es| ==> es[i] == es[1..][i - 1];
          Ok([row] + rest)
  }

  function CardsRows(board: Board, list: TrelloList, cards: seq<Card>, flags: CardFilter.Flags,
                     md: string -> string, headerLen: int): (r: Result<seq<Row>, Exc>)
    ensures r.Ok? ==> forall row :: row in r.value ==> |row| == headerLen
    ensures r.Err? ==> r.error == MismatchError(|Output.Columns|, headerLen)
  {
    if |cards| == 0 then Ok([])
    else
      var rows :- EntryRows(board, list, cards[0], Output.ExtractCardData(cards[0], flags, md), headerLen);
      var rest :- CardsRows(board, list, cards[1..], flags, md, headerLen);
      Ok(rows + rest)
  }

  function ListsRows(board: Board, lists: seq<TrelloList>, flags: CardFilter.Flags,
                     md: string -> string, headerLen: int): (r: Result<seq<Row>, Exc>)
    ensures r.Ok? ==> forall row :: row in r.value ==> |row| == headerLen
    ensures r.Err? ==> r.error == MismatchError(|Output.Columns|, headerLen)
  {
    if |lists| == 0 then Ok([])
    else
      var rows :- CardsRows(board, lists[0], FilterCards(lists[0].cards, flags), flags, md, headerLen);
      var rest :- ListsRows(board, lists[1..], flags, md, headerLen);
      Ok(rows + rest)
  }

  /** `DataConverter.convert_to_table_rows`: every row as wide as the header width passed in, or the
    * width-mismatch ValueError. */
  function ConvertToTableRows(board: Board, flags: CardFilter.Flags, md: string -> string, headerLen: int)
    : (r: Result<seq<Row>, Exc>)
    ensures r.Ok? ==> forall row :: row in r.value ==> |row| == headerLen
    ensures r.Err? ==> r.error == MismatchError(|Output.Columns|, headerLen)
  {
    ListsRows(board, board.lists, flags, md, headerLen)
  }

  /** `get_header`: the same thirteen names, in the same order, as the package's header. */
  function GetHeader(): (r: seq<string>)
    ensures |r| == |Output.Columns|
    ensures forall i :: 0 <= i < |Output.Columns| ==> r[i] == Output.Columns[i].Header()
  {
    ["Board", "List", "Card", "Labels", "Due date", "Description", "Attachment name", "Attachment URL",
     "Attachment Local URL", "Attachment File path", "Checklist item Name", "Checklist item URL Title",
     "Checklist item URL"]
  }

  lemma GetHeaderIsPackageHeader()
    ensures GetHeader() == Output.HeaderStrings()
  {
  }

  // ---------------------------------------------------------------- agreement with the package

  /** A script row with its missing URL title written as "", as the package writes it. */
  function Blank(row: Row): (r: seq<string>)
    ensures |r| == |row| && forall i :: 0 <= i < |row| ==> r[i] == row[i].GetOr("")
  {
    seq(|row|, i requires 0 <= i < |row| => row[i].GetOr(""))
  }

  function BlankAll(rows: seq<Row>): (r: seq<seq<string>>)
    ensures |r| == |rows| && forall i :: 0 <= i < |rows| ==> r[i] == Blank(rows[i])
  {
    seq(|rows|, i requires 0 <= i < |rows| => Blank(rows[i]))
  }

  lemma BlankAllConcat(a: seq<Row>, b: seq<Row>)
    ensures BlankAll(a + b) == BlankAll(a) + BlankAll(b)
  {
  }

  /** One script row, blanked, is the package's row for the same entry. */
  lemma RowMatches(board: Board, list: TrelloList, card: Card, e: Output.Extracted)
    ensures Output.TableRow(board, list, card, e).Ok?
    ensures Blank(RowOf(board, list, card, e)) == Output.TableRow(board, list, card, e).value
  {
    Output.TableRowNeverFails(board, list, card, e);
    var t := Output.TableRow(board, list, card, e).value;
    var b := Blank(RowOf(board, list, card, e));
    forall i | 0 <= i < |Output.Columns| ensures b[i] == t[i] {
      var col := Output.Columns[i];
      assert Output.CellValue(col, board, list, card, e).value == Output.Cell(col, board, list, card, e).GetOr("");
    }
  }

  lemma EntryRowsAgree(board: Board, list: TrelloList, card: Card, es: seq<Output.Extracted>, headerLen: int)
    ensures Output.RowsOf(board, list, card, es).Ok?
    ensures var r := EntryRows(board, list, card, es, headerLen);
      var o := Output.RowsOf(board, list, card, es).value;
      (r.Ok? <==> headerLen == |Output.Columns| || o == [])
      && (r.Ok? ==> BlankAll(r.value) == o)
  {
    Output.RowsOfOk(board, list, card, es);
    var r := EntryRows(board, list, card, es, headerLen);
    var o := Output.RowsOf(board, list, card, es).value;
    if r.Ok? {
      forall i | 0 <= i < |es| ensures BlankAll(r.value)[i] == o[i] {
        RowMatches(board, list, card, es[i]);
      }
    }
  }

  /** The script's rows and the package's rows agree on a concatenation when they agree on each part. */
  predicate Agree(r: Result<seq<Row>, Exc>, o: seq<seq<string>>, headerLen: int) {
    (r.Ok? <==> headerLen == |Output.Columns| || o == []) && (r.Ok? ==> BlankAll(r.value) == o)
  }

  function Concat(first: Result<seq<Row>, Exc>, rest: Result<seq<Row>, Exc>): Result<seq<Row>, Exc> {
    if first.Err? then first else if rest.Err? then rest else Ok(first.value + rest.value)
  }

  lemma AgreeConcat(first: Result<seq<Row>, Exc>, rest: Result<seq<Row>, Exc>, o1: seq<seq<string>>, o2: seq<seq<string>>,
                    headerLen: int)
    requires Agree(first, o1, headerLen) && Agree(rest, o2, headerLen)
    ensures Agree(Concat(first, rest), o1 + o2, headerLen)
  {
    if first.Ok? && rest.Ok? {
      BlankAllConcat(first.value, rest.value);
    }
  }

  lemma {:induction false} CardsRowsAgree(board: Board, list: TrelloList, cards: seq<Card>, flags: CardFilter.Flags,
                                          md: string -> string, headerLen: int)
    ensures Output.CardRows(board, list, cards, flags, md).Ok?
    ensures Agree(CardsRows(board, list, cards, flags, md, headerLen), Output.CardRows(board, list, cards, flags, md).value, headerLen)
  {
    Output.CardRowsOk(board, list, cards, flags, md);
    if |cards| > 0 {
      var es := Output.ExtractCardData(cards[0], flags, md);
      EntryRowsAgree(board, list, cards[0], es, headerLen);
      CardsRowsAgree(board, list, cards[1..], flags, md, headerLen);
      Output.RowsOfOk(board, list, cards[0], es);
      Output.CardRowsOk(board, list, cards[1..], flags, md);
      var first := EntryRows(board, list, cards[0], es, headerLen);
      var rest := CardsRows(board, list, cards[1..], flags, md, headerLen);
      var o1 := Output.RowsOf(board, list, cards[0], es).value;
      var o2 := Output.CardRows(board, list, cards[1..], flags, md).value;
      assert CardsRows(board, list, cards, flags, md, headerLen) == Concat(first, rest);
      assert Output.CardRows(board, list, cards, flags, md).value == o1 + o2;
      AgreeConcat(first, rest, o1, o2, headerLen);
    }
  }

  lemma {:induction false} ListsRowsAgree(board: Board, lists: seq<TrelloList>, flags: CardFilter.Flags,
                                          md: string -> string, headerLen: int)
    ensures Output.ListRows(board, lists, flags, md).Ok?
    ensures Agree(ListsRows(board, lists, flags, md, headerLen), Output.ListRows(board, lists, flags, md).value, headerLen)
  {
    Output.ListRowsOk(board, lists, flags, md);
    if |lists| > 0 {
      var cards := FilterCards(lists[0].cards, flags);
      FilterCardsAgrees(lists[0].cards, flags);
      CardsRowsAgree(board, lists[0], cards, flags, md, headerLen);
      ListsRowsAgree(board, lists[1..], flags, md, headerLen);
      Output.CardRowsOk(board, lists[0], cards, flags, md);
      Output.ListRowsOk(board, lists[1..], flags, md);
      var first := CardsRows(board, lists[0], cards, flags, md, headerLen);
      var rest := ListsRows(board, lists[1..], flags, md, headerLen);
      var o1 := Output.CardRows(board, lists[0], cards, flags, md).value;
      var o2 := Output.ListRows(board, lists[1..], flags, md).value;
      assert ListsRows(board, lists, flags, md, headerLen) == Concat(first, rest);
      assert Output.ListRows(board, lists, flags, md).value == o1 + o2;
      AgreeConcat(first, rest, o1, o2, headerLen);
    }
  }

  /** The script's table raises the width error exactly when the header width is not thirteen and
    * there is a row to check; otherwise its rows, with a missing URL title written as "", are the
    * package's rows. */
  lemma ConvertAgreesWithPackage(board: Board, flags: CardFilter.Flags, md: string -> string, headerLen: int)
    ensures Output.ConvertToTableRows(board, flags, md).Ok?
    ensures var r := ConvertToTableRows(board, flags, md, headerLen);
      var o := Output.ConvertToTableRows(board, flags, md).value.0;
      (r.Ok? <==> headerLen == |GetHeader()| || o == [])
      && (r.Ok? ==> BlankAll(r.value) == o)
  {
    ListsRowsAgree(board, board.lists, flags, md, headerLen);
  }

  // ---------------------------------------------------------------- checklist titles

  /** `TrelloChecklist.get_url_titles`: a failed extraction or fetch is an absent oracle answer, and
    * any key in the cache counts as a hit. */
  function GetUrlTitles(extract: string -> Option<string>, fetch: string -> Option<string>, cl: Checklist,
                        cache: TitleCache.Cache): (r: Titles.Walked<Checklist>)
    ensures r.value.(items := cl.items) == cl
    ensures |r.value.items| == |cl.items|
    ensures !r.raised
  {
    var env := Titles.Env(Titles.LegacyPolicy, extract, fetch);
    var w := Titles.ProcessItems(env, cl.items, cache);
    Titles.ItemsCalls(env, cl.items, cache);
    Titles.Walked(cl.(items := w.value), w.cache, w.ops, w.raised)
  }

  lemma {:induction false} ItemsEnriched(env: Titles.Env, items: seq<ChecklistItem>, c: TitleCache.Cache)
    requires env.policy.catchesFetch
    ensures var r := Titles.ProcessItems(env, items, c).value;
      forall i :: 0 <= i < |items| ==>
        (Titles.UrlOf(env, items[i]).None? ==> r[i] == items[i])
        && (Titles.UrlOf(env, items[i]).Some? ==> r[i].url == Titles.UrlOf(env, items[i]) && Truthy(r[i].urlTitle))
  {
    if |items| > 0 {
      var first := Titles.ProcessItem(env, items[0], c);
      ItemsEnriched(env, items[1..], first.cache);
      var r := Titles.ProcessItems(env, items, c).value;
      assert r == [first.value] + Titles.ProcessItems(env, items[1..], first.cache).value;
    }
  }

  /** Every item whose text yields a URL ends with that URL and a non-empty title; every other item
    * is left as it was. */
  lemma GetUrlTitlesSetsEveryUrl(extract: string -> Option<string>, fetch: string -> Option<string>, cl: Checklist,
                                 cache: TitleCache.Cache)
    ensures var env := Titles.Env(Titles.LegacyPolicy, extract, fetch);
      var r := GetUrlTitles(extract, fetch, cl, cache).value.items;
      forall i :: 0 <= i < |cl.items| ==>
        (Titles.UrlOf(env, cl.items[i]).None? ==> r[i] == cl.items[i])
        && (Titles.UrlOf(env, cl.items[i]).Some? ==> r[i].url == Titles.UrlOf(env, cl.items[i]) && Truthy(r[i].urlTitle))
  {
    ItemsEnriched(Titles.Env(Titles.LegacyPolicy, extract, fetch), cl.items, cache);
  }

  /** Walking the walked checklist again with the same oracles changes neither it nor the cache. */
  lemma GetUrlTitlesIdempotent(extract: string -> Option<string>, fetch: string -> Option<string>, cl: Checklist,
                               cache: TitleCache.Cache)
    ensures var once := GetUrlTitles(extract, fetch, cl, cache);
      var twice := GetUrlTitles(extract, fetch, once.value, once.cache);
      twice.value == once.value && twice.cache == once.cache && Titles.NoWrites(twice.ops)
  {
    var env := Titles.Env(Titles.LegacyPolicy, extract, fetch);
    var once := GetUrlTitles(extract, fetch, cl, cache);
    Titles.ProcessItemsSettles(env, cl.items, cache);
    Titles.ProcessItemsSettles(env, once.value.items, once.cache);
  }
}
