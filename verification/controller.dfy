/** The older board assembly: parse the lists, checklists and cards of a board, keep the open lists,
  * and enrich their checklist items with page titles from the loaded cache. */
module Controller {
  import opened Wrappers
  import opened Model
  import opened Input
  import Parser
  import Index
  import Seqs
  import Titles
  import TitleCache

  /** `filter(lambda tl: not tl.closed, lists)`. */
  function OpenLists(ls: seq<TrelloList>): (r: seq<TrelloList>)
    ensures forall l :: l in r <==> l in ls && !l.closed
  {
    Seqs.Filter((l: TrelloList) => !l.closed, ls)
  }

  /** The board's id and details as the API returned them for the board's name. */
  datatype Fetched = Fetched(boardId: string, json: BoardJson)

  /** The parsed lists of the board, each with the cards resolving to it appended. */
  function ParsedLists(f: Fetched, download: bool, actions: ActionsApi): (r: Result<seq<TrelloList>, Exc>)
    ensures r.Ok? ==> |r.value| == |f.json.lists| && forall k :: 0 <= k < |f.json.lists| ==> Parser.ListRecord(r.value[k]) == f.json.lists[k]
  {
    var lists := Parser.ParseLists(f.json.lists);
    var parsed :- Parser.ParseCardsIntoLists(f.json.cards, lists, Parser.ParseChecklists(f.json.checklists), download, actions);
    assert forall k :: 0 <= k < |lists| ==> parsed.lists[k].(cards := lists[k].cards) == lists[k] && lists[k] == Parser.ParseList(f.json.lists[k]);
    Ok(parsed.lists)
  }

  /** `TrelloOperations.get_board`: a card naming an unknown list or checklist is a KeyError;
    * otherwise the board holds the open lists only, walked for checklist titles with the cache read
    * from `stored`. */
  function GetBoard(name: string, f: Fetched, download: bool, actions: ActionsApi,
                    extract: string -> Option<string>, fetch: string -> Option<string>, stored: TitleCache.StoredFile)
    : (r: Result<Titles.Walked<Board>, Exc>)
    ensures (r.Err? && r.error.KeyError?) <==> !forall i :: 0 <= i < |f.json.cards| ==>
      Parser.Resolvable(f.json.cards[i], Index.ListsById(Parser.ParseLists(f.json.lists)),
                        Index.ChecklistsById(Parser.ParseChecklists(f.json.checklists)))
    ensures r.Err? ==> r.error.KeyError? || (r.error.FetchError? && Titles.RaisesOn(Titles.Env(Titles.ModelPolicy, extract, fetch), r.error.url))
    ensures r.Ok? ==> !r.value.raised && Titles.NoRaise(Titles.Env(Titles.ModelPolicy, extract, fetch), r.value.ops)
    ensures r.Ok? ==> r.value.value.id == f.boardId && r.value.value.name == name
    ensures r.Ok? ==> forall i :: 0 <= i < |r.value.value.lists| ==> !r.value.value.lists[i].closed
  {
    var lists :- ParsedLists(f, download, actions);
    var open := OpenLists(lists);
    var env := Titles.Env(Titles.ModelPolicy, extract, fetch);
    var b := Board(f.boardId, name, open);
    var w := Titles.ProcessBoard(env, b, TitleCache.Load(stored));
    Titles.WalkCalls(env, b.lists, TitleCache.Load(stored));
    if w.raised then Err(FetchError(w.ops[|w.ops| - 1].url))
    else
      OpenListsOpen(lists);
      WalkKeepsOpen(env, b, TitleCache.Load(stored));
      Ok(w)
  }

  lemma OpenListsOpen(ls: seq<TrelloList>)
    ensures forall i :: 0 <= i < |OpenLists(ls)| ==> !OpenLists(ls)[i].closed
  {
    var open := OpenLists(ls);
    forall i | 0 <= i < |open| ensures !open[i].closed {
      assert open[i] in open;
    }
  }

  /** The title walk leaves every list record as it was, so open lists stay open. */
  lemma WalkKeepsOpen(env: Titles.Env, b: Board, c: TitleCache.Cache)
    requires forall i :: 0 <= i < |b.lists| ==> !b.lists[i].closed
    ensures forall i :: 0 <= i < |Titles.ProcessBoard(env, b, c).value.lists| ==> !Titles.ProcessBoard(env, b, c).value.lists[i].closed
  {
    WalkKeepsRecords(env, b, c);
    var ws := Titles.ProcessBoard(env, b, c).value.lists;
    forall i | 0 <= i < |ws| ensures !ws[i].closed {
      assert ws[i].(cards := b.lists[i].cards) == b.lists[i];
    }
  }

  /** The title walk changes the lists' cards only. */
  lemma WalkKeepsRecords(env: Titles.Env, b: Board, c: TitleCache.Cache)
    ensures var ws := Titles.ProcessBoard(env, b, c).value.lists;
      |ws| == |b.lists| && forall i :: 0 <= i < |ws| ==> ws[i].(cards := b.lists[i].cards) == b.lists[i]
  {
    var ws := Titles.ProcessLists(env, b.lists, c).value;
    assert Titles.ProcessBoard(env, b, c).value.lists == ws;
  }

  /** Lists read from `js`, with cards, through the open filter, then rewritten but for their
    * records, hold exactly the open records of `js`. */
  lemma OpenRecords(js: seq<ListJson>, withCards: seq<TrelloList>, out: seq<TrelloList>)
    requires |withCards| == |js| && forall k :: 0 <= k < |js| ==> Parser.ListRecord(withCards[k]) == js[k]
    requires |out| == |OpenLists(withCards)|
    requires forall i :: 0 <= i < |out| ==> Parser.ListRecord(out[i]) == Parser.ListRecord(OpenLists(withCards)[i])
    ensures forall j :: (j in js && !j.closed) <==> exists i :: 0 <= i < |out| && Parser.ListRecord(out[i]) == j
  {
    var open := OpenLists(withCards);
    forall j | j in js && !j.closed ensures exists i :: 0 <= i < |out| && Parser.ListRecord(out[i]) == j {
      var k :| 0 <= k < |js| && js[k] == j;
      assert withCards[k] in open;
      var i :| 0 <= i < |open| && open[i] == withCards[k];
      assert Parser.ListRecord(out[i]) == j;
    }
    forall i | 0 <= i < |out| ensures Parser.ListRecord(out[i]) in js && !Parser.ListRecord(out[i]).closed {
      assert open[i] in withCards;
      var k :| 0 <= k < |withCards| && withCards[k] == open[i];
      assert Parser.ListRecord(out[i]) == js[k];
    }
  }

  /** The lists of the assembled board are exactly the open list records of the board details. */
  lemma GetBoardListsAreOpenRecords(name: string, f: Fetched, download: bool, actions: ActionsApi,
                                    extract: string -> Option<string>, fetch: string -> Option<string>, stored: TitleCache.StoredFile)
    requires GetBoard(name, f, download, actions, extract, fetch, stored).Ok?
    ensures var b := GetBoard(name, f, download, actions, extract, fetch, stored).value.value;
      forall j :: (j in f.json.lists && !j.closed) <==> exists i :: 0 <= i < |b.lists| && Parser.ListRecord(b.lists[i]) == j
  {
    var withCards := ParsedLists(f, download, actions).value;
    var open := OpenLists(withCards);
    var env := Titles.Env(Titles.ModelPolicy, extract, fetch);
    var bd := Board(f.boardId, name, open);
    var c := TitleCache.Load(stored);
    var b := Titles.ProcessBoard(env, bd, c).value;
    assert GetBoard(name, f, download, actions, extract, fetch, stored).value.value == b;
    WalkKeepsRecords(env, bd, c);
    forall i | 0 <= i < |b.lists| ensures Parser.ListRecord(b.lists[i]) == Parser.ListRecord(open[i]) {
      assert b.lists[i].(cards := open[i].cards) == open[i];
    }
    OpenRecords(f.json.lists, withCards, b.lists);
  }
}
