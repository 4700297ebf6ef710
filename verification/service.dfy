/** The operations layer: board id and board record memoised per session, the assembly of a board
  * from its record under the list and card filters, the title walk and cache saves that follow,
  * and the interactive cleanup walk driven by a sequence of answers. */
module Service {
  import opened Wrappers
  import opened Model
  import opened Input
  import Containers
  import CardFilter
  import Parser
  import Index
  import Titles
  import TitleCache
  import Output
  import Seqs

  /** The Trello REST calls the operations make, as oracles. `boardId` fails for an unknown name. */
  datatype Api = Api(
    listBoards: map<string, string>,
    boardId: string -> Result<string, Exc>,
    boardDetails: string -> BoardJson,
    actions: ActionsApi)

  /** The per-instance memo tables: board name to id, board id to board record. */
  datatype Session = Session(nameToId: map<string, string>, idToJson: map<string, BoardJson>)

  const NewSession := Session(map[], map[])

  /** A value together with the session after computing it and the number of API calls made. */
  datatype Memo<T> = Memo(session: Session, value: T, apiCalls: nat)

  /** The board id of a name: from the memo when known, else from one API call, which is remembered. */
  function GetBoardId(s: Session, api: Api, name: string): (r: Result<Memo<string>, Exc>)
    ensures name in s.nameToId ==> r == Ok(Memo(s, s.nameToId[name], 0))
    ensures name !in s.nameToId ==> (r.Ok? <==> api.boardId(name).Ok?)
    ensures name !in s.nameToId && r.Ok? ==> r.value.apiCalls == 1 && r.value.value == api.boardId(name).value
    ensures r.Ok? ==> r.value.session.idToJson == s.idToJson
    ensures r.Ok? ==> name in r.value.session.nameToId && r.value.session.nameToId[name] == r.value.value
    ensures r.Ok? ==> forall k :: k in s.nameToId ==> k in r.value.session.nameToId && r.value.session.nameToId[k] == s.nameToId[k]
  {
    if name in s.nameToId then Ok(Memo(s, s.nameToId[name], 0))
    else
      var id :- api.boardId(name);
      Ok(Memo(s.(nameToId := s.nameToId[name := id]), id, 1))
  }

  /** The board record of an id: from the memo when known, else from one API call, which is remembered. */
  function GetBoardJson(s: Session, api: Api, id: string): (r: Memo<BoardJson>)
    ensures id in s.idToJson ==> r == Memo(s, s.idToJson[id], 0)
    ensures id !in s.idToJson ==> r.apiCalls == 1 && r.value == api.boardDetails(id)
    ensures r.session.nameToId == s.nameToId
    ensures id in r.session.idToJson && r.session.idToJson[id] == r.value
    ensures forall k :: k in s.idToJson ==> k in r.session.idToJson && r.session.idToJson[k] == s.idToJson[k]
  {
    if id in s.idToJson then Memo(s, s.idToJson[id], 0)
    else
      var json := api.boardDetails(id);
      Memo(s.(idToJson := s.idToJson[id := json]), json, 1)
  }

  /** Asking twice for the same board costs no API call the second time. */
  lemma BoardIdMemoised(s: Session, api: Api, name: string)
    requires GetBoardId(s, api, name).Ok?
    ensures var m := GetBoardId(s, api, name).value;
      GetBoardId(m.session, api, name) == Ok(Memo(m.session, m.value, 0))
  {
  }

  lemma BoardJsonMemoised(s: Session, api: Api, id: string)
    ensures var m := GetBoardJson(s, api, id);
      GetBoardJson(m.session, api, id) == Memo(m.session, m.value, 0)
  {
  }

  /** Lists the boards and remembers every name/id pair it returned. */
  function GetBoardNamesAndIds(s: Session, api: Api): (r: (Session, map<string, string>))
    ensures r.1 == api.listBoards
    ensures forall k :: k in api.listBoards ==> k in r.0.nameToId && r.0.nameToId[k] == api.listBoards[k]
    ensures forall k :: k in s.nameToId && k !in api.listBoards ==> k in r.0.nameToId && r.0.nameToId[k] == s.nameToId[k]
    ensures forall k :: k in r.0.nameToId ==> k in s.nameToId || k in api.listBoards
    ensures r.0.idToJson == s.idToJson
  {
    (s.(nameToId := s.nameToId + api.listBoards), api.listBoards)
  }

  /** After listing the boards, looking up any listed board's id makes no API call. */
  lemma ListedBoardsNeedNoCall(s: Session, api: Api, name: string)
    requires name in api.listBoards
    ensures var s' := GetBoardNamesAndIds(s, api).0;
      GetBoardId(s', api, name) == Ok(Memo(s', api.listBoards[name], 0))
  {
  }

  // ---------------------------------------------------------------- assembling a board

  /** The filters of one run: list names to keep, a list-state filter, and a card preset. */
  datatype TrelloFilters = TrelloFilters(
    listNames: seq<string>, listFilter: Option<Containers.ListFilter>, cardFilters: CardFilter.Preset)

  /** Name selection only when names are given, state selection only when a filter is given. */
  function SelectLists(lists: Containers.TrelloLists, filters: TrelloFilters): (r: Result<Containers.TrelloLists, Exc>)
    ensures |filters.listNames| == 0 && filters.listFilter.None? ==> r == Ok(lists)
    ensures |filters.listNames| == 0 && filters.listFilter.Some? ==>
      r == Ok(Containers.FilterByListFilter(lists, filters.listFilter.value))
    ensures |filters.listNames| > 0 ==> (r.Ok? <==> Containers.FilterByListNames(lists, filters.listNames).Ok?)
    ensures r.Ok? ==> forall l :: l in r.value.all ==>
      l in lists.all
      && (|filters.listNames| > 0 ==> l.name in filters.listNames)
      && (filters.listFilter == Some(Containers.OnlyOpen) ==> !l.closed)
  {
    var named: Result<Containers.TrelloLists, Exc> :=
      if |filters.listNames| > 0 then Containers.FilterByListNames(lists, filters.listNames) else Ok(lists);
    var kept :- named;
    Ok(if filters.listFilter.Some? then Containers.FilterByListFilter(kept, filters.listFilter.value) else kept)
  }

  /** With comments requested, each card's comments are replaced by those of its actions; nothing
    * else of a card changes. */
  function FetchCommentsForCards(cards: seq<Card>, download: bool, actions: ActionsApi): (r: seq<Card>)
    ensures |r| == |cards|
    ensures forall i :: 0 <= i < |cards| ==> r[i].(comments := cards[i].comments) == cards[i]
    ensures forall i :: 0 <= i < |cards| ==>
      r[i].comments == if download then Parser.CommentsOf(actions(cards[i].id)) else cards[i].comments
  {
    if !download then cards
    else seq(|cards|, i requires 0 <= i < |cards| => cards[i].(comments := Parser.CommentsOf(actions(cards[i].id))))
  }

  /** Each list's cards overwritten by the card filter's result; the lists themselves stay. */
  function FilterListCards(ls: seq<TrelloList>, flags: CardFilter.Flags): (r: seq<TrelloList>)
    ensures |r| == |ls|
    ensures forall i :: 0 <= i < |ls| ==> r[i].(cards := ls[i].cards) == ls[i]
    ensures forall i :: 0 <= i < |ls| ==> Seqs.IsSubsequence(r[i].cards, ls[i].cards)
    ensures forall i, c :: 0 <= i < |ls| ==>
      (c in r[i].cards <==> c in ls[i].cards && (flags == CardFilter.All() || CardFilter.Keep(flags, c)))
  {
    seq(|ls|, i requires 0 <= i < |ls| => ls[i].(cards := CardFilter.FilterCards(ls[i].cards, flags)))
  }

  /** The board before title enrichment, with the scope of its list container. */
  datatype Assembled = Assembled(scope: Containers.Scope, board: Board)

  /** Every card on an assembled list belongs to that list, passed the card filter, and carries the
    * comments of its actions exactly when they were requested. */
  ghost predicate CardsPlaced(ls: seq<TrelloList>, flags: CardFilter.Flags, download: bool, actions: ActionsApi) {
    forall i, c :: 0 <= i < |ls| && c in ls[i].cards ==>
      c.listId == ls[i].id
      && (flags == CardFilter.All() || CardFilter.Keep(flags, c))
      && c.comments == (if download then Parser.CommentsOf(actions(c.id)) else [])
  }

  /** The cards a list shows: of all fetched cards, those whose list id it is the last list to carry,
    * in card order, passed through the card filter. */
  function ListCards(ls: seq<TrelloList>, i: int, cards: seq<Card>, flags: CardFilter.Flags): seq<Card> {
    CardFilter.FilterCards(Seqs.Filter((c: Card) => Index.LastWithId(ls, i, c.listId), cards), flags)
  }

  /** The board of one fetch: the selected lists in order, each holding exactly its filtered cards.
    * Selecting the lists fails with a ValueError, parsing the cards with a KeyError, and nothing
    * else fails. */
  function AssembleBoard(id: string, name: string, json: BoardJson, filters: TrelloFilters,
                         download: bool, actions: ActionsApi): (r: Result<Assembled, Exc>)
    ensures var sel := SelectLists(Containers.ListsOfBoard(json), filters);
      r.Ok? <==> sel.Ok? && Containers.CardsOf(json.cards, sel.value, Containers.ChecklistsOfBoard(json)).Ok?
    ensures r.Err? ==> r.error.ValueError? || r.error.KeyError?
    ensures r.Ok? ==> r.value.board.id == id && r.value.board.name == name
    ensures r.Ok? ==>
      var sel := SelectLists(Containers.ListsOfBoard(json), filters).value;
      var parsed := Containers.CardsOf(json.cards, sel, Containers.ChecklistsOfBoard(json)).value.all;
      var fetched := FetchCommentsForCards(parsed, download, actions);
      r.value.scope == sel.scope && |r.value.board.lists| == |sel.all|
      && forall i :: 0 <= i < |sel.all| ==>
        r.value.board.lists[i].(cards := []) == sel.all[i]
        && r.value.board.lists[i].cards == ListCards(sel.all, i, fetched, filters.cardFilters.Value())
    ensures r.Ok? ==> forall i :: 0 <= i < |r.value.board.lists| ==>
      r.value.board.lists[i].(cards := []) in Parser.ParseLists(json.lists)
    ensures r.Ok? ==> CardsPlaced(r.value.board.lists, filters.cardFilters.Value(), download, actions)
  {
    var all := Containers.ListsOfBoard(json);
    var lists :- SelectLists(all, filters);
    SelectedAreParsed(json, filters);
    var cls := Containers.ChecklistsOfBoard(json);
    var parsed :- Containers.CardsOf(json.cards, lists, cls);
    ParsedCardsNoComments(json.cards, lists, cls);
    Ok(Assembled(lists.scope, Board(id, name, PlaceCards(lists.all, parsed.all, filters.cardFilters.Value(), download, actions))))
  }

  /** Comments fetched for the parsed cards, each card attached to its list, each list's cards
    * filtered. */
  function PlaceCards(ls: seq<TrelloList>, parsed: seq<Card>, flags: CardFilter.Flags,
                      download: bool, actions: ActionsApi): (r: seq<TrelloList>)
    requires forall c :: c in parsed ==> c.comments == []
    requires forall i :: 0 <= i < |ls| ==> ls[i].cards == []
    ensures |r| == |ls|
    ensures forall i :: 0 <= i < |ls| ==>
      r[i].(cards := []) == ls[i]
      && r[i].cards == ListCards(ls, i, FetchCommentsForCards(parsed, download, actions), flags)
    ensures CardsPlaced(r, flags, download, actions)
  {
    var fetched := FetchCommentsForCards(parsed, download, actions);
    AssembledCardsPlaced(ls, parsed, download, actions, flags);
    FilteredListCards(ls, fetched, flags);
    FilterListCards(Index.AttachCards(ls, fetched), flags)
  }

  /** Attaching cards to empty lists and filtering them leaves each list exactly its `ListCards`. */
  lemma FilteredListCards(ls: seq<TrelloList>, cards: seq<Card>, flags: CardFilter.Flags)
    requires forall i :: 0 <= i < |ls| ==> ls[i].cards == []
    ensures var r := FilterListCards(Index.AttachCards(ls, cards), flags);
      |r| == |ls| && forall i :: 0 <= i < |ls| ==> r[i].cards == ListCards(ls, i, cards, flags)
  {
    Index.AttachCardsGains(ls, cards);
    var a := Index.AttachCards(ls, cards);
    forall i | 0 <= i < |ls| ensures a[i].cards == Seqs.Filter((c: Card) => Index.LastWithId(ls, i, c.listId), cards) {
      assert [] + Seqs.Filter((c: Card) => Index.LastWithId(ls, i, c.listId), cards)
        == Seqs.Filter((c: Card) => Index.LastWithId(ls, i, c.listId), cards);
    }
  }

  /** The selected lists are parsed lists of the board, none with cards yet. */
  lemma SelectedAreParsed(json: BoardJson, filters: TrelloFilters)
    requires SelectLists(Containers.ListsOfBoard(json), filters).Ok?
    ensures var sel := SelectLists(Containers.ListsOfBoard(json), filters).value.all;
      forall i :: 0 <= i < |sel| ==> sel[i] in Parser.ParseLists(json.lists) && sel[i].cards == []
  {
    var all := Containers.ListsOfBoard(json);
    assert all.all == Parser.ParseLists(json.lists);
    var sel := SelectLists(all, filters).value.all;
    forall i | 0 <= i < |sel| ensures sel[i] in all.all && sel[i].cards == [] {
      assert sel[i] in sel;
      var k :| 0 <= k < |all.all| && all.all[k] == sel[i];
    }
  }

  /** The parsed cards carry no comments. */
  lemma ParsedCardsNoComments(js: seq<CardJson>, lists: Containers.TrelloLists, cls: Containers.TrelloChecklists)
    requires Containers.ParseCards(js, lists, cls).Ok?
    ensures forall c :: c in Containers.ParseCards(js, lists, cls).value ==> c.comments == []
  {
    var kept := Seqs.Filter(j => Containers.KnownList(lists, j), js);
    CardsOfRecordsNoComments(kept, cls);
  }

  lemma {:induction false} CardsOfRecordsNoComments(js: seq<CardJson>, cls: Containers.TrelloChecklists)
    ensures forall c :: c in Containers.CardsOfRecords(js, cls) ==> c.comments == []
  {
    if |js| > 0 {
      CardsOfRecordsNoComments(js[1..], cls);
      Containers.CardOfChecklists(js[0], cls);
    }
  }

  lemma CommentsFetched(cards: seq<Card>, download: bool, actions: ActionsApi)
    requires forall c :: c in cards ==> c.comments == []
    ensures forall c :: c in FetchCommentsForCards(cards, download, actions) ==>
      c.comments == (if download then Parser.CommentsOf(actions(c.id)) else [])
  {
    var r := FetchCommentsForCards(cards, download, actions);
    forall c | c in r ensures c.comments == (if download then Parser.CommentsOf(actions(c.id)) else []) {
      var k :| 0 <= k < |r| && r[k] == c;
      assert cards[k] in cards;
      assert c.id == cards[k].id;
    }
  }

  /** Lists that start empty receive only cards whose list id is theirs. */
  lemma AttachedToOwnList(ls: seq<TrelloList>, cards: seq<Card>)
    requires forall i :: 0 <= i < |ls| ==> ls[i].cards == []
    ensures var r := Index.AttachCards(ls, cards);
      forall i, c :: 0 <= i < |ls| && c in r[i].cards ==> c in cards && c.listId == ls[i].id
  {
    var index := Index.IdIndex(Index.Ids(ls, Index.ListId));
    var r := Index.AttachCards(ls, cards);
    forall i, c | 0 <= i < |ls| && c in r[i].cards ensures c in cards && c.listId == ls[i].id {
      assert Index.ResolvesTo(index, c, i);
      assert Index.Ids(ls, Index.ListId)[i] == ls[i].id;
    }
  }

  lemma AssembledCardsPlaced(ls: seq<TrelloList>, parsed: seq<Card>, download: bool, actions: ActionsApi, flags: CardFilter.Flags)
    requires forall c :: c in parsed ==> c.comments == []
    requires forall i :: 0 <= i < |ls| ==> ls[i].cards == []
    ensures var r := FilterListCards(Index.AttachCards(ls, FetchCommentsForCards(parsed, download, actions)), flags);
      CardsPlaced(r, flags, download, actions)
      && |r| == |ls| && forall i :: 0 <= i < |r| ==> r[i].(cards := []) == ls[i]
  {
    var cards := FetchCommentsForCards(parsed, download, actions);
    CommentsFetched(parsed, download, actions);
    var attached := Index.AttachCards(ls, cards);
    AttachedToOwnList(ls, cards);
    var filtered := FilterListCards(attached, flags);
    forall i, c | 0 <= i < |filtered| && c in filtered[i].cards
      ensures c.listId == filtered[i].id
      ensures c.comments == (if download then Parser.CommentsOf(actions(c.id)) else [])
    {
      assert c in attached[i].cards;
    }
  }

  /** The result of one board fetch: the session after it, the enriched board, its list container
    * (holding the same lists as the board), the cache, the cache operations and the API calls. */
  datatype Fetched = Fetched(
    session: Session, board: Board, lists: Containers.TrelloLists,
    cache: TitleCache.Cache, ops: seq<Titles.Op>, apiCalls: nat)

  /** The board's id and record, each from the memo or from one remembered API call. */
  function ResolveBoard(s: Session, api: Api, name: string): (r: Result<Memo<(string, BoardJson)>, Exc>)
    ensures r.Ok? ==> name in r.value.session.nameToId && r.value.session.nameToId[name] == r.value.value.0
    ensures r.Ok? ==> r.value.value.0 in r.value.session.idToJson
    ensures r.Ok? ==> r.value.session.idToJson[r.value.value.0] == r.value.value.1
    ensures r.Ok? ==> r.value.apiCalls <= 2
    ensures r.Ok? && name in s.nameToId && s.nameToId[name] in s.idToJson ==> r.value.apiCalls == 0
  {
    var idm :- GetBoardId(s, api, name);
    var jm := GetBoardJson(idm.session, api, idm.value);
    Ok(Memo(jm.session, (idm.value, jm.value), idm.apiCalls + jm.apiCalls))
  }

  /** The title walk, which saves the cache at its end, followed by one more save. A fetch that raises
    * leaves both the walk and the service call, so neither save happens. */
  function EnrichAndSave(env: Titles.Env, b: Board, cache: TitleCache.Cache): (r: Titles.Walked<Board>)
    ensures r.value.(lists := b.lists) == b
    ensures Titles.ListsAlike(b.lists, r.value.lists)
    ensures r.raised ==> Titles.EndsInRaise(env, r.ops) && Titles.CacheSave !in r.ops
    ensures !r.raised ==> Titles.NoRaise(env, r.ops) && |r.ops| >= 2 && r.ops[|r.ops| - 2..] == [Titles.CacheSave, Titles.CacheSave]
    ensures forall i :: 0 <= i < |r.ops| - 2 ==> r.ops[i] != Titles.CacheSave
  {
    var w := Titles.ProcessBoardChecklistTitles(env, b, cache);
    if w.raised then w
    else
      var ops := w.ops + [Titles.CacheSave];
      assert ops[|ops| - 2] == w.ops[|w.ops| - 1];
      assert ops[|ops| - 2..] == [Titles.CacheSave, Titles.CacheSave];
      assert forall i :: 0 <= i < |ops| - 2 ==> ops[i] == w.ops[i];
      Titles.RaiseCallsConcat(env, w.ops, [Titles.CacheSave]);
      Titles.Walked(w.value, w.cache, ops, false)
  }

  /** Resolves the board, assembles it, fills in checklist titles (which saves the cache) and saves
    * the cache once more. */
  function GetTrelloBoardAndLists(s: Session, api: Api, env: Titles.Env, cache: TitleCache.Cache,
                                  name: string, filters: TrelloFilters, download: bool): (r: Result<Fetched, Exc>)
    ensures r.Ok? ==> r.value.board.name == name && name in r.value.session.nameToId
    ensures r.Ok? ==> r.value.board.id == r.value.session.nameToId[name] && r.value.board.id in r.value.session.idToJson
    ensures r.Ok? ==> r.value.lists.all == r.value.board.lists
    ensures r.Ok? ==> ResolveBoard(s, api, name).Ok?
    ensures r.Ok? ==>
      var m := ResolveBoard(s, api, name).value;
      var a := AssembleBoard(m.value.0, name, m.value.1, filters, download, api.actions);
      a.Ok? && r.value.lists.scope == a.value.scope && Titles.ListsAlike(a.value.board.lists, r.value.board.lists)
    ensures r.Ok? ==> r.value.apiCalls <= 2 && (name in s.nameToId && s.nameToId[name] in s.idToJson ==> r.value.apiCalls == 0)
    ensures r.Ok? ==> |r.value.ops| >= 2 && r.value.ops[|r.value.ops| - 2..] == [Titles.CacheSave, Titles.CacheSave]
    ensures r.Ok? ==> forall i :: 0 <= i < |r.value.ops| - 2 ==> r.value.ops[i] != Titles.CacheSave
    ensures r.Ok? ==> Titles.NoRaise(env, r.value.ops)
    ensures r.Err? && ResolveBoard(s, api, name).Ok? ==>
      var m := ResolveBoard(s, api, name).value;
      AssembleBoard(m.value.0, name, m.value.1, filters, download, api.actions).Err?
      || (r.error.FetchError? && Titles.RaisesOn(env, r.error.url))
  {
    var m :- ResolveBoard(s, api, name);
    var a :- AssembleBoard(m.value.0, name, m.value.1, filters, download, api.actions);
    Enriched(m, a, env, cache)
  }

  /** The title walk and both saves over an assembled board; a fetch that raises becomes the error. */
  function Enriched(m: Memo<(string, BoardJson)>, a: Assembled, env: Titles.Env, cache: TitleCache.Cache): (r: Result<Fetched, Exc>)
    ensures r.Ok? ==> r.value.board.(lists := a.board.lists) == a.board
    ensures r.Ok? ==> Titles.ListsAlike(a.board.lists, r.value.board.lists) && r.value.lists.scope == a.scope
    ensures r.Ok? ==> r.value.session == m.session && r.value.apiCalls == m.apiCalls
    ensures r.Ok? ==> r.value.lists.all == r.value.board.lists
    ensures r.Ok? ==> |r.value.ops| >= 2 && r.value.ops[|r.value.ops| - 2..] == [Titles.CacheSave, Titles.CacheSave]
    ensures r.Ok? ==> forall i :: 0 <= i < |r.value.ops| - 2 ==> r.value.ops[i] != Titles.CacheSave
    ensures r.Ok? ==> Titles.NoRaise(env, r.value.ops)
    ensures r.Err? ==> r.error.FetchError? && Titles.RaisesOn(env, r.error.url)
  {
    var w := EnrichAndSave(env, a.board, cache);
    if w.raised then Err(FetchError(w.ops[|w.ops| - 1].url))
    else Ok(Fetched(m.session, w.value, Containers.TrelloLists(w.value.lists, a.scope), w.cache, w.ops, m.apiCalls))
  }

  /** Fetching the same board again in the session that fetched it makes no API call. */
  lemma SecondFetchIsFree(s: Session, api: Api, env: Titles.Env, cache: TitleCache.Cache,
                          name: string, filters: TrelloFilters, download: bool,
                          cache2: TitleCache.Cache, filters2: TrelloFilters, download2: bool)
    requires GetTrelloBoardAndLists(s, api, env, cache, name, filters, download).Ok?
    ensures var f := GetTrelloBoardAndLists(s, api, env, cache, name, filters, download).value;
      var g := GetTrelloBoardAndLists(f.session, api, env, cache2, name, filters2, download2);
      g.Ok? ==> g.value.apiCalls == 0
  {
  }

  // ---------------------------------------------------------------- cleanup walk

  datatype Choice = Yes | No | Abort

  /** How a walk ended: every card seen, a list prompt declined, a card prompt aborted, or the answer
    * sequence ran out before the prompts did. */
  datatype Outcome = Completed | Declined | Aborted | OutOfAnswers

  /** The cards deleted, in order, how the walk ended and how many prompts of each kind it consumed. */
  datatype Walk = Walk(deleted: seq<string>, outcome: Outcome, listsAnswered: nat, cardsAnswered: nat)

  /** The ids of the cards answered Yes, pairing cards and answers position by position. */
  function YesIds(cards: seq<Output.CardOutput>, answers: seq<Choice>): (r: seq<string>)
    ensures |r| <= |cards| && |r| <= |answers|
    ensures forall id :: id in r <==> exists k :: 0 <= k < |cards| && k < |answers| && answers[k] == Yes && cards[k].id == id
  {
    if |cards| == 0 || |answers| == 0 then []
    else
      var rest := YesIds(cards[1..], answers[1..]);
      assert forall k :: 1 <= k < |cards| && k < |answers| ==> cards[1..][k - 1] == cards[k] && answers[1..][k - 1] == answers[k];
      (if answers[0] == Yes then [cards[0].id] else []) + rest
  }

  lemma {:induction false} YesIdsAppend(a: seq<Output.CardOutput>, b: seq<Output.CardOutput>, x: seq<Choice>, y: seq<Choice>)
    requires |x| == |a|
    ensures YesIds(a + b, x + y) == YesIds(a, x) + YesIds(b, y)
  {
    if |a| > 0 {
      assert (a + b)[0] == a[0] && (a + b)[1..] == a[1..] + b;
      assert (x + y)[0] == x[0] && (x + y)[1..] == x[1..] + y;
      YesIdsAppend(a[1..], b, x[1..], y);
    } else {
      assert a + b == b && x + y == y;
    }
  }

  lemma {:induction false} YesIdsPrefix(a: seq<Output.CardOutput>, b: seq<Output.CardOutput>, x: seq<Choice>)
    requires |x| <= |a|
    ensures YesIds(a + b, x) == YesIds(a, x)
  {
    if |a| > 0 && |x| > 0 {
      assert (a + b)[1..] == a[1..] + b;
      YesIdsPrefix(a[1..], b, x[1..]);
    }
  }

  /** The card prompts of one list: Yes deletes the card, No skips it, Abort ends the walk. */
  function WalkCards(cards: seq<Output.CardOutput>, answers: seq<Choice>): (r: Walk)
    ensures r.listsAnswered == 0 && r.outcome != Declined
    ensures r.cardsAnswered <= |answers| && r.cardsAnswered <= |cards|
    ensures r.deleted == YesIds(cards, answers[..r.cardsAnswered])
    ensures r.outcome == Completed ==> r.cardsAnswered == |cards| && Abort !in answers[..r.cardsAnswered]
    ensures r.outcome == Aborted ==> r.cardsAnswered > 0 && answers[r.cardsAnswered - 1] == Abort
    ensures r.outcome == Aborted ==> Abort !in answers[..r.cardsAnswered - 1]
    ensures r.outcome == OutOfAnswers ==> r.cardsAnswered == |answers| < |cards| && Abort !in answers
  {
    if |cards| == 0 then Walk([], Completed, 0, 0)
    else if |answers| == 0 then Walk([], OutOfAnswers, 0, 0)
    else if answers[0] == Abort then
      assert answers[..0] == [];
      Walk([], Aborted, 0, 1)
    else
      var w := WalkCards(cards[1..], answers[1..]);
      var n := w.cardsAnswered + 1;
      assert answers[..n] == [answers[0]] + answers[1..][..w.cardsAnswered];
      assert w.outcome == Aborted ==> answers[..n - 1] == [answers[0]] + answers[1..][..w.cardsAnswered - 1];
      assert answers == [answers[0]] + answers[1..];
      Walk(if answers[0] == Yes then [cards[0].id] + w.deleted else w.deleted, w.outcome, 0, n)
  }

  /** All cards of the output data, list by list. */
  function AllCards(data: seq<Output.ListOutput>): seq<Output.CardOutput> {
    if |data| == 0 then [] else data[0].cards + AllCards(data[1..])
  }

  /** The list prompts, each followed by that list's card prompts. A declined list or an aborted card
    * ends the whole walk. The cards deleted are those answered Yes among the prompts answered. */
  function WalkLists(data: seq<Output.ListOutput>, proceed: seq<bool>, answers: seq<Choice>): (r: Walk)
    ensures r.listsAnswered <= |proceed| && r.listsAnswered <= |data|
    ensures r.cardsAnswered <= |answers| && r.cardsAnswered <= |AllCards(data)|
    ensures r.deleted == YesIds(AllCards(data), answers[..r.cardsAnswered])
  {
    if |data| == 0 then Walk([], Completed, 0, 0)
    else if |proceed| == 0 then Walk([], OutOfAnswers, 0, 0)
    else if !proceed[0] then Walk([], Declined, 1, 0)
    else
      var c := WalkCards(data[0].cards, answers);
      assert AllCards(data) == data[0].cards + AllCards(data[1..]);
      if c.outcome != Completed then
        YesIdsPrefix(data[0].cards, AllCards(data[1..]), answers[..c.cardsAnswered]);
        c.(listsAnswered := 1)
      else
        var n0 := c.cardsAnswered;
        var w := WalkLists(data[1..], proceed[1..], answers[n0..]);
        var n := n0 + w.cardsAnswered;
        StepDeleted(data[0].cards, AllCards(data[1..]), answers, n0, w.cardsAnswered);
        Walk(c.deleted + w.deleted, w.outcome, w.listsAnswered + 1, n)
  }

  /** One step of the list walk, by the cases of its first list. */
  lemma WalkListsUnfold(data: seq<Output.ListOutput>, proceed: seq<bool>, answers: seq<Choice>)
    requires |data| > 0
    ensures var r := WalkLists(data, proceed, answers);
      var c := WalkCards(data[0].cards, answers);
      if |proceed| == 0 then r == Walk([], OutOfAnswers, 0, 0)
      else if !proceed[0] then r == Walk([], Declined, 1, 0)
      else if c.outcome != Completed then r == c.(listsAnswered := 1)
      else
        var w := WalkLists(data[1..], proceed[1..], answers[c.cardsAnswered..]);
        r.outcome == w.outcome && r.listsAnswered == w.listsAnswered + 1 && r.cardsAnswered == c.cardsAnswered + w.cardsAnswered
  {
  }

  /** The answers of a walk that resumes at `n0` are the later part of the whole walk's answers. */
  lemma AnswersSplit(answers: seq<Choice>, n0: nat, m: nat)
    requires n0 + m <= |answers|
    ensures answers[..n0 + m] == answers[..n0] + answers[n0..][..m]
  {
  }

  /** Accepting the first list carries "every answered list prompt was accepted" over from the rest. */
  lemma ProceedShift(proceed: seq<bool>, k: nat)
    requires |proceed| > 0 && proceed[0] && k <= |proceed|
    requires forall i :: 0 <= i < k - 1 ==> proceed[1..][i]
    ensures forall i :: 0 <= i < k ==> proceed[i]
  {
    forall i | 0 <= i < k ensures proceed[i] {
      if i > 0 {
        assert proceed[i] == proceed[1..][i - 1];
      }
    }
  }

  /** The deletions of a completed list followed by those of the rest of the walk. */
  lemma StepDeleted(a: seq<Output.CardOutput>, b: seq<Output.CardOutput>, answers: seq<Choice>, n0: nat, m: nat)
    requires n0 == |a| && n0 + m <= |answers|
    ensures YesIds(a, answers[..n0]) + YesIds(b, answers[n0..][..m]) == YesIds(a + b, answers[..n0 + m])
  {
    AnswersSplit(answers, n0, m);
    YesIdsAppend(a, b, answers[..n0], answers[n0..][..m]);
  }

  /** The walk completes only after every list was accepted and every card answered without an abort. */
  lemma {:induction false} WalkCompleted(data: seq<Output.ListOutput>, proceed: seq<bool>, answers: seq<Choice>)
    requires WalkLists(data, proceed, answers).outcome == Completed
    ensures var r := WalkLists(data, proceed, answers);
      r.listsAnswered == |data| && r.cardsAnswered == |AllCards(data)| && Abort !in answers[..r.cardsAnswered]
      && forall i :: 0 <= i < |data| ==> proceed[i]
  {
    if |data| > 0 {
      WalkListsUnfold(data, proceed, answers);
      var c := WalkCards(data[0].cards, answers);
      var n0 := c.cardsAnswered;
      WalkCompleted(data[1..], proceed[1..], answers[n0..]);
      var w := WalkLists(data[1..], proceed[1..], answers[n0..]);
      AnswersSplit(answers, n0, w.cardsAnswered);
      ProceedShift(proceed, |data|);
    }
  }

  /** A declined list is the last list prompt answered, after only accepted ones, and no card was aborted. */
  lemma {:induction false} WalkDeclined(data: seq<Output.ListOutput>, proceed: seq<bool>, answers: seq<Choice>)
    requires WalkLists(data, proceed, answers).outcome == Declined
    ensures var r := WalkLists(data, proceed, answers);
      r.listsAnswered > 0 && !proceed[r.listsAnswered - 1] && Abort !in answers[..r.cardsAnswered]
      && forall i :: 0 <= i < r.listsAnswered - 1 ==> proceed[i]
  {
    WalkListsUnfold(data, proceed, answers);
    if proceed[0] {
      var c := WalkCards(data[0].cards, answers);
      var n0 := c.cardsAnswered;
      WalkDeclined(data[1..], proceed[1..], answers[n0..]);
      var w := WalkLists(data[1..], proceed[1..], answers[n0..]);
      AnswersSplit(answers, n0, w.cardsAnswered);
      ProceedShift(proceed, w.listsAnswered);
      assert proceed[w.listsAnswered] == proceed[1..][w.listsAnswered - 1];
    }
  }

  /** An abort is the last card answer and the first abort; every list before it was accepted. */
  lemma {:induction false} WalkAborted(data: seq<Output.ListOutput>, proceed: seq<bool>, answers: seq<Choice>)
    requires WalkLists(data, proceed, answers).outcome == Aborted
    ensures var r := WalkLists(data, proceed, answers);
      r.cardsAnswered > 0 && answers[r.cardsAnswered - 1] == Abort && Abort !in answers[..r.cardsAnswered - 1]
      && forall i :: 0 <= i < r.listsAnswered ==> proceed[i]
  {
    WalkListsUnfold(data, proceed, answers);
    var c := WalkCards(data[0].cards, answers);
    if c.outcome == Completed {
      var n0 := c.cardsAnswered;
      WalkAborted(data[1..], proceed[1..], answers[n0..]);
      var w := WalkLists(data[1..], proceed[1..], answers[n0..]);
      AnswersSplit(answers, n0, w.cardsAnswered - 1);
      ProceedShift(proceed, w.listsAnswered + 1);
    }
  }

  /** The answers run out only when there are fewer answers than prompts. */
  lemma {:induction false} WalkOutOfAnswers(data: seq<Output.ListOutput>, proceed: seq<bool>, answers: seq<Choice>)
    requires WalkLists(data, proceed, answers).outcome == OutOfAnswers
    ensures |proceed| < |data| || |answers| < |AllCards(data)|
  {
    if |proceed| > 0 {
      var c := WalkCards(data[0].cards, answers);
      if c.outcome == Completed {
        WalkOutOfAnswers(data[1..], proceed[1..], answers[c.cardsAnswered..]);
      }
    }
  }

  /** Every deleted card is a card of the walked data. */
  lemma {:induction false} YesIdsAreCards(cards: seq<Output.CardOutput>, answers: seq<Choice>)
    ensures forall id :: id in YesIds(cards, answers) ==> exists i :: 0 <= i < |cards| && cards[i].id == id
  {
    if |cards| > 0 && |answers| > 0 {
      YesIdsAreCards(cards[1..], answers[1..]);
      forall id | id in YesIds(cards, answers) ensures exists i :: 0 <= i < |cards| && cards[i].id == id {
        if id !in YesIds(cards[1..], answers[1..]) {
          assert cards[0].id == id;
        } else {
          var i :| 0 <= i < |cards[1..]| && cards[1..][i].id == id;
          assert cards[i + 1].id == id;
        }
      }
    }
  }

  /** Answering No everywhere and proceeding with every list deletes nothing and completes. */
  lemma DecliningCardsDeletesNothing(data: seq<Output.ListOutput>, proceed: seq<bool>, answers: seq<Choice>)
    requires |proceed| >= |data| && forall i :: 0 <= i < |proceed| ==> proceed[i]
    requires |answers| >= |AllCards(data)| && forall i :: 0 <= i < |answers| ==> answers[i] == No
    ensures WalkLists(data, proceed, answers).deleted == []
    ensures WalkLists(data, proceed, answers).outcome == Completed
  {
    var r := WalkLists(data, proceed, answers);
    NoYesNoIds(AllCards(data), answers[..r.cardsAnswered]);
    match r.outcome
    case Completed =>
    case Declined => WalkDeclined(data, proceed, answers);
    case Aborted => WalkAborted(data, proceed, answers);
    case OutOfAnswers => WalkOutOfAnswers(data, proceed, answers);
  }

  lemma {:induction false} NoYesNoIds(cards: seq<Output.CardOutput>, answers: seq<Choice>)
    requires Yes !in answers
    ensures YesIds(cards, answers) == []
  {
    if |cards| > 0 && |answers| > 0 {
      assert answers[0] != Yes;
      assert Yes !in answers[1..];
      NoYesNoIds(cards[1..], answers[1..]);
    }
  }

  datatype Cleanup = Cleanup(fetched: Fetched, data: seq<Output.ListOutput>, walk: Walk)

  /** Fetches the board's lists without comments, projects them, and walks the prompts; the walk's
    * deleted ids are the cards `delete_card` is called for. */
  function CleanupBoard(s: Session, api: Api, env: Titles.Env, cache: TitleCache.Cache, name: string,
                        filters: TrelloFilters, md: string -> string, proceed: seq<bool>, answers: seq<Choice>)
    : (r: Result<Cleanup, Exc>)
    ensures r.Ok? ==> r.value.data == Output.ConvertToOutputData(r.value.fetched.lists.Get(), md, Output.HttpServerPort)
    ensures r.Ok? ==> r.value.walk == WalkLists(r.value.data, proceed, answers)
    ensures r.Ok? ==> forall id :: id in r.value.walk.deleted ==>
      exists i, j :: 0 <= i < |r.value.fetched.board.lists| && 0 <= j < |r.value.fetched.board.lists[i].cards|
        && r.value.fetched.board.lists[i].cards[j].id == id
  {
    var f :- GetTrelloBoardAndLists(s, api, env, cache, name, filters, false);
    var data := Output.ConvertToOutputData(f.lists.Get(), md, Output.HttpServerPort);
    var w := WalkLists(data, proceed, answers);
    DeletedAreBoardCards(f.board.lists, md, proceed, answers);
    Ok(Cleanup(f, data, w))
  }

  lemma {:induction false} AllCardsMembers(data: seq<Output.ListOutput>)
    ensures forall c :: c in AllCards(data) ==>
      exists i, j :: 0 <= i < |data| && 0 <= j < |data[i].cards| && data[i].cards[j] == c
  {
    if |data| > 0 {
      AllCardsMembers(data[1..]);
      forall c | c in AllCards(data)
        ensures exists i, j :: 0 <= i < |data| && 0 <= j < |data[i].cards| && data[i].cards[j] == c
      {
        if c in data[0].cards {
          var j :| 0 <= j < |data[0].cards| && data[0].cards[j] == c;
        } else {
          assert c in AllCards(data[1..]);
          var i, j :| 0 <= i < |data[1..]| && 0 <= j < |data[1..][i].cards| && data[1..][i].cards[j] == c;
          assert data[i + 1].cards[j] == c;
        }
      }
    }
  }

  /** Only cards of the walked lists are ever deleted. */
  lemma DeletedAreBoardCards(ls: seq<TrelloList>, md: string -> string, proceed: seq<bool>, answers: seq<Choice>)
    ensures var data := Output.ConvertToOutputData(ls, md, Output.HttpServerPort);
      forall id :: id in WalkLists(data, proceed, answers).deleted ==>
        exists i, j :: 0 <= i < |ls| && 0 <= j < |ls[i].cards| && ls[i].cards[j].id == id
  {
    var data := Output.ConvertToOutputData(ls, md, Output.HttpServerPort);
    var w := WalkLists(data, proceed, answers);
    YesIdsAreCards(AllCards(data), answers[..w.cardsAnswered]);
    AllCardsMembers(data);
    forall id | id in w.deleted ensures exists i, j :: 0 <= i < |ls| && 0 <= j < |ls[i].cards| && ls[i].cards[j].id == id {
      var k :| 0 <= k < |AllCards(data)| && AllCards(data)[k].id == id;
      assert AllCards(data)[k] in AllCards(data);
      var i, j :| 0 <= i < |data| && 0 <= j < |data[i].cards| && data[i].cards[j] == AllCards(data)[k];
      assert ls[i].cards[j].id == id;
    }
  }
}
