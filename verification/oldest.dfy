/** The oldest copy of the backup script: its cards carry neither attachments nor a due date, every
  * card's comments are asked of the API, and the organisation's boards are listed as a name-to-id
  * map. Its list and checklist parsers are those of `Parser`. */
module OldestScript {
  import opened Wrappers
  import opened Model
  import opened Input
  import Parser
  import Index

  /** The oldest card: the record's fields, its checklists and its comments, with no attachments and
    * no due date. */
  function BuildCard(j: CardJson, checklists: seq<Checklist>, comments: seq<Comment>): Card {
    Card(j.id, j.name, j.idList, j.desc, [], checklists, Parser.LabelNames(j.labels), j.closed, comments, None)
  }

  /** `parse_trello_cards`: cards in record order; an unknown list id or checklist id is a KeyError;
    * every card's comments are queried. */
  function ParseCards(js: seq<CardJson>, listsById: map<string, TrelloList>, checklistsById: map<string, Checklist>,
                      actions: ActionsApi): (r: Result<seq<Card>, Exc>)
    ensures r.Ok? <==> forall i :: 0 <= i < |js| ==> Parser.Resolvable(js[i], listsById, checklistsById)
    ensures r.Err? ==> r.error.KeyError?
    ensures r.Ok? ==> |r.value| == |js|
    ensures r.Ok? ==> forall i :: 0 <= i < |js| ==>
      r.value[i].comments == Parser.CommentsOf(actions(js[i].id)) && r.value[i].attachments == [] && r.value[i].dueDate == None
  {
    if |js| == 0 then Ok([])
    else
      var j := js[0];
      if j.idList !in listsById then Err(KeyError(j.idList))
      else match Parser.LookupChecklists(j.idChecklists, checklistsById)
        case Err(e) => Err(e)
        case Ok(checklists) =>
          match ParseCards(js[1..], listsById, checklistsById, actions)
          case Err(e) => Err(e)
          case Ok(rest) =>
            assert forall i :: 1 <= i < |js| ==> js[i] == js[1..][i - 1];
            Ok([BuildCard(j, checklists, Parser.CommentsOf(actions(j.id)))] + rest)
  }

  /** What the later scripts add to a card, dropped. */
  function Older(c: Card): Card {
    c.(attachments := [], dueDate := None)
  }

  /** The oldest parser is the later one with comments always downloaded, minus attachments and due
    * dates: it fails on the same records and otherwise yields the same cards without those fields. */
  lemma {:induction false} OldestIsLaterWithoutAttachments(js: seq<CardJson>, listsById: map<string, TrelloList>,
                                                          checklistsById: map<string, Checklist>, actions: ActionsApi)
    ensures var o := ParseCards(js, listsById, checklistsById, actions);
      var p := Parser.ParseCards(js, listsById, checklistsById, true, actions);
      (o.Ok? <==> p.Ok?) && (o.Ok? ==> |o.value| == |p.value| && forall i :: 0 <= i < |o.value| ==> o.value[i] == Older(p.value[i]))
  {
    if |js| > 0 {
      OldestIsLaterWithoutAttachments(js[1..], listsById, checklistsById, actions);
      var o := ParseCards(js, listsById, checklistsById, actions);
      var p := Parser.ParseCards(js, listsById, checklistsById, true, actions);
      if o.Ok? {
        var j := js[0];
        var cl := Parser.LookupChecklists(j.idChecklists, checklistsById).value;
        var comments := Parser.CommentsOf(actions(j.id));
        OldestCons(js, listsById, checklistsById, actions);
        LaterCons(js, listsById, checklistsById, actions);
        var o1 := ParseCards(js[1..], listsById, checklistsById, actions).value;
        var p1 := Parser.ParseCards(js[1..], listsById, checklistsById, true, actions).value;
        ConsOlder(BuildCard(j, cl, comments), o1, Parser.BuildCard(j, cl, comments), p1);
      }
    }
  }

  lemma OldestCons(js: seq<CardJson>, listsById: map<string, TrelloList>, checklistsById: map<string, Checklist>,
                   actions: ActionsApi)
    requires |js| > 0 && ParseCards(js, listsById, checklistsById, actions).Ok?
    ensures Parser.LookupChecklists(js[0].idChecklists, checklistsById).Ok?
    ensures ParseCards(js[1..], listsById, checklistsById, actions).Ok?
    ensures ParseCards(js, listsById, checklistsById, actions).value ==
      [BuildCard(js[0], Parser.LookupChecklists(js[0].idChecklists, checklistsById).value, Parser.CommentsOf(actions(js[0].id)))]
      + ParseCards(js[1..], listsById, checklistsById, actions).value
  {
  }

  lemma LaterCons(js: seq<CardJson>, listsById: map<string, TrelloList>, checklistsById: map<string, Checklist>,
                  actions: ActionsApi)
    requires |js| > 0 && Parser.ParseCards(js, listsById, checklistsById, true, actions).Ok?
    ensures Parser.LookupChecklists(js[0].idChecklists, checklistsById).Ok?
    ensures Parser.ParseCards(js[1..], listsById, checklistsById, true, actions).Ok?
    ensures Parser.ParseCards(js, listsById, checklistsById, true, actions).value ==
      [Parser.BuildCard(js[0], Parser.LookupChecklists(js[0].idChecklists, checklistsById).value, Parser.CommentsOf(actions(js[0].id)))]
      + Parser.ParseCards(js[1..], listsById, checklistsById, true, actions).value
  {
  }

  lemma ConsOlder(x: Card, xs: seq<Card>, y: Card, ys: seq<Card>)
    requires x == Older(y) && |xs| == |ys| && forall i :: 0 <= i < |xs| ==> xs[i] == Older(ys[i])
    ensures |[x] + xs| == |[y] + ys| && forall i :: 0 <= i < |[x] + xs| ==> ([x] + xs)[i] == Older(([y] + ys)[i])
  {
    forall i | 0 <= i < |[x] + xs| ensures ([x] + xs)[i] == Older(([y] + ys)[i]) {
      if i > 0 {
        assert ([x] + xs)[i] == xs[i - 1] && ([y] + ys)[i] == ys[i - 1];
      }
    }
  }

  /** The cards together with the lists each is appended to. */
  function ParseCardsIntoLists(js: seq<CardJson>, lists: seq<TrelloList>, cls: seq<Checklist>, actions: ActionsApi)
    : (r: Result<Parser.Parsed, Exc>)
    ensures r.Ok? <==> forall i :: 0 <= i < |js| ==> Parser.Resolvable(js[i], Index.ListsById(lists), Index.ChecklistsById(cls))
    ensures r.Ok? ==> r.value.cards == ParseCards(js, Index.ListsById(lists), Index.ChecklistsById(cls), actions).value
    ensures r.Ok? ==> r.value.lists == Index.AttachCards(lists, r.value.cards)
  {
    var cards :- ParseCards(js, Index.ListsById(lists), Index.ChecklistsById(cls), actions);
    Ok(Parser.Parsed(cards, Index.AttachCards(lists, cards)))
  }

  // ---------------------------------------------------------------- boards of the organisation

  /** One entry of the organisation's board listing. */
  datatype BoardSummary = BoardSummary(id: string, name: string)

  /** `list_boards`: board name to board id, assigned in listing order. */
  function ListBoards(boards: seq<BoardSummary>): (r: map<string, string>)
    ensures forall k :: k in r <==> exists i :: 0 <= i < |boards| && boards[i].name == k
  {
    if |boards| == 0 then map[]
    else
      var n := |boards| - 1;
      var pre := ListBoards(boards[..n]);
      assert forall i :: 0 <= i < n ==> boards[..n][i] == boards[i];
      pre[boards[n].name := boards[n].id]
  }

  /** The last board listed under a name gives that name's id. */
  lemma ListBoardsLastStep(boards: seq<BoardSummary>, i: nat)
    requires i < |boards| && forall j :: i < j < |boards| ==> boards[j].name != boards[i].name
    requires i < |boards| - 1 ==> ListBoards(boards[..|boards| - 1])[boards[i].name] == boards[i].id
    ensures ListBoards(boards)[boards[i].name] == boards[i].id
  {
  }

  /** Each name maps to the id of the last board listed under it: a later board of the same name
    * overwrites an earlier one. */
  lemma {:induction false} ListBoardsLastWins(boards: seq<BoardSummary>)
    ensures forall i :: 0 <= i < |boards| && (forall j :: i < j < |boards| ==> boards[j].name != boards[i].name) ==>
      ListBoards(boards)[boards[i].name] == boards[i].id
  {
    if |boards| > 0 {
      var n := |boards| - 1;
      var pre := boards[..n];
      ListBoardsLastWins(pre);
      forall i | 0 <= i < |boards| && (forall j :: i < j < |boards| ==> boards[j].name != boards[i].name)
        ensures ListBoards(boards)[boards[i].name] == boards[i].id
      {
        if i < n {
          assert pre[i] == boards[i];
          assert forall j :: i < j < n ==> pre[j].name != pre[i].name;
        }
        ListBoardsLastStep(boards, i);
      }
    }
  }

  /** Two boards of one name: the later id wins. */
  lemma ListBoardsDuplicateExample()
    ensures ListBoards([BoardSummary("1", "b"), BoardSummary("2", "b")]) == map["b" := "2"]
  {
    var bs := [BoardSummary("1", "b"), BoardSummary("2", "b")];
    assert bs[..1] == [BoardSummary("1", "b")];
    assert ListBoards(bs[..1]) == map["b" := "1"] by {
      assert bs[..1][..0] == [];
    }
  }
}
