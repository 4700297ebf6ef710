/** The list, checklist and card containers a board is assembled from: id lookups, open views,
  * list selection by name or state, and card parsing against the containers. */
module Containers {
  import opened Wrappers
  import opened Model
  import opened Input
  import Index
  import Parser
  import Seqs
  import Strs

  /** Whether a list container holds every list of the board or a selection of them. */
  datatype Scope = Full | FilteredSubset

  datatype TrelloLists = TrelloLists(all: seq<TrelloList>, scope: Scope) {
    /** The list ids the container knows. */
    function Ids(): set<string> {
      set i | 0 <= i < |all| :: all[i].id
    }

    function ById(): map<string, TrelloList> {
      Index.ListsById(all)
    }

    function Get(): seq<TrelloList> {
      all
    }
  }

  function NotClosed(l: TrelloList): bool { !l.closed }

  /** The container of every list on the board. */
  function ListsOfBoard(board: BoardJson): (r: TrelloLists)
    ensures r.scope == Full && |r.all| == |board.lists|
    ensures forall k :: k in r.ById() <==> exists i :: 0 <= i < |board.lists| && board.lists[i].id == k
  {
    var all := Parser.ParseLists(board.lists);
    assert forall i :: 0 <= i < |all| ==> Index.Ids(all, Index.ListId)[i] == board.lists[i].id;
    TrelloLists(all, Full)
  }

  /** The lists that are not closed, in parse order. */
  function OpenLists(lists: TrelloLists): (r: seq<TrelloList>)
    ensures Seqs.IsSubsequence(r, lists.all)
    ensures forall l :: l in r <==> l in lists.all && !l.closed
  {
    Seqs.FilterIsSubsequence(NotClosed, lists.all);
    Seqs.Filter(NotClosed, lists.all)
  }

  /** The list-state selections. */
  datatype ListFilter = AllLists | OnlyOpen

  /** Keeps every list for `AllLists`; keeps the open lists, as a selection, for `OnlyOpen`. */
  function FilterByListFilter(lists: TrelloLists, f: ListFilter): (r: TrelloLists)
    ensures f == AllLists ==> r == lists
    ensures f == OnlyOpen ==> r.scope == FilteredSubset && forall l :: l in r.all <==> l in lists.all && !l.closed
  {
    match f
    case AllLists => lists
    case OnlyOpen => TrelloLists(OpenLists(lists), FilteredSubset)
  }

  function ListNames(lists: TrelloLists): set<string> {
    set i | 0 <= i < |lists.all| :: lists.all[i].name
  }

  /** The requested names no list carries, in request order. */
  function MissingNames(lists: TrelloLists, names: seq<string>): (r: seq<string>)
    ensures forall n :: n in r <==> n in names && n !in ListNames(lists)
  {
    var known := ListNames(lists);
    Seqs.Filter(n => n !in known, names)
  }

  function Quote(s: string): string { "'" + s + "'" }

  const NotFoundPrefix := "The following lists were not found on the board: "

  /** The error text naming every missing list, quoted and comma separated. */
  function NotFoundMessage(missing: seq<string>): string {
    NotFoundPrefix + Strs.Join(", ", seq(|missing|, i requires 0 <= i < |missing| => Quote(missing[i])))
  }

  /** Either a selection holding exactly the named lists, or one ValueError naming every missing list. */
  function FilterByListNames(lists: TrelloLists, names: seq<string>): (r: Result<TrelloLists, Exc>)
    ensures r.Ok? <==> forall i :: 0 <= i < |names| ==> names[i] in ListNames(lists)
    ensures r.Err? ==> r.error == ValueError(NotFoundMessage(MissingNames(lists, names)))
    ensures r.Ok? ==> r.value.scope == FilteredSubset && Seqs.IsSubsequence(r.value.all, lists.all)
    ensures r.Ok? ==> forall l :: l in r.value.all <==> l in lists.all && l.name in names
  {
    var missing := MissingNames(lists, names);
    if |missing| > 0 then
      assert missing[0] in missing;
      assert exists i :: 0 <= i < |names| && names[i] == missing[0];
      Err(ValueError(NotFoundMessage(missing)))
    else
      assert forall i :: 0 <= i < |names| ==> names[i] in ListNames(lists) by {
        forall i | 0 <= i < |names| ensures names[i] in ListNames(lists) {
          assert names[i] !in missing;
        }
      }
      Seqs.FilterIsSubsequence((l: TrelloList) => l.name in names, lists.all);
      Ok(TrelloLists(Seqs.Filter((l: TrelloList) => l.name in names, lists.all), FilteredSubset))
  }

  lemma NotFoundExample()
    ensures NotFoundMessage(["A", "B"]) == "The following lists were not found on the board: 'A', 'B'"
  {
    var missing := ["A", "B"];
    var quoted := seq(|missing|, i requires 0 <= i < |missing| => Quote(missing[i]));
    assert quoted[0] == "'A'" && quoted[1] == "'B'" && |quoted| == 2;
    assert quoted == ["'A'", "'B'"];
    assert quoted[1..] == ["'B'"];
    assert Strs.Join(", ", quoted) == "'A'" + ", " + "'B'";
    assert NotFoundMessage(missing) == NotFoundPrefix + ("'A'" + ", " + "'B'");
  }

  datatype TrelloChecklists = TrelloChecklists(all: seq<Checklist>) {
    function ById(): map<string, Checklist> {
      Index.ChecklistsById(all)
    }

    /** The checklists whose id is requested, in container order; unknown ids are ignored. */
    function GetByIds(ids: set<string>): (r: seq<Checklist>)
      ensures Seqs.IsSubsequence(r, all)
      ensures forall c :: c in r <==> c in all && c.id in ids
    {
      Seqs.FilterIsSubsequence((c: Checklist) => c.id in ids, all);
      Seqs.Filter((c: Checklist) => c.id in ids, all)
    }
  }

  /** The checklist container of a board: one parsed checklist per record, in record order. */
  function ChecklistsOfBoard(board: BoardJson): (r: TrelloChecklists)
    ensures |r.all| == |board.checklists|
    ensures forall k :: 0 <= k < |r.all| ==> r.all[k].id == board.checklists[k].id && r.all[k].cardId == board.checklists[k].idCard
  {
    TrelloChecklists(Parser.ParseChecklists(board.checklists))
  }

  /** The card a record yields against the containers: checklists by id set, no comments yet. */
  function CardOf(j: CardJson, cls: TrelloChecklists): (r: Card)
    ensures r.id == j.id && r.listId == j.idList && r.comments == []
  {
    var ids := set k | 0 <= k < |j.idChecklists| :: j.idChecklists[k];
    Parser.BuildCard(j, cls.GetByIds(ids), [])
  }

  /** A card's checklists are the container's checklists its record names, in container order. */
  lemma CardOfChecklists(j: CardJson, cls: TrelloChecklists)
    ensures var c := CardOf(j, cls);
      c.id == j.id && c.listId == j.idList && c.comments == [] && c.labels == Parser.LabelNames(j.labels)
      && Seqs.IsSubsequence(c.checklists, cls.all)
      && forall x :: x in c.checklists <==> x in cls.all && x.id in j.idChecklists
  {
    var ids := set k | 0 <= k < |j.idChecklists| :: j.idChecklists[k];
    forall x: Checklist ensures x.id in ids <==> x.id in j.idChecklists {
      if x.id in j.idChecklists {
        var k :| 0 <= k < |j.idChecklists| && j.idChecklists[k] == x.id;
      }
    }
  }

  function CardsOfRecords(js: seq<CardJson>, cls: TrelloChecklists): (r: seq<Card>)
    ensures |r| == |js|
  {
    if |js| == 0 then [] else [CardOf(js[0], cls)] + CardsOfRecords(js[1..], cls)
  }

  /** A record is kept when the container knows its list. */
  predicate KnownList(lists: TrelloLists, j: CardJson) {
    j.idList in lists.Ids()
  }

  /** Cards in record order. A card of an unknown list is skipped when the lists are a selection
    * and is a KeyError otherwise. */
  function ParseCards(js: seq<CardJson>, lists: TrelloLists, cls: TrelloChecklists): (r: Result<seq<Card>, Exc>)
    ensures r.Ok? <==> lists.scope == FilteredSubset || forall i :: 0 <= i < |js| ==> KnownList(lists, js[i])
    ensures r.Err? ==> r.error.KeyError? && r.error.key !in lists.Ids()
    ensures r.Ok? ==> r.value == CardsOfRecords(Seqs.Filter(j => KnownList(lists, j), js), cls)
  {
    if |js| == 0 then Ok([])
    else
      var j := js[0];
      var rest := ParseCards(js[1..], lists, cls);
      var p := (x: CardJson) => KnownList(lists, x);
      if !KnownList(lists, j) then
        assert Seqs.Filter(p, js) == Seqs.Filter(p, js[1..]);
        if lists.scope == FilteredSubset then rest else Err(KeyError(j.idList))
      else match rest
        case Err(e) => Err(e)
        case Ok(cards) =>
          var kept := Seqs.Filter(p, js);
          assert kept == [j] + Seqs.Filter(p, js[1..]);
          assert kept[1..] == Seqs.Filter(p, js[1..]);
          Ok([CardOf(j, cls)] + cards)
  }

  /** The parsed cards and the open ones among them. */
  datatype TrelloCards = TrelloCards(all: seq<Card>, open: seq<Card>)

  function NotClosedCard(c: Card): bool { !c.closed }

  function CardsOf(js: seq<CardJson>, lists: TrelloLists, cls: TrelloChecklists): (r: Result<TrelloCards, Exc>)
    ensures r.Ok? <==> ParseCards(js, lists, cls).Ok?
    ensures r.Ok? ==> r.value.all == ParseCards(js, lists, cls).value
    ensures r.Ok? ==> Seqs.IsSubsequence(r.value.open, r.value.all)
    ensures r.Ok? ==> forall c :: c in r.value.open <==> c in r.value.all && !c.closed
  {
    var all :- ParseCards(js, lists, cls);
    Seqs.FilterIsSubsequence(NotClosedCard, all);
    Ok(TrelloCards(all, Seqs.Filter(NotClosedCard, all)))
  }
}
