/** The `{x.id: x for x in xs}` dictionaries the code builds, and the list/card link resolved through them. */
module Index {
  import opened Model
  import Seqs

  /** Position of each id; for a repeated id the later entry wins, as in a dict comprehension. */
  function IdIndex(ids: seq<string>): (r: map<string, nat>)
    ensures forall k :: k in r <==> k in ids
    ensures forall k :: k in r ==> r[k] < |ids| && ids[r[k]] == k
    ensures forall k, j :: k in r && r[k] < j < |ids| ==> ids[j] != k
  {
    if |ids| == 0 then map[]
    else
      var prefix := ids[..|ids| - 1];
      var x := ids[|ids| - 1];
      assert prefix + [x] == ids;
      IndexSnoc(IdIndex(prefix), prefix, x);
      IdIndex(prefix)[x := |ids| - 1]
  }

  /** Appending an id to a last-wins index points that id at the new position. */
  lemma IndexSnoc(m: map<string, nat>, prefix: seq<string>, x: string)
    requires forall k :: k in m <==> k in prefix
    requires forall k :: k in m ==> m[k] < |prefix| && prefix[m[k]] == k
    requires forall k, j :: k in m && m[k] < j < |prefix| ==> prefix[j] != k
    ensures var r := m[x := |prefix|]; var ids := prefix + [x];
      (forall k :: k in r <==> k in ids)
      && (forall k :: k in r ==> r[k] < |ids| && ids[r[k]] == k)
      && (forall k, j :: k in r && r[k] < j < |ids| ==> ids[j] != k)
  {
    var r := m[x := |prefix|];
    var ids := prefix + [x];
    forall k | k in ids ensures k in r {
      if k != x {
        var j :| 0 <= j < |ids| && ids[j] == k;
        assert j < |prefix| && prefix[j] == k;
      }
    }
    forall k | k in r ensures r[k] < |ids| && ids[r[k]] == k {
      if k != x {
        assert ids[m[k]] == prefix[m[k]];
      }
    }
    forall k, j | k in r && r[k] < j < |ids| ensures ids[j] != k {
      if j < |prefix| {
        assert ids[j] == prefix[j];
      }
    }
  }

  /** The ids of `xs`, in order. */
  function Ids<T>(xs: seq<T>, id: T -> string): (r: seq<string>)
    ensures |r| == |xs| && forall i :: 0 <= i < |xs| ==> r[i] == id(xs[i])
  {
    seq(|xs|, i requires 0 <= i < |xs| => id(xs[i]))
  }

  function ListId(l: TrelloList): string { l.id }

  function ChecklistId(cl: Checklist): string { cl.id }

  /** `{l.id: l for l in ls}`. */
  function ListsById(ls: seq<TrelloList>): (r: map<string, TrelloList>)
    ensures forall k :: k in r <==> k in Ids(ls, ListId)
  {
    var index := IdIndex(Ids(ls, ListId));
    map k | k in index :: ls[index[k]]
  }

  /** `{c.id: c for c in cls}`. */
  function ChecklistsById(cls: seq<Checklist>): (r: map<string, Checklist>)
    ensures forall k :: k in r <==> k in Ids(cls, ChecklistId)
    ensures forall k :: k in r ==> r[k].id == k && r[k] in cls
  {
    var index := IdIndex(Ids(cls, ChecklistId));
    map k | k in index :: cls[index[k]]
  }

  /** The card's list id resolves to list position `i`. */
  predicate ResolvesTo(index: map<string, nat>, c: Card, i: nat) {
    c.listId in index && index[c.listId] == i
  }

  /** List position `i` is the last one carrying `id`. */
  predicate LastWithId(ls: seq<TrelloList>, i: int, id: string) {
    0 <= i < |ls| && ls[i].id == id && forall j :: i < j < |ls| ==> ls[j].id != id
  }

  /** The list index sends a card to position `i` exactly when `i` is the last list with the card's list id. */
  lemma ResolvesToLast(ls: seq<TrelloList>, c: Card, i: nat)
    requires i < |ls|
    ensures ResolvesTo(IdIndex(Ids(ls, ListId)), c, i) <==> LastWithId(ls, i, c.listId)
  {
    var ids := Ids(ls, ListId);
    var index := IdIndex(ids);
    if LastWithId(ls, i, c.listId) {
      assert ids[i] == c.listId;
      var m := index[c.listId];
      assert ids[m] == c.listId;
    }
  }

  /** Each list with the cards that resolve to it appended, in card order. */
  function AttachCards(ls: seq<TrelloList>, cards: seq<Card>): (r: seq<TrelloList>)
    ensures |r| == |ls|
    ensures forall i :: 0 <= i < |ls| ==> r[i].(cards := ls[i].cards) == ls[i]
    ensures forall i, c :: 0 <= i < |ls| ==>
      (c in r[i].cards <==> c in ls[i].cards || (c in cards && ResolvesTo(IdIndex(Ids(ls, ListId)), c, i)))
  {
    var index := IdIndex(Ids(ls, ListId));
    seq(|ls|, i requires 0 <= i < |ls| => ls[i].(cards := ls[i].cards + Seqs.Filter(c => ResolvesTo(index, c, i), cards)))
  }

  /** Each list gains exactly the cards whose list id it is the last to carry, in card order, after
    * the cards it already held. */
  lemma AttachCardsGains(ls: seq<TrelloList>, cards: seq<Card>)
    ensures forall i :: 0 <= i < |ls| ==>
      AttachCards(ls, cards)[i].cards == ls[i].cards + Seqs.Filter((c: Card) => LastWithId(ls, i, c.listId), cards)
  {
    var index := IdIndex(Ids(ls, ListId));
    forall i | 0 <= i < |ls|
      ensures AttachCards(ls, cards)[i].cards == ls[i].cards + Seqs.Filter((c: Card) => LastWithId(ls, i, c.listId), cards)
    {
      forall c | c in cards ensures ResolvesTo(index, c, i) == LastWithId(ls, i, c.listId) {
        ResolvesToLast(ls, c, i);
      }
      Seqs.FilterCongruent(c => ResolvesTo(index, c, i), (c: Card) => LastWithId(ls, i, c.listId), cards);
    }
  }

  /** A card whose list id is known lands in exactly one list: the last list carrying that id. */
  lemma AttachedOnce(ls: seq<TrelloList>, cards: seq<Card>, c: Card)
    requires c in cards && c.listId in Ids(ls, ListId)
    requires forall i :: 0 <= i < |ls| ==> c !in ls[i].cards
    ensures var r := AttachCards(ls, cards);
      exists i :: 0 <= i < |r| && r[i].id == c.listId && c in r[i].cards
        && (forall j :: 0 <= j < |r| && j != i ==> c !in r[j].cards)
        && (forall j :: i < j < |r| ==> r[j].id != c.listId)
  {
    var ids := Ids(ls, ListId);
    var index := IdIndex(ids);
    var r := AttachCards(ls, cards);
    var i := index[c.listId];
    assert ids[i] == c.listId && r[i].id == ls[i].id;
    assert c in r[i].cards;
    forall j | 0 <= j < |r| && j != i ensures c !in r[j].cards {
      assert !ResolvesTo(index, c, j);
    }
    forall j | i < j < |r| ensures r[j].id != c.listId {
      assert r[j].id == ids[j];
    }
  }
}
