/** The older nested projection of the lists: one record per list name, taken from the name-keyed
  * dict of the lists, with no labels and attachment links on the fixed local port. */
module Converter {
  import opened Model
  import Wrappers
  import Containers
  import Dicts
  import Output

  function NamePairs(ls: seq<TrelloList>): (r: seq<(string, TrelloList)>)
    ensures |r| == |ls| && forall i :: 0 <= i < |ls| ==> r[i] == (ls[i].name, ls[i])
  {
    seq(|ls|, i requires 0 <= i < |ls| => (ls[i].name, ls[i]))
  }

  /** `{l.name: l for l in lists}`: a later list with the same name takes the earlier one's place. */
  function ByName(ls: seq<TrelloList>): Dicts.Dict<string, TrelloList> {
    Dicts.FromPairs(NamePairs(ls))
  }

  /** One record per `by_name` entry, named by its key, its cards projected without labels. */
  function ConvertToOutputData(lists: Containers.TrelloLists, md: string -> string): (r: seq<Output.ListOutput>)
    ensures |r| == |ByName(lists.Get())|
    ensures forall i :: 0 <= i < |r| ==> r[i].name == ByName(lists.Get())[i].0
    ensures forall i :: 0 <= i < |r| ==> |r[i].cards| == |ByName(lists.Get())[i].1.cards|
    ensures forall i, j :: 0 <= i < |r| && 0 <= j < |r[i].cards| ==>
      r[i].cards[j].id == ByName(lists.Get())[i].1.cards[j].id && r[i].cards[j].labels.None?
  {
    var d := ByName(lists.Get());
    seq(|d|, i requires 0 <= i < |d| => Output.ListToOutput(d[i].0, d[i].1, md, Output.HttpServerPort, false))
  }

  /** `ls[k]` is the last list named `name`. */
  predicate LastNamed(ls: seq<TrelloList>, k: int, name: string) {
    0 <= k < |ls| && ls[k].name == name && forall m :: k < m < |ls| ==> ls[m].name != name
  }

  /** The record holds the list's cards, card for card, without labels. */
  predicate Mirrors(o: Output.ListOutput, l: TrelloList, md: string -> string) {
    |o.cards| == |l.cards|
    && forall j :: 0 <= j < |l.cards| ==> o.cards[j] == Output.CardToOutput(l.cards[j], md, Output.HttpServerPort, false)
  }

  /** Some list named `x` comes before every list named `y`. */
  ghost predicate NamedBefore(ls: seq<TrelloList>, x: string, y: string) {
    exists k :: 0 <= k < |ls| && ls[k].name == x && forall m :: 0 <= m <= k ==> ls[m].name != y
  }

  /** No two records share a name, and every list name has a record. */
  lemma ConvertedNames(lists: Containers.TrelloLists, md: string -> string)
    ensures var r := ConvertToOutputData(lists, md);
      forall a, b :: 0 <= a < b < |r| ==> r[a].name != r[b].name
    ensures var r := ConvertToOutputData(lists, md);
      forall k :: 0 <= k < |lists.Get()| ==> exists i :: 0 <= i < |r| && r[i].name == lists.Get()[k].name
  {
    var ls := lists.Get();
    var ps := NamePairs(ls);
    var d := ByName(ls);
    var r := ConvertToOutputData(lists, md);
    Dicts.FromPairsKeys(ps);
    forall k | 0 <= k < |ls| ensures exists i :: 0 <= i < |r| && r[i].name == ls[k].name {
      assert ps[k].0 == ls[k].name;
      assert ls[k].name in Dicts.Keys(d);
      var i :| 0 <= i < |d| && Dicts.Keys(d)[i] == ls[k].name;
      assert r[i].name == d[i].0;
    }
  }

  /** Each record mirrors the last list carrying its name. */
  lemma ConvertedMirrorsLast(lists: Containers.TrelloLists, md: string -> string)
    ensures var r := ConvertToOutputData(lists, md);
      forall i :: 0 <= i < |r| ==> exists k :: LastNamed(lists.Get(), k, r[i].name) && Mirrors(r[i], lists.Get()[k], md)
  {
    var ls := lists.Get();
    var ps := NamePairs(ls);
    var d := ByName(ls);
    var r := ConvertToOutputData(lists, md);
    Dicts.FromPairsLastWins(ps);
    forall i | 0 <= i < |r| ensures exists k :: LastNamed(ls, k, r[i].name) && Mirrors(r[i], ls[k], md) {
      assert d[i] in d;
      var k :| 0 <= k < |ps| && ps[k] == d[i] && forall m :: k < m < |ps| ==> ps[m].0 != d[i].0;
      assert ls[k] == d[i].1 && ls[k].name == d[i].0;
      assert forall m :: k < m < |ls| ==> ps[m].0 == ls[m].name;
      assert LastNamed(ls, k, r[i].name);
    }
  }

  /** The records come in the order in which their names first occur among the lists. */
  lemma ConvertedOrder(lists: Containers.TrelloLists, md: string -> string)
    ensures var r := ConvertToOutputData(lists, md);
      forall a, b :: 0 <= a < b < |r| ==> NamedBefore(lists.Get(), r[a].name, r[b].name)
  {
    var ls := lists.Get();
    var ps := NamePairs(ls);
    var d := ByName(ls);
    var r := ConvertToOutputData(lists, md);
    Dicts.FromPairsOrder(ps);
    forall a, b | 0 <= a < b < |r| ensures NamedBefore(ls, r[a].name, r[b].name) {
      assert Dicts.KeyBefore(ps, d[a].0, d[b].0);
      var k :| 0 <= k < |ps| && ps[k].0 == d[a].0 && forall m :: 0 <= m <= k ==> ps[m].0 != d[b].0;
      assert ls[k].name == r[a].name;
      assert forall m :: 0 <= m <= k ==> ps[m].0 == ls[m].name;
    }
  }

  /** When no two lists share a name, this projection is the newer one with the labels left out. */
  lemma DistinctNamesAgree(lists: Containers.TrelloLists, md: string -> string)
    requires forall a, b :: 0 <= a < b < |lists.Get()| ==> lists.Get()[a].name != lists.Get()[b].name
    ensures |ConvertToOutputData(lists, md)| == |lists.Get()|
    ensures var legacy := ConvertToOutputData(lists, md);
      var newer := Output.ConvertToOutputData(lists.Get(), md, Output.HttpServerPort);
      forall i :: 0 <= i < |legacy| ==> legacy[i].name == newer[i].name && |legacy[i].cards| == |newer[i].cards|
    ensures var legacy := ConvertToOutputData(lists, md);
      var newer := Output.ConvertToOutputData(lists.Get(), md, Output.HttpServerPort);
      forall i, j :: 0 <= i < |legacy| && 0 <= j < |legacy[i].cards| ==> legacy[i].cards[j] == newer[i].cards[j].(labels := Wrappers.None)
  {
    var ls := lists.Get();
    Dicts.FromDistinctPairs(NamePairs(ls));
  }
}
