/** The in-memory board: lists, cards, checklists, items, attachments and comments, with the
  * derived properties the filters and renderers ask of a card. */
module Model {
  import opened Wrappers
  import Strs

  datatype Comment = Comment(id: string, author: string, date: string, contents: string)

  /** A checklist item; `url` and `urlTitle` are filled in by the title enrichment. */
  datatype ChecklistItem = ChecklistItem(
    id: string, value: string, checked: bool, url: Option<string>, urlTitle: Option<string>)

  datatype Checklist = Checklist(
    id: string, name: string, boardId: string, cardId: string, items: seq<ChecklistItem>)

  /** `apiUrl` is set only for uploaded files; `downloadedFilePath` only after a download. */
  datatype Attachment = Attachment(
    id: string, date: string, name: string, url: string, apiUrl: Option<string>,
    isUpload: bool, fileName: string, downloadedFilePath: Option<string>)

  /** A card refers to its list by id rather than holding it, so the list/card cycle is a lookup. */
  datatype Card = Card(
    id: string, name: string, listId: string, description: string,
    attachments: seq<Attachment>, checklists: seq<Checklist>, labels: seq<string>,
    closed: bool, comments: seq<Comment>, dueDate: Option<string>)

  datatype TrelloList = TrelloList(closed: bool, id: string, name: string, boardId: string, cards: seq<Card>)

  datatype Board = Board(id: string, name: string, lists: seq<TrelloList>)

  predicate HasDescription(c: Card) { |c.description| > 0 }
  predicate HasChecklist(c: Card) { |c.checklists| > 0 }
  predicate HasAttachments(c: Card) { |c.attachments| > 0 }

  /** An enriched item carries a URL exactly when it carries a title for it. */
  predicate UrlPaired(item: ChecklistItem) { item.url.Some? <==> item.urlTitle.Some? }

  /** The label names joined with a comma. */
  function LabelsAsStr(c: Card): (r: string)
    ensures |c.labels| == 0 ==> r == ""
    ensures |c.labels| == 1 ==> r == c.labels[0]
  {
    Strs.Join(",", c.labels)
  }

  /** The label names can be read back from the joined string when none contains a comma. */
  lemma LabelsRoundTrip(c: Card)
    requires |c.labels| >= 1
    requires forall i :: 0 <= i < |c.labels| ==> ',' !in c.labels[i]
    ensures Strs.Split(LabelsAsStr(c), ',') == c.labels
  {
    Strs.SplitJoin(c.labels, ',');
  }

  const AnchorOpen := "<a href="
  const AnchorClose := "</a>"

  /** An enriched item renders as a link to its URL labelled with the URL's title; any other item as its text. */
  function ItemHtml(item: ChecklistItem): (r: string)
    ensures !Truthy(item.url) ==> r == item.value
    ensures Truthy(item.url) ==>
      Strs.StartsWith(r, AnchorOpen) && |AnchorClose| <= |r| && r[|r| - |AnchorClose|..] == AnchorClose
  {
    if Truthy(item.url) then
      AnchorOpen + item.url.value + ">" + TitleText(item.urlTitle) + AnchorClose
    else item.value
  }

  /** How an f-string renders an optional title: a missing one prints as "None". */
  function TitleText(t: Option<string>): string {
    match t
    case Some(s) => s
    case None => "None"
  }

  /** The link target of an anchor written by `ItemHtml`: the text between the opening tag and the first '>'. */
  function Href(html: string): Option<string> {
    if !Strs.StartsWith(html, AnchorOpen) then None
    else UpTo(html[|AnchorOpen|..], '>')
  }

  /** The label of an anchor written by `ItemHtml`: the text between the first '>' and the closing tag. */
  function Label(html: string): Option<string> {
    if |html| < |AnchorClose| || html[|html| - |AnchorClose|..] != AnchorClose then None
    else match UpTo(html, '>')
      case None => None
      case Some(pre) =>
        if |pre| + 1 <= |html| - |AnchorClose| then Some(html[|pre| + 1..|html| - |AnchorClose|]) else None
  }

  /** The text before the first `stop`, if `s` has one. */
  function UpTo(s: string, stop: char): (r: Option<string>)
    ensures r.Some? ==> |r.value| < |s| && s[..|r.value|] == r.value && s[|r.value|] == stop && stop !in r.value
  {
    if |s| == 0 then None
    else if s[0] == stop then Some("")
    else match UpTo(s[1..], stop)
      case Some(t) => Some([s[0]] + t)
      case None => None
  }

  lemma {:induction false} UpToPrefix(a: string, b: string, stop: char)
    requires stop !in a
    ensures UpTo(a + [stop] + b, stop) == Some(a)
    decreases |a|
  {
    if |a| == 0 {
      assert (a + [stop] + b)[0] == stop;
    } else {
      assert (a + [stop] + b)[1..] == a[1..] + [stop] + b;
      UpToPrefix(a[1..], b, stop);
      assert [a[0]] + a[1..] == a;
    }
  }

  /** The rendered link of an enriched item points at the item's URL. */
  lemma ItemHtmlLinksUrl(item: ChecklistItem)
    requires Truthy(item.url) && '>' !in item.url.value
    ensures Href(ItemHtml(item)) == item.url
  {
    var rest := TitleText(item.urlTitle) + AnchorClose;
    var html := ItemHtml(item);
    assert html == AnchorOpen + (item.url.value + [ '>' ] + rest);
    assert html[|AnchorOpen|..] == item.url.value + ['>'] + rest;
    UpToPrefix(item.url.value, rest, '>');
  }

  /** The board name with every run of spaces and slashes turned into one '-', lower-cased. */
  function SimpleName(name: string): (r: string)
    ensures |r| <= |name|
    ensures Strs.NoneInClass(r, Strs.SpaceOrSlash)
    ensures forall i :: 0 <= i < |r| ==> !('A' <= r[i] <= 'Z')
    ensures Strs.NoneInClass(name, Strs.SpaceOrSlash) ==> r == Strs.Lower(name)
  {
    var collapsed := Strs.Collapse(name, Strs.SpaceOrSlash, '-');
    Strs.CollapseKeeps(name, Strs.SpaceOrSlash, '-');
    CollapseNotLonger(name, Strs.SpaceOrSlash, '-', false);
    Strs.CollapseRemovesClass(name, Strs.SpaceOrSlash, '-', false);
    Strs.Lower(collapsed)
  }

  lemma {:induction false} CollapseNotLonger(s: string, k: Strs.CharClass, rep: char, inRun: bool)
    ensures |Strs.CollapseFrom(s, k, rep, inRun)| <= |s|
    decreases |s|
  {
    if |s| > 0 {
      CollapseNotLonger(s[1..], k, rep, Strs.InClass(s[0], k));
    }
  }

  /** Each maximal run of spaces and slashes becomes one '-'; the text around it is kept, lower-cased. */
  lemma SimpleNameRun(a: string, run: string, b: string)
    requires |run| > 0 && Strs.AllInClass(run, Strs.SpaceOrSlash)
    requires |a| == 0 || !Strs.InClass(a[|a| - 1], Strs.SpaceOrSlash)
    requires |b| == 0 || !Strs.InClass(b[0], Strs.SpaceOrSlash)
    ensures SimpleName(a + run + b) == SimpleName(a) + "-" + SimpleName(b)
  {
    var ca := Strs.Collapse(a, Strs.SpaceOrSlash, '-');
    var cb := Strs.Collapse(b, Strs.SpaceOrSlash, '-');
    Strs.CollapseRun(a, run, b, Strs.SpaceOrSlash, '-');
    Strs.LowerAppend(ca + ['-'], cb);
    Strs.LowerAppend(ca, ['-']);
    assert Strs.Lower(['-']) == "-";
    calc {
      SimpleName(a + run + b);
      Strs.Lower(ca + ['-'] + cb);
      Strs.Lower(ca) + "-" + Strs.Lower(cb);
      SimpleName(a) + "-" + SimpleName(b);
    }
  }

  /** A simple name is its own simple name. */
  lemma SimpleNameIdempotent(name: string)
    ensures SimpleName(SimpleName(name)) == SimpleName(name)
  {
    var once := SimpleName(name);
    Strs.CollapseIdentity(once, Strs.SpaceOrSlash, '-', false);
    assert Strs.Lower(once) == once;
  }

  lemma SimpleNameExample()
    ensures SimpleName("A /B") == "a-b"
  {
    assert Strs.Collapse("A /B", Strs.SpaceOrSlash, '-') == "A-B" by {
      assert Strs.CollapseFrom("B", Strs.SpaceOrSlash, '-', true) == "B";
      assert Strs.CollapseFrom("/B", Strs.SpaceOrSlash, '-', true) == "B";
    }
  }

  /** The rendered link of an enriched item is labelled with the item's title, "None" when it has none. */
  lemma ItemHtmlLabel(item: ChecklistItem)
    requires Truthy(item.url) && '>' !in item.url.value
    ensures Label(ItemHtml(item)) == Some(TitleText(item.urlTitle))
  {
    var pre := AnchorOpen + item.url.value;
    var title := TitleText(item.urlTitle);
    var html := ItemHtml(item);
    assert html == pre + ['>'] + (title + AnchorClose);
    assert '>' !in pre by {
      assert forall i :: 0 <= i < |pre| ==> pre[i] == if i < |AnchorOpen| then AnchorOpen[i] else item.url.value[i - |AnchorOpen|];
    }
    UpToPrefix(pre, title + AnchorClose, '>');
    assert html[|pre| + 1..|html| - |AnchorClose|] == title;
  }
}
