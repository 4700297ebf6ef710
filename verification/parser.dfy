/** Turning decoded board records into lists, checklists, cards, attachments and comments
  * (the dictionary-indexed parser shared by the parser and controller modules of the program). */
module Parser {
  import opened Wrappers
  import opened Model
  import opened Input
  import Index
  import Strs
  import Seqs

  function ParseList(j: ListJson): TrelloList {
    TrelloList(j.closed, j.id, j.name, j.idBoard, [])
  }

  /** The record a parsed list came from. */
  function ListRecord(l: TrelloList): ListJson {
    ListJson(l.closed, l.id, l.name, l.boardId)
  }

  /** One list per record, in record order, with no cards yet. */
  function ParseLists(js: seq<ListJson>): (r: seq<TrelloList>)
    ensures |r| == |js|
    ensures forall i :: 0 <= i < |r| ==> r[i].cards == []
  {
    seq(|js|, i requires 0 <= i < |js| => ParseList(js[i]))
  }

  /** Parsing the lists loses nothing: every record can be read back from its list. */
  lemma ParseListsRoundTrip(js: seq<ListJson>)
    ensures var r := ParseLists(js);
      |r| == |js| && forall i :: 0 <= i < |js| ==> ListRecord(r[i]) == js[i]
  {
  }

  function ParseItem(j: CheckItemJson): ChecklistItem {
    ChecklistItem(j.id, j.name, j.state == "complete", None, None)
  }

  function ParseChecklist(j: ChecklistJson): Checklist {
    Checklist(j.id, j.name, j.idBoard, j.idCard, seq(|j.checkItems|, k requires 0 <= k < |j.checkItems| => ParseItem(j.checkItems[k])))
  }

  /** Checklists and their items keep record order; an item is checked exactly when its state is "complete". */
  function ParseChecklists(js: seq<ChecklistJson>): (r: seq<Checklist>)
    ensures |r| == |js|
    ensures forall i :: 0 <= i < |r| ==>
      r[i].id == js[i].id && r[i].name == js[i].name && r[i].boardId == js[i].idBoard && r[i].cardId == js[i].idCard
      && |r[i].items| == |js[i].checkItems|
      && forall k :: 0 <= k < |r[i].items| ==>
        r[i].items[k].id == js[i].checkItems[k].id && r[i].items[k].value == js[i].checkItems[k].name
        && (r[i].items[k].checked <==> js[i].checkItems[k].state == "complete")
        && r[i].items[k].url == None && r[i].items[k].urlTitle == None
  {
    seq(|js|, i requires 0 <= i < |js| => ParseChecklist(js[i]))
  }

  const ApiCardsPrefix := "https://api.trello.com/1/cards/"
  const AttachmentsPart := "/attachments/"
  const DownloadPart := "/download/"

  /** The api.trello.com download URL of an uploaded attachment. */
  function ReformatAttachmentUrl(cardId: string, attachmentId: string, fileName: string): (r: string)
    ensures Strs.StartsWith(r, ApiCardsPrefix)
  {
    ApiCardsPrefix + cardId + AttachmentsPart + attachmentId + DownloadPart + fileName
  }

  /** Reads card id, attachment id and file name back out of a download URL, as the pattern
    * `/1/cards/([^/]+)/attachments/([^/]+)/download/(.*)` does on the URL path. */
  function SplitAttachmentUrl(u: string): (r: Option<(string, string, string)>)
    ensures r.Some? ==> r.value.0 != "" && '/' !in r.value.0 && r.value.1 != "" && '/' !in r.value.1
    ensures r.Some? ==> ReformatAttachmentUrl(r.value.0, r.value.1, r.value.2) == u
  {
    if !Strs.StartsWith(u, ApiCardsPrefix) then None
    else
      var rest := u[|ApiCardsPrefix|..];
      PrefixRest(u, ApiCardsPrefix);
      match UpTo(rest, '/')
      case None => None
      case Some(c) =>
        PrefixRest(rest, c);
        if c == "" then None
        else match SplitAfterCard(rest[|c|..])
          case None => None
          case Some((a, f)) =>
            ReformatAssoc(c, a, f);
            Some((c, a, f))
  }

  lemma ReformatAssoc(cardId: string, attachmentId: string, fileName: string)
    ensures ReformatAttachmentUrl(cardId, attachmentId, fileName)
      == ApiCardsPrefix + (cardId + (AttachmentsPart + (attachmentId + (DownloadPart + fileName))))
  {
  }

  /** The `/attachments/([^/]+)/download/(.*)` part of the pattern: attachment id and file name. */
  function SplitAfterCard(rest2: string): (r: Option<(string, string)>)
    ensures r.Some? ==> r.value.0 != "" && '/' !in r.value.0
    ensures r.Some? ==> rest2 == AttachmentsPart + (r.value.0 + (DownloadPart + r.value.1))
  {
    if !Strs.StartsWith(rest2, AttachmentsPart) then None
    else
      var rest3 := rest2[|AttachmentsPart|..];
      PrefixRest(rest2, AttachmentsPart);
      match UpTo(rest3, '/')
      case None => None
      case Some(a) =>
        var rest4 := rest3[|a|..];
        PrefixRest(rest3, a);
        if a == "" || !Strs.StartsWith(rest4, DownloadPart) then None
        else
          PrefixRest(rest4, DownloadPart);
          Some((a, rest4[|DownloadPart|..]))
  }

  lemma PrefixRest(s: string, p: string)
    requires Strs.StartsWith(s, p)
    ensures s == p + s[|p|..]
  {
  }

  lemma DropPrefix(p: string, x: string)
    ensures Strs.StartsWith(p + x, p) && (p + x)[|p|..] == x
  {
    assert (p + x)[..|p|] == p;
  }

  lemma UpToBefore(a: string, b: string, stop: char)
    requires stop !in a && |b| > 0 && b[0] == stop
    ensures UpTo(a + b, stop) == Some(a)
  {
    assert b == [stop] + b[1..];
    assert a + b == a + [stop] + b[1..];
    UpToPrefix(a, b[1..], stop);
  }

  lemma SplitAfterCardRoundTrip(attachmentId: string, fileName: string)
    requires attachmentId != "" && '/' !in attachmentId
    ensures SplitAfterCard(AttachmentsPart + (attachmentId + (DownloadPart + fileName))) == Some((attachmentId, fileName))
  {
    var t4 := DownloadPart + fileName;
    var t3 := attachmentId + t4;
    DropPrefix(AttachmentsPart, t3);
    UpToBefore(attachmentId, t4, '/');
    DropPrefix(attachmentId, t4);
    DropPrefix(DownloadPart, fileName);
  }

  /** The download URL determines the ids and file name it was built from, for ids without '/'. */
  lemma AttachmentUrlRoundTrip(cardId: string, attachmentId: string, fileName: string)
    requires cardId != "" && '/' !in cardId
    requires attachmentId != "" && '/' !in attachmentId
    ensures SplitAttachmentUrl(ReformatAttachmentUrl(cardId, attachmentId, fileName)) == Some((cardId, attachmentId, fileName))
  {
    var t2 := AttachmentsPart + (attachmentId + (DownloadPart + fileName));
    var r1 := cardId + t2;
    assert ReformatAttachmentUrl(cardId, attachmentId, fileName) == ApiCardsPrefix + r1;
    DropPrefix(ApiCardsPrefix, r1);
    UpToBefore(cardId, t2, '/');
    DropPrefix(cardId, t2);
    SplitAfterCardRoundTrip(attachmentId, fileName);
  }

  /** One attachment record: an upload gets the download URL its card id, attachment id and file name
    * can be read back from. */
  function ParseAttachment(cardId: string, j: AttachmentJson): (r: Attachment)
    ensures r.id == j.id && r.date == j.date && r.name == j.name && r.url == j.url
    ensures r.isUpload == j.isUpload && r.fileName == j.fileName && r.downloadedFilePath.None?
    ensures r.apiUrl.Some? <==> j.isUpload
    ensures j.isUpload && cardId != "" && '/' !in cardId && j.id != "" && '/' !in j.id ==>
      SplitAttachmentUrl(r.apiUrl.value) == Some((cardId, j.id, j.fileName))
  {
    var r := Attachment(j.id, j.date, j.name, j.url,
      if j.isUpload then Some(ReformatAttachmentUrl(cardId, j.id, j.fileName)) else None,
      j.isUpload, j.fileName, None);
    if j.isUpload && cardId != "" && '/' !in cardId && j.id != "" && '/' !in j.id then
      (AttachmentUrlRoundTrip(cardId, j.id, j.fileName); r)
    else r
  }

  /** The card's attachments, in record order: the API URL only for uploads, none downloaded yet. */
  function ParseAttachments(cardId: string, js: Option<seq<AttachmentJson>>): (r: seq<Attachment>)
    ensures js.None? ==> r == []
    ensures js.Some? ==> |r| == |js.value| && forall i :: 0 <= i < |r| ==>
      r[i].id == js.value[i].id && r[i].name == js.value[i].name && r[i].url == js.value[i].url
      && r[i].date == js.value[i].date && r[i].isUpload == js.value[i].isUpload && r[i].fileName == js.value[i].fileName
      && (r[i].apiUrl.Some? <==> js.value[i].isUpload)
      && (js.value[i].isUpload ==> r[i].apiUrl == Some(ReformatAttachmentUrl(cardId, js.value[i].id, js.value[i].fileName)))
      && r[i].downloadedFilePath == None
  {
    match js
    case None => []
    case Some(atts) => seq(|atts|, i requires 0 <= i < |atts| => ParseAttachment(cardId, atts[i]))
  }

  /** An action that yields a comment: a "commentCard" action whose data carries a text. */
  predicate IsComment(a: ActionJson) {
    a.kind == "commentCard" && a.data.Some? && a.data.value.text.Some?
  }

  function ToComment(a: ActionJson): Comment {
    Comment(a.id, a.creatorUsername, a.date, if a.data.Some? && a.data.value.text.Some? then a.data.value.text.value else "")
  }

  /** Reference definition: one comment per comment action, in action order. */
  function CommentsOf(actions: seq<ActionJson>): (r: seq<Comment>)
    ensures |r| <= |actions|
  {
    if |actions| == 0 then []
    else (if IsComment(actions[0]) then [ToComment(actions[0])] else []) + CommentsOf(actions[1..])
  }

  lemma {:induction false} CommentsOfAppend(a: seq<ActionJson>, b: seq<ActionJson>)
    ensures CommentsOf(a + b) == CommentsOf(a) + CommentsOf(b)
    decreases |a|
  {
    if |a| == 0 {
      assert a + b == b;
    } else {
      CommentsOfAppend(a[1..], b);
      assert (a + b)[0] == a[0];
      assert (a + b)[1..] == a[1..] + b;
      var head := if IsComment(a[0]) then [ToComment(a[0])] else [];
      assert CommentsOf(a + b) == head + CommentsOf(a[1..] + b);
      assert CommentsOf(a) == head + CommentsOf(a[1..]);
    }
  }

  /** One more action adds its comment, if it is one, at the end. */
  lemma CommentsOfSnoc(xs: seq<ActionJson>, a: ActionJson)
    ensures CommentsOf(xs + [a]) == CommentsOf(xs) + if IsComment(a) then [ToComment(a)] else []
  {
    CommentsOfAppend(xs, [a]);
    assert [a][1..] == [];
  }

  lemma {:induction false} CommentsOfCommentCards(actions: seq<ActionJson>)
    ensures CommentsOf(Seqs.Filter((a: ActionJson) => a.kind == "commentCard", actions)) == CommentsOf(actions)
    decreases |actions|
  {
    if |actions| > 0 {
      var p := (a: ActionJson) => a.kind == "commentCard";
      CommentsOfCommentCards(actions[1..]);
      var head := if p(actions[0]) then [actions[0]] else [];
      assert Seqs.Filter(p, actions) == head + Seqs.Filter(p, actions[1..]);
      CommentsOfAppend(head, Seqs.Filter(p, actions[1..]));
    }
  }

  /** The comments among a card's actions: keeps "commentCard" actions, skipping any without data or text. */
  method ParseCommentsForCard(actions: seq<ActionJson>) returns (comments: seq<Comment>)
    ensures comments == CommentsOf(actions)
    ensures |comments| <= |actions|
  {
    var commentActions := Seqs.Filter((a: ActionJson) => a.kind == "commentCard", actions);
    comments := [];
    var i := 0;
    while i < |commentActions|
      invariant 0 <= i <= |commentActions|
      invariant comments == CommentsOf(commentActions[..i])
    {
      var action := commentActions[i];
      assert action in commentActions;
      assert action.kind == "commentCard";
      assert commentActions[..i + 1] == commentActions[..i] + [action];
      CommentsOfSnoc(commentActions[..i], action);
      i := i + 1;
      if action.data.None? {
        continue;
      }
      var data := action.data.value;
      if data.text.None? {
        continue;
      }
      comments := comments + [Comment(action.id, action.creatorUsername, action.date, data.text.value)];
    }
    assert commentActions[..i] == commentActions;
    CommentsOfCommentCards(actions);
  }

  /** A comment is kept exactly for the comment actions, in action order. */
  lemma {:induction false} CommentsOfMembership(actions: seq<ActionJson>, c: Comment)
    ensures c in CommentsOf(actions) <==> exists a :: a in actions && IsComment(a) && ToComment(a) == c
    decreases |actions|
  {
    if |actions| > 0 {
      CommentsOfMembership(actions[1..], c);
      assert forall a :: a in actions <==> a == actions[0] || a in actions[1..];
    }
  }

  function LabelNames(ls: seq<LabelJson>): (r: seq<string>)
    ensures |r| == |ls| && forall i :: 0 <= i < |ls| ==> r[i] == ls[i].name
  {
    seq(|ls|, i requires 0 <= i < |ls| => ls[i].name)
  }

  /** `[by_id[cid] for cid in ids]`: the checklists in id order, or a KeyError for the first unknown id. */
  function LookupChecklists(ids: seq<string>, byId: map<string, Checklist>): (r: Result<seq<Checklist>, Exc>)
    ensures r.Ok? <==> forall i :: 0 <= i < |ids| ==> ids[i] in byId
    ensures r.Ok? ==> |r.value| == |ids| && forall i :: 0 <= i < |ids| ==> r.value[i] == byId[ids[i]]
    ensures r.Err? ==> r.error.KeyError? && r.error.key in ids && r.error.key !in byId
  {
    if |ids| == 0 then Ok([])
    else if ids[0] !in byId then Err(KeyError(ids[0]))
    else match LookupChecklists(ids[1..], byId)
      case Err(e) => Err(e)
      case Ok(rest) => Ok([byId[ids[0]]] + rest)
  }

  /** The card built from its record once its checklists are resolved. */
  function BuildCard(j: CardJson, checklists: seq<Checklist>, comments: seq<Comment>): Card {
    Card(j.id, j.name, j.idList, j.desc, ParseAttachments(j.id, j.attachments), checklists,
      LabelNames(j.labels), j.closed, comments, j.due)
  }

  /** Every id a card record refers to is on the board. */
  predicate Resolvable(j: CardJson, listsById: map<string, TrelloList>, checklistsById: map<string, Checklist>) {
    j.idList in listsById && forall k :: 0 <= k < |j.idChecklists| ==> j.idChecklists[k] in checklistsById
  }

  /** What a parsed card keeps of its record. */
  predicate ParsedFrom(c: Card, j: CardJson, checklistsById: map<string, Checklist>, download: bool, actions: ActionsApi)
    requires Resolvable(j, map[j.idList := TrelloList(false, "", "", "", [])], checklistsById)
  {
    c.id == j.id && c.name == j.name && c.listId == j.idList && c.description == j.desc
    && c.closed == j.closed && c.dueDate == j.due && c.labels == LabelNames(j.labels)
    && c.attachments == ParseAttachments(j.id, j.attachments)
    && |c.checklists| == |j.idChecklists|
    && (forall k :: 0 <= k < |j.idChecklists| ==> c.checklists[k] == checklistsById[j.idChecklists[k]])
    && c.comments == (if download then CommentsOf(actions(j.id)) else [])
  }

  /** Cards in record order. A list id or checklist id missing from the board is a KeyError;
    * comments are asked of the API only when `download` is set. */
  function ParseCards(js: seq<CardJson>, listsById: map<string, TrelloList>, checklistsById: map<string, Checklist>,
                      download: bool, actions: ActionsApi): (r: Result<seq<Card>, Exc>)
    ensures r.Ok? <==> forall i :: 0 <= i < |js| ==> Resolvable(js[i], listsById, checklistsById)
    ensures r.Err? ==> r.error.KeyError?
    ensures r.Ok? ==> |r.value| == |js|
    ensures r.Ok? ==> forall i :: 0 <= i < |js| ==> ParsedFrom(r.value[i], js[i], checklistsById, download, actions)
  {
    if |js| == 0 then Ok([])
    else
      var j := js[0];
      if j.idList !in listsById then Err(KeyError(j.idList))
      else match LookupChecklists(j.idChecklists, checklistsById)
        case Err(e) => Err(e)
        case Ok(checklists) =>
          var comments := if download then CommentsOf(actions(j.id)) else [];
          match ParseCards(js[1..], listsById, checklistsById, download, actions)
          case Err(e) => Err(e)
          case Ok(rest) => Ok([BuildCard(j, checklists, comments)] + rest)
  }

  /** Parsed cards together with the lists each has been appended to. */
  datatype Parsed = Parsed(cards: seq<Card>, lists: seq<TrelloList>)

  /** Cards parsed in record order and appended to their lists: a KeyError unless every card's list
    * and checklists are on the board; otherwise each list keeps its record and gains, after the cards
    * it held, exactly the parsed cards whose list id it is the last to carry, in record order. */
  function ParseCardsIntoLists(js: seq<CardJson>, lists: seq<TrelloList>, cls: seq<Checklist>,
                               download: bool, actions: ActionsApi): (r: Result<Parsed, Exc>)
    ensures r.Ok? <==> forall i :: 0 <= i < |js| ==> Resolvable(js[i], Index.ListsById(lists), Index.ChecklistsById(cls))
    ensures r.Err? ==> r.error.KeyError?
    ensures r.Ok? ==> |r.value.cards| == |js|
    ensures r.Ok? ==> forall i :: 0 <= i < |js| ==> ParsedFrom(r.value.cards[i], js[i], Index.ChecklistsById(cls), download, actions)
    ensures r.Ok? ==> |r.value.lists| == |lists|
    ensures r.Ok? ==> forall i :: 0 <= i < |lists| ==>
      r.value.lists[i].(cards := lists[i].cards) == lists[i]
      && r.value.lists[i].cards == lists[i].cards + Seqs.Filter((c: Card) => Index.LastWithId(lists, i, c.listId), r.value.cards)
  {
    var cards :- ParseCards(js, Index.ListsById(lists), Index.ChecklistsById(cls), download, actions);
    Index.AttachCardsGains(lists, cards);
    Ok(Parsed(cards, Index.AttachCards(lists, cards)))
  }
}
