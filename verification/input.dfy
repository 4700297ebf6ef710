/** The decoded board-details records the parsers read. Keys the code always indexes are plain
  * fields; keys it tests for first (`attachments`, `data`, `text`) are optional. */
module Input {
  import opened Wrappers

  datatype ListJson = ListJson(closed: bool, id: string, name: string, idBoard: string)

  datatype CheckItemJson = CheckItemJson(id: string, name: string, state: string)

  datatype ChecklistJson = ChecklistJson(
    id: string, name: string, idBoard: string, idCard: string, checkItems: seq<CheckItemJson>)

  datatype AttachmentJson = AttachmentJson(
    id: string, date: string, name: string, url: string, isUpload: bool, fileName: string)

  datatype LabelJson = LabelJson(name: string)

  datatype CardJson = CardJson(
    id: string, name: string, idList: string, desc: string, closed: bool, due: Option<string>,
    labels: seq<LabelJson>, idChecklists: seq<string>, attachments: Option<seq<AttachmentJson>>)

  /** The `data` object of an action; `text` is present on comment actions. */
  datatype ActionData = ActionData(text: Option<string>)

  datatype ActionJson = ActionJson(
    id: string, kind: string, date: string, creatorUsername: string, data: Option<ActionData>)

  datatype BoardJson = BoardJson(
    id: string, name: string, lists: seq<ListJson>, cards: seq<CardJson>, checklists: seq<ChecklistJson>)

  /** The API's answer to "actions of this card". */
  type ActionsApi = string -> seq<ActionJson>
}
