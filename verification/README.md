# trello-backup, modelled in Dafny

trello-backup exports Trello boards. It fetches a board's details from the Trello API and parses the
lists, checklists and cards. It keeps the lists and cards a filter selects. It fills in the URL and page
title of each checklist item, using a persistent URL-to-title cache. It then projects the board into
13-column table rows, nested per-list records for JSON/HTML output, and a report of the files written.
Configuration comes from two JSON files, a main config and a secrets config. Both are read through typed
checkers, and their validation errors are collected into one exception. An interactive cleanup walks a
board's lists and cards and collects the ids the user chooses to delete. Two older standalone copies of
the script are part of the repository. They differ from the package in how they cache page titles and
when they fetch comments.

The model is a set of Dafny modules that follow the program's structure:

- `Model`, `Input`, `Index`, `Parser`, `Containers`: the board entities, the decoded records the parsers
  read, the `{x.id: x}` indexes, and the parsers with their KeyError paths. A card names its list by id,
  and each list's cards are derived by resolving that id.
- `CardFilter`: the property flags, the presets, and the any-enabled-property card filter.
- `TitleCache`, `Titles`: the title cache and the checklist title walk. One walk is parameterised by the
  three caching policies found in the package service, in `model.py` and in the legacy script.
- `Service`, `Controller`: the per-session memo of board ids and board records, board assembly, and the
  cleanup walk driven by a sequence of answers. `Controller` is the older open-list assembly.
- `Output`, `Converter`, `Table`: card rows, table rows, nested output records, the backup report, the
  older name-keyed projection, and console table styling.
- `TrelloConfig`, `ConfigValidation`, `ObjectUtils`: config keys and lookups, reading the main and
  secrets dicts, the required-config checks, the validator, and the value type checkers.
- `LegacyScript`, `OldestScript`: the two older script copies. Each is related by lemmas to the package
  behaviour it anticipates.
- `Wrappers`, `Seqs`, `Strs`, `Dicts`: results and Python exceptions, order-preserving selection, the
  string operations the code borrows from Python, and Python's insertion-ordered `dict` as a sequence of
  pairs.

Several things the program does not compute itself become parameters:
- the Trello API answers (board ids, board records, card actions);
- the URL extraction and page-title fetch, where an absent answer models a raised exception. Only the
  legacy script catches it; in the package it ends the walk and the board fetch;
- the markdown-to-plain-text conversion;
- `json.dumps` of the error groups;
- the stored cache file;
- the user's answers in the cleanup.

The legacy script's `parse_trello_lists`, `parse_trello_cards`, `parse_trello_checklists`,
`reformat_attachment_url` and `query_comments_for_card` (trello_backup/trello-backup.py:474-583) are the
same, line for line, as those of `trello_backup/trello/parser.py`, so the `Parser` members model both.
The legacy `CardFilter` flag (trello_backup/trello-backup.py:44-56) and `download_comments`
(trello_backup/trello-backup.py:39-41) are likewise those of `CardFilter` and `Output`.

The repository's modules come from mixed revisions. Where they disagree, the model follows the newest code
(`service.py`, `filter.py`, `output.py`). The container API that the tests exercise (`get_by_ids`,
`filter_by_list_names`, the pure `parse_comments_for_card`) is modelled from the tests' assertions.
Where a test and the code disagree, the model follows the code. For example, `get_labels_as_str` joins
with `","` although a test expects `", "`.

## Model

| member | source | states |
|---|---|---|
| TitleCache.Get | trello_backup/trello/cache.py:22-24 | A title comes back exactly when the URL has an entry, and it is that entry's title. |
| TitleCache.Put | trello_backup/trello/cache.py:26-28 | Afterwards the URL reads back the new title, every other URL reads back what it did before, and the key set grows by that URL only. |
| TitleCache.Load | trello_backup/trello/cache.py:9-15 | A readable file yields its mapping; a missing, unreadable or corrupt file yields the empty cache instead of an error. |
| CardFilter.UnionOf | trello_backup/trello/filter.py:12-17 | A flag is in the union exactly when some member has it. |
| CardFilter.All | trello_backup/trello/filter.py:5-17 | OR-ing every member of the enumeration sets all four property flags. |
| CardFilter.UnionOfMembers | trello_backup/trello/filter.py:5-17 | The union over the declared members, NONE included, is the set of all four flags. |
| CardFilter.AllHasEvery | trello_backup/trello/filter.py:12-17 | Every property flag is in ALL. |
| CardFilter.PresetsDistinct | trello_backup/trello/filter.py:20-25 | No two presets have the same flag value, so no preset is an alias of another. |
| CardFilter.RequiredChecks | trello_backup/trello/filter.py:36-42 | The attachment, description and checklist tests are each enabled exactly when their flag is set; OPEN enables none. |
| CardFilter.KeepIff | trello_backup/trello/filter.py:36-51 | A card is kept exactly when some enabled property holds for it (an inclusive OR, not an AND). |
| CardFilter.FilterCards | trello_backup/trello/filter.py:32-53 | With all flags the cards come back unchanged; otherwise the result is an order-preserving subsequence holding exactly the cards that pass an enabled test. |
| CardFilter.NoChecksDropsAll | trello_backup/trello/filter.py:36-53 | Flags enabling no property test (OPEN alone, or NONE) drop every card. |
| CardFilter.FilterMonotone | trello_backup/trello/filter.py:32-53 | Enabling more flags never drops a card that fewer flags kept, and keeps the relative order. |
| CardFilter.InclusiveOrExample | trello_backup/trello/filter.py:36-51 | A card with only a checklist survives the checklist-and-attachment preset. |
| Converter.ConvertToOutputData | trello_backup/display/converter.py:9-48 | One record per entry of the name-keyed dict of lists, named by its key, with that list's cards in order, ids kept and labels absent. |
| Converter.ConvertedNames | trello_backup/display/converter.py:13-47 | No two records share a name, and every list name has a record. |
| Converter.ConvertedMirrorsLast | trello_backup/display/converter.py:13-47 | Each record mirrors the last list carrying its name: a later list of the same name replaces an earlier one. |
| Converter.ConvertedOrder | trello_backup/display/converter.py:13-47 | Records come in the order in which their names first occur among the lists. |
| Converter.DistinctNamesAgree | trello_backup/display/converter.py:9-48 | When list names are distinct, this projection equals the newer one in output.py with the labels removed. |
| Table.Lookup | trello_backup/display/table.py:34-46 | A bound (column, value) pair gives its binding; an unbound one gives "" instead of a KeyError. |
| Table.BindStyle | trello_backup/display/table.py:19-26 | The colour is bound to exactly that (column, value) pair; a non-empty style dict is merged into that column's dict with the new keys winning; no other column changes. |
| Table.AddFormatToColumn | trello_backup/display/table.py:28-30 | The column's `no_wrap` switch is set to the given value, and every other key and every other column is left as it was. |
| Table.StylesNeverBound | trello_backup/display/table.py:13-46 | No sequence of binding calls ever writes the style-by-value map. |
| Table.NewRenderSettings | trello_backup/display/table.py:53-62 | Missing column styles are a ValueError with the source's message; present ones are kept. |
| Table.FormatValue | trello_backup/display/table.py:64-73 | The cell text always ends the result; it is unmarked exactly when neither style nor colour is bound; a colour alone wraps as `[colour]`. |
| Table.OnlyColorMarkup | trello_backup/display/table.py:13-73 | From fresh styles, whatever was bound, a cell is either plain or carries only its colour markup. |
| Table.BoundColorMarksCell | trello_backup/display/table.py:19-73 | After binding a colour to (column, value), that cell renders as `[colour]value`. |
| Table.Render | trello_backup/display/table.py:95-100 | Each cell is formatted with the column at its own position; a row longer than the columns is an IndexError, and otherwise shape is kept. |
| Table.BoardTableRenders | trello_backup/display/table.py:95-100 | The board's table rows never outgrow their header, so rendering them cannot fail. |
| Parser.ParseLists | trello_backup/trello/parser.py:10-17 | One list per record, in record order, each starting with no cards. |
| Parser.ParseListsRoundTrip | trello_backup/trello/parser.py:10-17 | Every record's closed flag, id, name and board id can be read back from the list parsed at the same position. |
| Parser.ParseChecklists | trello_backup/trello/parser.py:90-103 | Checklists and their items keep record order and fields; an item is checked exactly when its state is "complete", and starts with no URL or title. |
| Parser.ReformatAttachmentUrl | trello_backup/trello/parser.py:61-67 | The rebuilt download URL always lies under the api.trello.com cards endpoint. |
| Parser.AttachmentUrlRoundTrip | trello_backup/trello/parser.py:61-67 | Splitting the rebuilt URL along `/1/cards/<card>/attachments/<id>/download/<file>` gives back the card id, attachment id and file name, for ids without '/'. |
| Parser.SplitAfterCardRoundTrip | trello_backup/trello/parser.py:67 | The tail after the card id splits back into the attachment id and file name. |
| Parser.ParseAttachments | trello_backup/trello/parser.py:36-53 | One attachment per record, in order, keeping id, date, name, URL, upload flag and file name; the API URL is present exactly for uploads and is the rebuilt download URL; nothing is downloaded yet; a card without attachments has none. |
| Parser.ParseAttachment | trello_backup/trello/parser.py:40-52 | An attachment keeps every field of its record and is not downloaded; it has an API URL exactly when it is an upload, and for ids without '/' that URL splits back into the card id, attachment id and file name. |
| Parser.SplitAttachmentUrl | tests/test_integration.py:85-95 | A successful split yields non-empty card and attachment ids without '/', and rebuilding the URL from the three parts gives the input back. |
| Parser.SplitAfterCard | tests/test_integration.py:85 | The text after the card id splits into a non-empty attachment id without '/' and the file name, and they rebuild the text. |
| Parser.CommentsOf | trello_backup/trello/parser.py:70-87 | Reference definition of the comments of a card's actions: never more comments than actions. |
| Parser.CommentsOfAppend | trello_backup/trello/parser.py:72-87 | The comments of concatenated actions are the comments of each part, concatenated. |
| Parser.CommentsOfSnoc | trello_backup/trello/parser.py:74-86 | One more action adds its comment at the end exactly when it is a comment action with a text. |
| Parser.CommentsOfCommentCards | trello_backup/trello/parser.py:72 | Filtering the actions to "commentCard" first changes nothing: the comment test already implies that type. |
| Parser.ParseCommentsForCard | trello_backup/trello/parser.py:70-87 | The loop's result equals the reference definition: malformed comment actions are skipped, not fatal, and order is kept. |
| Parser.CommentsOfMembership | trello_backup/trello/parser.py:72-86 | A comment is produced exactly for a "commentCard" action carrying data with a text. |
| Parser.LabelNames | trello_backup/trello/parser.py:28 | The label names, in label order. |
| Parser.LookupChecklists | trello_backup/trello/parser.py:29-30 | The checklists in id order when every id is known; otherwise a KeyError naming an id the index lacks. |
| Parser.ParseCards | trello_backup/trello/parser.py:19-58 | Parsing succeeds exactly when every card's list id and checklist ids are known, and fails only with a KeyError; each card keeps its record's fields, its checklists in id order, and has comments only when downloading is on. |
| Parser.ParseCardsIntoLists | trello_backup/trello/parser.py:19-57 | Parsing succeeds exactly when every card's list and checklists resolve, else a KeyError; each card is parsed from its own record; each list keeps its record and gains, after its own cards and in record order, exactly the cards whose list id names it as the last list with that id. |
| Index.IdIndex | trello_backup/trello/controller.py:18 | Every id has an entry and only those; each entry points at a position holding that id, and no later position holds it (last one wins). |
| Index.IndexSnoc | trello_backup/trello/controller.py:18 | Adding one more id to a last-wins index keeps all three index properties. |
| Index.ListsById | trello_backup/trello/controller.py:18 | The list index has exactly the ids of the lists. |
| Index.ChecklistsById | trello_backup/trello/controller.py:22 | The checklist index has exactly the checklist ids, each mapped to a checklist of that id taken from the input. |
| Index.AttachCards | trello_backup/trello/controller.py:89-91 | Lists keep their records and order; a list gains exactly the cards whose list id resolves to it. |
| Index.AttachedOnce | trello_backup/trello/parser.py:55-57 | A card with a known list id lands in exactly one list, the last one carrying that id. |
| Index.ResolvesToLast | trello_backup/trello/controller.py:18 | A card's list id resolves to position i exactly when list i has that id and no later list has it. |
| Index.AttachCardsGains | trello_backup/trello/parser.py:55-57 | Each list's cards become its own cards followed by the cards, in input order, whose list id names it as the last list with that id. |
| Containers.ListsOfBoard | trello_backup/trello/model.py:67-72 | The full container indexes exactly the ids of the board's lists. |
| Containers.ChecklistsOfBoard | trello_backup/trello/model.py:149-153 | The checklist container holds one checklist per record, in order, with the record's id and card id. |
| Containers.OpenLists | trello_backup/trello/model.py:73-74 | The open view is an order-preserving subsequence holding exactly the lists that are not closed. |
| Containers.FilterByListFilter | trello_backup/trello/service.py:73-74 | No filter keeps the container as is; the open filter keeps exactly the open lists and marks the result as a selection. |
| Containers.MissingNames | tests/test_model.py:160-165 | A requested name is reported missing exactly when no list carries it. |
| Containers.FilterByListNames | tests/test_model.py:146-165 | Either every name is found and the result is a selection of exactly the named lists in board order, or a ValueError names every missing list in request order. |
| Containers.NotFoundExample | tests/test_model.py:160-165 | The error names the missing lists quoted and comma separated, as the test expects. |
| Containers.GetByIds | tests/test_parser.py:28-33 | The checklists whose id is requested, in container order; unknown ids are ignored. |
| Containers.CardOfChecklists | tests/test_parser.py:171-217 | A card parsed against the containers keeps its id, list id and label names, has no comments yet, and has exactly the named checklists in container order. |
| Containers.CardOf | tests/test_parser.py:171-217 | A card built against the containers keeps its record's id and list id and has no comments yet. |
| Containers.ParseCards | tests/test_parser.py:263-279 | A card whose list is unknown is skipped when the lists are a selection and is a KeyError otherwise; the cards come in record order. |
| Containers.CardsOf | trello_backup/trello/model.py:238-242 | The card container holds the parsed cards and, as its open view, exactly those not closed, in order. |
| Model.LabelsAsStr | trello_backup/trello/model.py:234-235 | No labels give "", one label gives the label itself. |
| Model.LabelsRoundTrip | trello_backup/trello/model.py:234-235 | Splitting the joined labels on ',' gives back the labels, when none contains a comma. |
| Model.UpTo | trello_backup/trello/model.py:107 | The text before the first stop character, which it never contains. |
| Model.ItemHtml | trello_backup/trello/model.py:105-108 | An item without a URL renders as its own text; one with a URL renders as an anchor, opening with the link tag and ending with the closing tag. |
| Model.ItemHtmlLinksUrl | trello_backup/trello/model.py:105-108 | The anchor rendered for an item with a URL links to exactly that URL. |
| Model.ItemHtmlLabel | trello_backup/trello/model.py:107 | The anchor's link text, between the first '>' and the closing tag, is the item's URL title, or "None" when it has none. |
| Model.SimpleName | trello_backup/trello/model.py:251-253 | The simple name is no longer than the name and has no spaces, slashes or upper-case ASCII letters; a name without spaces or slashes is just lower-cased. |
| Model.SimpleNameRun | trello_backup/trello/model.py:253 | Each maximal run of spaces and slashes becomes exactly one '-', and the text on either side is kept in order and lower-cased; with the previous row this fixes the simple name of every name. |
| Model.SimpleNameIdempotent | trello_backup/trello/model.py:251-253 | The simple name of a simple name is itself. |
| Model.SimpleNameExample | tests/test_model.py:187-202 | "A /B" becomes "a-b": a run of spaces and slashes becomes a single '-'. |
| Controller.OpenLists | trello_backup/trello/controller.py:28 | Exactly the lists that are not closed. |
| Controller.ParsedLists | trello_backup/trello/controller.py:16-24 | One list per list record, each reading back to its record. |
| Controller.GetBoard | trello_backup/trello/controller.py:12-38 | A KeyError exactly when some card does not resolve; any other failure is a page-title fetch that raised; an assembled board's walk raised nowhere, carries the id and name asked for, and has only open lists. |
| Controller.GetBoardListsAreOpenRecords | trello_backup/trello/controller.py:12-38 | The lists of the assembled board are exactly the open list records of the board details. |
| Controller.WalkKeepsRecords | trello_backup/trello/controller.py:34 | The title walk changes the lists' cards only. |
| Controller.OpenRecords | trello_backup/trello/controller.py:17-33 | Lists read from records, filtered to the open ones and rewritten but for their records, hold exactly the open records. |
| Service.GetBoardId | trello_backup/trello/service.py:103-108 | A remembered name costs no call and returns the remembered id; otherwise one call, which succeeds exactly when the API knows the name, and whose id is remembered; no other entry changes. |
| Service.GetBoardJson | trello_backup/trello/service.py:110-115 | A remembered id costs no call; otherwise one call whose record is remembered; earlier entries stay. |
| Service.BoardIdMemoised | trello_backup/trello/service.py:103-108 | Asking for the same board id a second time makes no API call and gives the same id. |
| Service.BoardJsonMemoised | trello_backup/trello/service.py:110-115 | Asking for the same board record a second time makes no API call and gives the same record. |
| Service.GetBoardNamesAndIds | trello_backup/trello/service.py:36-40 | The listing is returned as the API gave it, every listed pair is remembered, and earlier entries for unlisted names stay. |
| Service.ListedBoardsNeedNoCall | trello_backup/trello/service.py:36-40 | After listing the boards, the id of any listed board is known without an API call. |
| Service.SelectLists | trello_backup/trello/service.py:69-74 | Name selection runs only when names are given and state selection only when a filter is given; every kept list is a board list with a requested name and, for the open filter, open. |
| Service.FetchCommentsForCards | trello_backup/trello/service.py:96-101 | With comments requested each card's comments become those of its actions; nothing else of any card changes. |
| Service.FilterListCards | trello_backup/trello/service.py:84-87 | Each list keeps its record and its cards become the card filter's order-preserving selection of them. |
| Service.AssembleBoard | trello_backup/trello/service.py:65-87 | Assembly succeeds exactly when the list selection and the card parse both succeed; a failure is the selection's ValueError or the parse's KeyError. The board carries the id and name asked for and the selected lists in order, each keeping its record. Each list holds exactly the parsed cards, with comments fetched, whose list id it is the last list to carry, in card order and through the card filter. Every card on a list belongs to it, passed the filter, and has comments exactly when they were requested. |
| Service.PlaceCards | trello_backup/trello/service.py:79-87 | Over empty lists and comment-free parsed cards, each list keeps its record and gets exactly its filtered share of the comment-fetched cards, in card order. |
| Service.FilteredListCards | trello_backup/trello/service.py:84-87 | Attaching cards to empty lists and then filtering leaves each list with the filtered cards whose list id it is the last list to carry. |
| Service.SelectedAreParsed | trello_backup/trello/service.py:69-74 | The selected lists are parsed lists of the board with no cards yet. |
| Service.AttachedToOwnList | trello_backup/trello/service.py:76-79 | Lists that start empty receive only cards whose list id is theirs. |
| Service.AssembledCardsPlaced | trello_backup/trello/service.py:79-87 | After attaching, comment fetching and card filtering, every card sits on its own list, passed the filter, and carries the comments asked for. |
| Service.ResolveBoard | trello_backup/trello/service.py:65-66 | The board's id and record are remembered afterwards, at most two calls are made, and none when both were already known. |
| Service.EnrichAndSave | trello_backup/trello/service.py:89-91 | The board is unchanged but for its lists, and those differ only in the URL fields of checklist items; a raising fetch ends the walk there with no save; otherwise no fetch raised and the cache is saved twice at the very end and at no other point. |
| Service.GetTrelloBoardAndLists | trello_backup/trello/service.py:60-94 | The board has the requested name and the remembered id; the container holds the board's lists; a board returned comes from a resolved board whose assembly succeeded, and its lists are the assembled lists with the assembled scope, differing only in the URL fields of checklist items; at most two API calls, none for a known board; a board returned had no fetch raise and saves the cache only at the end, twice; a failure after the board was resolved and assembled is a fetch that raised. |
| Service.Enriched | trello_backup/trello/service.py:89-91 | Either the enriched board, differing only in the URL fields of checklist items, with the container's scope kept, saved twice at the end with no fetch raised, or the error of the fetch that raised. |
| Service.SecondFetchIsFree | trello_backup/trello/service.py:60-115 | Fetching the same board again in the same session makes no API call. |
| Service.YesIdsAppend | trello_backup/trello/service.py:143-154 | The cards answered Yes across two lists are those of each list, in order. |
| Service.YesIds | trello_backup/trello/service.py:143-154 | An id is collected exactly when some card answered Yes carries it; never more ids than cards or answers. |
| Service.WalkCards | trello_backup/trello/service.py:143-154 | The deleted cards are those answered Yes among the answered prompts; a completed list answered every card without an abort; an abort is the last answer and the first abort. |
| Service.WalkLists | trello_backup/trello/service.py:133-154 | The deleted cards are exactly those answered Yes, in order, among the card prompts answered before the walk ended. |
| Service.WalkCompleted | trello_backup/trello/service.py:133-154 | The walk completes only after every list was accepted and every card answered, with no abort. |
| Service.WalkDeclined | trello_backup/trello/service.py:134-137 | A declined list prompt is the last one answered, all earlier list prompts were accepted, and no card was aborted. |
| Service.WalkAborted | trello_backup/trello/service.py:148-154 | An abort is the last card answer and the first abort, and every list before it was accepted: it ends the whole cleanup. |
| Service.WalkOutOfAnswers | trello_backup/trello/service.py:133-154 | The walk runs out of answers only when there are fewer answers than prompts. |
| Service.YesIdsAreCards | trello_backup/trello/service.py:120-123 | Every deleted id is the id of a walked card. |
| Service.DecliningCardsDeletesNothing | trello_backup/trello/service.py:124-125 | Accepting every list and answering No to every card deletes nothing and completes the walk. |
| Service.CleanupBoard | trello_backup/trello/service.py:117-154 | The prompts walk the projection of the fetched lists, and only cards of the fetched board are ever deleted. |
| Service.DeletedAreBoardCards | trello_backup/trello/service.py:130-154 | Every deleted id belongs to a card of the walked lists. |
| Titles.ControlToSpace | trello_backup/trello/service.py:196 | The result has no newline, tab or carriage return; a title without them is unchanged; a non-empty title stays non-empty. |
| Titles.ControlToSpaceRun | trello_backup/trello/service.py:196 | Each maximal run of newlines, tabs and carriage returns becomes exactly one space, and the text on either side is kept; with the previous row this fixes the result on every input. |
| Titles.SqueezeSpaces | trello_backup/trello/service.py:198 | The result has no two spaces in a row; a title without two adjacent spaces is unchanged, a lone space included; squeezing adds no control whitespace. |
| Titles.SqueezeSpacesRun | trello_backup/trello/service.py:198 | Each maximal run of spaces becomes exactly one space, and the text on either side is kept. |
| Titles.Normalised | trello_backup/trello/service.py:195-198 | A title results exactly when the fetch returned one. It has no control whitespace and, for the service, no doubled spaces. A fetched title that is already in that form is kept as it is. |
| Titles.NormalisedIdempotent | trello_backup/trello/service.py:195-198 | Normalising a normalised title changes nothing. |
| Titles.NormaliseExample | tests/test_service.py:170-191 | A title with a newline and a tab between spaces comes out with single spaces. |
| Titles.ControlToSpaceExample | trello_backup/trello/service.py:196 | Each control character becomes one space, and runs of them a single one. |
| Titles.SqueezeSpacesExample | trello_backup/trello/service.py:198 | A run of spaces becomes one space. |
| Titles.Resolve | trello_backup/trello/service.py:190-211 | Every resolved URL gets a non-empty title and the cache entries of all other URLs are untouched; the resolution raises exactly when it misses and the fetch raises under a policy that does not catch, and then the cache is unchanged. |
| Titles.MissCachesNonEmpty | trello_backup/trello/service.py:193-202 | On a miss the page is fetched; the resolution raises exactly when the fetch raises uncaught, ending at that fetch with the cache unchanged; otherwise the cache changes exactly when the normalised title is non-empty, and then holds it, and an empty title falls back to the URL. |
| Titles.HitRewritesIffChanged | trello_backup/trello/service.py:203-208 | On a hit nothing is fetched, the stored title is written back exactly when normalising changes it, and an empty stored title falls back to the URL. |
| Titles.LegacyFetchFailureFallsBack | trello_backup/trello-backup.py:151-174 | In the standalone script a fetch that raises is caught: the cache is left alone, the URL becomes the title, and the walk goes on. |
| Titles.PackageFetchFailureRaises | trello_backup/trello/service.py:190-195 | In the package a miss whose fetch raises ends the resolution at that fetch, after one cache lookup, with the cache unchanged. |
| Titles.CleanHitExample | tests/test_service.py:193-214 | A clean cached title is used as it is: one lookup, no fetch, no write. |
| Titles.ResolveSettles | trello_backup/trello/service.py:190-211 | Resolving a URL twice gives the same title and the second pass changes nothing. |
| Titles.ResolveGrows | trello_backup/trello/service.py:190-211 | Resolving one URL keeps every already settled cache entry settled. |
| Titles.ResolveLocal | trello_backup/trello/service.py:190-211 | Resolution depends on the cache entry of its own URL only. |
| Titles.ResolveWritesChange | trello_backup/trello/service.py:200-207 | A resolution that writes the cache changes it. |
| Titles.ProcessItem | trello_backup/trello/service.py:183-214 | An item without an extracted URL is untouched with no cache access; the item raises exactly when its URL misses and the fetch raises uncaught, and is then left as it was; otherwise it gets the URL and a non-empty title; nothing else of it changes. |
| Titles.ProcessItems | trello_backup/trello/service.py:183-214 | One item per item, each differing from its input at most in URL and title. |
| Titles.ProcessItemSettles | trello_backup/trello/service.py:183-214 | Processing an item settles it, and an already settled item is left as it is with no cache write. |
| Titles.ProcessItemsSettles | trello_backup/trello/service.py:183-214 | The same holds for all items of a checklist, in order. |
| Titles.ProcessChecklistsSettles | trello_backup/trello/service.py:176-177 | The same holds for all checklists of a card. |
| Titles.ProcessCardsSettles | trello_backup/trello/service.py:175-177 | The same holds for all cards of a list. |
| Titles.ProcessListsSettles | trello_backup/trello/service.py:174-177 | The same holds for all lists of a board. |
| Titles.ProcessChecklist | trello_backup/trello/service.py:177 | A checklist keeps its record and its item count; its items change only in URL and title. |
| Titles.ProcessChecklists | trello_backup/trello/service.py:176-177 | One checklist per checklist, each changed only in its items' URL fields. |
| Titles.ProcessCard | trello_backup/trello/service.py:176-177 | A card keeps its record and its checklist count; only its items' URL fields change. |
| Titles.ProcessCards | trello_backup/trello/service.py:175-177 | One card per card, each changed only in its items' URL fields. |
| Titles.ProcessList | trello_backup/trello/service.py:175-177 | A list keeps its record and its card count; only its items' URL fields change. |
| Titles.ProcessLists | trello_backup/trello/service.py:174-177 | One list per list, each keeping its record, card count and checklist counts; only the items' URL fields change. |
| Titles.ProcessBoard | trello_backup/trello/model.py:255-258 | The walk keeps the board, its list count and every list, card and checklist record; only checklist items' URL fields change. |
| Titles.ProcessBoardIdempotent | trello_backup/trello/service.py:167-214 | When a pass raised nowhere, a second pass over the enriched board with the same oracles raises nowhere and changes neither board nor cache and writes nothing. |
| Titles.ProcessBoardChecklistTitles | trello_backup/trello/service.py:167-180 | The board is unchanged but for the URL fields of its checklist items; when a fetch raises the walk ends at it and the cache is never saved; otherwise no fetch raised and the cache is saved exactly once, after the walk. |
| Titles.WalkCalls | trello_backup/trello/service.py:174-177 | The walk over lists never saves the cache; when it raised, its last operation is the fetch that raised, and otherwise no fetch raised. |
| Titles.ResolveCalls | trello_backup/trello/service.py:190-211 | A resolution never saves the cache; a raising one ends with its raising fetch, and any other raises nowhere. |
| Titles.CatchingWalkNeverRaises | trello_backup/trello-backup.py:155-160 | Under the script's catching policy the walk never raises. |
| Output.OnlyFullDownloadsComments | trello_backup/display/output.py:75-95 | Comments are downloaded only when both comments and activity are included, which of the three modes only FULL does. |
| Output.DefaultLocalhostPrefix | trello_backup/http_server.py:1 | Attachment links on the default port start with `http://localhost:8000/`. |
| Output.LocalServerPath | trello_backup/display/output.py:275-278 | No downloaded file gives ""; a downloaded one gives the localhost prefix followed by the path's last '/'-separated segment. |
| Output.LocalServerPathOf | trello_backup/display/output.py:276-278 | The link of a downloaded file is the localhost prefix plus the text after the path's last '/'. |
| Output.LocalServerPathExample | trello_backup/display/output.py:276-278 | `files/x.pdf` is served as `http://localhost:8000/x.pdf`. |
| Output.AttachmentRow | trello_backup/display/output.py:272-279 | An attachment row names the attachment and its URL; its file path and local link are non-empty exactly when the file was downloaded; the item cells stay empty. |
| Output.ItemRow | trello_backup/display/output.py:283-293 | An item with a URL fills the title and URL cells and leaves the name empty; any other item fills the name only. |
| Output.AttachmentRows | trello_backup/display/output.py:271-279 | One row per attachment, in order. |
| Output.ItemRowsPerItem | trello_backup/display/output.py:282-293 | One row per item across the checklists, checklist by checklist, in order, each the row of that item. |
| Output.PropertyRows | trello_backup/display/output.py:270-293 | A card yields one row per attachment when attachments are enabled plus one per checklist item when checklists are. |
| Output.ExtractCardData | trello_backup/display/output.py:247-298 | Every row carries the plain-text description; exactly {WITH_DESCRIPTION} gives one description row; with WITH_DESCRIPTION set a card never yields zero rows; otherwise the property rows, replaced by one description row only when there are none and WITH_DESCRIPTION is set. |
| Output.ExtractedRowsInOrder | trello_backup/display/output.py:270-293 | The attachment rows come first, one per attachment in order, then one row per checklist item in order. |
| Output.NoPropertiesNoRows | trello_backup/display/output.py:270-298 | With no attachment, checklist or description flag a card contributes no row. |
| Output.HeaderStrings | trello_backup/display/output.py:138-150 | The header has 13 columns, in the declared order. |
| Output.ColumnsComplete | trello_backup/display/output.py:138-165 | Every column has a getter and appears in the header exactly once. |
| Output.Cell | trello_backup/display/output.py:151-165 | Only the item URL-title getter can yield a missing value. |
| Output.CellValue | trello_backup/display/output.py:235-240 | A missing value becomes "" in the URL-title column and is a ValueError in any other column. |
| Output.BuildRow | trello_backup/display/output.py:233-241 | A row is built exactly when every column's value converts, one cell per column in header order. |
| Output.TableRow | trello_backup/display/output.py:233-244 | A finished row has one cell per header column, each the converted value of its column. |
| Output.TableRowNeverFails | trello_backup/display/output.py:233-244 | For a typed row neither the None check nor the width check fires; board, list, card, description and URL-title cells are in place. |
| Output.RowsOf | trello_backup/display/output.py:232-244 | One table row per extracted row, in order. |
| Output.CardRows | trello_backup/display/output.py:230-244 | Every row of a list's cards is 13 wide and names the board and the list. |
| Output.ListRows | trello_backup/display/output.py:228-244 | Every row of the board's lists is 13 wide and names the board. |
| Output.ConvertToTableRows | trello_backup/display/output.py:226-245 | The table comes with the fixed header, and every row is as wide as the header and names the board. |
| Output.ConvertToTableRowsNeverFails | trello_backup/display/output.py:226-245 | Converting a typed board to table rows never raises. |
| Output.ChecklistToOutput | trello_backup/display/output.py:213-221 | A checklist record keeps the name and one record per item, from which the item can be rebuilt. |
| Output.CardToOutput | trello_backup/display/output.py:198-224 | A card record keeps id, name and closed flag, the plain-text description, one record per attachment and checklist in order with the local link empty exactly when not downloaded, and the labels when asked for. |
| Output.ItemsRoundTrip | trello_backup/display/output.py:216-219 | Every item of a card's output record reads back as the card's item. |
| Output.ListToOutput | trello_backup/display/output.py:187-196 | A list record is named as given and holds one card record per card, in order. |
| Output.ConvertToOutputData | trello_backup/display/output.py:180-185 | One record per list in container order, named by the list, with one record per card in order, each the card's full conversion with labels. |
| Output.FileWriteCallback | trello_backup/display/output.py:667-668 | The path is appended to its board's files of its type; every other board and type is unchanged; a new board is remembered after the known ones. |
| Output.FilesOfAppend | trello_backup/display/output.py:677-682 | One more board adds its files of the type at the end. |
| Output.GetFiles | trello_backup/display/output.py:672-682 | A path is listed for a type exactly when some remembered board wrote it with that type; the first board's paths open the list and the last board's close it, each in write order. |
| Output.FilesOf | trello_backup/display/output.py:677-682 | A path is among the boards' files of a type exactly when one of those boards wrote it with that type. |
| Output.FilesOfGrow | trello_backup/display/output.py:677-682 | One more path under one board adds exactly that path to the files of the type. |
| Output.CallbackThenGetFiles | trello_backup/display/output.py:667-682 | After a write is reported, the files of its type include the path, one more than before, duplicates kept. |
| Output.CallbackKeepsOtherTypes | trello_backup/display/output.py:667-682 | A write of one type leaves the files of every other type as they were. |
| TrelloConfig.FindType | trello_backup/config_parser/config.py:47-52 | The scan finds a type exactly when one of the listed types has the value, returns a type with that value, and otherwise raises naming the value. |
| TrelloConfig.ConfigTypeByValue | trello_backup/config_parser/config.py:47-52 | A config type is found exactly when some type has the value; the exception names the value otherwise. |
| TrelloConfig.ConfigTypeRoundTrip | trello_backup/config_parser/config.py:39-52 | Looking a type up by its own value gives it back. |
| TrelloConfig.DoTypeCheck | trello_backup/config_parser/config.py:21-32 | With the boolean checker corrected: the string checker accepts every value; the boolean checker accepts exactly booleans and boolean words; the list checker accepts exactly lists of strings; a rejection is a ValueError. |
| TrelloConfig.DoTypeCheckAsWritten | trello_backup/config_parser/config.py:21-32 | With the boolean checker as written, a boolean, 1 or 0 given to the boolean checker raises AttributeError; every other check is the corrected one's. |
| TrelloConfig.BoolConfigEscapesAsWritten | trello_backup/config_parser/config.py:109-118 | As written, a boolean serve_attachments fails with an exception that is neither the ValueError the validator catches nor a KeyError; corrected, it is accepted as it is. |
| TrelloConfig.FindKey | trello_backup/config_parser/config.py:100-106 | The scan finds a member exactly when one of the listed members has the key, returns one with that key, and otherwise raises naming the key. |
| TrelloConfig.LookupByKey | trello_backup/config_parser/config.py:100-106 | A member is found exactly when some member has the key; an unknown key raises "Unknown configuration key". |
| TrelloConfig.LookupRoundTrip | trello_backup/config_parser/config.py:100-106 | Looking a member up by its own key gives it back. |
| TrelloConfig.LookupOpt | trello_backup/config_parser/config.py:158-163 | With the lookup exception caught, a key yields the member having it and nothing for an unknown key. |
| TrelloConfig.SelectFrom | trello_backup/config_parser/config.py:92-98 | The selection holds exactly the selected members from a position on, in declaration order. |
| TrelloConfig.FilterByCfgType | trello_backup/config_parser/config.py:84-98 | The configs of a type are exactly the members of that type, in declaration order. |
| TrelloConfig.GlobalAndSecretPartition | trello_backup/config_parser/config.py:64-98 | Every member is global or secret and not both; serving attachments is the only global one. |
| TrelloConfig.ValidateTypeAndValue | trello_backup/config_parser/config.py:109-126 | An unknown config gives None and reports nothing; a passing value is returned checked with nothing reported; a failing value gives None and reports one invalid-value error. |
| TrelloConfig.TypeErrorsNone | trello_backup/config_parser/config.py:113-118 | An entry reports nothing exactly when its key is unknown or its value passes the member's check. |
| TrelloConfig.ErrorsNone | trello_backup/config_parser/config.py:155-165 | Reading the main dict reports nothing exactly when every entry with a known key passes its check. |
| TrelloConfig.ErrorsBelong | trello_backup/config_parser/config.py:155-165 | Every reported error belongs to an entry with a known key whose value fails its check. |
| TrelloConfig.ErrorsSpec | trello_backup/config_parser/config.py:155-165 | No errors exactly when every known entry passes, and every error belongs to a failing known entry. |
| TrelloConfig.MainPairs | trello_backup/config_parser/config.py:158-164 | Each entry of the main dict pairs its looked-up member, or None, with its checked value, in dict order. |
| TrelloConfig.ReadMainSplit | trello_backup/config_parser/config.py:155-165 | The main reading loop stores the entries' pairs into a dict, the last write to a key winning, and reports the entries' errors in dict order. |
| TrelloConfig.ReadMainConfigs | trello_backup/config_parser/config.py:155-165 | Every entry's looked-up member, or None, is stored once, none twice; the validator keeps its context. |
| TrelloConfig.MainConfigKeys | trello_backup/config_parser/config.py:155-165 | The main config has no key twice, holds a member exactly when the dict has its key, and holds None exactly when some key is unknown. |
| TrelloConfig.MainConfigValues | trello_backup/config_parser/config.py:155-165 | With distinct keys, each known member holds its entry's checked value, or None when the check failed. |
| TrelloConfig.ConfigGet | trello_backup/config_parser/config.py:141-144 | A defined config yields its stored value; an undefined one raises "Undefined config" naming it. |
| TrelloConfig.ConfigGetAfterRead | trello_backup/config_parser/config.py:134-165 | After reading the main dict, getting a member succeeds exactly when the dict has its key, and gives that entry's checked value. |
| TrelloConfig.ReadSecretsSplit | trello_backup/config_parser/config.py:187-203 | The secrets loop stores the passing entries' pairs into a dict and reports the failing entries' errors in dict order. |
| TrelloConfig.SecretPairsSpec | trello_backup/config_parser/config.py:190-202 | A member is paired with a value exactly when some entry with its key passes the check with that value. |
| TrelloConfig.SecretsKeys | trello_backup/config_parser/config.py:187-203 | The secrets hold no member twice and hold a member exactly when some entry with its key passes the check. |
| TrelloConfig.ReadSecrets | trello_backup/config_parser/config.py:187-203 | No member is stored twice, each stored member has an entry with its key, and the validator keeps its context. |
| TrelloConfig.SecretsGet | trello_backup/config_parser/config.py:205-208 | A defined secret yields its value; an undefined one raises "Undefined config" naming it. |
| TrelloConfig.UndefinedErrors | trello_backup/config_parser/config.py:307-309 | One undefined-config error per missing config, in order. |
| TrelloConfig.Missing | trello_backup/config_parser/config.py:305-306 | The missing configs are exactly the required ones absent from the actual keys, none twice. |
| TrelloConfig.ValidateConfigs | trello_backup/config_parser/config.py:302-310 | The actual keys are returned unchanged; one undefined-config error is reported per missing required config; nothing is reported when all are present. |
| TrelloConfig.UndefinedErrorsExact | trello_backup/config_parser/config.py:302-310 | Each reported undefined-config error names a different config, and together they name exactly the missing required configs. |
| TrelloConfig.FreshReportAll | trello_backup/config_parser/config.py:271-280 | Errors reported into a fresh validator all sit under its one context, one entry each. |
| TrelloConfig.NewConfigErrors | trello_backup/config_parser/config.py:134-139 | Building the main config into a fresh validator reports nothing exactly when every known entry passes and serving attachments is set; every error carries a context. |
| TrelloConfig.NewConfig | trello_backup/config_parser/config.py:134-139 | The main config stores each entry's member, or None, once, and the validator keeps its context. |
| TrelloConfig.MainMissing | trello_backup/config_parser/config.py:134-139 | No main config is missing exactly when the dict has the key of every required config. |
| TrelloConfig.SecretsMissing | trello_backup/config_parser/config.py:181-185 | No secret is missing exactly when every required secret has a passing entry. |
| TrelloConfig.PassesWhenAllPass | trello_backup/config_parser/config.py:187-203 | When every known entry passes, having an entry for a member and having a passing entry for it are the same. |
| TrelloConfig.SecretsOkIff | trello_backup/config_parser/config.py:181-203 | The secrets are acceptable exactly when no entry fails and each of key, token and secret has a passing entry. |
| TrelloConfig.NewSecretsErrors | trello_backup/config_parser/config.py:181-185 | Building the secrets into a fresh validator reports nothing exactly when every known entry passes and key, token and secret are all set; every error carries a context. |
| TrelloConfig.NewSecrets | trello_backup/config_parser/config.py:181-185 | The secrets store no member twice, each under an entry with its key, and the validator keeps its context. |
| TrelloConfig.LoadSucceeds | trello_backup/config_parser/config.py:267-289 | Loading succeeds exactly when both dicts pass every known check and hold every required key; otherwise it raises a config exception. |
| TrelloConfig.Load | trello_backup/config_parser/config.py:271-284 | Loading fails only with a config exception or the AttributeError of a context-less error; loaded configs store no key twice, every main entry's member, and only secrets with an entry. |
| ConfigValidation.HumanReadable | trello_backup/config_parser/config_validation.py:26-32 | Each error type has a non-empty human-readable name that cannot be mistaken for the multiple-types heading. |
| ConfigValidation.FirstContaining | trello_backup/config_parser/config_validation.py:82-83 | No line is returned exactly when no line mentions the pattern; otherwise the first line that does. |
| ConfigValidation.ShortMatch | trello_backup/config_parser/config_validation.py:77-85 | An empty or single-line value is shown as it is. A multi-line one shows its first line mentioning `${var}`, a single line. An IndexError happens exactly when no line mentions it. Without a variable name the pattern cannot be built (TypeError). |
| ConfigValidation.NewFieldError | trello_backup/config_parser/config_validation.py:67-75 | A field error is made exactly when its short value can be computed, and keeps the field value and type it was given. |
| ConfigValidation.CreateInvalidConfigValue | trello_backup/config_parser/config_validation.py:51-57 | An invalid-value error carries the message, no context path, and information naming config and value, extended by the additional message exactly when one is given. |
| ConfigValidation.CreateUndefinedConfigError | trello_backup/config_parser/config_validation.py:59-61 | An undefined-config error names the config and carries the message. |
| ConfigValidation.SetContext | trello_backup/config_parser/config_validation.py:126-127 | Setting the context changes nothing else. |
| ConfigValidation.ReportError | trello_backup/config_parser/config_validation.py:137-142 | Reporting keeps the contexts distinct, records a field error's field value, and leaves the new errors and the context alone. |
| ConfigValidation.ReportErrorGet | trello_backup/config_parser/config_validation.py:137-140 | The current context's list gains the error, marked with that context, at its end; every other context keeps its list. |
| ConfigValidation.ReportErrorValid | trello_backup/config_parser/config_validation.py:137-140 | Reporting keeps every context once and every error under the context it was reported in. |
| ConfigValidation.MarkAll | trello_backup/config_parser/config_validation.py:139-140 | Marking a run of errors marks each with the context, in order. |
| ConfigValidation.ReportAllAppends | trello_backup/config_parser/config_validation.py:137-140 | Reporting a run appends it, marked, under the current context and keeps the context. |
| ConfigValidation.ReportAllInOrder | trello_backup/config_parser/config_validation.py:137-140 | Errors reported one after another sit after the earlier ones under the context, in report order; no other context changes. |
| ConfigValidation.CheckIfAlreadyReported | trello_backup/config_parser/config_validation.py:144-148 | The message is recorded as new exactly when no reported field error carried that value; nothing else changes. |
| ConfigValidation.ReportedValueNotNew | trello_backup/config_parser/config_validation.py:137-148 | A value reported through a field error is never a new error afterwards, whatever is reported later; a value nobody reported is. |
| ConfigValidation.FilterPairs | trello_backup/config_parser/config_validation.py:166-172 | The only way grouping can fail is the AttributeError of an error without a context. |
| ConfigValidation.FilterPairsFails | trello_backup/config_parser/config_validation.py:166-172 | Grouping fails exactly when an error of the type was reported without a context. |
| ConfigValidation.FilterPairsGroups | trello_backup/config_parser/config_validation.py:166-172 | The groups have distinct source names, each holds the short strings of that source's errors of the type in report order, and there are groups exactly when some error has the type. |
| ConfigValidation.FilterByType | trello_backup/config_parser/config_validation.py:166-172 | Grouping a validator's errors by source fails exactly on a context-less error of the type; otherwise each source's group lists its errors of the type in order. |
| ConfigValidation.FailureMessage | trello_backup/config_parser/config_validation.py:152-162 | The message is empty exactly when neither type has errors, and opens with "Multiple error types found!" exactly when both do. |
| ConfigValidation.FailIfErrors | trello_backup/config_parser/config_validation.py:150-164 | It raises AttributeError exactly when an error of either type has no context; any other failure is a config exception. |
| ConfigValidation.FailIfErrorsSpec | trello_backup/config_parser/config_validation.py:150-164 | When every error has a context, the validator raises exactly when some error was reported, and the message opens with the multiple-types line exactly when both error types occur. |
| LegacyScript.KeptCards | trello_backup/trello-backup.py:816-831 | The kept cards are an order-preserving subsequence of the list's cards holding exactly those for which an enabled attachment, description or checklist test holds. |
| LegacyScript.FilterCards | trello_backup/trello-backup.py:808-831 | The full flag set returns the cards unchanged; any other set keeps exactly the cards passing one of its enabled tests. |
| LegacyScript.KeptCardsIsFilter | trello_backup/trello-backup.py:816-831 | The script's loop selects exactly what the package's keep predicate selects, in order. |
| LegacyScript.FilterCardsAgrees | trello_backup/trello-backup.py:808-831 | The script's filter and the package's filter give the same cards in the same order for every flag set. |
| LegacyScript.RowOf | trello_backup/trello-backup.py:787-801 | A row has one cell per header column, each the column's value for the board, list, card and entry. |
| LegacyScript.EntryRows | trello_backup/trello-backup.py:786-804 | A card's entries give one row each, in order, exactly when there is no entry or the header width is thirteen; otherwise the column-mismatch ValueError. |
| LegacyScript.CardsRows | trello_backup/trello-backup.py:783-804 | Every row of a list's kept cards is as wide as the header width passed in; a failure is the column-mismatch ValueError. |
| LegacyScript.ListsRows | trello_backup/trello-backup.py:782-804 | Every row of the board's lists is as wide as the header width passed in; a failure is the column-mismatch ValueError. |
| LegacyScript.ConvertToTableRows | trello_backup/trello-backup.py:779-805 | Every row is as wide as the header width passed in, or the conversion raises the column-mismatch ValueError. |
| LegacyScript.GetHeader | trello_backup/trello-backup.py:833-850 | The header has thirteen names, one per column, in column order. |
| LegacyScript.GetHeaderIsPackageHeader | trello_backup/trello-backup.py:833-850 | The script's header is the package's header. |
| LegacyScript.Blank | trello_backup/trello-backup.py:789-801 | Blanking a row writes a missing URL title as "" and keeps every other cell. |
| LegacyScript.BlankAll | trello_backup/trello-backup.py:789-801 | Blanking rows blanks each row, in order. |
| LegacyScript.RowMatches | trello_backup/trello-backup.py:785-801 | One script row, with a missing URL title written as "", is the package's row for the same entry. |
| LegacyScript.EntryRowsAgree | trello_backup/trello-backup.py:786-804 | A card's script rows fail exactly when there are rows and the width is not thirteen; otherwise, blanked, they are the package's rows. |
| LegacyScript.CardsRowsAgree | trello_backup/trello-backup.py:783-804 | A list's script rows agree with the package's rows for the same kept cards. |
| LegacyScript.ListsRowsAgree | trello_backup/trello-backup.py:782-804 | A board's script rows agree with the package's rows, list by list. |
| LegacyScript.ConvertAgreesWithPackage | trello_backup/trello-backup.py:779-805 | The script's table raises exactly when there is a row and the width passed in is not the header's; otherwise its rows, blanked, are the package's rows. |
| LegacyScript.GetUrlTitles | trello_backup/trello-backup.py:144-174 | The walk changes only the checklist's items and keeps their number. |
| LegacyScript.GetUrlTitlesSetsEveryUrl | trello_backup/trello-backup.py:144-174 | Every item whose text yields a URL ends with that URL and a non-empty title, even when the fetch fails; every other item is left as it was. |
| LegacyScript.GetUrlTitlesIdempotent | trello_backup/trello-backup.py:144-174 | Walking the walked checklist again with the same oracles changes neither it nor the cache and writes nothing. |
| OldestScript.ParseCards | modules/trello-backup/trello-backup.py:186-201 | Cards are parsed exactly when every card's list and checklists resolve, else a KeyError; one card per record, each with the comments of its own actions and no attachments or due date. |
| OldestScript.OldestIsLaterWithoutAttachments | modules/trello-backup/trello-backup.py:186-201 | The oldest card parser fails on the same records as the later one with comments always downloaded, and otherwise gives the same cards without attachments and due date. |
| OldestScript.ParseCardsIntoLists | modules/trello-backup/trello-backup.py:186-201 | Parsing succeeds exactly when every card resolves, and then each list has its cards appended in record order. |
| OldestScript.ListBoards | modules/trello-backup/trello-backup.py:165-169 | The board map has a name exactly when some listed board has that name. |
| OldestScript.ListBoardsLastWins | modules/trello-backup/trello-backup.py:165-169 | Each name maps to the id of the last board listed under it. |
| OldestScript.ListBoardsDuplicateExample | modules/trello-backup/trello-backup.py:165-169 | Boards "1" and "2" both named "b" give the map b to "2". |
| Strs.Split | trello_backup/display/output.py:210 | A split yields at least one piece and no piece contains the separator. |
| Strs.JoinSplit | trello_backup/trello/model.py:234-235 | Joining the pieces of a split with the separator gives the string back. |
| Strs.SplitJoin | trello_backup/trello/model.py:234-235 | Splitting a join of separator-free pieces gives the pieces back. |
| Strs.LastSegment | trello_backup/display/output.py:210 | The last piece of a split is a separator-free suffix of the string, preceded by the separator when shorter than the string. |
| Strs.LastSegmentAfter | trello_backup/display/output.py:210 | Whatever follows the last separator is the last piece. |
| Strs.LastPieceIsSuffix | trello_backup/display/output.py:210 | The last piece of a split is a suffix of the string, preceded by the separator when shorter; it is the whole string exactly when there is one piece. |
| Strs.Lower | trello_backup/trello/model.py:253 | Lower-casing ASCII letters keeps the length and maps each character on its own. |
| Strs.LowerIdempotent | trello_backup/trello/model.py:253 | Lower-casing twice is lower-casing once. |
| Strs.LowerAppend | trello_backup/trello/model.py:253 | Lower-casing distributes over concatenation. |
| ObjectUtils.TypeCheckListStr | trello_backup/utils.py:105-112 | Exactly a list whose every element is a string passes, and comes back unchanged; anything else is a ValueError. |
| ObjectUtils.CheckStrItems | trello_backup/utils.py:109-111 | The loop from position k passes exactly when every later element is a string. |
| ObjectUtils.StrictBoolAsWritten | trello_backup/utils.py:115-122 | Values outside the guard are a ValueError, the words True and False become their truth value, and a boolean, 1 or 0 passes the guard and raises AttributeError. |
| ObjectUtils.StrictBoolAsWrittenRejectsBools | trello_backup/utils.py:115-122 | True and False pass the guard and still fail. |
| ObjectUtils.StrictBool | trello_backup/utils.py:115-122 | Corrected: accepted exactly when the value is a boolean or one of the words True and False, giving its truth value as a boolean; anything else, 1 and 0 included, is a ValueError. |
| ObjectUtils.StrictBoolAgreesOnStrings | trello_backup/utils.py:115-122 | On strings the corrected and the as-written checker agree. |
| ObjectUtils.StrictBoolRoundTrip | trello_backup/utils.py:115-122 | The printed form of a boolean checks back to it, and checking an accepted value again changes nothing. |
| ObjectUtils.StrictStr | trello_backup/utils.py:125-128 | Exactly strings pass, unchanged; anything else is a ValueError. |
| ObjectUtils.LenientStr | trello_backup/utils.py:131-134 | Every value passes as a string: a string as itself, a boolean as True or False. |
| ObjectUtils.StrictAndLenientAgree | trello_backup/utils.py:125-134 | Where the strict checker accepts, the lenient one gives the same; the lenient result is a fixed point of both. |
| ObjectUtils.PyStr | trello_backup/utils.py:128 | A string prints as itself; the printed form is empty only for the empty string. |
| ObjectUtils.Repr | trello_backup/utils.py:128 | A repr is never empty, and a string's is quoted. |
| Strs.NatToString | trello_backup/display/output.py:278 | A number prints as a non-empty run of digits. |
| Strs.CollapseRemovesClass | trello_backup/trello/service.py:196 | Replacing every run of a character class by a character outside the class leaves none of the class behind. |
| Strs.CollapseIdentity | trello_backup/trello/service.py:196-198 | A string without characters of the class is left unchanged. |
| Strs.CollapseAppend | trello_backup/trello/service.py:196-198 | Collapsing a concatenation collapses each half, the second picking up the run state the first left. |
| Strs.CollapseRun | trello_backup/trello/service.py:196-198 | A maximal run of class characters becomes exactly one replacement, and the text on either side is collapsed on its own. |
| Strs.CollapseSpacesKeep | trello_backup/trello/service.py:198 | Squeezing keeps a string without two adjacent spaces as it is, since a lone space is not a match. |
| Strs.CollapseChars | trello_backup/trello/service.py:196-198 | The substitution only ever writes characters of the input or the replacement. |
| Strs.CollapseSpacesNoDouble | trello_backup/trello/service.py:198 | After squeezing spaces no two spaces are adjacent. |
| Dicts.Get | trello_backup/trello/cache.py:22-24 | A key reads back a value exactly when it is stored. |
| Dicts.GetMembers | trello_backup/trello/cache.py:22-24 | With distinct keys, reading a key gives a value exactly when that pair is stored. |
| Dicts.Put | trello_backup/config_parser/config.py:164 | Assigning an existing key keeps the key order; a new key goes last; keys stay distinct. |
| Dicts.PutMembers | trello_backup/config_parser/config.py:164 | After an assignment the stored pairs are the new one and those of the other keys. |
| Dicts.PutGet | trello_backup/config_parser/config.py:164 | After an assignment the key reads back the new value and every other key what it read before. |
| Dicts.PutPut | trello_backup/config_parser/config.py:164 | Assigning a key twice is assigning it once with the second value. |
| Dicts.FromPairsKeys | trello_backup/trello/controller.py:18 | A dict built from pairs stores each key once, and exactly the keys of the pairs. |
| Dicts.FromPairsLastWins | trello_backup/trello/controller.py:18 | Each key of a dict built from pairs holds the value of the last pair with that key. |
| Dicts.FromPairsUniqueKey | trello_backup/trello/controller.py:18 | A key carried by one pair only reads back that pair's value. |
| Dicts.FromPairsOrder | trello_backup/trello/controller.py:18 | The keys of a dict built from pairs appear in the order of their first pairs. |
| Dicts.FromDistinctPairs | trello_backup/trello/controller.py:18 | Pairs with distinct keys build a dict holding exactly those pairs in order. |
| Dicts.AppendTo | trello_backup/config_parser/config_validation.py:140 | Appending under a new key adds that key last; keys stay distinct. |
| Dicts.AppendToGet | trello_backup/config_parser/config_validation.py:140 | After an append the key holds its earlier values followed by the new one; other keys are unchanged. |
| Dicts.AppendAllGet | trello_backup/config_parser/config_validation.py:166-172 | Appending a run of values puts them after the key's earlier values, in order. |
| Dicts.AppendAllIsPut | trello_backup/config_parser/config_validation.py:166-172 | Appending a run is storing the key's earlier values followed by the run. |
| Seqs.Filter | trello_backup/trello/filter.py:44-53 | The selection holds exactly the elements meeting the condition and is no longer than the input. |
| Seqs.FilterIsSubsequence | trello_backup/trello/filter.py:44-53 | The selection keeps the input's order. |
| Seqs.FilterMonotone | trello_backup/trello/filter.py:44-53 | A weaker condition keeps every element a stronger one keeps, in the same order. |
| Seqs.FilterAppend | trello_backup/trello/filter.py:44-53 | Selecting from a concatenation is concatenating the selections. |

## Left out

- Network and HTTP are parameters: the Trello REST client, the `requests` calls of the legacy scripts, HTML title fetching and `UrlUtils.extract_from_str`.
- Attachment download, the local HTTP server and all file writing are left out. Only the link a downloaded file gets and the report of written files are modelled.
- Pickle and JSON encoding: the cache file is an abstract stored map, and `json.dumps` is a parameter.
- Writing the cache file (trello_backup/trello/cache.py `save`): the walks record a `CacheSave` operation where the file is written; the bytes written are not modelled.
- Markdown conversion is an opaque function parameter.
- HTML, rich-table and CSV rendering, console output, logging and the CLI (`cli/*`, `cmd_handler.py`, `constants.py`) are left out. Only the table styling lookups and the row/column pairing of `display/table.py` are modelled.
- The prompts of the cleanup are an input sequence of answers. Running out of answers ends the walk, standing in for a blocking `input()`.
- `ListFilter` members other than OPEN and ALL are not modelled; the code shows no others being applied.
- The number of API calls is modelled only as far as the per-session memo saves them.
- `TrelloCfg.get_default`, `Config.get_global_confs` and `Config.get_configs_as_keys_values` are not modelled. No modelled operation uses them.
- The KeyError handler of `ConfigLoader._read_config` is not modelled. No modelled path raises KeyError there.
- The DATE type checker is not modelled, and neither is `value_checker`: no config declares one. Its branch in `validate_type_and_value` therefore never fires.
- Config values cover None, booleans, integers, strings and lists. Floats and nested dicts are not modelled.
- `repr` escaping of quotes inside strings and Python's set iteration order are not modelled. Missing required configs are reported in declaration order.
- A variable name containing regular-expression metacharacters is not modelled: `ShortMatch` treats the name literally.
- The unused `trello_cards_open` of `TrelloOperations.get_board` is left out.
- Comment authors are not modelled beyond their presence. An action without `memberCreator` or `username` would raise KeyError before the `data`/`text` checks; the model assumes every action has them.
- The legacy `load_webpage_title_cache` opens the file outside its `try`, so a missing file raises. The model's cache load covers only the package's failure-tolerant `load`.
- The commented-out sanity checks of `get_extracted_data` are not modelled.
- A column without bound styles and one bound to an empty style dict are the same in the model.
- `Output.ExtractCardData`: `len(flags) == 1 and WITH_DESCRIPTION in flags` is modelled as "the flag set is exactly {WITH_DESCRIPTION}". That is what it means for a set of flags.
- Lines that crash as written are modelled by their evident intent, as the comments and tests state it:
  - trello_backup/trello/filter.py:51 prints an undefined name;
  - trello_backup/trello/model.py:202 and trello_backup/trello-backup.py:245 build `ExtractedCardData` with seven arguments;
  - trello_backup/utils.py:139 calls `strptime` on the module (the DATE checker, left out);
  - trello_backup/config_parser/config_validation.py:8 imports `re` from `typing`, so `re.findall` at line 82 is modelled as the regular-expression search it names;
  - trello_backup/trello/controller.py:34 calls the title walk without a cache, modelled with the cache loaded from the stored file;
  - trello_backup/trello/parser.py:34 calls an instance method statically.
- Presets passed where a property flag is expected (service.py:85, output.py:229) are modelled as their flag sets, as output.py:265 reads them through `.value`.
- TrelloConfig.DoTypeCheck: the configuration path uses the corrected boolean checker. As written, a JSON boolean, `1` or `0` for `serve_attachments` raises AttributeError inside the checker. Neither `validate_type_and_value` (config.py:116 catches ValueError) nor `_read_config` (config.py:295 catches KeyError) handles it, so `ConfigLoader.load` raises it. `TrelloConfig.DoTypeCheckAsWritten` and `TrelloConfig.BoolConfigEscapesAsWritten` show this; see "## Findings".
- TrelloConfig.ValidateTypeAndValue, TrelloConfig.ReadMainConfigs, TrelloConfig.ReadSecrets, TrelloConfig.NewConfig, TrelloConfig.NewSecrets: built on the corrected `DoTypeCheck`, so none of them models the AttributeError above.
- TrelloConfig.NewConfigErrors, TrelloConfig.NewSecretsErrors, TrelloConfig.LoadSucceeds, TrelloConfig.Load: likewise, they describe loading with the corrected boolean checker. As written, a boolean `serve_attachments` makes loading raise AttributeError rather than succeed.
- Strs.Lower: lowers ASCII letters only. Python's `str.lower` applies Unicode case mapping, which also lowers non-ASCII letters and can change the length (`'İ'.lower()` has two characters). The length-keeping contract is the model's, not Python's.
- Model.SimpleName: inherits the ASCII-only lowering of `Strs.Lower`. A name with non-ASCII upper-case letters keeps them, and under Unicode lowering the result need not be shorter than the name.
- Output.TableRow: the column-mismatch message formats the header object, which prints as Python's default object representation; the memory address in it is not modelled. The branch cannot be reached for a typed row (Output.TableRowNeverFails).
- Service.GetTrelloBoardAndLists: when a title fetch raises, the result is that error alone. The board ids and records remembered on the way are not returned with it, although the Python service object keeps them.
- Titles.ProcessBoardChecklistTitles, Service.EnrichAndSave, Controller.GetBoard: a raised fetch is modelled as ending the walk at that fetch. What the exception carries, and its traceback, are not modelled.

## Findings

| source | as written | input that shows it | evidently intended | confidence | as-written member | corrected member |
|---|---|---|---|---|---|---|
| trello_backup/utils.py:116-122 | `type_check_strict_bool` admits `True` and `False` (and, through `==`, `1` and `0`), then calls `.lower()` on the value | `type_check_strict_bool(True)` raises AttributeError: 'bool' object has no attribute 'lower' | the booleans are returned as they are, `"True"`/`"False"` become their truth value, everything else is a ValueError | not executed | ObjectUtils.StrictBoolAsWritten | ObjectUtils.StrictBool |
| trello_backup/config_parser/config.py:109-118 | `validate_type_and_value` catches only ValueError around `do_type_check`, and `BOOL` (line 24) is bound to the strict boolean checker of the row above | a main config `{"serve_attachments": true}`: `ConfigLoader.load` raises AttributeError instead of loading or reporting an invalid value | a JSON boolean is accepted as the setting's value | not executed | TrelloConfig.DoTypeCheckAsWritten | TrelloConfig.DoTypeCheck |
