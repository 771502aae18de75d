# Fever API responder, modelled in Dafny

This project models `fever.php`, FreshRSS's implementation of the Fever
API. Each request carries flags (`groups`, `feeds`, `favicons`, `items`,
`links`, `unread_item_ids`, `saved_item_ids`), and each flag present asks
for one section of the reply. A request may also carry a mark command
(`mark`, `as`, `id`, `before`). The command sets or clears an entry's read
flag or favorite flag, and the matching id list is then returned again. The
reply is wrapped in an envelope (`api_version`, `auth` and, for an
authenticated user, `last_refreshed_on_time`) and written as JSON or as
XML.

The model is organised by the program's own structure:

- `storage.dfy` (module `Storage`) holds entries, feeds and categories as
  values. The entry table is a class whose rows the two DAO setters update
  in place. Rows are kept in primary-key order.
- `entry_query.dfy` (module `EntryQuery`) covers `bindParamArray` and
  `findEntries`. It models the bindings, the three id modes (by ids, below
  `max_id`, above `since_id`), the feed filter, the ordering and the limit
  of 50.
- `item_params.dfy` (module `ItemParams`) covers the first part of
  `getItems`: `feed_ids` and `group_ids` (expanded through the categories'
  feeds and made unique), and the precedence of `max_id`, then `with_ids`,
  then `since_id`.
- `mark.dfy` (module `Mark`) covers the mark command. The handler builds a
  method name and asks PHP, case-insensitively, whether it exists. The
  module proves this lookup equal to a table of six actions. It also
  covers the normalisation of `before` and the follow-up section chosen by
  `as`.
- `xml.dfy` (module `XmlOutput`) covers `array_to_xml`. A spec function
  gives the text of one call; a method builds the same text entry by entry,
  as the handler does.
- `sanitizer.dfy` (module `Sanitizer`) covers `my_sanitize`. The parsed
  document is an array of elements in document order, each with its tag,
  attributes and own text. Its three passes set
  a `_blank` target on links, sandbox iframes and strip `on*`, `id`,
  `style` and `class` attributes.
- `sections.dfy` (module `Sections`) covers the response array (PHP
  assignment and `array_merge` on string keys), `entriesToIdList`,
  `getFeedsGroup`, `lastRefreshedOnTime` and the envelope of `wrap`.
- `fever_api.dfy` (module `FeverApi`) covers the handler itself. This
  means the `xml` field set by the constructor, `process`, `wrap`, the
  listing methods, `getItems` and the top-level response.
- `php_strings.dfy` holds the PHP string functions the code relies on:
  `implode`/`explode`, `trim`, `strtolower`/`ucfirst`, integer
  `is_numeric`/`intval` and the control-character strip.
- `wrappers.dfy` holds `Option` and `Result`.

Whether the API key names a user is an input (`authenticated`), and so is
the rest of storage (the feeds, categories and favicons). The libxml calls
are function parameters: the `rewrite_urls` auto-linker, `loadHTML` and
`saveHTML`.

Where the specification and the code disagree, the model follows the code:

- `last_refreshed_on_time` is the smallest `lastUpdate` over all feeds.
  `getLastUpdatedFeed` sorts ascending and takes the first row, although
  the specification describes it as the latest update.
- A request whose `max_id` is present but not a positive number gets no id
  condition other than `id > NULL`, so it selects nothing.

## Model

| member | source | states |
|---|---|---|
| Storage.WithRead | fever.php:589-599 | Only the rows with the target id take the new read flag; every row keeps every other field, and the table keeps its length and order. |
| Storage.WithFavorite | fever.php:601-611 | Only the rows with the target id take the new favorite flag; nothing else in the table changes. |
| Storage.Unread | fever.php:74-92 | getUnread returns exactly the entries whose read flag is clear. |
| Storage.Starred | fever.php:95-113 | getStarred returns exactly the entries whose favorite flag is set. |
| Storage.MarkReadIdempotent | fever.php:589-599 | Setting the same read flag on the same id twice leaves the table as setting it once. |
| Storage.MarkFavoriteIdempotent | fever.php:601-611 | Setting the same favorite flag on the same id twice leaves the table as setting it once. |
| Storage.MarkKeepsIds | fever.php:589-611 | No setter adds, removes or reorders entries: the id sequence is unchanged. |
| Storage.UnreadIds | fever.php:74-92 | An id is in the unread list iff some entry with that id is unread. |
| Storage.StarredIds | fever.php:95-113 | An id is in the saved list iff some entry with that id is a favorite. |
| Storage.MarkUnreadListsId | fever.php:595-599 | After setItemAsUnread an existing id appears among the unread ids. |
| Storage.MarkReadDropsId | fever.php:589-593 | After setItemAsRead the id is not among the unread ids. |
| Storage.MarkSavedListsId | fever.php:601-605 | After setItemAsSaved an existing id appears among the saved ids. |
| Storage.MarkUnsavedDropsId | fever.php:607-611 | After setItemAsUnsaved the id is not among the saved ids. |
| Storage.ReadToggleKeepsSaved | fever.php:589-599 | Changing a read flag leaves the saved id list unchanged. |
| Storage.SavedToggleKeepsUnread | fever.php:601-611 | Changing a favorite flag leaves the unread id list unchanged. |
| Storage.EntryTable.MarkRead | fever.php:589-599 | markRead updates the table in place to WithRead and keeps primary-key order. |
| Storage.EntryTable.MarkFavorite | fever.php:601-611 | markFavorite updates the table in place to WithFavorite and keeps primary-key order. |
| EntryQuery.BindNameInjective | fever.php:116-124 | Different keys under one prefix give different parameter names, so no binding overwrites another. |
| EntryQuery.BindAllLookup | fever.php:116-124 | Each value is bound under the name made of the prefix and its key. |
| EntryQuery.BindAllKeeps | fever.php:116-124 | Bindings already in the array under other names are kept. |
| EntryQuery.BindAllKeys | fever.php:116-124 | The array gains no names other than the prefix-and-key names. |
| EntryQuery.BindParamArray | fever.php:116-124 | The loop returns the placeholders joined by commas with the final comma trimmed, and the bindings described above. |
| EntryQuery.Where | fever.php:141-159 | The WHERE clause keeps exactly the table rows matching the id condition and the feed filter. |
| EntryQuery.WhereAscending | fever.php:141-159 | Filtering keeps primary-key order. |
| EntryQuery.Window | fever.php:162 | LIMIT 50 keeps the first min(n, 50) rows. |
| EntryQuery.RunSound | fever.php:133-174 | At most 50 rows come back, each from the table and matching the query. |
| EntryQuery.RunOrdered | fever.php:143-154 | Below max_id: ids strictly descending and below max_id. Above since_id: ids ascending and above since_id. |
| EntryQuery.RunComplete | fever.php:143-162 | A matching row is left out only when 50 rows came back, each nearer the cursor than it. |
| EntryQuery.NullCursorSelectsNothing | fever.php:150-153 | `id > NULL` with a null since_id selects no row. |
| EntryQuery.EntryIdsWin | fever.php:143-145 | With entry ids the query returns the same rows whatever max_id and since_id are, and only rows whose id is listed. |
| EntryQuery.MaxIdWins | fever.php:146-149 | Without entry ids a non-zero max_id decides: since_id has no effect, and the rows lie below max_id, newest first. |
| EntryQuery.SinceIdOtherwise | fever.php:150-154 | Otherwise the rows lie above since_id, oldest first, and there are none when since_id is null. |
| EntryQuery.FindEntries | fever.php:133-174 | The rows are the query's result; every entry id, feed id and the single cursor value are bound under their names, and no name without a placeholder is bound. |
| ItemParams.Explode | fever.php:757 | explode gives the comma-separated pieces keyed 0 .. n-1. |
| ItemParams.CategoryById | fever.php:765 | searchById finds a category whose id is the numeric value of the text, or none when no category has it. |
| ItemParams.FeedsOf | fever.php:767-769 | A category's feeds are exactly the feeds filed under it. |
| ItemParams.MembersExact | fever.php:761-770 | A feed id is collected iff it belongs to one of the listed groups. |
| ItemParams.CollectGroupFeeds | fever.php:761-772 | The loop succeeds iff every group exists and some feed was collected; otherwise it names the fatal error PHP raises. |
| ItemParams.UniqueSound | fever.php:772 | array_unique keeps first occurrences with their original keys, in ascending key order. |
| ItemParams.UniqueValues | fever.php:772 | array_unique keeps every value, each exactly once. |
| ItemParams.GroupFeedIds | fever.php:772 | The feed filter from groups holds each member feed once under distinct keys. |
| ItemParams.MaxIdOf | fever.php:779-783 | max_id is used iff it is numeric and positive. |
| ItemParams.ResolveItemArgs | fever.php:749-794 | getItems computes the feed, entry, max_id and since_id arguments of findEntries as ItemArgsOf states. |
| ItemParams.MaxIdPrecedence | fever.php:776-794 | When max_id is present, with_ids and since_id change nothing. |
| ItemParams.WithIdsUse | fever.php:786-789 | Entry ids are passed iff with_ids is present and max_id absent. |
| ItemParams.MaxIdValid | fever.php:779-783 | A max_id that is passed is the request's positive numeric max_id. |
| ItemParams.SinceIdDefault | fever.php:790-794 | Without max_id or with_ids, since_id is the request's numeric since_id, else 0. |
| ItemParams.GroupsReplaceFeeds | fever.php:754-773 | When group_ids is present, feed_ids is ignored. |
| ItemParams.GroupFeedsExact | fever.php:761-772 | The feed filter from groups holds exactly the feeds of the listed groups. |
| ItemParams.InvalidMaxIdSelectsNothing | fever.php:776-785 | A present but unusable max_id leaves a null since_id, and the query returns nothing. |
| Mark.NormalizeBefore | fever.php:305-308 | A `before` above 10^10 becomes before/1000 rounded to nearest; any other value is kept. |
| Mark.DispatchMatchesTable | fever.php:309-313 | The built setter name exists on the handler iff (mark, as) is one of the six table pairs, and it names that pair's setter. |
| Mark.FollowUp | fever.php:314-324 | read/unread add the unread id list, saved/unsaved the saved id list, any other word neither. |
| Mark.ApplyActionFrame | fever.php:589-611 | A setter changes only the flag of the rows with that id; setFeedAsRead and setGroupAsRead change nothing. |
| Mark.ApplyActionIdempotent | fever.php:589-611 | Applying a command twice equals applying it once. |
| Mark.ApplyActionKeepsOrder | fever.php:589-611 | A command keeps the table in primary-key order. |
| Mark.NoCommand | fever.php:303-311 | A non-numeric id or an unknown (mark, as) pair carries no command. |
| XmlOutput.EscapeChanges | fever.php:394 | htmlspecialchars changes a value iff it holds one of & " < >. |
| XmlOutput.ScalarText | fever.php:394 | A scalar is wrapped in CDATA iff it holds a special character, otherwise written as it is. |
| XmlOutput.Xml | fever.php:364-405 | The serialised text holds no control character. |
| XmlOutput.ArrayToXml | fever.php:364-405 | The recursive loop produces exactly the text Xml defines. |
| XmlOutput.ElementText | fever.php:377-399 | One pass of the loop writes exactly entry i's element: its name from the key and container, around the CDATA-or-plain scalar or the nested call. |
| XmlOutput.RootShape | fever.php:372-402 | A root call is the prolog, the open tag, the entries and the close tag. |
| XmlOutput.NestedHasNoRoot | fever.php:372-402 | A nested call adds no prolog and no wrapping element. |
| XmlOutput.ListChildrenTakeParentName | fever.php:388-391 | The literal str_replace never strips a trailing "s", so a list's children take the parent element's own name. |
| XmlOutput.MapChildrenNamedByKey | fever.php:379-389 | A non-list array has an empty container, so its integer keys are written as digits. |
| Sanitizer.SetAttributeLookup | fever.php:709 | setAttribute gives the attribute the new value and leaves the others as they were. |
| Sanitizer.RemoveForbiddenLookup | fever.php:718-736 | After the pass, on* attributes and id, style and class are gone and all others remain. |
| Sanitizer.CleanAll | fever.php:692-737 | Each element goes through the three passes separately; the element count is kept. |
| Sanitizer.CleanLookup | fever.php:692-737 | After cleaning: forbidden attributes absent, target _blank on anchors with href, the sandbox value on iframes, all else kept, tag and text unchanged. |
| Sanitizer.CleanKeepsContent | fever.php:692-740 | The passes touch attributes only: every element handed to saveHTML keeps its tag and its text. |
| Sanitizer.CleanRemovesForbidden | fever.php:718-736 | No element of the cleaned document carries a forbidden attribute. |
| Sanitizer.HtmlDocument.TargetLinks | fever.php:692-711 | The link pass updates each element in place to its WithTarget form. |
| Sanitizer.HtmlDocument.SandboxFrames | fever.php:713-716 | The iframe pass updates each element in place to its WithSandbox form. |
| Sanitizer.HtmlDocument.StripForbidden | fever.php:718-737 | The attribute pass updates each element in place to its WithoutForbidden form. |
| Sanitizer.HtmlDocument.Clean | fever.php:692-737 | The three passes in order leave the document equal to CleanAll of the old one. |
| Sanitizer.MySanitize | fever.php:671-742 | my_sanitize returns the Sanitized text; text that trims to "" or "0" gives "". |
| Sanitizer.CleanHtml | fever.php:686-741 | The text is parsed after the charset head, cleaned, and serialised. |
| Sanitizer.BlankSanitizesToEmpty | fever.php:673-674 | Text that trims to a falsy string sanitises to "". |
| Sanitizer.LinkedTextSkipsRewrite | fever.php:676-677 | Text already holding "href=" is not passed to rewrite_urls. |
| Sanitizer.PreparedTrimmed | fever.php:683-684 | The text that reaches the parser is trimmed and not falsy. |
| Sections.Put | fever.php:271-299 | Assigning a key gives it the value; an existing key keeps its place, a new one goes last, and no other key changes. |
| Sections.MergeGet | fever.php:346 | After array_merge a key has the reply's value when the reply sets it, otherwise the head's value. |
| Sections.MergeKeepsPrefix | fever.php:346 | array_merge keeps the head's keys first, in order. |
| Sections.IdListCommas | fever.php:566 | The id list has one comma fewer than it has ids, and is "" for no ids. |
| Sections.IdListRoundTrip | fever.php:559-566 | Splitting the id list at commas gives back every id in order. |
| Sections.EntriesToIdList | fever.php:559-567 | The loop returns the entries' ids in order, joined by commas. |
| Sections.Categories | fever.php:532-536 | The grouping keys are exactly the feeds' categories, each once. |
| Sections.FeedsGroupRows | fever.php:536-541 | One row per category, holding the ids of that category's feeds joined by commas. |
| Sections.GroupByCategory | fever.php:530-532 | The first loop lists each category once, in order of first appearance, with exactly the ids of its feeds in feed order. |
| Sections.GetFeedsGroup | fever.php:523-544 | The two loops return FeedsGroupRows as a PHP list. |
| Sections.FeedUnderOneGroup | fever.php:532-541 | With distinct feed ids, each feed appears in the row of its own category and in no other. |
| Sections.CategoriesInFirstAppearanceOrder | fever.php:533-536 | Categories are listed in the order their first feed appears. |
| Sections.LastRefreshedOnTime | fever.php:412-424 | 0 without feeds, otherwise the smallest lastUpdate of any feed. |
| Sections.ErrorEnvelope | fever.php:342-347 | A non-OK status gives only api_version 3 and the auth status. |
| Sections.OkEnvelopeHeader | fever.php:342-346 | An OK envelope starts with api_version 3 and auth 1. |
| Sections.OkEnvelopeSections | fever.php:344-347 | An OK envelope carries every section of the reply, and the refresh time unless the reply sets its own. |
| FeverApi.ItemRecords | fever.php:801-813 | One item record per entry, in order, with the sanitised content as html. |
| FeverApi.GetGroups | fever.php:455-471 | One id-and-title record per category, in order. |
| FeverApi.GroupsListed | fever.php:463-467 | Record i of the groups section reads back category i's id (as a number) and name; the section is a list as long as the categories. |
| FeverApi.GetFeeds | fever.php:429-450 | One record per feed, in order, with is_spark 0. |
| FeverApi.FeedsListed | fever.php:437-446 | Record i of the feeds section reads back feed i's id (also as favicon_id), name, url, website and last update, with is_spark "0". |
| FeverApi.GetFavicons | fever.php:476-501 | One id-and-data record per favicon found, in order. |
| FeverApi.FaviconsListed | fever.php:493-497 | Record i of the favicons section reads back icon i's feed id and its data URI. |
| FeverApi.GetItems | fever.php:747-816 | getItems either fails with the fatal error of group_ids or lists the records of the query's rows. |
| FeverApi.ItemsOfEntries | fever.php:801-815 | The loop returns ItemList of the entries. |
| FeverApi.ItemsWindow | fever.php:796-815 | Valid arguments give at most 50 items, each the record of a matching table row. |
| FeverApi.FeverHandler.constructor | fever.php:201-210 | The handler answers in XML iff api is "xml" in any letter case. |
| FeverApi.FeverHandler.Process | fever.php:263-330 | process returns ProcessOf and leaves the table as RowsAfter states, keeping primary-key order. |
| FeverApi.FeverHandler.ReadListings | fever.php:271-283 | The groups, feeds and favicons sections are computed as Listings states. |
| FeverApi.FeverHandler.ReadIdLists | fever.php:290-300 | The links and id-list sections are computed as WithIdLists states. |
| FeverApi.FeverHandler.MarkCommand | fever.php:303-327 | The mark command changes the table as MarkedRows states and adds the follow-up section. |
| FeverApi.FeverHandler.Wrap | fever.php:340-354 | wrap returns WrapOf for the handler's format. |
| FeverApi.Respond | fever.php:876-888 | The top level answers the error envelope without a user, else the wrapped result of process. |
| FeverApi.ListingsKeys | fever.php:271-283 | The listing sections present are exactly those whose flags are set, each once. |
| FeverApi.IdListsKeys | fever.php:290-300 | links and the id lists are added exactly when asked for, keeping keys unique. |
| FeverApi.SectionsPresent | fever.php:263-330 | A reply holds exactly the requested sections plus the mark's follow-up list, each once. |
| FeverApi.ProcessFailure | fever.php:263-330 | An authenticated process fails iff items is requested and its arguments fail, which needs group_ids. |
| FeverApi.FollowUpReflectsMark | fever.php:311-324 | The follow-up list is computed from the table after the mark. |
| FeverApi.MarkItemRead | fever.php:303-318 | mark=item&as=read sets the read flag and the returned unread list no longer holds the id. |
| FeverApi.MarkItemSaved | fever.php:303-323 | mark=item&as=saved sets the favorite flag and an existing id appears in the returned saved list. |
| FeverApi.NoMarkNoChange | fever.php:303-327 | Without a usable command the table is unchanged and the reply has only the requested sections. |
| FeverApi.RepeatRequest | fever.php:263-330 | Sending the same request twice leaves the table as sending it once. |
| FeverApi.UnauthenticatedRequest | fever.php:884-885 | Without a user: no change, process refuses, and the answer is the two-field error envelope in the requested format. |
| FeverApi.XmlResponseShape | fever.php:349-350 | An XML answer is the prolog and a response element wrapping the envelope's entries. |
| PhpStrings.SplitJoin | fever.php:757 | explode undoes implode on pieces without the separator. |
| PhpStrings.JoinSplit | fever.php:539 | implode undoes explode. |
| PhpStrings.NumericOfIntToString | fever.php:304 | An integer's decimal text is numeric with that same value. |
| PhpStrings.TrimIdempotent | fever.php:683 | Trimming trimmed text changes nothing. |
| PhpStrings.StripAppend | fever.php:404 | Stripping control characters distributes over concatenation. |
| PhpStrings.StripClean | fever.php:404 | Text without control characters is left as it is. |

## Left out

- The bootstrap (configuration, the maintenance 503 check, the feed refresh hook), the Content-Type headers and the `echo` are left out. The model's top level returns the response value.
- `json_encode` is not modelled. A JSON response is the envelope array itself (`Output.Json`).
- PHP value types: scalars are held as their string forms, so JSON number versus string typing is not modelled. `array_merge` is modelled for the string keys the handler uses only.
- setUser (the glob over user directories, the configuration files, `password_verify`) is replaced by an `authenticated` input.
- getFavicons' file system work (crc32b of salt and URL, `file_exists`, the MIME type, base64) is left out. The favicons found are an input list.
- getTotalItems and getLinks have no member of their own. `total_items` is the table's row count, written inline, and `links` is an empty list.
- rewrite_urls, `loadHTML` and `saveHTML` are the opaque parameters of `DomLib`. The auto-linking regular expression and the re-parsing of text nodes are not modelled. The document is modelled as a flat element list in document order, each element with its own text; nesting, and how text interleaves with child elements, is not captured, and `saveHTML` is a parameter that writes the elements and their text back.
- The `site_url` branch of my_sanitize is not modelled, because the handler never passes a site URL.
- SQL text, PDO and `daoToEntry` are left out. The query is modelled by its meaning over a table held in primary-key order, and the text-versus-integer comparison of bound ids is approximated by integer parsing.
- Mark.NormalizeBefore: PHP's `round` on a float and the loose comparison of a non-numeric `before` are modelled for integers only. The setters ignore `before`.
- is_numeric and intval are modelled for integer numerals (optional sign, digits). Fractions, exponents, surrounding whitespace and 64-bit saturation are left out.
- ItemParams.SinceIdOf reads since_id from the same parameter map. The source tests `$_REQUEST` but reads `$_GET`; a since_id sent only in the POST body is not modelled.
- setFeedAsRead and setGroupAsRead have their body commented out in the source, so they change nothing. Their `before` handling is therefore not modelled.
- Concurrency between requests and database errors are left out.
