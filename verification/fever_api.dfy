/**
 * The FeverAPI handler: one request turns into a response of sections chosen
 * by the flags present, an optional mark command applied to the entry table,
 * and the envelope written as JSON or XML. The request is the map of
 * $_REQUEST; whether the API key named a user (setUser) is an input.
 */
module FeverApi {
  import opened Wrappers
  import opened PhpStrings
  import opened Storage
  import opened EntryQuery
  import opened XmlOutput
  import opened Sanitizer
  import opened Sections
  import ItemParams
  import Mark

  type Request = map<string, string>

  /** What the handler reads besides the entry table: feeds, categories, favicons and libxml. */
  datatype Store = Store(
    feeds: seq<Feed>,
    categories: seq<Category>,
    favicons: seq<(int, string)>,
    lib: DomLib)

  /** XML is chosen by an `api` parameter equal to "xml" in any letter case. */
  predicate XmlRequested(p: Request)
  {
    "api" in p && Lower(p["api"]) == "xml"
  }

  // ---------------------------------------------------------------------------
  // The sections

  function GroupRecord(c: Category): Tree
  {
    Record([("id", IntToString(c.id)), ("title", c.name)])
  }

  function FeedRecord(f: Feed): Tree
  {
    Record([("id", IntToString(f.id)), ("favicon_id", IntToString(f.id)), ("title", f.name),
            ("url", f.url), ("site_url", f.website), ("is_spark", "0"),
            ("last_updated_on_time", IntToString(f.lastUpdate))])
  }

  function FaviconRecord(icon: (int, string)): Tree
  {
    Record([("id", IntToString(icon.0)), ("data", icon.1)])
  }

  /** One item of getItems, with its content already sanitised. */
  function ItemRecord(e: Entry, html: string): Tree
  {
    Record([("id", IntToString(e.id)), ("feed_id", IntToString(e.feedId)), ("title", e.title),
            ("author", e.author), ("html", html), ("url", e.link),
            ("is_saved", if e.isFavorite then "1" else "0"), ("is_read", if e.isRead then "1" else "0"),
            ("created_on_time", IntToString(e.date))])
  }

  function GroupsList(cats: seq<Category>): Tree
  {
    ListOf(seq(|cats|, i requires 0 <= i < |cats| => GroupRecord(cats[i])))
  }

  function FeedsList(feeds: seq<Feed>): Tree
  {
    ListOf(seq(|feeds|, i requires 0 <= i < |feeds| => FeedRecord(feeds[i])))
  }

  function FaviconsList(icons: seq<(int, string)>): Tree
  {
    ListOf(seq(|icons|, i requires 0 <= i < |icons| => FaviconRecord(icons[i])))
  }

  /** The record getItems lists for one entry, its content sanitised. */
  function Item(e: Entry, lib: DomLib): Tree
  {
    ItemRecord(e, Sanitized(e.content, lib))
  }

  /** `f` applied to each element, in order. */
  function Map<A, B>(xs: seq<A>, f: A -> B): (r: seq<B>)
    ensures |r| == |xs|
    ensures forall i :: 0 <= i < |xs| ==> r[i] == f(xs[i])
  {
    if |xs| == 0 then []
    else
      var n := |xs| - 1;
      assert forall i :: 0 <= i < n ==> xs[..n][i] == xs[i];
      Map(xs[..n], f) + [f(xs[n])]
  }

  /** The item records of the rows, in order. */
  function ItemRecords(rows: seq<Entry>, lib: DomLib): (r: seq<Tree>)
    ensures |r| == |rows|
    ensures forall i :: 0 <= i < |rows| ==> r[i] == Item(rows[i], lib)
  {
    Map(rows, e => Item(e, lib))
  }

  function ItemList(rows: seq<Entry>, lib: DomLib): Tree
  {
    ListOf(ItemRecords(rows, lib))
  }

  /** The groups section lists the categories in order: record i reads back category i's id and name. */
  lemma GroupsListed(cats: seq<Category>, i: int)
    requires 0 <= i < |cats|
    ensures GroupsList(cats).Arr? && IsList(GroupsList(cats).entries) && |GroupsList(cats).entries| == |cats|
    ensures var rec := GroupsList(cats).entries[i].1;
      Field(rec, "id") == Some(IntToString(cats[i].id)) && Numeric(Field(rec, "id").value) == Some(cats[i].id)
      && Field(rec, "title") == Some(cats[i].name)
  {
    var fields := [("id", IntToString(cats[i].id)), ("title", cats[i].name)];
    assert GroupsList(cats).entries[i].1 == Record(fields);
    RecordField(fields, 0);
    RecordField(fields, 1);
    NumericOfIntToString(cats[i].id);
  }

  /**
   * The feeds section lists the feeds in order: record i reads back feed i's id
   * (also as its favicon id), name, url, website and last update, with is_spark 0.
   */
  lemma FeedsListed(feeds: seq<Feed>, i: int)
    requires 0 <= i < |feeds|
    ensures FeedsList(feeds).Arr? && IsList(FeedsList(feeds).entries) && |FeedsList(feeds).entries| == |feeds|
    ensures var rec := FeedsList(feeds).entries[i].1;
      Field(rec, "id") == Some(IntToString(feeds[i].id)) && Numeric(Field(rec, "id").value) == Some(feeds[i].id)
      && Field(rec, "favicon_id") == Field(rec, "id")
      && Field(rec, "title") == Some(feeds[i].name)
      && Field(rec, "url") == Some(feeds[i].url)
      && Field(rec, "site_url") == Some(feeds[i].website)
      && Field(rec, "is_spark") == Some("0")
      && Field(rec, "last_updated_on_time") == Some(IntToString(feeds[i].lastUpdate))
  {
    var f := feeds[i];
    var fields := [("id", IntToString(f.id)), ("favicon_id", IntToString(f.id)), ("title", f.name),
                   ("url", f.url), ("site_url", f.website), ("is_spark", "0"),
                   ("last_updated_on_time", IntToString(f.lastUpdate))];
    assert FeedsList(feeds).entries[i].1 == Record(fields);
    RecordField(fields, 0);
    RecordField(fields, 1);
    RecordField(fields, 2);
    RecordField(fields, 3);
    RecordField(fields, 4);
    RecordField(fields, 5);
    RecordField(fields, 6);
    NumericOfIntToString(f.id);
  }

  /** The favicons section lists the icons in order: record i reads back icon i's feed id and data URI. */
  lemma FaviconsListed(icons: seq<(int, string)>, i: int)
    requires 0 <= i < |icons|
    ensures FaviconsList(icons).Arr? && IsList(FaviconsList(icons).entries) && |FaviconsList(icons).entries| == |icons|
    ensures var rec := FaviconsList(icons).entries[i].1;
      Field(rec, "id") == Some(IntToString(icons[i].0)) && Numeric(Field(rec, "id").value) == Some(icons[i].0)
      && Field(rec, "data") == Some(icons[i].1)
  {
    var fields := [("id", IntToString(icons[i].0)), ("data", icons[i].1)];
    assert FaviconsList(icons).entries[i].1 == Record(fields);
    RecordField(fields, 0);
    RecordField(fields, 1);
    NumericOfIntToString(icons[i].0);
  }

  /** getGroups() */
  method GetGroups(cats: seq<Category>) returns (groups: Tree)
    ensures groups == GroupsList(cats)
  {
    var list: seq<Tree> := [];
    var i := 0;
    while i < |cats|
      invariant 0 <= i <= |cats|
      invariant list == seq(i, k requires 0 <= k < i => GroupRecord(cats[k]))
    {
      list := list + [Record([("id", IntToString(cats[i].id)), ("title", cats[i].name)])];
      i := i + 1;
    }
    groups := ListOf(list);
  }

  /** getFeeds() */
  method GetFeeds(feeds: seq<Feed>) returns (list: Tree)
    ensures list == FeedsList(feeds)
  {
    var rows: seq<Tree> := [];
    var i := 0;
    while i < |feeds|
      invariant 0 <= i <= |feeds|
      invariant rows == seq(i, k requires 0 <= k < i => FeedRecord(feeds[k]))
    {
      rows := rows + [FeedRecord(feeds[i])];
      i := i + 1;
    }
    list := ListOf(rows);
  }

  /** getFavicons(), given the icons whose files exist with their data URIs. */
  method GetFavicons(icons: seq<(int, string)>) returns (list: Tree)
    ensures list == FaviconsList(icons)
  {
    var rows: seq<Tree> := [];
    var i := 0;
    while i < |icons|
      invariant 0 <= i <= |icons|
      invariant rows == seq(i, k requires 0 <= k < i => FaviconRecord(icons[k]))
    {
      rows := rows + [FaviconRecord(icons[i])];
      i := i + 1;
    }
    list := ListOf(rows);
  }

  // ---------------------------------------------------------------------------
  // getItems

  /** The items section, or the fatal error the group lookup runs into. */
  function ItemsOf(p: Request, store: Store, rows: seq<Entry>): Result<Tree, ItemParams.Fatal>
  {
    match ItemParams.ItemArgsOf(p, store.categories, store.feeds)
    case Failure(e) => Failure(e)
    case Success(a) => Success(ItemList(Run(rows, ModeOf(a.entryIds, a.maxId, a.sinceId), a.feedIds), store.lib))
  }

  /** The lists getItems passes to findEntries have distinct keys. */
  lemma ArgsDistinct(p: Request, store: Store)
    requires ItemParams.ItemArgsOf(p, store.categories, store.feeds).Success?
    ensures DistinctKeys(ItemParams.ItemArgsOf(p, store.categories, store.feeds).value.feedIds)
    ensures DistinctKeys(ItemParams.ItemArgsOf(p, store.categories, store.feeds).value.entryIds)
  {
  }

  /** getItems(): resolve the parameters, run findEntries, sanitise each entry's content. */
  method GetItems(p: Request, store: Store, table: seq<Entry>) returns (r: Result<Tree, ItemParams.Fatal>)
    ensures r == ItemsOf(p, store, table)
  {
    var args := ItemParams.ResolveItemArgs(p, store.categories, store.feeds);
    if args.Failure? {
      return Failure(args.error);
    }
    ArgsDistinct(p, store);
    var a := args.value;
    var entries, bound := FindEntries(table, a.feedIds, a.entryIds, a.maxId, a.sinceId);
    var items := ItemsOfEntries(entries, store.lib);
    return Success(items);
  }

  /** The loop of getItems over the entries findEntries returned. */
  method ItemsOfEntries(entries: seq<Entry>, lib: DomLib) returns (list: Tree)
    ensures list == ItemList(entries, lib)
  {
    var items: seq<Tree> := [];
    var i := 0;
    while i < |entries|
      invariant 0 <= i <= |entries|
      invariant items == ItemRecords(entries[..i], lib)
    {
      var html := MySanitize(entries[i].content, lib);
      assert entries[..i + 1][..i] == entries[..i];
      items := items + [ItemRecord(entries[i], html)];
      i := i + 1;
    }
    assert entries[..i] == entries;
    list := ListOf(items);
  }

  /** At most 50 items, each an entry of the table that meets the request's conditions. */
  lemma ItemsWindow(p: Request, store: Store, rows: seq<Entry>)
    requires ItemParams.ItemArgsOf(p, store.categories, store.feeds).Success?
    ensures ItemsOf(p, store, rows).Success?
    ensures |ItemsOf(p, store, rows).value.entries| <= Limit
    ensures forall i :: 0 <= i < |ItemsOf(p, store, rows).value.entries| ==>
      var a := ItemParams.ItemArgsOf(p, store.categories, store.feeds).value;
      var run := Run(rows, ModeOf(a.entryIds, a.maxId, a.sinceId), a.feedIds);
      ItemsOf(p, store, rows).value.entries[i].1 == ItemRecord(run[i], Sanitized(run[i].content, store.lib))
      && run[i] in rows && Matches(run[i], ModeOf(a.entryIds, a.maxId, a.sinceId), a.feedIds)
  {
    var a := ItemParams.ItemArgsOf(p, store.categories, store.feeds).value;
    RunSound(rows, ModeOf(a.entryIds, a.maxId, a.sinceId), a.feedIds);
  }

  // ---------------------------------------------------------------------------
  // process

  datatype ProcessError = NotAuthenticated | ItemsFatal(fatal: ItemParams.Fatal)

  function UnreadList(rows: seq<Entry>): Tree
  {
    Scalar(IdList(Ids(Unread(rows))))
  }

  function SavedList(rows: seq<Entry>): Tree
  {
    Scalar(IdList(Ids(Starred(rows))))
  }

  /** groups, feeds (each with feeds_groups) and favicons, as requested. */
  function Listings(p: Request, store: Store): Response
  {
    var r1 := if "groups" in p then
      Put(Put([], "groups", GroupsList(store.categories)), "feeds_groups", ListOf(FeedsGroupRows(store.feeds)))
      else [];
    var r2 := if "feeds" in p then
      Put(Put(r1, "feeds", FeedsList(store.feeds)), "feeds_groups", ListOf(FeedsGroupRows(store.feeds)))
      else r1;
    if "favicons" in p then Put(r2, "favicons", FaviconsList(store.favicons)) else r2
  }

  /** total_items and items when requested; getItems' fatal error ends the request. */
  function WithItems(p: Request, store: Store, rows: seq<Entry>, resp: Response): Result<Response, ItemParams.Fatal>
  {
    if "items" !in p then Success(resp)
    else match ItemsOf(p, store, rows)
      case Failure(e) => Failure(e)
      case Success(items) => Success(Put(Put(resp, "total_items", Scalar(IntToString(|rows|))), "items", items))
  }

  /** links, unread_item_ids and saved_item_ids, as requested. */
  function WithIdLists(p: Request, rows: seq<Entry>, resp: Response): Response
  {
    var r5 := if "links" in p then Put(resp, "links", ListOf([])) else resp;
    var r6 := if "unread_item_ids" in p then Put(r5, "unread_item_ids", UnreadList(rows)) else r5;
    if "saved_item_ids" in p then Put(r6, "saved_item_ids", SavedList(rows)) else r6
  }

  /** The sections requested by flag, before any mark command runs. */
  function ReadSections(p: Request, store: Store, rows: seq<Entry>): Result<Response, ItemParams.Fatal>
  {
    match WithItems(p, store, rows, Listings(p, store))
    case Failure(e) => Failure(e)
    case Success(resp) => Success(WithIdLists(p, rows, resp))
  }

  /** The table after the request's mark command, if it carries one. */
  function MarkedRows(p: Request, rows: seq<Entry>): seq<Entry>
  {
    match Mark.Command(p)
    case Some((action, id)) => Mark.ApplyAction(rows, action, id)
    case None => rows
  }

  /** The list that follows a mark, taken from the marked table. */
  function FollowUpSection(p: Request, marked: seq<Entry>, resp: Response): Response
  {
    if Mark.Command(p).None? then resp
    else if Mark.FollowUp(p["as"]) == Some(Mark.UnreadItemIds) then Put(resp, "unread_item_ids", UnreadList(marked))
    else if Mark.FollowUp(p["as"]) == Some(Mark.SavedItemIds) then Put(resp, "saved_item_ids", SavedList(marked))
    else resp
  }

  /** The reply process() returns. */
  function ProcessOf(p: Request, authenticated: bool, store: Store, rows: seq<Entry>): Result<Response, ProcessError>
  {
    if !authenticated then Failure(NotAuthenticated)
    else match ReadSections(p, store, rows)
      case Failure(e) => Failure(ItemsFatal(e))
      case Success(resp) => Success(FollowUpSection(p, MarkedRows(p, rows), resp))
  }

  /** The table after process(): marked when process gets as far as the mark command. */
  function RowsAfter(p: Request, authenticated: bool, store: Store, rows: seq<Entry>): seq<Entry>
  {
    if authenticated && ReadSections(p, store, rows).Success? then MarkedRows(p, rows) else rows
  }

  /** The output of wrap: XML text, or the array json_encode is given. */
  datatype Output = XmlText(text: string) | Json(value: Tree)

  function WrapOf(xml: bool, status: int, reply: Response, feeds: seq<Feed>): Output
  {
    var env := AsTree(Envelope(status, reply, feeds));
    if xml then XmlText(Xml(env, Root, true)) else Json(env)
  }

  /** The root element of an XML response. */
  const Root := "response"

  /** The FeverAPI object; the constructor reads the output format from the request. */
  class FeverHandler {
    var xml: bool

    constructor (p: Request)
      ensures xml == XmlRequested(p)
    {
      xml := false;
      if "api" in p && Lower(p["api"]) == "xml" {
        xml := true;
      }
    }

    /** process(): the sections in the order of the flags, then the mark command. */
    method Process(p: Request, authenticated: bool, store: Store, table: EntryTable)
      returns (r: Result<Response, ProcessError>)
      requires table.Valid()
      modifies table
      ensures table.Valid()
      ensures r == ProcessOf(p, authenticated, store, old(table.rows))
      ensures table.rows == RowsAfter(p, authenticated, store, old(table.rows))
    {
      if !authenticated {
        return Failure(NotAuthenticated);
      }
      var resp := ReadListings(p, store);
      if "items" in p {
        resp := Put(resp, "total_items", Scalar(IntToString(|table.rows|)));
        var items := GetItems(p, store, table.rows);
        if items.Failure? {
          return Failure(ItemsFatal(items.error));
        }
        resp := Put(resp, "items", items.value);
      }
      resp := ReadIdLists(p, table.rows, resp);
      assert ReadSections(p, store, old(table.rows)) == Success(resp);
      resp := MarkCommand(p, table, resp);
      return Success(resp);
    }

    /** The groups, feeds and favicons part of process(). */
    method ReadListings(p: Request, store: Store) returns (resp: Response)
      ensures resp == Listings(p, store)
    {
      resp := [];
      if "groups" in p {
        var groups := GetGroups(store.categories);
        resp := Put(resp, "groups", groups);
        var feedsGroups := GetFeedsGroup(store.feeds);
        resp := Put(resp, "feeds_groups", feedsGroups);
      }
      if "feeds" in p {
        var feeds := GetFeeds(store.feeds);
        resp := Put(resp, "feeds", feeds);
        var feedsGroups := GetFeedsGroup(store.feeds);
        resp := Put(resp, "feeds_groups", feedsGroups);
      }
      if "favicons" in p {
        var icons := GetFavicons(store.favicons);
        resp := Put(resp, "favicons", icons);
      }
    }

    /** The links, unread_item_ids and saved_item_ids part of process(). */
    method ReadIdLists(p: Request, rows: seq<Entry>, before: Response) returns (resp: Response)
      ensures resp == WithIdLists(p, rows, before)
    {
      resp := before;
      if "links" in p {
        resp := Put(resp, "links", ListOf([]));
      }
      if "unread_item_ids" in p {
        var ids := EntriesToIdList(Unread(rows));
        resp := Put(resp, "unread_item_ids", Scalar(ids));
      }
      if "saved_item_ids" in p {
        var ids := EntriesToIdList(Starred(rows));
        resp := Put(resp, "saved_item_ids", Scalar(ids));
      }
    }

    /** The mark part of process(): build the setter's name, call it if declared, add the follow-up list. */
    method MarkCommand(p: Request, table: EntryTable, resp: Response) returns (out: Response)
      requires table.Valid()
      modifies table
      ensures table.Valid()
      ensures table.rows == MarkedRows(p, old(table.rows))
      ensures out == FollowUpSection(p, table.rows, resp)
    {
      out := resp;
      if "mark" in p && "as" in p && "id" in p {
        if Numeric(p["id"]).Some? {
          var before := Mark.NormalizeBefore(if "before" in p then Numeric(p["before"]) else None);
          var methodName := Mark.MethodName(p["mark"], p["as"]);
          Mark.DispatchMatchesTable(p["mark"], p["as"]);
          if Mark.MethodExists(methodName) {
            var id := Numeric(p["id"]).value;
            var action := Mark.SetterAction(Lower(methodName)).value;
            if action == Mark.ItemRead {
              table.MarkRead(id, true);
            } else if action == Mark.ItemUnread {
              table.MarkRead(id, false);
            } else if action == Mark.ItemSaved {
              table.MarkFavorite(id, true);
            } else if action == Mark.ItemUnsaved {
              table.MarkFavorite(id, false);
            }
            if p["as"] == "read" || p["as"] == "unread" {
              var ids := EntriesToIdList(Unread(table.rows));
              out := Put(out, "unread_item_ids", Scalar(ids));
            } else if p["as"] == "saved" || p["as"] == "unsaved" {
              var ids := EntriesToIdList(Starred(table.rows));
              out := Put(out, "saved_item_ids", Scalar(ids));
            }
          }
        }
      }
    }

    /** wrap: the envelope around the reply, in the handler's format. */
    method Wrap(status: int, reply: Response, feeds: seq<Feed>) returns (out: Output)
      ensures out == WrapOf(xml, status, reply, feeds)
    {
      var arr := Envelope(status, reply, feeds);
      if xml {
        var text := ArrayToXml(AsTree(arr), Root, true);
        return XmlText(text);
      }
      return Json(AsTree(arr));
    }
  }

  /**
   * The request as a whole: an error envelope for an unknown API key, else
   * the OK envelope around process(); a fatal error in process gives no output.
   */
  method Respond(p: Request, authenticated: bool, store: Store, table: EntryTable)
    returns (r: Result<Output, ProcessError>)
    requires table.Valid()
    modifies table
    ensures table.Valid()
    ensures table.rows == RowsAfter(p, authenticated, store, old(table.rows))
    ensures r == ResponseOf(p, authenticated, store, old(table.rows))
  {
    var handler := new FeverHandler(p);
    if !authenticated {
      var out := handler.Wrap(StatusErr, [], store.feeds);
      return Success(out);
    }
    var reply := handler.Process(p, authenticated, store, table);
    if reply.Failure? {
      return Failure(reply.error);
    }
    var out := handler.Wrap(StatusOk, reply.value, store.feeds);
    return Success(out);
  }

  function ResponseOf(p: Request, authenticated: bool, store: Store, rows: seq<Entry>): Result<Output, ProcessError>
  {
    if !authenticated then Success(WrapOf(XmlRequested(p), StatusErr, [], store.feeds))
    else match ProcessOf(p, authenticated, store, rows)
      case Failure(e) => Failure(e)
      case Success(reply) => Success(WrapOf(XmlRequested(p), StatusOk, reply, store.feeds))
  }

  // ---------------------------------------------------------------------------
  // Properties of a request

  /** The sections a flag asks for: each flag its own, feeds_groups for groups or feeds, total_items with items. */
  predicate Requested(p: Request, x: string)
  {
    ((x == "groups" || x == "feeds" || x == "favicons" || x == "items" || x == "links"
      || x == "unread_item_ids" || x == "saved_item_ids") && x in p)
    || (x == "feeds_groups" && ("groups" in p || "feeds" in p))
    || (x == "total_items" && "items" in p)
  }

  /** The section a mark command adds: chosen by `as`, matched exactly. */
  function FollowUpKey(p: Request): Option<string>
  {
    if Mark.Command(p).None? then None
    else if p["as"] == "read" || p["as"] == "unread" then Some("unread_item_ids")
    else if p["as"] == "saved" || p["as"] == "unsaved" then Some("saved_item_ids")
    else None
  }

  lemma ListingsKeys(p: Request, store: Store, x: string)
    ensures UniqueKeys(Listings(p, store))
    ensures Get(Listings(p, store), x).Some? <==>
      ((x == "groups" || x == "feeds" || x == "favicons") && x in p)
      || (x == "feeds_groups" && ("groups" in p || "feeds" in p))
  {
  }

  lemma IdListsKeys(p: Request, rows: seq<Entry>, resp: Response, x: string)
    requires UniqueKeys(resp)
    ensures UniqueKeys(WithIdLists(p, rows, resp))
    ensures Get(WithIdLists(p, rows, resp), x).Some? <==>
      Get(resp, x).Some? || ((x == "links" || x == "unread_item_ids" || x == "saved_item_ids") && x in p)
  {
  }

  lemma ItemsKeys(p: Request, store: Store, rows: seq<Entry>, resp: Response, x: string)
    requires UniqueKeys(resp) && WithItems(p, store, rows, resp).Success?
    ensures UniqueKeys(WithItems(p, store, rows, resp).value)
    ensures Get(WithItems(p, store, rows, resp).value, x).Some? <==>
      Get(resp, x).Some? || ((x == "total_items" || x == "items") && "items" in p)
  {
  }

  lemma FollowUpKeys(p: Request, marked: seq<Entry>, resp: Response, x: string)
    requires UniqueKeys(resp)
    ensures UniqueKeys(FollowUpSection(p, marked, resp))
    ensures Get(FollowUpSection(p, marked, resp), x).Some? <==> Get(resp, x).Some? || FollowUpKey(p) == Some(x)
  {
    if Mark.Command(p).Some? {
      var w := p["as"];
      assert Mark.FollowUp(w) == Some(Mark.UnreadItemIds) <==> w == "read" || w == "unread";
      assert Mark.FollowUp(w) == Some(Mark.SavedItemIds) <==> w == "saved" || w == "unsaved";
    }
  }

  /**
   * A reply holds exactly the sections its flags ask for plus the list that
   * follows a mark command, each once: feeds_groups, asked for by both groups
   * and feeds, is overwritten rather than repeated.
   */
  lemma SectionsPresent(p: Request, store: Store, rows: seq<Entry>, x: string)
    requires ProcessOf(p, true, store, rows).Success?
    ensures UniqueKeys(ProcessOf(p, true, store, rows).value)
    ensures Get(ProcessOf(p, true, store, rows).value, x).Some? <==> Requested(p, x) || FollowUpKey(p) == Some(x)
  {
    var listed := Listings(p, store);
    ListingsKeys(p, store, x);
    assert WithItems(p, store, rows, listed).Success?;
    var withItems := WithItems(p, store, rows, listed).value;
    ItemsKeys(p, store, rows, listed, x);
    var resp := WithIdLists(p, rows, withItems);
    IdListsKeys(p, rows, withItems, x);
    assert ReadSections(p, store, rows) == Success(resp);
    var out := FollowUpSection(p, MarkedRows(p, rows), resp);
    FollowUpKeys(p, MarkedRows(p, rows), resp, x);
    assert ProcessOf(p, true, store, rows).value == out;
  }

  /** Only getItems can make process fail, and only through group_ids. */
  lemma ProcessFailure(p: Request, store: Store, rows: seq<Entry>)
    ensures ProcessOf(p, true, store, rows).Failure? <==>
      "items" in p && ItemParams.ItemArgsOf(p, store.categories, store.feeds).Failure?
    ensures ProcessOf(p, true, store, rows).Failure? ==> "group_ids" in p
  {
  }

  /**
   * After a mark command the list that follows it reflects the marked table:
   * an id marked read is not among the unread ids, one marked saved is among
   * the saved ids (when it exists).
   */
  lemma FollowUpReflectsMark(p: Request, store: Store, rows: seq<Entry>)
    requires ProcessOf(p, true, store, rows).Success?
    requires Mark.Command(p).Some?
    ensures FollowUpKey(p) == Some("unread_item_ids") ==>
      Get(ProcessOf(p, true, store, rows).value, "unread_item_ids") == Some(UnreadList(RowsAfter(p, true, store, rows)))
    ensures FollowUpKey(p) == Some("saved_item_ids") ==>
      Get(ProcessOf(p, true, store, rows).value, "saved_item_ids") == Some(SavedList(RowsAfter(p, true, store, rows)))
  {
  }

  /** mark=item, as=read: the entry's read flag is set and its id leaves the unread list of the reply. */
  lemma MarkItemRead(p: Request, store: Store, rows: seq<Entry>, id: int)
    requires ProcessOf(p, true, store, rows).Success?
    requires "mark" in p && "as" in p && "id" in p
    requires p["mark"] == "item" && p["as"] == "read" && Numeric(p["id"]) == Some(id)
    ensures RowsAfter(p, true, store, rows) == WithRead(rows, id, true)
    ensures Get(ProcessOf(p, true, store, rows).value, "unread_item_ids") == Some(UnreadList(WithRead(rows, id, true)))
    ensures id !in Ids(Unread(RowsAfter(p, true, store, rows)))
  {
    LowerFixed("item");
    LowerFixed("read");
    assert Mark.ActionOf(p["mark"], p["as"]) == Some(Mark.ItemRead);
    assert Mark.Command(p) == Some((Mark.ItemRead, id));
    assert FollowUpKey(p) == Some("unread_item_ids");
    FollowUpReflectsMark(p, store, rows);
    MarkReadDropsId(rows, id);
  }

  /** mark=item, as=saved: the entry's favorite flag is set and an existing id joins the saved list of the reply. */
  lemma MarkItemSaved(p: Request, store: Store, rows: seq<Entry>, id: int)
    requires ProcessOf(p, true, store, rows).Success?
    requires "mark" in p && "as" in p && "id" in p
    requires p["mark"] == "item" && p["as"] == "saved" && Numeric(p["id"]) == Some(id)
    ensures RowsAfter(p, true, store, rows) == WithFavorite(rows, id, true)
    ensures Get(ProcessOf(p, true, store, rows).value, "saved_item_ids") == Some(SavedList(WithFavorite(rows, id, true)))
    ensures HasId(rows, id) ==> id in Ids(Starred(RowsAfter(p, true, store, rows)))
  {
    LowerFixed("item");
    LowerFixed("saved");
    assert Mark.ActionOf(p["mark"], p["as"]) == Some(Mark.ItemSaved);
    assert Mark.Command(p) == Some((Mark.ItemSaved, id));
    assert FollowUpKey(p) == Some("saved_item_ids");
    FollowUpReflectsMark(p, store, rows);
    if HasId(rows, id) {
      MarkSavedListsId(rows, id);
    }
  }

  /**
   * A request with no usable mark command (missing parameter, non-numeric id,
   * unknown pair) leaves the table alone and adds no follow-up list.
   */
  lemma NoMarkNoChange(p: Request, authenticated: bool, store: Store, rows: seq<Entry>)
    requires Mark.Command(p).None?
    ensures RowsAfter(p, authenticated, store, rows) == rows
    ensures ProcessOf(p, authenticated, store, rows).Success? ==>
      ProcessOf(p, authenticated, store, rows).value == ReadSections(p, store, rows).value
  {
  }

  /** Whether process fails does not depend on the entry table. */
  lemma ReadSectionsOutcome(p: Request, store: Store, a: seq<Entry>, b: seq<Entry>)
    ensures ReadSections(p, store, a).Success? == ReadSections(p, store, b).Success?
  {
  }

  /** Sending the same request twice leaves the table as sending it once. */
  lemma RepeatRequest(p: Request, authenticated: bool, store: Store, rows: seq<Entry>)
    ensures RowsAfter(p, authenticated, store, RowsAfter(p, authenticated, store, rows))
      == RowsAfter(p, authenticated, store, rows)
  {
    var once := RowsAfter(p, authenticated, store, rows);
    ReadSectionsOutcome(p, store, rows, once);
    if authenticated && ReadSections(p, store, rows).Success? {
      match Mark.Command(p)
      case Some((action, id)) => Mark.ApplyActionIdempotent(rows, action, id);
      case None =>
    }
  }

  /** Without a user: the error envelope, in the requested format, and no change to the table. */
  lemma UnauthenticatedRequest(p: Request, store: Store, rows: seq<Entry>)
    ensures RowsAfter(p, false, store, rows) == rows
    ensures ProcessOf(p, false, store, rows) == Failure(NotAuthenticated)
    ensures ResponseOf(p, false, store, rows) == Success(
      var env := AsTree([("api_version", Scalar("3")), ("auth", Scalar("0"))]);
      if XmlRequested(p) then XmlText(Xml(env, Root, true)) else Json(env))
  {
    ErrorEnvelope(StatusErr, [], store.feeds);
  }

  /** An XML response is the prolog, the response element and the envelope's entries inside it. */
  lemma XmlResponseShape(status: int, reply: Response, feeds: seq<Feed>)
    ensures WrapOf(true, status, reply, feeds).text ==
      (Prolog + "<" + Root + ">")
      + StripControl(Body(AsTree(Envelope(status, reply, feeds)), |AsTree(Envelope(status, reply, feeds)).entries|, Root))
      + ("</" + Root + ">")
  {
    RootClean();
    RootShape(AsTree(Envelope(status, reply, feeds)), Root);
  }

  lemma RootClean()
    ensures NoControl(Root)
  {
  }
}
