/**
 * The mark command of the Fever API: `mark`, `as`, `id` and `before`. The
 * handler builds a method name "set" + ucfirst(mark) + "As" + ucfirst(as) and
 * calls it when FeverAPI declares a method of that name; PHP looks method
 * names up without regard to case. Here that lookup is shown to agree with a
 * closed table of six actions.
 */
module Mark {
  import opened Wrappers
  import opened PhpStrings
  import opened Storage

  /**
   * `before` above 10^10 is taken to be in milliseconds and becomes
   * round(before / 1000); any other value is left as it is.
   */
  function NormalizeBefore(before: Option<int>): (r: Option<int>)
    ensures before.None? ==> r.None?
    ensures before.Some? && before.value <= 10_000_000_000 ==> r == before
    ensures before.Some? && before.value > 10_000_000_000 ==>
      r.Some? && 1000 * r.value - 500 <= before.value < 1000 * r.value + 500
  {
    match before
    case None => None
    case Some(b) => if b > 10_000_000_000 then Some((b + 500) / 1000) else Some(b)
  }

  datatype MarkAction = ItemRead | ItemUnread | ItemSaved | ItemUnsaved | FeedRead | GroupRead

  /**
   * The methods FeverAPI declares, in the lower-case form PHP's method table
   * keys them by: first those whose names start with "set", then the rest.
   */
  const SetMethods: seq<string> := [
    "setuser", "setfeed", "setitemasread", "setitemasunread", "setitemassaved", "setitemasunsaved",
    "setfeedasread", "setgroupasread"]

  const OtherMethods: seq<string> := [
    "__construct", "isxmlrequested", "isauthenticatedapiuser", "process", "wrap",
    "array_to_xml", "lastrefreshedontime", "getfeeds", "getgroups", "getfavicons", "gettotalitems",
    "getfeedsgroup", "getlinks", "entriestoidlist", "getunreaditemids", "getsaveditemids",
    "rewrite_urls", "my_sanitize", "getitems"]

  const FeverApiMethods: seq<string> := SetMethods + OtherMethods

  /** The method name the handler builds. */
  function MethodName(mark: string, asWord: string): string
  {
    "set" + Ucfirst(mark) + "As" + Ucfirst(asWord)
  }

  /** Whether the handler has a method of that name (PHP method names ignore case). */
  predicate MethodExists(name: string)
  {
    Lower(name) in FeverApiMethods
  }

  /** What each set<X>As<Y> method does, by its lower-case name. */
  function SetterAction(lowerName: string): Option<MarkAction>
  {
    if lowerName == "setitemasread" then Some(ItemRead)
    else if lowerName == "setitemasunread" then Some(ItemUnread)
    else if lowerName == "setitemassaved" then Some(ItemSaved)
    else if lowerName == "setitemasunsaved" then Some(ItemUnsaved)
    else if lowerName == "setfeedasread" then Some(FeedRead)
    else if lowerName == "setgroupasread" then Some(GroupRead)
    else None
  }

  /** The closed table of mark commands, case-insensitive in both words. */
  function ActionOf(mark: string, asWord: string): Option<MarkAction>
  {
    TableAction(Lower(mark), Lower(asWord))
  }

  /** The table on lower-case words. */
  function TableAction(m: string, a: string): Option<MarkAction>
  {
    if m == "item" && a == "read" then Some(ItemRead)
    else if m == "item" && a == "unread" then Some(ItemUnread)
    else if m == "item" && a == "saved" then Some(ItemSaved)
    else if m == "item" && a == "unsaved" then Some(ItemUnsaved)
    else if m == "feed" && a == "read" then Some(FeedRead)
    else if m == "group" && a == "read" then Some(GroupRead)
    else None
  }

  /** The lower-case form of the built name. */
  lemma LowerMethodName(mark: string, asWord: string)
    ensures Lower(MethodName(mark, asWord)) == "set" + Lower(mark) + "as" + Lower(asWord)
  {
    LowerAppend("set" + Ucfirst(mark) + "As", Ucfirst(asWord));
    LowerAppend("set" + Ucfirst(mark), "As");
    LowerAppend("set", Ucfirst(mark));
    LowerUcfirst(mark);
    LowerUcfirst(asWord);
    assert Lower("set") == "set";
    assert Lower("As") == "as";
  }

  /** The two words around the "as" of a built name. */
  lemma SplitAtAs(m: string, a: string, r: string)
    requires "set" + m + "as" + a == r
    ensures |r| == |m| + |a| + 5
    ensures r[..3] == "set" && r[3 + |m|] == 'a' && r[4 + |m|] == 's'
    ensures r[3..3 + |m|] == m && r[5 + |m|..] == a
  {
    assert r == "set" + m + "as" + a;
  }

  /** The only "as" after the "set" of `w` starts at `k` (none when `k` is out of range). */
  predicate AsOnlyAt(w: string, k: int)
  {
    forall j :: 3 <= j < |w| - 1 ==> (w[j] == 'a' && w[j + 1] == 's' <==> j == k)
  }

  /** With a single "as" after "set", the built name splits in one way only. */
  lemma SplitUnique(m: string, a: string, w: string, k: int)
    requires "set" + m + "as" + a == w && AsOnlyAt(w, k)
    ensures k == |m| + 3 && m == w[3..k] && a == w[k + 2..]
  {
    SplitAtAs(m, a, w);
  }

  lemma OtherMethodsNotSet()
    ensures forall w :: w in OtherMethods ==> |w| > 0 && w[0] != 's'
  {
  }

  /** Every pair in the table builds the name of the setter performing its action. */
  lemma BuiltNameOfTable(m: string, a: string)
    requires TableAction(m, a).Some?
    ensures "set" + m + "as" + a in SetMethods
    ensures SetterAction("set" + m + "as" + a) == TableAction(m, a)
  {
    var w := "set" + m + "as" + a;
    if m == "item" {
      if a == "read" {
        assert w == "setitemasread";
      } else if a == "unread" {
        assert w == "setitemasunread";
      } else if a == "saved" {
        assert w == "setitemassaved";
      } else {
        assert w == "setitemasunsaved";
      }
    } else if m == "feed" {
      assert w == "setfeedasread";
    } else {
      assert w == "setgroupasread";
    }
  }

  /** Where the single "as" of each set-method name starts; -1 for names without one. */
  const SplitPoints: seq<int> := [-1, -1, 7, 7, 7, 7, 7, 8]

  lemma SetMethodSplit(i: int)
    requires 0 <= i < |SetMethods|
    ensures AsOnlyAt(SetMethods[i], SplitPoints[i])
  {
  }

  /** Each set-method name with an "as" splits into a pair of the table naming its action. */
  lemma SetMethodAction(i: int)
    requires 0 <= i < |SetMethods| && 3 <= SplitPoints[i]
    ensures TableAction(SetMethods[i][3..SplitPoints[i]], SetMethods[i][SplitPoints[i] + 2..]) == SetterAction(SetMethods[i])
    ensures SetterAction(SetMethods[i]).Some?
  {
    var w := SetMethods[i];
    if i == 2 {
      assert w[3..7] == "item" && w[9..] == "read";
    } else if i == 3 {
      assert w[3..7] == "item" && w[9..] == "unread";
    } else if i == 4 {
      assert w[3..7] == "item" && w[9..] == "saved";
    } else if i == 5 {
      assert w[3..7] == "item" && w[9..] == "unsaved";
    } else if i == 6 {
      assert w[3..7] == "feed" && w[9..] == "read";
    } else {
      assert w[3..8] == "group" && w[10..] == "read";
    }
  }

  /** Every built name that is declared comes from a pair in the table. */
  lemma TableOfBuiltName(m: string, a: string)
    requires "set" + m + "as" + a in FeverApiMethods
    ensures TableAction(m, a).Some?
    ensures SetterAction("set" + m + "as" + a) == TableAction(m, a)
  {
    var w := "set" + m + "as" + a;
    if w in OtherMethods {
      OtherMethodsNotSet();
      assert false;
    }
    var i :| 0 <= i < |SetMethods| && SetMethods[i] == w;
    SetMethodSplit(i);
    SplitUnique(m, a, w, SplitPoints[i]);
    SetMethodAction(i);
  }

  /**
   * A built name names a declared method exactly when the (mark, as) pair is in
   * the table, and the method called then performs the table's action.
   */
  lemma DispatchMatchesTable(mark: string, asWord: string)
    ensures MethodExists(MethodName(mark, asWord)) <==> ActionOf(mark, asWord).Some?
    ensures MethodExists(MethodName(mark, asWord)) ==> SetterAction(Lower(MethodName(mark, asWord))) == ActionOf(mark, asWord)
  {
    var m := Lower(mark);
    var a := Lower(asWord);
    LowerMethodName(mark, asWord);
    if TableAction(m, a).Some? {
      BuiltNameOfTable(m, a);
    }
    if "set" + m + "as" + a in FeverApiMethods {
      TableOfBuiltName(m, a);
    }
  }

  /** Which list follows a mark: chosen by `as` exactly, so case matters here. */
  datatype Section = UnreadItemIds | SavedItemIds

  function FollowUp(asWord: string): (r: Option<Section>)
    ensures r == Some(UnreadItemIds) <==> asWord == "read" || asWord == "unread"
    ensures r == Some(SavedItemIds) <==> asWord == "saved" || asWord == "unsaved"
  {
    if asWord == "read" || asWord == "unread" then Some(UnreadItemIds)
    else if asWord == "saved" || asWord == "unsaved" then Some(SavedItemIds)
    else None
  }

  /**
   * What an action does to the entry table: the item setters change one flag
   * of the entry with that id; setFeedAsRead and setGroupAsRead reach setFeed,
   * whose body is commented out.
   */
  function ApplyAction(rows: seq<Entry>, action: MarkAction, id: int): seq<Entry>
  {
    match action
    case ItemRead => WithRead(rows, id, true)
    case ItemUnread => WithRead(rows, id, false)
    case ItemSaved => WithFavorite(rows, id, true)
    case ItemUnsaved => WithFavorite(rows, id, false)
    case FeedRead => rows
    case GroupRead => rows
  }

  /**
   * Only the entry with that id can change, and only in the flag the action
   * names; feed and group actions change nothing.
   */
  lemma ApplyActionFrame(rows: seq<Entry>, action: MarkAction, id: int)
    ensures |ApplyAction(rows, action, id)| == |rows|
    ensures forall i :: 0 <= i < |rows| && rows[i].id != id ==> ApplyAction(rows, action, id)[i] == rows[i]
    ensures forall i :: 0 <= i < |rows| && rows[i].id == id ==>
      ApplyAction(rows, action, id)[i] == match action
        case ItemRead => rows[i].(isRead := true)
        case ItemUnread => rows[i].(isRead := false)
        case ItemSaved => rows[i].(isFavorite := true)
        case ItemUnsaved => rows[i].(isFavorite := false)
        case _ => rows[i]
    ensures action == FeedRead || action == GroupRead ==> ApplyAction(rows, action, id) == rows
  {
    var r := ApplyAction(rows, action, id);
    forall i | 0 <= i < |rows| ensures r[i] == (if rows[i].id != id then rows[i] else match action
        case ItemRead => rows[i].(isRead := true)
        case ItemUnread => rows[i].(isRead := false)
        case ItemSaved => rows[i].(isFavorite := true)
        case ItemUnsaved => rows[i].(isFavorite := false)
        case _ => rows[i])
    {
      if action == ItemRead || action == ItemUnread {
        assert r[i].(isRead := rows[i].isRead) == rows[i];
      } else if action == ItemSaved || action == ItemUnsaved {
        assert r[i].(isFavorite := rows[i].isFavorite) == rows[i];
      }
    }
  }

  /** Repeating a mark command leaves the table as the first one did. */
  lemma ApplyActionIdempotent(rows: seq<Entry>, action: MarkAction, id: int)
    ensures ApplyAction(ApplyAction(rows, action, id), action, id) == ApplyAction(rows, action, id)
  {
    match action
    case ItemRead => MarkReadIdempotent(rows, id, true);
    case ItemUnread => MarkReadIdempotent(rows, id, false);
    case ItemSaved => MarkFavoriteIdempotent(rows, id, true);
    case ItemUnsaved => MarkFavoriteIdempotent(rows, id, false);
    case FeedRead =>
    case GroupRead =>
  }

  /** A mark keeps the table in primary-key order. */
  lemma ApplyActionKeepsOrder(rows: seq<Entry>, action: MarkAction, id: int)
    requires IdsAscending(rows)
    ensures IdsAscending(ApplyAction(rows, action, id))
  {
    MarkKeepsIds(rows, id, true);
    MarkKeepsIds(rows, id, false);
    AscendingByIds(rows, ApplyAction(rows, action, id));
  }

  /** The request parameters of a mark command. */
  type Params = map<string, string>

  /**
   * The command a request carries: present only when mark, as and id are all
   * set, id is numeric and the (mark, as) pair names a setter.
   */
  function Command(p: Params): Option<(MarkAction, int)>
  {
    if "mark" in p && "as" in p && "id" in p && Numeric(p["id"]).Some? && ActionOf(p["mark"], p["as"]).Some?
    then Some((ActionOf(p["mark"], p["as"]).value, Numeric(p["id"]).value))
    else None
  }

  /** A non-numeric id or an unknown (mark, as) pair carries no command. */
  lemma NoCommand(p: Params)
    requires "id" in p && "mark" in p && "as" in p
    requires Numeric(p["id"]).None? || ActionOf(p["mark"], p["as"]).None?
    ensures Command(p).None?
  {
  }
}
