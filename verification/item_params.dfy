/**
 * getItems' reading of the request: which feeds to filter on (feed_ids, or the
 * member feeds of group_ids), and which id condition findEntries runs
 * (max_id, else with_ids, else since_id).
 */
module ItemParams {
  import opened Wrappers
  import opened PhpStrings
  import opened Storage
  import opened EntryQuery

  /** The request parameters ($_REQUEST); a key is present iff isset holds for it. */
  type Params = map<string, string>

  /** explode(",", s) as a PHP list: element i under key i, each a string. */
  function Explode(s: string): (r: seq<(int, SqlValue)>)
    ensures |r| == |Split(s, ',')|
    ensures forall i :: 0 <= i < |r| ==> r[i] == (i, SqlText(Split(s, ',')[i]))
    ensures DistinctKeys(r)
  {
    var parts := Split(s, ',');
    seq(|parts|, i requires 0 <= i < |parts| => (i, SqlText(parts[i])))
  }

  // ---------------------------------------------------------------------------
  // Group membership

  /** CategoryDAO::searchById: the category whose id the text reads as, if any. */
  function CategoryById(cats: seq<Category>, idText: string): (r: Option<Category>)
    ensures r.Some? ==> r.value in cats && Numeric(idText) == Some(r.value.id)
    ensures r.None? ==> forall c :: c in cats ==> Numeric(idText) != Some(c.id)
  {
    if |cats| == 0 then None
    else if Numeric(idText) == Some(cats[0].id) then Some(cats[0])
    else CategoryById(cats[1..], idText)
  }

  /** Category::feeds(): the ids of the feeds in that category, in feed-list order. */
  function FeedsOf(feeds: seq<Feed>, cid: int): (r: seq<int>)
    ensures forall x :: x in r <==> exists f :: f in feeds && f.category == cid && f.id == x
  {
    if |feeds| == 0 then []
    else
      assert forall f :: f in feeds <==> f == feeds[0] || f in feeds[1..];
      (if feeds[0].category == cid then [feeds[0].id] else []) + FeedsOf(feeds[1..], cid)
  }

  /** Every requested group names an existing category. */
  predicate AllKnown(cats: seq<Category>, groupIds: seq<string>)
  {
    forall i :: 0 <= i < |groupIds| ==> CategoryById(cats, groupIds[i]).Some?
  }

  /** The lists `f` gives for the elements of `xs`, one after another. */
  function Collect<T>(xs: seq<T>, f: T -> seq<int>): seq<int>
  {
    if |xs| == 0 then [] else Collect(xs[..|xs| - 1], f) + f(xs[|xs| - 1])
  }

  /** Every collected value comes from the list of some element. */
  lemma {:induction false} CollectSound<T>(xs: seq<T>, f: T -> seq<int>, x: int)
    requires x in Collect(xs, f)
    ensures exists i :: 0 <= i < |xs| && x in f(xs[i])
  {
    var n := |xs| - 1;
    var pre := xs[..n];
    if x in Collect(pre, f) {
      CollectSound(pre, f, x);
      var i :| 0 <= i < n && x in f(pre[i]);
      assert pre[i] == xs[i];
    } else {
      assert x in f(xs[n]);
    }
  }

  /** Every value in the list of some element is collected. */
  lemma {:induction false} CollectComplete<T>(xs: seq<T>, f: T -> seq<int>, i: int, x: int)
    requires 0 <= i < |xs| && x in f(xs[i])
    ensures x in Collect(xs, f)
  {
    var n := |xs| - 1;
    var pre := xs[..n];
    if i < n {
      assert pre[i] == xs[i];
      CollectComplete(pre, f, i, x);
    }
  }

  /** The feeds of the category group `g` names; none when it names no category. */
  function GroupFeeds(cats: seq<Category>, feeds: seq<Feed>, g: string): seq<int>
  {
    match CategoryById(cats, g)
    case Some(c) => FeedsOf(feeds, c.id)
    case None => []
  }

  /** The feeds of the requested groups, group after group, as the loop over group_ids gathers them. */
  function Members(cats: seq<Category>, feeds: seq<Feed>, groupIds: seq<string>): seq<int>
  {
    Collect(groupIds, g => GroupFeeds(cats, feeds, g))
  }

  /** Group `g` names an existing category that holds a feed with id `x`. */
  predicate GroupHolds(cats: seq<Category>, feeds: seq<Feed>, g: string, x: int)
  {
    CategoryById(cats, g).Some?
      && exists f :: f in feeds && f.category == CategoryById(cats, g).value.id && f.id == x
  }

  /** A feed id is a member iff some requested group's category holds that feed. */
  lemma {:induction false} MembersExact(cats: seq<Category>, feeds: seq<Feed>, groupIds: seq<string>, x: int)
    ensures x in Members(cats, feeds, groupIds) <==>
      exists i :: 0 <= i < |groupIds| && GroupHolds(cats, feeds, groupIds[i], x)
  {
    var f := g => GroupFeeds(cats, feeds, g);
    forall i | 0 <= i < |groupIds|
      ensures x in f(groupIds[i]) <==> GroupHolds(cats, feeds, groupIds[i], x)
    {
      GroupFeedsHolds(cats, feeds, groupIds[i], x);
    }
    if x in Members(cats, feeds, groupIds) {
      CollectSound(groupIds, f, x);
    }
    if exists i :: 0 <= i < |groupIds| && GroupHolds(cats, feeds, groupIds[i], x) {
      var i :| 0 <= i < |groupIds| && GroupHolds(cats, feeds, groupIds[i], x);
      CollectComplete(groupIds, f, i, x);
    }
  }

  lemma GroupFeedsHolds(cats: seq<Category>, feeds: seq<Feed>, g: string, x: int)
    ensures x in GroupFeeds(cats, feeds, g) <==> GroupHolds(cats, feeds, g, x)
  {
  }

  datatype Fatal =
    | UnknownGroup   // searchById returned null and ->feeds() was called on it
    | NoGroupFeeds   // $feeds was never assigned, so array_unique received null

  /** One more group, as the loop takes it. */
  lemma MembersStep(cats: seq<Category>, feeds: seq<Feed>, groupIds: seq<string>, i: int)
    requires 0 <= i < |groupIds| && AllKnown(cats, groupIds[..i]) && CategoryById(cats, groupIds[i]).Some?
    ensures AllKnown(cats, groupIds[..i + 1])
    ensures Members(cats, feeds, groupIds[..i + 1])
         == Members(cats, feeds, groupIds[..i]) + FeedsOf(feeds, CategoryById(cats, groupIds[i]).value.id)
  {
    assert groupIds[..i + 1][..i] == groupIds[..i];
    assert forall j :: 0 <= j < i ==> groupIds[..i + 1][j] == groupIds[..i][j];
  }

  /**
   * The loop over group_ids: a failure as soon as a group is unknown; the
   * member feed ids otherwise, or a failure when no group had any feed.
   */
  method CollectGroupFeeds(cats: seq<Category>, feeds: seq<Feed>, groupIds: seq<string>)
    returns (r: Result<seq<int>, Fatal>)
    ensures r.Success? <==> AllKnown(cats, groupIds) && |Members(cats, feeds, groupIds)| > 0
    ensures r.Success? ==> r.value == Members(cats, feeds, groupIds)
    ensures r.Failure? ==> r.error == (if AllKnown(cats, groupIds) then NoGroupFeeds else UnknownGroup)
  {
    var collected: seq<int> := [];
    var i := 0;
    while i < |groupIds|
      invariant 0 <= i <= |groupIds|
      invariant AllKnown(cats, groupIds[..i])
      invariant collected == Members(cats, feeds, groupIds[..i])
    {
      var category := CategoryById(cats, groupIds[i]);
      if category.None? {
        return Failure(UnknownGroup);
      }
      MembersStep(cats, feeds, groupIds, i);
      collected := collected + FeedsOf(feeds, category.value.id);
      i := i + 1;
    }
    assert groupIds[..i] == groupIds;
    if |collected| == 0 {
      return Failure(NoGroupFeeds);
    }
    return Success(collected);
  }

  // ---------------------------------------------------------------------------
  // array_unique

  /**
   * array_unique over a PHP list: the first occurrence of each value, under
   * its original key, in order.
   */
  function Unique(ids: seq<int>): seq<(int, int)>
  {
    if |ids| == 0 then []
    else
      var n := |ids| - 1;
      if ids[n] in ids[..n] then Unique(ids[..n]) else Unique(ids[..n]) + [(n, ids[n])]
  }

  /** Each kept pair is a first occurrence, under its original key, with keys ascending. */
  lemma {:induction false} UniqueSound(ids: seq<int>)
    ensures forall k :: 0 <= k < |Unique(ids)| ==>
      0 <= Unique(ids)[k].0 < |ids| && ids[Unique(ids)[k].0] == Unique(ids)[k].1
      && Unique(ids)[k].1 !in ids[..Unique(ids)[k].0]
    ensures forall a, b :: 0 <= a < b < |Unique(ids)| ==> Unique(ids)[a].0 < Unique(ids)[b].0
  {
    if |ids| > 0 {
      var n := |ids| - 1;
      var pre := ids[..n];
      UniqueSound(pre);
      var p := Unique(pre);
      forall k | 0 <= k < |p| ensures ids[p[k].0] == p[k].1 && ids[..p[k].0] == pre[..p[k].0] {
        assert pre[p[k].0] == ids[p[k].0];
      }
    }
  }

  /** Every first occurrence is kept. */
  lemma {:induction false} UniqueComplete(ids: seq<int>, i: int)
    requires 0 <= i < |ids| && ids[i] !in ids[..i]
    ensures (i, ids[i]) in Unique(ids)
  {
    var n := |ids| - 1;
    var pre := ids[..n];
    if i < n {
      assert pre[i] == ids[i] && pre[..i] == ids[..i];
      UniqueComplete(pre, i);
    }
  }

  /** Every value has a first occurrence. */
  lemma {:induction false} FirstOccurrence(ids: seq<int>, v: int)
    requires v in ids
    ensures exists i :: 0 <= i < |ids| && ids[i] == v && v !in ids[..i]
  {
    if ids[0] != v {
      FirstOccurrence(ids[1..], v);
      var i :| 0 <= i < |ids[1..]| && ids[1..][i] == v && v !in ids[1..][..i];
      assert ids[..i + 1] == [ids[0]] + ids[1..][..i];
      assert ids[i + 1] == v;
    } else {
      assert ids[..0] == [];
    }
  }

  /** array_unique keeps exactly the values it was given, each once. */
  lemma UniqueValues(ids: seq<int>)
    ensures forall v :: v in ids <==> exists k :: 0 <= k < |Unique(ids)| && Unique(ids)[k].1 == v
    ensures forall a, b :: 0 <= a < b < |Unique(ids)| ==> Unique(ids)[a].1 != Unique(ids)[b].1
  {
    var r := Unique(ids);
    UniqueSound(ids);
    forall k | 0 <= k < |r| ensures r[k].1 in ids {
      assert ids[r[k].0] == r[k].1;
    }
    forall v | v in ids ensures exists k :: 0 <= k < |r| && r[k].1 == v {
      FirstOccurrence(ids, v);
      var i :| 0 <= i < |ids| && ids[i] == v && v !in ids[..i];
      UniqueComplete(ids, i);
      var k :| 0 <= k < |r| && r[k] == (i, ids[i]);
    }
    forall a, b | 0 <= a < b < |r| ensures r[a].1 != r[b].1 {
      assert ids[..r[b].0][r[a].0] == r[a].1;
    }
  }

  /** The feed list group_ids puts in place of feed_ids. */
  function GroupFeedIds(members: seq<int>): (r: seq<(int, SqlValue)>)
    ensures DistinctKeys(r)
    ensures forall x :: x in members <==> exists k :: 0 <= k < |r| && r[k].1 == SqlInt(x)
    ensures forall a, b :: 0 <= a < b < |r| ==> r[a].1 != r[b].1
  {
    UniqueKeysKept(members);
    UniqueValuesKept(members);
    AsInts(Unique(members))
  }

  lemma UniqueKeysKept(members: seq<int>)
    ensures DistinctKeys(AsInts(Unique(members)))
  {
    UniqueSound(members);
  }

  lemma UniqueValuesKept(members: seq<int>)
    ensures forall x :: x in members <==> exists k :: 0 <= k < |AsInts(Unique(members))| && AsInts(Unique(members))[k].1 == SqlInt(x)
    ensures forall a, b :: 0 <= a < b < |AsInts(Unique(members))| ==> AsInts(Unique(members))[a].1 != AsInts(Unique(members))[b].1
  {
    var u := Unique(members);
    var r := AsInts(u);
    UniqueValues(members);
    forall x | x in members ensures exists k :: 0 <= k < |r| && r[k].1 == SqlInt(x) {
      var k :| 0 <= k < |u| && u[k].1 == x;
      assert r[k].1 == SqlInt(x);
    }
    assert forall x :: (exists k :: 0 <= k < |r| && r[k].1 == SqlInt(x)) ==> exists k :: 0 <= k < |u| && u[k].1 == x;
  }

  /** Each kept value bound as an integer under its original position. */
  function AsInts(u: seq<(int, int)>): (r: seq<(int, SqlValue)>)
    ensures |r| == |u|
    ensures forall k :: 0 <= k < |u| ==> r[k] == (u[k].0, SqlInt(u[k].1))
  {
    seq(|u|, k requires 0 <= k < |u| => (u[k].0, SqlInt(u[k].1)))
  }

  // ---------------------------------------------------------------------------
  // Resolution

  datatype ItemArgs = ItemArgs(
    feedIds: seq<(int, SqlValue)>,
    entryIds: seq<(int, SqlValue)>,
    maxId: Option<int>,
    sinceId: Option<int>)

  /** max_id is kept only when it is numeric and greater than 0. */
  function MaxIdOf(s: string): (r: Option<int>)
    ensures r.Some? <==> Numeric(s).Some? && Numeric(s).value > 0
    ensures r.Some? ==> r == Numeric(s)
  {
    match Numeric(s)
    case Some(v) => if v > 0 then Some(v) else None
    case None => None
  }

  /** since_id: its integer value when present and numeric, else 0. */
  function SinceIdOf(p: Params): int
  {
    if "since_id" in p && Numeric(p["since_id"]).Some? then Numeric(p["since_id"]).value else 0
  }

  /** The feed filter: the members of group_ids, else feed_ids, else none. */
  function FeedSelection(p: Params, cats: seq<Category>, feeds: seq<Feed>): Result<seq<(int, SqlValue)>, Fatal>
  {
    if "group_ids" in p then
      var groups := Split(p["group_ids"], ',');
      if !AllKnown(cats, groups) then Failure(UnknownGroup)
      else if |Members(cats, feeds, groups)| == 0 then Failure(NoGroupFeeds)
      else Success(GroupFeedIds(Members(cats, feeds, groups)))
    else if "feed_ids" in p then Success(Explode(p["feed_ids"]))
    else Success([])
  }

  /** The arguments getItems passes to findEntries. */
  function ItemArgsOf(p: Params, cats: seq<Category>, feeds: seq<Feed>): Result<ItemArgs, Fatal>
  {
    var sel := FeedSelection(p, cats, feeds);
    if sel.Failure? then Failure(sel.error)
    else if "max_id" in p then Success(ItemArgs(sel.value, [], MaxIdOf(p["max_id"]), None))
    else if "with_ids" in p then Success(ItemArgs(sel.value, Explode(p["with_ids"]), None, None))
    else Success(ItemArgs(sel.value, [], None, Some(SinceIdOf(p))))
  }

  /** getItems, lines up to the findEntries call. */
  method ResolveItemArgs(p: Params, cats: seq<Category>, feeds: seq<Feed>) returns (r: Result<ItemArgs, Fatal>)
    ensures r == ItemArgsOf(p, cats, feeds)
  {
    var feedIds: seq<(int, SqlValue)> := [];
    var entryIds: seq<(int, SqlValue)> := [];
    var maxId: Option<int> := None;
    var sinceId: Option<int> := None;

    if "feed_ids" in p || "group_ids" in p {
      if "feed_ids" in p {
        feedIds := Explode(p["feed_ids"]);
      }
      if "group_ids" in p {
        var members := CollectGroupFeeds(cats, feeds, Split(p["group_ids"], ','));
        if members.Failure? {
          return Failure(members.error);
        }
        feedIds := GroupFeedIds(members.value);
      }
    }

    if "max_id" in p {
      if Numeric(p["max_id"]).Some? {
        var max := if Numeric(p["max_id"]).value > 0 then Numeric(p["max_id"]).value else 0;
        if max != 0 {
          maxId := Some(max);
        }
      }
    } else if "with_ids" in p {
      entryIds := Explode(p["with_ids"]);
    } else {
      sinceId := Some(if "since_id" in p && Numeric(p["since_id"]).Some? then Numeric(p["since_id"]).value else 0);
    }
    return Success(ItemArgs(feedIds, entryIds, maxId, sinceId));
  }

  // ---------------------------------------------------------------------------
  // Properties of the resolution

  /** A present max_id makes with_ids and since_id irrelevant. */
  lemma MaxIdPrecedence(p: Params, cats: seq<Category>, feeds: seq<Feed>, w: string, s: string)
    requires "max_id" in p
    ensures ItemArgsOf(p["with_ids" := w]["since_id" := s], cats, feeds) == ItemArgsOf(p, cats, feeds)
    ensures ItemArgsOf(p, cats, feeds).Success? ==>
      ItemArgsOf(p, cats, feeds).value.entryIds == [] && ItemArgsOf(p, cats, feeds).value.sinceId.None?
  {
    var q := p["with_ids" := w]["since_id" := s];
    assert FeedSelection(q, cats, feeds) == FeedSelection(p, cats, feeds);
  }

  /** with_ids is used exactly when max_id is absent, and then no cursor is set. */
  lemma WithIdsUse(p: Params, cats: seq<Category>, feeds: seq<Feed>)
    requires ItemArgsOf(p, cats, feeds).Success?
    ensures |ItemArgsOf(p, cats, feeds).value.entryIds| > 0 <==> "max_id" !in p && "with_ids" in p
    ensures |ItemArgsOf(p, cats, feeds).value.entryIds| > 0 ==>
      ItemArgsOf(p, cats, feeds).value.maxId.None? && ItemArgsOf(p, cats, feeds).value.sinceId.None?
  {
  }

  /** A cursor max_id is set only from a numeric max_id greater than 0. */
  lemma MaxIdValid(p: Params, cats: seq<Category>, feeds: seq<Feed>)
    requires ItemArgsOf(p, cats, feeds).Success? && ItemArgsOf(p, cats, feeds).value.maxId.Some?
    ensures "max_id" in p && Numeric(p["max_id"]) == ItemArgsOf(p, cats, feeds).value.maxId
    ensures ItemArgsOf(p, cats, feeds).value.maxId.value > 0
  {
  }

  /** Without max_id and with_ids, since_id is its numeric value, or 0. */
  lemma SinceIdDefault(p: Params, cats: seq<Category>, feeds: seq<Feed>)
    requires ItemArgsOf(p, cats, feeds).Success? && "max_id" !in p && "with_ids" !in p
    ensures ItemArgsOf(p, cats, feeds).value.sinceId ==
      Some(if "since_id" in p && Numeric(p["since_id"]).Some? then Numeric(p["since_id"]).value else 0)
  {
  }

  /** group_ids replaces feed_ids: the feed_ids parameter then has no effect. */
  lemma GroupsReplaceFeeds(p: Params, cats: seq<Category>, feeds: seq<Feed>, f: string)
    requires "group_ids" in p
    ensures ItemArgsOf(p["feed_ids" := f], cats, feeds) == ItemArgsOf(p, cats, feeds)
  {
    var q := p["feed_ids" := f];
    assert q["group_ids"] == p["group_ids"];
    assert FeedSelection(q, cats, feeds) == FeedSelection(p, cats, feeds);
    assert "max_id" in p ==> "max_id" in q && q["max_id"] == p["max_id"];
    assert "with_ids" in p ==> "with_ids" in q && q["with_ids"] == p["with_ids"];
    assert SinceIdOf(q) == SinceIdOf(p);
  }

  /** The group feed filter names each member feed exactly once, and nothing else. */
  lemma GroupFeedsExact(p: Params, cats: seq<Category>, feeds: seq<Feed>)
    requires "group_ids" in p && ItemArgsOf(p, cats, feeds).Success?
    ensures var fs := ItemArgsOf(p, cats, feeds).value.feedIds;
      var members := Members(cats, feeds, Split(p["group_ids"], ','));
      (forall x :: x in members <==> exists k :: 0 <= k < |fs| && fs[k].1 == SqlInt(x))
      && (forall a, b :: 0 <= a < b < |fs| ==> fs[a].1 != fs[b].1)
  {
    var members := Members(cats, feeds, Split(p["group_ids"], ','));
    assert ItemArgsOf(p, cats, feeds).value.feedIds == GroupFeedIds(members);
  }

  /** A max_id that is present but not a positive number leaves no cursor: the window is empty. */
  lemma InvalidMaxIdSelectsNothing(p: Params, cats: seq<Category>, feeds: seq<Feed>, table: seq<Entry>)
    requires "max_id" in p && MaxIdOf(p["max_id"]).None? && ItemArgsOf(p, cats, feeds).Success?
    ensures var a := ItemArgsOf(p, cats, feeds).value;
      Run(table, ModeOf(a.entryIds, a.maxId, a.sinceId), a.feedIds) == []
  {
    var a := ItemArgsOf(p, cats, feeds).value;
    assert ModeOf(a.entryIds, a.maxId, a.sinceId) == Above(None);
    NullCursorSelectsNothing(table, a.feedIds);
  }
}
