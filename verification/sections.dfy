/**
 * The pieces a Fever response is assembled from: the response array with
 * PHP's assignment and array_merge semantics, the id lists, the feeds_groups
 * section, last_refreshed_on_time and the envelope `wrap` puts around a reply.
 */
module Sections {
  import opened Wrappers
  import opened PhpStrings
  import opened Storage
  import opened XmlOutput
  import ItemParams

  // ---------------------------------------------------------------------------
  // The response array: string keys in insertion order

  type Response = seq<(string, Tree)>

  /** The value stored under key k, None when unset. */
  function Get(arr: Response, k: string): Option<Tree>
  {
    if |arr| == 0 then None
    else if arr[0].0 == k then Some(arr[0].1)
    else Get(arr[1..], k)
  }

  predicate UniqueKeys(arr: Response)
  {
    forall i, j :: 0 <= i < j < |arr| ==> arr[i].0 != arr[j].0
  }

  lemma {:induction false} GetNone(arr: Response, k: string)
    requires Get(arr, k).None?
    ensures forall i :: 0 <= i < |arr| ==> arr[i].0 != k
  {
    if |arr| > 0 {
      GetNone(arr[1..], k);
      assert forall i :: 1 <= i < |arr| ==> arr[i] == arr[1..][i - 1];
    }
  }

  /**
   * Assigning v to key k: an existing key keeps its place and takes the new value, a
   * new key goes last; every other key keeps its value.
   */
  function Put(arr: Response, k: string, v: Tree): (r: Response)
    ensures forall x :: Get(r, x) == if x == k then Some(v) else Get(arr, x)
    ensures UniqueKeys(arr) ==> UniqueKeys(r)
    ensures Get(arr, k).Some? ==> |r| == |arr|
    ensures Get(arr, k).None? ==> |r| == |arr| + 1
    ensures forall i :: 0 <= i < |arr| ==> r[i].0 == arr[i].0
  {
    if |arr| == 0 then [(k, v)]
    else if arr[0].0 == k then
      PutFirst(arr, v);
      [(k, v)] + arr[1..]
    else
      var rest := Put(arr[1..], k, v);
      PutCons(arr, k, v, rest);
      [arr[0]] + rest
  }

  /** Assigning to the first key replaces its value in place. */
  lemma PutFirst(arr: Response, v: Tree)
    requires |arr| > 0
    ensures forall x :: Get([(arr[0].0, v)] + arr[1..], x) == if x == arr[0].0 then Some(v) else Get(arr, x)
    ensures UniqueKeys(arr) ==> UniqueKeys([(arr[0].0, v)] + arr[1..])
    ensures |[(arr[0].0, v)] + arr[1..]| == |arr|
    ensures forall i :: 0 <= i < |arr| ==> ([(arr[0].0, v)] + arr[1..])[i].0 == arr[i].0
  {
    var r := [(arr[0].0, v)] + arr[1..];
    assert r[1..] == arr[1..];
    assert forall i :: 0 <= i < |arr| ==> r[i].0 == arr[i].0;
  }

  /** Assigning to a later key keeps the first entry and assigns in the rest. */
  lemma PutCons(arr: Response, k: string, v: Tree, rest: Response)
    requires |arr| > 0 && arr[0].0 != k
    requires forall x :: Get(rest, x) == if x == k then Some(v) else Get(arr[1..], x)
    requires UniqueKeys(arr[1..]) ==> UniqueKeys(rest)
    requires Get(arr[1..], k).Some? ==> |rest| == |arr| - 1
    requires Get(arr[1..], k).None? ==> |rest| == |arr|
    requires forall i :: 0 <= i < |arr| - 1 ==> rest[i].0 == arr[1..][i].0
    ensures forall x :: Get([arr[0]] + rest, x) == if x == k then Some(v) else Get(arr, x)
    ensures UniqueKeys(arr) ==> UniqueKeys([arr[0]] + rest)
    ensures Get(arr, k).Some? ==> |[arr[0]] + rest| == |arr|
    ensures Get(arr, k).None? ==> |[arr[0]] + rest| == |arr| + 1
    ensures forall i :: 0 <= i < |arr| ==> ([arr[0]] + rest)[i].0 == arr[i].0
  {
    var r := [arr[0]] + rest;
    assert r[1..] == rest;
    assert forall i :: 1 <= i < |arr| ==> arr[i] == arr[1..][i - 1];
    if UniqueKeys(arr) {
      HeadFresh(arr, rest);
      UniqueTail(arr);
      assert forall i, j :: 0 <= i < j < |r| ==> r[i].0 != r[j].0 by {
        forall i, j | 0 <= i < j < |r| ensures r[i].0 != r[j].0 {
          if i > 0 {
            assert r[i] == rest[i - 1] && r[j] == rest[j - 1];
          }
        }
      }
    }
  }

  /** In a response with unique keys, the first key is not among the others. */
  lemma HeadFresh(arr: Response, rest: Response)
    requires |arr| > 0 && Get(rest, arr[0].0) == Get(arr[1..], arr[0].0)
    ensures UniqueKeys(arr) ==> forall i :: 0 <= i < |rest| ==> rest[i].0 != arr[0].0
  {
    if UniqueKeys(arr) {
      UniqueTail(arr);
      GetNone(rest, arr[0].0);
    }
  }

  lemma {:induction false} GetAbsent(arr: Response, k: string)
    requires forall i :: 0 <= i < |arr| ==> arr[i].0 != k
    ensures Get(arr, k).None?
  {
    if |arr| > 0 {
      assert forall i :: 1 <= i < |arr| ==> arr[i] == arr[1..][i - 1];
      GetAbsent(arr[1..], k);
    }
  }

  /** The first key of a response with unique keys is unset in the rest. */
  lemma UniqueTail(arr: Response)
    requires |arr| > 0 && UniqueKeys(arr)
    ensures Get(arr[1..], arr[0].0).None?
    ensures UniqueKeys(arr[1..])
  {
    assert forall i :: 1 <= i < |arr| ==> arr[i] == arr[1..][i - 1];
    GetAbsent(arr[1..], arr[0].0);
  }

  lemma {:induction false} GetSome(arr: Response, k: string)
    requires Get(arr, k).Some?
    ensures exists i :: 0 <= i < |arr| && arr[i].0 == k
  {
    if arr[0].0 != k {
      GetSome(arr[1..], k);
      var i :| 0 <= i < |arr[1..]| && arr[1..][i].0 == k;
      assert arr[i + 1].0 == k;
    }
  }

  /** array_merge(arr, reply) for a reply with string keys: each entry assigned in turn. */
  function Merge(arr: Response, reply: Response): Response
    decreases |reply|
  {
    if |reply| == 0 then arr else Merge(Put(arr, reply[0].0, reply[0].1), reply[1..])
  }

  /** After the merge a key of the reply has the reply's value, any other key its old one. */
  lemma {:induction false} MergeGet(arr: Response, reply: Response, x: string)
    requires UniqueKeys(reply)
    ensures Get(Merge(arr, reply), x) == if Get(reply, x).Some? then Get(reply, x) else Get(arr, x)
    decreases |reply|
  {
    if |reply| > 0 {
      UniqueTail(reply);
      MergeGet(Put(arr, reply[0].0, reply[0].1), reply[1..], x);
    }
  }

  /** The keys already present stay in their places. */
  lemma {:induction false} MergeKeepsPrefix(arr: Response, reply: Response)
    ensures |Merge(arr, reply)| >= |arr|
    ensures forall i :: 0 <= i < |arr| ==> Merge(arr, reply)[i].0 == arr[i].0
    decreases |reply|
  {
    if |reply| > 0 {
      MergeKeepsPrefix(Put(arr, reply[0].0, reply[0].1), reply[1..]);
    }
  }

  /** The PHP array of a response: every key a string key. */
  function AsTree(arr: Response): (t: Tree)
    ensures t.Arr? && |t.entries| == |arr|
    ensures forall i :: 0 <= i < |arr| ==> t.entries[i] == (Str(arr[i].0), arr[i].1)
  {
    Arr(seq(|arr|, i requires 0 <= i < |arr| => (Str(arr[i].0), arr[i].1)))
  }

  /** Appending each x in turn: a PHP list, keys 0 .. n-1. */
  function ListOf(xs: seq<Tree>): (t: Tree)
    ensures t.Arr? && IsList(t.entries) && |t.entries| == |xs|
    ensures forall i :: 0 <= i < |xs| ==> t.entries[i].1 == xs[i]
  {
    Arr(seq(|xs|, i requires 0 <= i < |xs| => (Int(i), xs[i])))
  }

  function Record(fields: seq<(string, string)>): Tree
  {
    Arr(seq(|fields|, i requires 0 <= i < |fields| => (Str(fields[i].0), Scalar(fields[i].1))))
  }

  /** The scalar text under string key `key` of an array, as $record[$key] reads it. */
  function Field(t: Tree, key: string): Option<string>
  {
    match t
    case Scalar(_) => None
    case Arr(es) => FieldIn(es, key)
  }

  function FieldIn(es: seq<(Key, Tree)>, key: string): Option<string>
  {
    if |es| == 0 then None
    else if es[0].0 == Str(key) then (if es[0].1.Scalar? then Some(es[0].1.text) else None)
    else FieldIn(es[1..], key)
  }

  lemma {:induction false} FieldInAt(es: seq<(Key, Tree)>, key: string, j: int)
    requires 0 <= j < |es| && es[j].0 == Str(key) && es[j].1.Scalar?
    requires forall k :: 0 <= k < j ==> es[k].0 != Str(key)
    ensures FieldIn(es, key) == Some(es[j].1.text)
  {
    if j > 0 {
      assert forall k :: 0 <= k < j - 1 ==> es[1..][k] == es[k + 1];
      FieldInAt(es[1..], key, j - 1);
    }
  }

  /** A record's field reads back the value written under its name (the first such field). */
  lemma RecordField(fields: seq<(string, string)>, j: int)
    requires 0 <= j < |fields|
    requires forall k :: 0 <= k < j ==> fields[k].0 != fields[j].0
    ensures Field(Record(fields), fields[j].0) == Some(fields[j].1)
  {
    var es := Record(fields).entries;
    forall k | 0 <= k < j ensures es[k].0 != Str(fields[j].0) {
      assert es[k].0 == Str(fields[k].0);
    }
    FieldInAt(es, fields[j].0, j);
  }

  // ---------------------------------------------------------------------------
  // entriesToIdList

  function IntStrings(ids: seq<int>): (r: seq<string>)
    ensures |r| == |ids|
    ensures forall i :: 0 <= i < |ids| ==> r[i] == IntToString(ids[i])
  {
    seq(|ids|, i requires 0 <= i < |ids| => IntToString(ids[i]))
  }

  /** implode(',', ids) */
  function IdList(ids: seq<int>): string
  {
    Join(IntStrings(ids), ',')
  }

  lemma NoCommaInIds(ids: seq<int>)
    ensures forall i :: 0 <= i < |ids| ==> ',' !in IntStrings(ids)[i]
  {
    forall i, j | 0 <= i < |ids| && 0 <= j < |IntStrings(ids)[i]| ensures IntStrings(ids)[i][j] != ',' {
      assert IsDigit(IntToString(ids[i])[j]) || IntToString(ids[i])[j] == '-';
    }
  }

  /** The list is empty for no ids and has n - 1 commas for n ids. */
  lemma IdListCommas(ids: seq<int>)
    ensures |ids| == 0 ==> IdList(ids) == ""
    ensures Count(IdList(ids), ',') == if |ids| == 0 then 0 else |ids| - 1
  {
    NoCommaInIds(ids);
    JoinSeparators(IntStrings(ids), ',');
  }

  /** Splitting the list at its commas and reading each piece gives the ids back in order. */
  lemma IdListRoundTrip(ids: seq<int>)
    requires |ids| > 0
    ensures |Split(IdList(ids), ',')| == |ids|
    ensures forall i :: 0 <= i < |ids| ==> Numeric(Split(IdList(ids), ',')[i]) == Some(ids[i])
  {
    NoCommaInIds(ids);
    SplitJoin(IntStrings(ids), ',');
    forall i | 0 <= i < |ids| ensures Numeric(IntStrings(ids)[i]) == Some(ids[i]) {
      NumericOfIntToString(ids[i]);
    }
  }

  /** entriesToIdList($entries): the entries' ids in order, joined by commas. */
  method EntriesToIdList(entries: seq<Entry>) returns (list: string)
    ensures list == IdList(Ids(entries))
  {
    var ids: seq<int> := [];
    var i := 0;
    while i < |entries|
      invariant 0 <= i <= |entries|
      invariant ids == Ids(entries[..i])
    {
      ids := ids + [entries[i].id];
      i := i + 1;
    }
    assert entries[..i] == entries;
    list := Join(IntStrings(ids), ',');
  }

  // ---------------------------------------------------------------------------
  // getFeedsGroup

  /** The categories of the feeds, each once, in order of first appearance. */
  function Categories(feeds: seq<Feed>): (r: seq<int>)
    ensures forall c :: c in r <==> exists i :: 0 <= i < |feeds| && feeds[i].category == c
    ensures forall i, j :: 0 <= i < j < |r| ==> r[i] != r[j]
  {
    if |feeds| == 0 then []
    else
      var n := |feeds| - 1;
      var prev := Categories(feeds[..n]);
      assert forall i :: 0 <= i < n ==> feeds[..n][i] == feeds[i];
      if feeds[n].category in prev then prev else prev + [feeds[n].category]
  }

  /** One feeds_groups row: the category and its feed ids joined by commas. */
  function GroupRow(category: int, feedIds: seq<int>): Tree
  {
    Record([("group_id", IntToString(category)), ("feed_ids", IdList(feedIds))])
  }

  function FeedsGroupRows(feeds: seq<Feed>): (r: seq<Tree>)
    ensures |r| == |Categories(feeds)|
    ensures forall j :: 0 <= j < |r| ==>
      r[j] == GroupRow(Categories(feeds)[j], ItemParams.FeedsOf(feeds, Categories(feeds)[j]))
  {
    var cs := Categories(feeds);
    seq(|cs|, j requires 0 <= j < |cs| => GroupRow(cs[j], ItemParams.FeedsOf(feeds, cs[j])))
  }

  lemma {:induction false} FeedsOfSnoc(feeds: seq<Feed>, f: Feed, c: int)
    ensures ItemParams.FeedsOf(feeds + [f], c) == ItemParams.FeedsOf(feeds, c) + (if f.category == c then [f.id] else [])
  {
    if |feeds| == 0 {
      assert ([] + [f])[1..] == [];
    } else {
      var head := if feeds[0].category == c then [feeds[0].id] else [];
      var tail := if f.category == c then [f.id] else [];
      calc {
        ItemParams.FeedsOf(feeds + [f], c);
        { assert (feeds + [f])[0] == feeds[0]; }
        head + ItemParams.FeedsOf((feeds + [f])[1..], c);
        { assert (feeds + [f])[1..] == feeds[1..] + [f]; }
        head + ItemParams.FeedsOf(feeds[1..] + [f], c);
        { FeedsOfSnoc(feeds[1..], f, c); }
        head + (ItemParams.FeedsOf(feeds[1..], c) + tail);
        (head + ItemParams.FeedsOf(feeds[1..], c)) + tail;
        ItemParams.FeedsOf(feeds, c) + tail;
      }
    }
  }

  lemma FeedsOfAbsent(feeds: seq<Feed>, c: int)
    requires c !in Categories(feeds)
    ensures ItemParams.FeedsOf(feeds, c) == []
  {
    FeedsOfNone(feeds, c);
  }

  lemma {:induction false} FeedsOfNone(feeds: seq<Feed>, c: int)
    requires forall i :: 0 <= i < |feeds| ==> feeds[i].category != c
    ensures ItemParams.FeedsOf(feeds, c) == []
  {
    if |feeds| > 0 {
      assert forall i :: 1 <= i < |feeds| ==> feeds[i] == feeds[1..][i - 1];
      FeedsOfNone(feeds[1..], c);
    }
  }

  function IndexOf(s: seq<int>, x: int): (k: nat)
    requires x in s
    ensures k < |s| && s[k] == x
  {
    if s[0] == x then 0 else 1 + IndexOf(s[1..], x)
  }

  /**
   * getFeedsGroup(): each feed's id appended under its category, then one row per
   * category in the order the categories were first met.
   */
  method GetFeedsGroup(feeds: seq<Feed>) returns (groups: Tree)
    ensures groups == ListOf(FeedsGroupRows(feeds))
  {
    var cats, members := GroupByCategory(feeds);
    var rows: seq<Tree> := [];
    var j := 0;
    while j < |cats|
      invariant 0 <= j <= |cats|
      invariant rows == FeedsGroupRows(feeds)[..j]
    {
      rows := rows + [Record([("group_id", IntToString(cats[j])), ("feed_ids", Join(IntStrings(members[j]), ','))])];
      j := j + 1;
    }
    groups := ListOf(rows);
  }

  /** The first loop of getFeedsGroup: the categories met so far and the feed ids under each. */
  method GroupByCategory(feeds: seq<Feed>) returns (cats: seq<int>, members: seq<seq<int>>)
    ensures cats == Categories(feeds) && |members| == |cats|
    ensures forall j :: 0 <= j < |cats| ==> members[j] == ItemParams.FeedsOf(feeds, cats[j])
  {
    cats := [];
    members := [];
    var i := 0;
    while i < |feeds|
      invariant 0 <= i <= |feeds|
      invariant cats == Categories(feeds[..i]) && |members| == |cats|
      invariant forall j :: 0 <= j < |cats| ==> members[j] == ItemParams.FeedsOf(feeds[..i], cats[j])
    {
      var f := feeds[i];
      assert feeds[..i + 1] == feeds[..i] + [f];
      if f.category in cats {
        var k := IndexOf(cats, f.category);
        ExtendGroup(feeds[..i], f, cats, members, k);
        members := members[k := members[k] + [f.id]];
      } else {
        NewGroup(feeds[..i], f, cats, members);
        cats := cats + [f.category];
        members := members + [[f.id]];
      }
      i := i + 1;
    }
    assert feeds[..i] == feeds;
  }

  /** A feed of a category already met joins that category's ids. */
  lemma ExtendGroup(pre: seq<Feed>, f: Feed, cats: seq<int>, members: seq<seq<int>>, k: int)
    requires cats == Categories(pre) && |members| == |cats|
    requires forall j :: 0 <= j < |cats| ==> members[j] == ItemParams.FeedsOf(pre, cats[j])
    requires 0 <= k < |cats| && cats[k] == f.category
    ensures cats == Categories(pre + [f])
    ensures forall j :: 0 <= j < |cats| ==> members[k := members[k] + [f.id]][j] == ItemParams.FeedsOf(pre + [f], cats[j])
  {
    assert (pre + [f])[..|pre|] == pre;
    forall j | 0 <= j < |cats| ensures members[k := members[k] + [f.id]][j] == ItemParams.FeedsOf(pre + [f], cats[j]) {
      FeedsOfSnoc(pre, f, cats[j]);
      assert cats[j] == f.category <==> j == k;
    }
  }

  /** A feed of a new category opens a group of its own, placed last. */
  lemma NewGroup(pre: seq<Feed>, f: Feed, cats: seq<int>, members: seq<seq<int>>)
    requires cats == Categories(pre) && |members| == |cats|
    requires forall j :: 0 <= j < |cats| ==> members[j] == ItemParams.FeedsOf(pre, cats[j])
    requires f.category !in cats
    ensures cats + [f.category] == Categories(pre + [f])
    ensures forall j :: 0 <= j <= |cats| ==>
      (members + [[f.id]])[j] == ItemParams.FeedsOf(pre + [f], (cats + [f.category])[j])
  {
    assert (pre + [f])[..|pre|] == pre;
    FeedsOfAbsent(pre, f.category);
    forall j | 0 <= j <= |cats|
      ensures (members + [[f.id]])[j] == ItemParams.FeedsOf(pre + [f], (cats + [f.category])[j])
    {
      FeedsOfSnoc(pre, f, (cats + [f.category])[j]);
    }
  }

  /** With distinct feed ids, a feed is listed under its own category and under no other. */
  lemma FeedUnderOneGroup(feeds: seq<Feed>, i: int, j: int)
    requires forall a, b :: 0 <= a < b < |feeds| ==> feeds[a].id != feeds[b].id
    requires 0 <= i < |feeds| && 0 <= j < |Categories(feeds)|
    ensures feeds[i].category in Categories(feeds)
    ensures feeds[i].id in ItemParams.FeedsOf(feeds, Categories(feeds)[j]) <==> Categories(feeds)[j] == feeds[i].category
  {
    var c := Categories(feeds)[j];
    assert feeds[i] in feeds;
    if feeds[i].id in ItemParams.FeedsOf(feeds, c) {
      var f :| f in feeds && f.category == c && f.id == feeds[i].id;
      var k :| 0 <= k < |feeds| && feeds[k] == f;
    }
  }

  /** Categories come in the order of their first feeds. */
  lemma {:induction false} CategoriesInFirstAppearanceOrder(feeds: seq<Feed>, j: int, k: int, m: int)
    requires 0 <= j < k < |Categories(feeds)|
    requires 0 <= m < |feeds| && feeds[m].category == Categories(feeds)[k]
    ensures exists m' :: 0 <= m' < m && feeds[m'].category == Categories(feeds)[j]
  {
    var n := |feeds| - 1;
    var pre := feeds[..n];
    var prev := Categories(pre);
    var cs := Categories(feeds);
    assert forall i :: 0 <= i < n ==> pre[i] == feeds[i];
    if k < |prev| {
      assert cs[j] == prev[j] && cs[k] == prev[k];
      if m < n {
        CategoriesInFirstAppearanceOrder(pre, j, k, m);
        var m' :| 0 <= m' < m && pre[m'].category == prev[j];
      } else {
        assert prev[k] in prev;
        var m0 :| 0 <= m0 < n && pre[m0].category == prev[k];
        CategoriesInFirstAppearanceOrder(pre, j, k, m0);
        var m' :| 0 <= m' < m0 && pre[m'].category == prev[j];
      }
    } else {
      assert cs == prev + [feeds[n].category];
      assert cs[j] == prev[j];
      assert prev[j] in prev;
      var m' :| 0 <= m' < n && pre[m'].category == prev[j];
      assert forall i :: 0 <= i < n ==> feeds[i].category in prev;
    }
  }

  // ---------------------------------------------------------------------------
  // lastRefreshedOnTime

  /**
   * The lastUpdate of the first feed of `ORDER BY lastUpdate LIMIT 1`, which
   * sorts ascending: the least lastUpdate of all feeds, or 0 without feeds.
   */
  function LastRefreshedOnTime(feeds: seq<Feed>): (r: int)
    ensures |feeds| == 0 ==> r == 0
    ensures |feeds| > 0 ==> exists i :: 0 <= i < |feeds| && feeds[i].lastUpdate == r
    ensures forall i :: 0 <= i < |feeds| ==> r <= feeds[i].lastUpdate
  {
    if |feeds| == 0 then 0
    else if |feeds| == 1 then feeds[0].lastUpdate
    else
      var rest := LastRefreshedOnTime(feeds[1..]);
      assert forall i :: 1 <= i < |feeds| ==> feeds[i] == feeds[1..][i - 1];
      if feeds[0].lastUpdate <= rest then feeds[0].lastUpdate else rest
  }

  // ---------------------------------------------------------------------------
  // wrap

  const ApiLevel := 3
  const StatusOk := 1
  const StatusErr := 0

  /**
   * The array wrap builds: api_version and auth always; last_refreshed_on_time
   * (as a string) and the reply merged in only when the status is STATUS_OK.
   */
  function Envelope(status: int, reply: Response, feeds: seq<Feed>): Response
  {
    if status == StatusOk then Merge(OkHead(feeds), reply)
    else [("api_version", Scalar(IntToString(ApiLevel))), ("auth", Scalar(IntToString(status)))]
  }

  /** An envelope that is not STATUS_OK holds api_version and auth and nothing else. */
  lemma ErrorEnvelope(status: int, reply: Response, feeds: seq<Feed>)
    requires status != StatusOk
    ensures Envelope(status, reply, feeds) == [("api_version", Scalar("3")), ("auth", Scalar(IntToString(status)))]
  {
    assert IntToString(3) == "3";
  }

  function OkHead(feeds: seq<Feed>): Response
  {
    [("api_version", Scalar(IntToString(ApiLevel))), ("auth", Scalar(IntToString(StatusOk))),
     ("last_refreshed_on_time", Scalar(IntToString(LastRefreshedOnTime(feeds))))]
  }

  /** An OK envelope starts with api_version 3 and auth 1, whatever the reply holds besides. */
  lemma OkEnvelopeHeader(reply: Response, feeds: seq<Feed>)
    requires UniqueKeys(reply)
    requires Get(reply, "api_version").None? && Get(reply, "auth").None?
    ensures |Envelope(StatusOk, reply, feeds)| >= 3
    ensures Envelope(StatusOk, reply, feeds)[0] == ("api_version", Scalar("3"))
    ensures Envelope(StatusOk, reply, feeds)[1] == ("auth", Scalar("1"))
  {
    var head := OkHead(feeds);
    assert IntToString(3) == "3" && IntToString(1) == "1";
    MergeKeepsPrefix(head, reply);
    MergeGet(head, reply, "api_version");
    MergeGet(head, reply, "auth");
    var env := Merge(head, reply);
    assert env[0].0 == "api_version" && env[1].0 == "auth";
    assert Get(env, "api_version") == Some(env[0].1);
    assert Get(env, "auth") == Some(env[1].1);
  }

  /**
   * An OK envelope carries every section of the reply, and the refresh time
   * unless the reply sets one of its own.
   */
  lemma OkEnvelopeSections(reply: Response, feeds: seq<Feed>, x: string)
    requires UniqueKeys(reply)
    ensures Get(reply, x).Some? ==> Get(Envelope(StatusOk, reply, feeds), x) == Get(reply, x)
    ensures Get(reply, "last_refreshed_on_time").None? ==>
      Get(Envelope(StatusOk, reply, feeds), "last_refreshed_on_time") == Some(Scalar(IntToString(LastRefreshedOnTime(feeds))))
  {
    var head := OkHead(feeds);
    MergeGet(head, reply, x);
    MergeGet(head, reply, "last_refreshed_on_time");
    assert Get(head, "last_refreshed_on_time") == Some(head[2].1) by {
      var k := "last_refreshed_on_time";
      assert head[0].0 != k && head[1].0 != k && head[2].0 == k;
      assert head[1..][1..] == [head[2]];
      assert Get([head[2]], k) == Some(head[2].1);
      assert Get(head[1..], k) == Get(head[1..][1..], k);
      assert Get(head, k) == Get(head[1..], k);
    }
  }
}
