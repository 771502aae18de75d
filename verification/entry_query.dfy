/**
 * FeverAPI_EntryDAO::findEntries and its helper bindParamArray: the item
 * window query. Instead of SQL text, the statement's meaning is given by `Run`,
 * a selection over the entry table (kept in primary-key order): the id
 * condition of the chosen mode, the optional feed filter, the ordering of the
 * mode and `LIMIT 50`.
 */
module EntryQuery {
  import opened Wrappers
  import opened PhpStrings
  import opened Storage

  /** A value bound to a statement parameter. */
  datatype SqlValue = SqlInt(n: int) | SqlText(s: string) | SqlNull

  /** PHP array keys are unique. Arrays are given as their (key, value) pairs in order. */
  predicate DistinctKeys<V>(a: seq<(int, V)>)
  {
    forall i, j :: 0 <= i < j < |a| ==> a[i].0 != a[j].0
  }

  /** The parameter name bindParamArray uses for one array element. */
  function BindName(prefix: string, key: int): string
  {
    prefix + IntToString(key)
  }

  /** The placeholders bindParamArray writes, one per element, in order. */
  function Placeholders(prefix: string, values: seq<(int, SqlValue)>): (r: seq<string>)
    ensures |r| == |values|
    ensures forall i :: 0 <= i < |values| ==> r[i] == ":" + BindName(prefix, values[i].0)
  {
    seq(|values|, i requires 0 <= i < |values| => ":" + BindName(prefix, values[i].0))
  }

  lemma BindNameInjective(prefix: string, a: int, b: int)
    requires BindName(prefix, a) == BindName(prefix, b)
    ensures a == b
  {
    assert BindName(prefix, a)[|prefix|..] == IntToString(a);
    assert BindName(prefix, b)[|prefix|..] == IntToString(b);
    IntToStringInjective(a, b);
  }

  lemma {:induction false} JoinSnoc(xs: seq<string>, x: string, sep: char)
    requires |xs| >= 1
    ensures Join(xs + [x], sep) == Join(xs, sep) + [sep] + x
  {
    if |xs| == 1 {
      assert xs + [x] == [xs[0], x];
      assert [xs[0], x][1..] == [x];
    } else {
      assert (xs + [x])[1..] == xs[1..] + [x];
      JoinSnoc(xs[1..], x, sep);
    }
  }

  /**
   * The bindings after bindParamArray: each element's name bound to its value,
   * one after the other, on top of the bindings already there.
   */
  function BindAll(prefix: string, values: seq<(int, SqlValue)>, m: map<string, SqlValue>): map<string, SqlValue>
  {
    if |values| == 0 then m
    else
      var last := values[|values| - 1];
      BindAll(prefix, values[..|values| - 1], m)[BindName(prefix, last.0) := last.1]
  }

  /** With unique keys every element's parameter ends up bound to that element's value. */
  lemma {:induction false} BindAllLookup(prefix: string, values: seq<(int, SqlValue)>, m: map<string, SqlValue>, i: int)
    requires DistinctKeys(values) && 0 <= i < |values|
    ensures BindName(prefix, values[i].0) in BindAll(prefix, values, m)
    ensures BindAll(prefix, values, m)[BindName(prefix, values[i].0)] == values[i].1
  {
    var n := |values| - 1;
    if i < n {
      BindAllLookup(prefix, values[..n], m, i);
      if BindName(prefix, values[i].0) == BindName(prefix, values[n].0) {
        BindNameInjective(prefix, values[i].0, values[n].0);
      }
    }
  }

  /** A binding whose name no element uses is left as it was. */
  lemma {:induction false} BindAllKeeps(prefix: string, values: seq<(int, SqlValue)>, m: map<string, SqlValue>, name: string)
    requires name in m
    requires forall i :: 0 <= i < |values| ==> BindName(prefix, values[i].0) != name
    ensures name in BindAll(prefix, values, m) && BindAll(prefix, values, m)[name] == m[name]
  {
    if |values| > 0 {
      var n := |values| - 1;
      assert forall i :: 0 <= i < n ==> values[..n][i] == values[i];
      BindAllKeeps(prefix, values[..n], m, name);
    }
  }

  /** No binding appears beyond the old ones and the elements' names. */
  lemma {:induction false} BindAllKeys(prefix: string, values: seq<(int, SqlValue)>, m: map<string, SqlValue>, name: string)
    requires name in BindAll(prefix, values, m)
    ensures name in m || exists i :: 0 <= i < |values| && BindName(prefix, values[i].0) == name
  {
    if |values| > 0 {
      var n := |values| - 1;
      if name != BindName(prefix, values[n].0) {
        BindAllKeys(prefix, values[..n], m, name);
        if name !in m {
          var i :| 0 <= i < n && BindName(prefix, values[..n][i].0) == name;
          assert values[..n][i] == values[i];
        }
      }
    }
  }

  /** The placeholder list as the loop builds it: each one followed by a comma. */
  function Terminated(xs: seq<string>): string
  {
    if |xs| == 0 then "" else Join(xs, ',') + ","
  }

  /** Appending one placeholder to the comma-terminated list. */
  lemma PlaceholderStep(prefix: string, values: seq<(int, SqlValue)>, i: int)
    requires 0 <= i < |values|
    ensures Terminated(Placeholders(prefix, values)[..i]) + (":" + prefix + IntToString(values[i].0)) + ","
         == Terminated(Placeholders(prefix, values)[..i + 1])
  {
    var names := Placeholders(prefix, values);
    assert names[i] == ":" + prefix + IntToString(values[i].0);
    TerminatedSnoc(names, i);
  }

  lemma TerminatedSnoc(xs: seq<string>, i: int)
    requires 0 <= i < |xs|
    ensures Terminated(xs[..i]) + xs[i] + "," == Terminated(xs[..i + 1])
  {
    if i > 0 {
      calc {
        Terminated(xs[..i + 1]);
        Join(xs[..i + 1], ',') + ",";
        { assert xs[..i + 1] == xs[..i] + [xs[i]]; JoinSnoc(xs[..i], xs[i], ','); }
        Join(xs[..i], ',') + [','] + xs[i] + ",";
        Terminated(xs[..i]) + xs[i] + ",";
      }
    } else {
      assert xs[..1] == [xs[0]];
    }
  }

  /** Binding one more element. */
  lemma BindStep(prefix: string, values: seq<(int, SqlValue)>, m: map<string, SqlValue>, i: int)
    requires 0 <= i < |values|
    ensures BindAll(prefix, values[..i + 1], m) == BindAll(prefix, values[..i], m)[BindName(prefix, values[i].0) := values[i].1]
  {
    assert values[..i + 1][..i] == values[..i];
  }

  /** rtrim of the final comma gives back the joined placeholders. */
  lemma TrimFinalComma(prefix: string, values: seq<(int, SqlValue)>)
    requires |values| > 0
    ensures TrimRightChar(Join(Placeholders(prefix, values), ',') + ",", ',') == Join(Placeholders(prefix, values), ',')
  {
    var names := Placeholders(prefix, values);
    var k := values[|values| - 1].0;
    var last := names[|values| - 1];
    assert last == ":" + prefix + IntToString(k);
    assert last[|last| - 1] == IntToString(k)[|IntToString(k)| - 1];
    JoinLast(names, ',');
    var joined := Join(names, ',');
    assert (joined + ",")[..|joined|] == joined;
  }

  /**
   * bindParamArray(prefix, values, &bindArray): returns the comma-separated
   * placeholders ":<prefix><key>" with the trailing comma trimmed ("" for no
   * elements), and the bindings with "<prefix><key>" bound to each value.
   */
  method BindParamArray(prefix: string, values: seq<(int, SqlValue)>, bindArray: map<string, SqlValue>)
    returns (str: string, bound: map<string, SqlValue>)
    ensures str == Join(Placeholders(prefix, values), ',')
    ensures bound == BindAll(prefix, values, bindArray)
  {
    var acc := "";
    bound := bindArray;
    var i := 0;
    while i < |values|
      invariant 0 <= i <= |values|
      invariant acc == Terminated(Placeholders(prefix, values)[..i])
      invariant bound == BindAll(prefix, values[..i], bindArray)
    {
      PlaceholderStep(prefix, values, i);
      BindStep(prefix, values, bindArray, i);
      acc := acc + (":" + prefix + IntToString(values[i].0)) + ",";
      bound := bound[BindName(prefix, values[i].0) := values[i].1];
      i := i + 1;
    }
    assert Placeholders(prefix, values)[..|values|] == Placeholders(prefix, values);
    assert values[..|values|] == values;
    if |values| > 0 {
      TrimFinalComma(prefix, values);
    }
    str := TrimRightChar(acc, ',');
  }

  // ---------------------------------------------------------------------------
  // The meaning of the statement

  /** `id = v` is TRUE. A text value compares by its integer reading; NULL never matches. */
  predicate SqlEq(x: int, v: SqlValue)
  {
    match v
    case SqlInt(n) => x == n
    case SqlText(s) => Numeric(s) == Some(x)
    case SqlNull => false
  }

  /** `x IN (vs)` is TRUE. */
  predicate InList(x: int, vs: seq<(int, SqlValue)>)
  {
    exists k :: 0 <= k < |vs| && SqlEq(x, vs[k].1)
  }

  /** The id condition, exactly one of three. `Above(None)` is `id > NULL`. */
  datatype Mode = ByIds(ids: seq<(int, SqlValue)>) | Below(maxId: int) | Above(sinceId: Option<int>)

  /** The WHERE clause: the mode's id condition and, when feeds are given, `id_feed IN (...)`. */
  predicate Matches(e: Entry, mode: Mode, feeds: seq<(int, SqlValue)>)
  {
    (match mode
     case ByIds(ids) => InList(e.id, ids)
     case Below(m) => e.id < m
     case Above(s) => s.Some? && e.id > s.value)
    && (|feeds| == 0 || InList(e.feedId, feeds))
  }

  /** The rows satisfying the WHERE clause, in table order. */
  function Where(rows: seq<Entry>, mode: Mode, feeds: seq<(int, SqlValue)>): (r: seq<Entry>)
    ensures forall e :: e in r <==> e in rows && Matches(e, mode, feeds)
  {
    if |rows| == 0 then []
    else
      assert rows == [rows[0]] + rows[1..];
      (if Matches(rows[0], mode, feeds) then [rows[0]] else []) + Where(rows[1..], mode, feeds)
  }

  /** Filtering keeps primary-key order. */
  lemma {:induction false} WhereAscending(rows: seq<Entry>, mode: Mode, feeds: seq<(int, SqlValue)>)
    requires IdsAscending(rows)
    ensures IdsAscending(Where(rows, mode, feeds))
  {
    if |rows| > 0 {
      var rest := Where(rows[1..], mode, feeds);
      WhereAscending(rows[1..], mode, feeds);
      assert forall e :: e in rest ==> rows[0].id < e.id by {
        forall e | e in rest ensures rows[0].id < e.id {
          var k :| 0 <= k < |rows[1..]| && rows[1..][k] == e;
          assert rows[k + 1] == e;
        }
      }
      if Matches(rows[0], mode, feeds) {
        assert Where(rows, mode, feeds) == [rows[0]] + rest;
        PrependAscending(rows[0], rest);
      } else {
        assert Where(rows, mode, feeds) == rest;
      }
    }
  }

  lemma PrependAscending(x: Entry, rest: seq<Entry>)
    requires IdsAscending(rest) && forall e :: e in rest ==> x.id < e.id
    ensures IdsAscending([x] + rest)
  {
    var s := [x] + rest;
    forall i, j | 0 <= i < j < |s| ensures s[i].id < s[j].id {
      assert s[j] == rest[j - 1];
      if i == 0 {
        assert rest[j - 1] in rest;
      } else {
        assert s[i] == rest[i - 1];
      }
    }
  }

  function Reverse(s: seq<Entry>): (r: seq<Entry>)
    ensures |r| == |s|
    ensures forall i :: 0 <= i < |s| ==> r[i] == s[|s| - 1 - i]
  {
    seq(|s|, i requires 0 <= i < |s| => s[|s| - 1 - i])
  }

  /** `LIMIT 50` */
  const Limit := 50

  /** The first 50 rows of an ordering, all of them when there are fewer. */
  function Window(s: seq<Entry>): (r: seq<Entry>)
    ensures |r| == (if |s| <= Limit then |s| else Limit)
    ensures r == s[..|r|]
  {
    if |s| <= Limit then s else s[..Limit]
  }

  /** The rows the statement returns: WHERE, then the mode's order, then the limit. */
  function Run(table: seq<Entry>, mode: Mode, feeds: seq<(int, SqlValue)>): seq<Entry>
  {
    var hits := Where(table, mode, feeds);
    Window(if mode.Below? then Reverse(hits) else hits)
  }

  predicate StrictlyDescending(rows: seq<Entry>)
  {
    forall i, j :: 0 <= i < j < |rows| ==> rows[i].id > rows[j].id
  }

  /** Never more than 50 rows, each a row of the table satisfying the WHERE clause. */
  lemma RunSound(table: seq<Entry>, mode: Mode, feeds: seq<(int, SqlValue)>)
    ensures |Run(table, mode, feeds)| <= Limit
    ensures forall e :: e in Run(table, mode, feeds) ==> e in table && Matches(e, mode, feeds)
  {
    var hits := Where(table, mode, feeds);
    var ordered := if mode.Below? then Reverse(hits) else hits;
    forall e | e in ordered ensures e in hits {
      var k :| 0 <= k < |ordered| && ordered[k] == e;
      if mode.Below? {
        assert hits[|hits| - 1 - k] == e;
      }
    }
    assert Run(table, mode, feeds) == Window(ordered);
    forall e | e in Window(ordered) ensures e in ordered {
      var k :| 0 <= k < |Window(ordered)| && Window(ordered)[k] == e;
      assert ordered[k] == e;
    }
  }

  /**
   * With the table in primary-key order: a max_id window holds ids below the
   * cursor, strictly descending; a since_id window holds ids above the cursor,
   * strictly ascending.
   */
  lemma RunOrdered(table: seq<Entry>, mode: Mode, feeds: seq<(int, SqlValue)>)
    requires IdsAscending(table)
    ensures mode.Below? ==> StrictlyDescending(Run(table, mode, feeds))
    ensures mode.Below? ==> forall e :: e in Run(table, mode, feeds) ==> e.id < mode.maxId
    ensures mode.Above? ==> IdsAscending(Run(table, mode, feeds))
    ensures mode.Above? ==> forall e :: e in Run(table, mode, feeds) ==> mode.sinceId.Some? && e.id > mode.sinceId.value
  {
    RunSound(table, mode, feeds);
    WhereAscending(table, mode, feeds);
    var hits := Where(table, mode, feeds);
    var r := Run(table, mode, feeds);
    if mode.Below? {
      var ordered := Reverse(hits);
      assert r == Window(ordered);
      forall i, j | 0 <= i < j < |r| ensures r[i].id > r[j].id {
        assert r[i] == hits[|hits| - 1 - i] && r[j] == hits[|hits| - 1 - j];
      }
    } else if mode.Above? {
      assert r == Window(hits);
    }
  }

  /** A row of an ascending ordering missing from its window sits after a full window. */
  lemma WindowMissAscending(hits: seq<Entry>, h: int)
    requires IdsAscending(hits) && 0 <= h < |hits| && hits[h] !in Window(hits)
    ensures |Window(hits)| == Limit
    ensures forall x :: x in Window(hits) ==> x.id < hits[h].id
  {
    forall x | x in Window(hits) ensures x.id < hits[h].id {
      var k :| 0 <= k < |Window(hits)| && Window(hits)[k] == x;
      assert x == hits[k];
    }
  }

  /** The same for the reversed (descending) ordering. */
  lemma WindowMissDescending(hits: seq<Entry>, h: int)
    requires IdsAscending(hits) && 0 <= h < |hits| && hits[h] !in Window(Reverse(hits))
    ensures |Window(Reverse(hits))| == Limit
    ensures forall x :: x in Window(Reverse(hits)) ==> hits[h].id < x.id
  {
    var ordered := Reverse(hits);
    var p := |hits| - 1 - h;
    assert ordered[p] == hits[h];
    forall x | x in Window(ordered) ensures hits[h].id < x.id {
      var k :| 0 <= k < |Window(ordered)| && Window(ordered)[k] == x;
      assert x == hits[|hits| - 1 - k];
    }
  }

  /**
   * No matching row is skipped: one that is left out means the window is full,
   * and it lies beyond every returned id in the window's direction.
   */
  lemma RunComplete(table: seq<Entry>, mode: Mode, feeds: seq<(int, SqlValue)>, e: Entry)
    requires IdsAscending(table)
    requires e in table && Matches(e, mode, feeds)
    requires e !in Run(table, mode, feeds)
    ensures |Run(table, mode, feeds)| == Limit
    ensures mode.Above? ==> forall x :: x in Run(table, mode, feeds) ==> x.id < e.id
    ensures mode.Below? ==> forall x :: x in Run(table, mode, feeds) ==> e.id < x.id
  {
    WhereAscending(table, mode, feeds);
    var hits := Where(table, mode, feeds);
    assert e in hits;
    var h :| 0 <= h < |hits| && hits[h] == e;
    if mode.Below? {
      WindowMissDescending(hits, h);
    } else {
      WindowMissAscending(hits, h);
    }
  }

  /** A WHERE clause no row satisfies selects nothing. */
  lemma {:induction false} WhereNone(rows: seq<Entry>, mode: Mode, feeds: seq<(int, SqlValue)>)
    requires forall i :: 0 <= i < |rows| ==> !Matches(rows[i], mode, feeds)
    ensures Where(rows, mode, feeds) == []
  {
    if |rows| > 0 {
      WhereNone(rows[1..], mode, feeds);
    }
  }

  /** `id > NULL` is never TRUE: a missing since_id selects nothing. */
  lemma NullCursorSelectsNothing(table: seq<Entry>, feeds: seq<(int, SqlValue)>)
    ensures Run(table, Above(None), feeds) == []
  {
    WhereNone(table, Above(None), feeds);
  }

  /** The id condition findEntries chooses: entry ids, else a non-empty max_id, else since_id. */
  function ModeOf(entryIds: seq<(int, SqlValue)>, maxId: Option<int>, sinceId: Option<int>): Mode
  {
    if |entryIds| > 0 then ByIds(entryIds)
    else if maxId.Some? && maxId.value != 0 then Below(maxId.value)
    else Above(sinceId)
  }

  /** Entry ids take precedence: max_id and since_id play no part, and only listed ids come back. */
  lemma EntryIdsWin(table: seq<Entry>, entryIds: seq<(int, SqlValue)>, maxId1: Option<int>, sinceId1: Option<int>,
                    maxId2: Option<int>, sinceId2: Option<int>, feeds: seq<(int, SqlValue)>)
    requires |entryIds| > 0
    ensures Run(table, ModeOf(entryIds, maxId1, sinceId1), feeds) == Run(table, ModeOf(entryIds, maxId2, sinceId2), feeds)
    ensures forall e :: e in Run(table, ModeOf(entryIds, maxId1, sinceId1), feeds) ==> e in table && InList(e.id, entryIds)
  {
    RunSound(table, ByIds(entryIds), feeds);
  }

  /**
   * Without entry ids a non-zero max_id decides: since_id plays no part, and the
   * window lies below max_id, newest first.
   */
  lemma MaxIdWins(table: seq<Entry>, v: int, sinceId1: Option<int>, sinceId2: Option<int>, feeds: seq<(int, SqlValue)>)
    requires IdsAscending(table) && v != 0
    ensures Run(table, ModeOf([], Some(v), sinceId1), feeds) == Run(table, ModeOf([], Some(v), sinceId2), feeds)
    ensures StrictlyDescending(Run(table, ModeOf([], Some(v), sinceId1), feeds))
    ensures forall e :: e in Run(table, ModeOf([], Some(v), sinceId1), feeds) ==> e in table && e.id < v
  {
    RunSound(table, Below(v), feeds);
    RunOrdered(table, Below(v), feeds);
  }

  /**
   * Otherwise since_id decides: ids above it, oldest first, and nothing at all
   * when it is null.
   */
  lemma SinceIdOtherwise(table: seq<Entry>, maxId: Option<int>, sinceId: Option<int>, feeds: seq<(int, SqlValue)>)
    requires IdsAscending(table) && (maxId.None? || maxId.value == 0)
    ensures IdsAscending(Run(table, ModeOf([], maxId, sinceId), feeds))
    ensures forall e :: e in Run(table, ModeOf([], maxId, sinceId), feeds) ==>
      e in table && sinceId.Some? && e.id > sinceId.value
  {
    RunSound(table, Above(sinceId), feeds);
    RunOrdered(table, Above(sinceId), feeds);
  }

  function CursorValue(c: Option<int>): SqlValue
  {
    if c.Some? then SqlInt(c.value) else SqlNull
  }

  /** Binding the feed parameters keeps every earlier binding whose name does not start with 'f'. */
  lemma FeedBindingKeeps(feedIds: seq<(int, SqlValue)>, before: map<string, SqlValue>, name: string)
    requires name in before && |name| > 0 && name[0] != 'f'
    ensures name in BindAll("feed", feedIds, before) && BindAll("feed", feedIds, before)[name] == before[name]
  {
    forall i | 0 <= i < |feedIds| ensures BindName("feed", feedIds[i].0) != name {
      assert BindName("feed", feedIds[i].0)[0] == 'f';
    }
    BindAllKeeps("feed", feedIds, before, name);
  }

  /**
   * A parameter name the statement has a placeholder for: ":id" when no entry
   * ids are given, otherwise one per entry id, and one per feed id.
   */
  predicate ExpectedName(name: string, feedIds: seq<(int, SqlValue)>, entryIds: seq<(int, SqlValue)>)
  {
    (|entryIds| == 0 && name == ":id")
    || (exists i :: 0 <= i < |entryIds| && name == BindName("id", entryIds[i].0))
    || (exists i :: 0 <= i < |feedIds| && name == BindName("feed", feedIds[i].0))
  }

  /**
   * findEntries(feed_ids, entry_ids, max_id, since_id): binds the statement's
   * parameters and returns the rows of `Run` for the chosen mode and feed filter.
   */
  method FindEntries(table: seq<Entry>, feedIds: seq<(int, SqlValue)>, entryIds: seq<(int, SqlValue)>,
                     maxId: Option<int>, sinceId: Option<int>)
    returns (rows: seq<Entry>, values: map<string, SqlValue>)
    requires DistinctKeys(feedIds) && DistinctKeys(entryIds)
    ensures rows == Run(table, ModeOf(entryIds, maxId, sinceId), feedIds)
    ensures forall i :: 0 <= i < |entryIds| ==>
      BindName("id", entryIds[i].0) in values && values[BindName("id", entryIds[i].0)] == entryIds[i].1
    ensures |entryIds| == 0 ==>
      (":id" in values &&
       values[":id"] == (if maxId.Some? && maxId.value != 0 then SqlInt(maxId.value) else CursorValue(sinceId)))
    ensures forall i :: 0 <= i < |feedIds| ==>
      BindName("feed", feedIds[i].0) in values && values[BindName("feed", feedIds[i].0)] == feedIds[i].1
    ensures forall name :: name in values ==> ExpectedName(name, feedIds, entryIds)
  {
    values := map[];
    var mode: Mode;
    if |entryIds| > 0 {
      var inIds;
      inIds, values := BindParamArray("id", entryIds, values);
      forall name | name in values ensures ExpectedName(name, feedIds, entryIds) {
        BindAllKeys("id", entryIds, map[], name);
      }
      mode := ByIds(entryIds);
    } else if maxId.Some? && maxId.value != 0 {
      values := values[":id" := SqlInt(maxId.value)];
      mode := Below(maxId.value);
    } else {
      values := values[":id" := CursorValue(sinceId)];
      mode := Above(sinceId);
    }
    ghost var before := values;
    forall i | 0 <= i < |entryIds|
      ensures BindName("id", entryIds[i].0) in before && before[BindName("id", entryIds[i].0)] == entryIds[i].1
    {
      BindAllLookup("id", entryIds, map[], i);
    }
    if |feedIds| > 0 {
      var inFeeds;
      inFeeds, values := BindParamArray("feed", feedIds, values);
      forall i | 0 <= i < |feedIds|
        ensures BindName("feed", feedIds[i].0) in values && values[BindName("feed", feedIds[i].0)] == feedIds[i].1
      {
        BindAllLookup("feed", feedIds, before, i);
      }
      forall i | 0 <= i < |entryIds|
        ensures BindName("id", entryIds[i].0) in values && values[BindName("id", entryIds[i].0)] == entryIds[i].1
      {
        FeedBindingKeeps(feedIds, before, BindName("id", entryIds[i].0));
      }
      if |entryIds| == 0 {
        FeedBindingKeeps(feedIds, before, ":id");
      }
      forall name | name in values ensures ExpectedName(name, feedIds, entryIds) {
        BindAllKeys("feed", feedIds, before, name);
      }
    }
    rows := Run(table, mode, feedIds);
  }
}
