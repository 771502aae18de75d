/**
 * The storage collaborator as the responder sees it: feeds, categories and the
 * entry table with its read and favorite flags. The table is kept in primary-key
 * order, so entry ids are strictly ascending along it.
 */
module Storage {

  datatype Entry = Entry(
    id: int,
    feedId: int,
    title: string,
    author: string,
    content: string,
    link: string,
    date: int,
    isRead: bool,
    isFavorite: bool)

  datatype Feed = Feed(
    id: int,
    name: string,
    url: string,
    website: string,
    category: int,
    lastUpdate: int)

  datatype Category = Category(id: int, name: string)

  /** Primary-key order: ids strictly ascending, hence unique. */
  predicate IdsAscending(rows: seq<Entry>)
  {
    forall i, j :: 0 <= i < j < |rows| ==> rows[i].id < rows[j].id
  }

  predicate HasId(rows: seq<Entry>, id: int)
  {
    exists i :: 0 <= i < |rows| && rows[i].id == id
  }

  function Ids(rows: seq<Entry>): (r: seq<int>)
    ensures |r| == |rows|
    ensures forall i :: 0 <= i < |rows| ==> r[i] == rows[i].id
  {
    seq(|rows|, i requires 0 <= i < |rows| => rows[i].id)
  }

  /**
   * The table after `UPDATE entry SET is_read = flag WHERE id = target`: the
   * read flag of the entry with that id takes the new value and nothing else
   * in the table changes.
   */
  function WithRead(rows: seq<Entry>, target: int, flag: bool): (r: seq<Entry>)
    ensures |r| == |rows|
    ensures forall i :: 0 <= i < |rows| ==>
      r[i].isRead == (if rows[i].id == target then flag else rows[i].isRead)
    ensures forall i :: 0 <= i < |rows| ==> r[i].(isRead := rows[i].isRead) == rows[i]
  {
    seq(|rows|, i requires 0 <= i < |rows| =>
      if rows[i].id == target then rows[i].(isRead := flag) else rows[i])
  }

  /** The same for `is_favorite`. */
  function WithFavorite(rows: seq<Entry>, target: int, flag: bool): (r: seq<Entry>)
    ensures |r| == |rows|
    ensures forall i :: 0 <= i < |rows| ==>
      r[i].isFavorite == (if rows[i].id == target then flag else rows[i].isFavorite)
    ensures forall i :: 0 <= i < |rows| ==> r[i].(isFavorite := rows[i].isFavorite) == rows[i]
  {
    seq(|rows|, i requires 0 <= i < |rows| =>
      if rows[i].id == target then rows[i].(isFavorite := flag) else rows[i])
  }

  /** `SELECT ... WHERE is_read=0`, in table order (getUnread). */
  function Unread(rows: seq<Entry>): (r: seq<Entry>)
    ensures forall e :: e in r <==> e in rows && !e.isRead
  {
    if |rows| == 0 then []
    else (if rows[0].isRead then [] else [rows[0]]) + Unread(rows[1..])
  }

  /** `SELECT ... WHERE is_favorite=1`, in table order (getStarred). */
  function Starred(rows: seq<Entry>): (r: seq<Entry>)
    ensures forall e :: e in r <==> e in rows && e.isFavorite
  {
    if |rows| == 0 then []
    else (if rows[0].isFavorite then [rows[0]] else []) + Starred(rows[1..])
  }

  /** Marking twice is marking once. */
  lemma MarkReadIdempotent(rows: seq<Entry>, target: int, flag: bool)
    ensures WithRead(WithRead(rows, target, flag), target, flag) == WithRead(rows, target, flag)
  {
    var once := WithRead(rows, target, flag);
    var twice := WithRead(once, target, flag);
    forall i | 0 <= i < |rows| ensures twice[i] == once[i] {
      assert once[i].id == rows[i].id by {
        assert once[i].(isRead := rows[i].isRead) == rows[i];
      }
    }
  }

  lemma MarkFavoriteIdempotent(rows: seq<Entry>, target: int, flag: bool)
    ensures WithFavorite(WithFavorite(rows, target, flag), target, flag) == WithFavorite(rows, target, flag)
  {
    var once := WithFavorite(rows, target, flag);
    var twice := WithFavorite(once, target, flag);
    forall i | 0 <= i < |rows| ensures twice[i] == once[i] {
      assert once[i].id == rows[i].id by {
        assert once[i].(isFavorite := rows[i].isFavorite) == rows[i];
      }
    }
  }

  /** Changing flags keeps every id in place, so primary-key order survives. */
  lemma MarkKeepsIds(rows: seq<Entry>, target: int, flag: bool)
    ensures Ids(WithRead(rows, target, flag)) == Ids(rows)
    ensures Ids(WithFavorite(rows, target, flag)) == Ids(rows)
  {
    var r := WithRead(rows, target, flag);
    var f := WithFavorite(rows, target, flag);
    forall i | 0 <= i < |rows| ensures r[i].id == rows[i].id && f[i].id == rows[i].id {
      assert r[i].(isRead := rows[i].isRead) == rows[i];
      assert f[i].(isFavorite := rows[i].isFavorite) == rows[i];
    }
  }

  /** Ids of unread entries: those whose entry is not read. */
  lemma {:induction false} UnreadIds(rows: seq<Entry>, id: int)
    ensures id in Ids(Unread(rows)) <==> exists i :: 0 <= i < |rows| && rows[i].id == id && !rows[i].isRead
  {
    var u := Unread(rows);
    if id in Ids(u) {
      assert exists i :: 0 <= i < |rows| && rows[i].id == id && !rows[i].isRead by {
        var k :| 0 <= k < |u| && Ids(u)[k] == id;
        assert u[k] in u;
        var i :| 0 <= i < |rows| && rows[i] == u[k];
        assert rows[i].id == id && !rows[i].isRead;
      }
    }
    if exists i :: 0 <= i < |rows| && rows[i].id == id && !rows[i].isRead {
      assert id in Ids(u) by {
        var i :| 0 <= i < |rows| && rows[i].id == id && !rows[i].isRead;
        assert rows[i] in rows;
        var k :| 0 <= k < |u| && u[k] == rows[i];
        assert Ids(u)[k] == id;
      }
    }
  }


  /** Ids of starred entries: those whose entry is a favorite. */
  lemma {:induction false} StarredIds(rows: seq<Entry>, id: int)
    ensures id in Ids(Starred(rows)) <==> exists i :: 0 <= i < |rows| && rows[i].id == id && rows[i].isFavorite
  {
    var u := Starred(rows);
    if id in Ids(u) {
      assert exists i :: 0 <= i < |rows| && rows[i].id == id && rows[i].isFavorite by {
        var k :| 0 <= k < |u| && Ids(u)[k] == id;
        assert u[k] in u;
        var i :| 0 <= i < |rows| && rows[i] == u[k];
        assert rows[i].id == id && rows[i].isFavorite;
      }
    }
    if exists i :: 0 <= i < |rows| && rows[i].id == id && rows[i].isFavorite {
      assert id in Ids(u) by {
        var i :| 0 <= i < |rows| && rows[i].id == id && rows[i].isFavorite;
        assert rows[i] in rows;
        var k :| 0 <= k < |u| && u[k] == rows[i];
        assert Ids(u)[k] == id;
      }
    }
  }


  /** After marking an existing entry unread, the unread list holds its id. */
  lemma MarkUnreadListsId(rows: seq<Entry>, target: int)
    requires HasId(rows, target)
    ensures target in Ids(Unread(WithRead(rows, target, false)))
  {
    var r := WithRead(rows, target, false);
    var i :| 0 <= i < |rows| && rows[i].id == target;
    assert r[i].(isRead := rows[i].isRead) == rows[i];
    UnreadIds(r, target);
  }

  /** After marking an entry read, the unread list no longer holds its id. */
  lemma MarkReadDropsId(rows: seq<Entry>, target: int)
    ensures target !in Ids(Unread(WithRead(rows, target, true)))
  {
    var r := WithRead(rows, target, true);
    UnreadIds(r, target);
    forall i | 0 <= i < |r| && r[i].id == target ensures r[i].isRead {
      assert r[i].(isRead := rows[i].isRead) == rows[i];
    }
  }

  /** After saving an existing entry, the saved list holds its id. */
  lemma MarkSavedListsId(rows: seq<Entry>, target: int)
    requires HasId(rows, target)
    ensures target in Ids(Starred(WithFavorite(rows, target, true)))
  {
    var r := WithFavorite(rows, target, true);
    var i :| 0 <= i < |rows| && rows[i].id == target;
    assert r[i].(isFavorite := rows[i].isFavorite) == rows[i];
    StarredIds(r, target);
  }

  /** After unsaving an entry, the saved list no longer holds its id. */
  lemma MarkUnsavedDropsId(rows: seq<Entry>, target: int)
    ensures target !in Ids(Starred(WithFavorite(rows, target, false)))
  {
    var r := WithFavorite(rows, target, false);
    StarredIds(r, target);
    forall i | 0 <= i < |r| && r[i].id == target ensures !r[i].isFavorite {
      assert r[i].(isFavorite := rows[i].isFavorite) == rows[i];
    }
  }

  lemma IdsAppend(a: seq<Entry>, b: seq<Entry>)
    ensures Ids(a + b) == Ids(a) + Ids(b)
  {
  }

  /** A read toggle leaves the list of saved ids as it was. */
  lemma {:induction false} ReadToggleKeepsSaved(rows: seq<Entry>, target: int, flag: bool)
    ensures Ids(Starred(WithRead(rows, target, flag))) == Ids(Starred(rows))
  {
    if |rows| > 0 {
      var r := WithRead(rows, target, flag);
      assert r[1..] == WithRead(rows[1..], target, flag);
      ReadToggleKeepsSaved(rows[1..], target, flag);
      assert r[0].(isRead := rows[0].isRead) == rows[0];
      var hr := if r[0].isFavorite then [r[0]] else [];
      var h := if rows[0].isFavorite then [rows[0]] else [];
      assert Ids(hr) == Ids(h);
      IdsAppend(hr, Starred(r[1..]));
      IdsAppend(h, Starred(rows[1..]));
    }
  }

  /** A saved toggle leaves the list of unread ids as it was. */
  lemma {:induction false} SavedToggleKeepsUnread(rows: seq<Entry>, target: int, flag: bool)
    ensures Ids(Unread(WithFavorite(rows, target, flag))) == Ids(Unread(rows))
  {
    if |rows| > 0 {
      var f := WithFavorite(rows, target, flag);
      assert f[1..] == WithFavorite(rows[1..], target, flag);
      SavedToggleKeepsUnread(rows[1..], target, flag);
      assert f[0].(isFavorite := rows[0].isFavorite) == rows[0];
      var hf := if f[0].isRead then [] else [f[0]];
      var h := if rows[0].isRead then [] else [rows[0]];
      assert Ids(hf) == Ids(h);
      IdsAppend(hf, Unread(f[1..]));
      IdsAppend(h, Unread(rows[1..]));
    }
  }

  /**
   * The entry table of the storage collaborator (FreshRSS_EntryDAO): the rows
   * in primary-key order; markRead and markFavorite update one entry in place.
   */
  class EntryTable {
    var rows: seq<Entry>

    ghost predicate Valid()
      reads this
    {
      IdsAscending(rows)
    }

    constructor (initial: seq<Entry>)
      requires IdsAscending(initial)
      ensures Valid() && rows == initial
    {
      rows := initial;
    }

    /** markRead(id, isRead) */
    method MarkRead(id: int, isRead: bool)
      requires Valid()
      modifies this
      ensures Valid()
      ensures rows == WithRead(old(rows), id, isRead)
    {
      MarkKeepsIds(rows, id, isRead);
      rows := WithRead(rows, id, isRead);
      AscendingByIds(old(rows), rows);
    }

    /** markFavorite(id, isFavorite) */
    method MarkFavorite(id: int, isFavorite: bool)
      requires Valid()
      modifies this
      ensures Valid()
      ensures rows == WithFavorite(old(rows), id, isFavorite)
    {
      MarkKeepsIds(rows, id, isFavorite);
      rows := WithFavorite(rows, id, isFavorite);
      AscendingByIds(old(rows), rows);
    }
  }

  lemma AscendingByIds(a: seq<Entry>, b: seq<Entry>)
    requires IdsAscending(a) && Ids(a) == Ids(b)
    ensures IdsAscending(b)
  {
    forall i, j | 0 <= i < j < |b| ensures b[i].id < b[j].id {
      assert Ids(a)[i] == Ids(b)[i] && Ids(a)[j] == Ids(b)[j];
    }
  }
}
