/**
 * `GetTagNamesForEntries` (internal/storage/entry_tag.go): one query over the
 * asked entries, ordered by entry id and tag name, whose rows are grouped into
 * a map from entry id to the list of its tag names.
 */
module TagNames {
  import opened Sorting
  import opened Model
  import opened Schema
  import opened EntryTagStore

  /** The names of entry `e`'s tags of the user, in the order `GetEntryTags` lists them. */
  function NamesOf(db: Db, user: UserId, e: EntryId): (r: seq<string>)
    ensures |r| == |GetEntryTags(db, user, e)|
    ensures forall i | 0 <= i < |r| :: r[i] == GetEntryTags(db, user, e)[i].tagName
  {
    var ts := GetEntryTags(db, user, e);
    seq(|ts|, i requires 0 <= i < |ts| => ts[i].tagName)
  }

  function Ascending(): (EntryId, EntryId) -> bool
  {
    (a, b) => a < b
  }

  /** `et.entry_id = ANY($2)`: the asked ids, each once, in ascending order. */
  function AskedEntries(ids: seq<EntryId>): (r: seq<EntryId>)
    ensures forall e | e in r :: e in ids
    ensures forall e | e in ids :: e in r
    ensures forall i, j | 0 <= i < j < |r| :: r[i] < r[j]
  {
    var asked := set e | e in ids;
    assert StrictTotalOn(asked, Ascending());
    var r := SortBy(asked, Ascending());
    assert forall i, j | 0 <= i < j < |r| :: Ascending()(r[i], r[j]);
    r
  }

  /** The rows `(entry_id, name)` of one entry. */
  function Pairs(e: EntryId, names: seq<string>): (r: seq<(EntryId, string)>)
    ensures |r| == |names| && forall i | 0 <= i < |names| :: r[i] == (e, names[i])
  {
    seq(|names|, i requires 0 <= i < |names| => (e, names[i]))
  }

  /** `NamesOf` for every entry of the user. */
  function NamesFn(db: Db, user: UserId): EntryId -> seq<string>
  {
    e => NamesOf(db, user, e)
  }

  /**
   * The rows of the query for the entries `es`, taken in that order, `names`
   * giving each entry's names: `ORDER BY et.entry_id, t.name`.
   */
  function Rows(names: EntryId -> seq<string>, es: seq<EntryId>): seq<(EntryId, string)>
    decreases |es|
  {
    if es == [] then [] else Rows(names, es[..|es| - 1]) + Pairs(es[|es| - 1], names(es[|es| - 1]))
  }

  /** `result[entryID] = append(result[entryID], tagName)` */
  function Put(m: map<EntryId, seq<string>>, row: (EntryId, string)): map<EntryId, seq<string>>
  {
    m[row.0 := (if row.0 in m then m[row.0] else []) + [row.1]]
  }

  /** The map after the loop has read `rows`, starting from `m`. */
  function Group(m: map<EntryId, seq<string>>, rows: seq<(EntryId, string)>): map<EntryId, seq<string>>
    decreases |rows|
  {
    if rows == [] then m else Put(Group(m, rows[..|rows| - 1]), rows[|rows| - 1])
  }

  /** Reading one more row puts it into the map built so far. */
  lemma GroupStep(m: map<EntryId, seq<string>>, rows: seq<(EntryId, string)>, i: nat)
    requires i < |rows|
    ensures Group(m, rows[..i + 1]) == Put(Group(m, rows[..i]), rows[i])
  {
    assert rows[..i + 1][..i] == rows[..i];
  }

  /** `GetTagNamesForEntries(userID, entryIDs)` */
  function TagNamesForEntries(db: Db, user: UserId, ids: seq<EntryId>): (r: map<EntryId, seq<string>>)
    ensures ids == [] ==> r == map[]
    ensures forall e | e in r :: e in ids && r[e] != [] && r[e] == NamesOf(db, user, e)
    ensures forall e | e in ids && NamesOf(db, user, e) != [] :: e in r
  {
    if ids == [] then map[]
    else
      var es := AskedEntries(ids);
      GroupRows(NamesFn(db, user), es);
      Group(map[], Rows(NamesFn(db, user), es))
  }

  lemma {:induction false} GroupAppend(m: map<EntryId, seq<string>>, a: seq<(EntryId, string)>, b: seq<(EntryId, string)>)
    ensures Group(m, a + b) == Group(Group(m, a), b)
    decreases |b|
  {
    if b == [] {
      assert a + b == a;
    } else {
      assert (a + b)[..|a + b| - 1] == a + b[..|b| - 1];
      GroupAppend(m, a, b[..|b| - 1]);
    }
  }

  /** Reading one entry's rows appends its names to what the map held for it. */
  lemma {:induction false} GroupPairs(m: map<EntryId, seq<string>>, e: EntryId, names: seq<string>)
    ensures Group(m, Pairs(e, names)) ==
      if names == [] then m else m[e := (if e in m then m[e] else []) + names]
    decreases |names|
  {
    if names != [] {
      var k := |names| - 1;
      var rows := Pairs(e, names);
      assert rows[..k] == Pairs(e, names[..k]);
      GroupPairs(m, e, names[..k]);
      var before := Group(m, rows[..k]);
      assert Group(m, rows) == Put(before, (e, names[k]));
      var held := if e in m then m[e] else [];
      assert (if e in before then before[e] else []) == held + names[..k];
      assert held + names[..k] + [names[k]] == held + names;
    }
  }

  /** Grouping the rows of one more entry appends its names to what the map held for it. */
  lemma GroupRowsLast(names: EntryId -> seq<string>, es: seq<EntryId>)
    requires es != []
    ensures var g0 := Group(map[], Rows(names, es[..|es| - 1]));
      var last := es[|es| - 1];
      Group(map[], Rows(names, es)) ==
        if names(last) == [] then g0 else g0[last := (if last in g0 then g0[last] else []) + names(last)]
  {
    var p, last := es[..|es| - 1], es[|es| - 1];
    assert Rows(names, es) == Rows(names, p) + Pairs(last, names(last));
    GroupAppend(map[], Rows(names, p), Pairs(last, names(last)));
    GroupPairs(Group(map[], Rows(names, p)), last, names(last));
  }

  /** Grouping the rows of distinct entries gives each entry with rows exactly its names. */
  lemma {:induction false} GroupRows(names: EntryId -> seq<string>, es: seq<EntryId>)
    requires forall i, j | 0 <= i < j < |es| :: es[i] != es[j]
    ensures var g := Group(map[], Rows(names, es));
      && (forall e | e in g :: e in es && g[e] == names(e) && g[e] != [])
      && (forall e | e in es && names(e) != [] :: e in g)
    decreases |es|
  {
    if es != [] {
      var p, last := es[..|es| - 1], es[|es| - 1];
      GroupRows(names, p);
      var g0 := Group(map[], Rows(names, p));
      var g := Group(map[], Rows(names, es));
      GroupRowsLast(names, es);
      assert last !in g0 by {
        forall i | 0 <= i < |p| ensures p[i] != last {
          assert p[i] == es[i];
        }
      }
      assert [] + names(last) == names(last);
      forall e | e in g ensures e in es && g[e] == names(e) && g[e] != [] {
        if e != last {
          assert e in g0;
          var j :| 0 <= j < |p| && p[j] == e;
          assert es[j] == e;
        }
      }
      forall e | e in es && names(e) != [] ensures e in g {
        if e != last {
          var j :| 0 <= j < |es| && es[j] == e;
          assert p[j] == e;
        }
      }
    }
  }
}
