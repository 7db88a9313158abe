/**
 * The tag functions of the storage layer (internal/storage/tag.go) as
 * functions of the database: queries return values, and every statement that
 * writes returns the new database with what the Go function returns.
 */
module TagStore {
  import opened Wrappers
  import opened Names
  import opened Sorting
  import opened Model
  import opened Schema

  /** The tag row `t` as a `Tag` record. */
  function TagOf(db: Db, t: TagId): Tag
    requires t in db.tags
  {
    Tag(t, db.tags[t].owner, db.tags[t].name, db.tags[t].createdAt, None)
  }

  /** The name of tag `t`, or "" if there is no such row. */
  function NameOf(tags: map<TagId, TagRow>, t: TagId): string
  {
    if t in tags then tags[t].name else ""
  }

  /** `ORDER BY name ASC`, ties broken by tag id. */
  predicate TagBefore(tags: map<TagId, TagRow>, a: TagId, b: TagId)
  {
    NameLess(NameOf(tags, a), NameOf(tags, b)) || (NameOf(tags, a) == NameOf(tags, b) && a < b)
  }

  function TagOrder(tags: map<TagId, TagRow>): (TagId, TagId) -> bool
  {
    (a, b) => TagBefore(tags, a, b)
  }

  lemma TagOrderIsStrictTotal(tags: map<TagId, TagRow>, s: set<TagId>)
    ensures StrictTotalOn(s, TagOrder(tags))
  {
    var before := TagOrder(tags);
    forall x | x in s ensures !before(x, x) {
      NameLessIrreflexive(NameOf(tags, x));
    }
    forall x, y, z | x in s && y in s && z in s && before(x, y) && before(y, z) ensures before(x, z) {
      var nx, ny, nz := NameOf(tags, x), NameOf(tags, y), NameOf(tags, z);
      if NameLess(nx, ny) && NameLess(ny, nz) {
        NameLessTransitive(nx, ny, nz);
      }
    }
    forall x, y | x in s && y in s && x != y ensures before(x, y) || before(y, x) {
      if NameOf(tags, x) != NameOf(tags, y) {
        NameLessTotal(NameOf(tags, x), NameOf(tags, y));
      }
    }
  }

  /** Ascending identifiers: the order in which a lookup without `ORDER BY` meets rows here. */
  function IdOrder(): (TagId, TagId) -> bool
  {
    (a, b) => a < b
  }

  // ---------------------------------------------------------------- queries

  /** `SELECT ... FROM tags WHERE user_id=$1 AND id=$2` */
  function TagByID(db: Db, user: UserId, t: TagId): (r: Option<Tag>)
    ensures r.Some? <==> OwnsTag(db, user, t)
    ensures r.Some? ==> r.value == TagOf(db, t) && r.value.userId == user
  {
    if OwnsTag(db, user, t) then Some(TagOf(db, t)) else None
  }

  /** `SELECT true FROM tags WHERE user_id=$1 AND id=$2 LIMIT 1` */
  function TagIDExists(db: Db, user: UserId, t: TagId): (r: bool)
    ensures r <==> TagByID(db, user, t).Some?
  {
    t in db.tags && db.tags[t].owner == user
  }

  /** The user's tags whose name equals `name` ignoring case. */
  function MatchingTags(db: Db, user: UserId, name: string): (r: set<TagId>)
    ensures forall t :: t in r <==> OwnsTag(db, user, t) && SameFolded(db.tags[t].name, name)
  {
    set t | t in db.tags && db.tags[t].owner == user && SameFolded(db.tags[t].name, name)
  }

  /** `SELECT ... FROM tags WHERE user_id=$1 AND lower(name)=lower($2)`: the first matching row. */
  function TagByName(db: Db, user: UserId, name: string): (r: Option<Tag>)
    ensures r.None? <==> forall t | t in db.tags :: !(db.tags[t].owner == user && SameFolded(db.tags[t].name, name))
    ensures r.Some? ==> r.value.id in db.tags && r.value == TagOf(db, r.value.id)
    ensures r.Some? ==> r.value.userId == user && SameFolded(r.value.name, name)
  {
    var matches := MatchingTags(db, user, name);
    assert StrictTotalOn(matches, IdOrder());
    var ids := SortBy(matches, IdOrder());
    if ids == [] then None else Some(TagOf(db, ids[0]))
  }

  /** `SELECT true FROM tags WHERE user_id=$1 AND lower(name)=lower($2) LIMIT 1` */
  function TagNameExists(db: Db, user: UserId, name: string): (r: bool)
    ensures r <==> TagByName(db, user, name).Some?
  {
    MatchingTags(db, user, name) != {}
  }

  /** `SELECT true FROM tags WHERE user_id=$1 AND id != $2 AND lower(name)=lower($3) LIMIT 1` */
  function AnotherTagExists(db: Db, user: UserId, t: TagId, name: string): (r: bool)
    ensures r <==> exists u | u in db.tags :: u != t && db.tags[u].owner == user && SameFolded(db.tags[u].name, name)
  {
    var others := MatchingTags(db, user, name) - {t};
    assert others != {} <==> exists u | u in db.tags :: u != t && db.tags[u].owner == user && SameFolded(db.tags[u].name, name) by {
      if !exists u | u in db.tags :: u != t && db.tags[u].owner == user && SameFolded(db.tags[u].name, name) {
        assert forall u :: u !in others;
        assert others == {};
      }
      if exists u | u in db.tags :: u != t && db.tags[u].owner == user && SameFolded(db.tags[u].name, name) {
        var u :| u in db.tags && u != t && db.tags[u].owner == user && SameFolded(db.tags[u].name, name);
        assert u in MatchingTags(db, user, name);
        assert u in others;
      }
    }
    others != {}
  }

  /** The identifiers of the user's tags. */
  function OwnedTags(db: Db, user: UserId): set<TagId>
  {
    set t | t in db.tags && db.tags[t].owner == user
  }

  /** The identifiers of the user's tags in listing order: by name, ties by id. */
  function ListedIds(db: Db, user: UserId): (ids: seq<TagId>)
    ensures forall t | t in ids :: t in OwnedTags(db, user)
    ensures forall t | t in OwnedTags(db, user) :: t in ids
    ensures Sorted(ids, TagOrder(db.tags))
  {
    TagOrderIsStrictTotal(db.tags, OwnedTags(db, user));
    SortBy(OwnedTags(db, user), TagOrder(db.tags))
  }

  /** The tags with identifiers `ids`, in that order. */
  function TagViews(db: Db, ids: seq<TagId>): (r: seq<Tag>)
    requires forall t | t in ids :: t in db.tags
    ensures |r| == |ids| && forall i | 0 <= i < |ids| :: r[i] == TagOf(db, ids[i])
  {
    if ids == [] then [] else [TagOf(db, ids[0])] + TagViews(db, ids[1..])
  }

  /** `SELECT ... FROM tags WHERE user_id=$1 ORDER BY name ASC` */
  function Tags(db: Db, user: UserId): (r: seq<Tag>)
    ensures forall i | 0 <= i < |r| :: OwnsTag(db, user, r[i].id) && r[i] == TagOf(db, r[i].id)
    ensures forall t | OwnsTag(db, user, t) :: exists i :: 0 <= i < |r| && r[i].id == t
    ensures forall i, j | 0 <= i < j < |r| :: r[i].id != r[j].id && NameLessOrEqual(r[i].name, r[j].name)
  {
    var ids := ListedIds(db, user);
    var r := TagViews(db, ids);
    ListingFacts(db, user, ids, r);
    r
  }

  lemma ListingFacts(db: Db, user: UserId, ids: seq<TagId>, r: seq<Tag>)
    requires forall t | t in ids :: t in OwnedTags(db, user)
    requires forall t | t in OwnedTags(db, user) :: t in ids
    requires Sorted(ids, TagOrder(db.tags))
    requires forall t | t in ids :: t in db.tags
    requires |r| == |ids| && forall i | 0 <= i < |ids| :: r[i] == TagOf(db, ids[i])
    ensures forall i | 0 <= i < |r| :: OwnsTag(db, user, r[i].id) && r[i] == TagOf(db, r[i].id)
    ensures forall t | OwnsTag(db, user, t) :: exists i :: 0 <= i < |r| && r[i].id == t
    ensures forall i, j | 0 <= i < j < |r| :: r[i].id != r[j].id && NameLessOrEqual(r[i].name, r[j].name)
  {
    forall i | 0 <= i < |r| ensures OwnsTag(db, user, r[i].id) {
      assert ids[i] in ids;
    }
    forall t | OwnsTag(db, user, t) ensures exists i :: 0 <= i < |r| && r[i].id == t {
      assert t in OwnedTags(db, user);
      var i :| 0 <= i < |ids| && ids[i] == t;
      assert r[i].id == t;
    }
    forall i, j | 0 <= i < j < |r| ensures r[i].id != r[j].id && NameLessOrEqual(r[i].name, r[j].name) {
      assert TagOrder(db.tags)(ids[i], ids[j]);
      assert TagBefore(db.tags, ids[i], ids[j]);
      NameLessIrreflexive(NameOf(db.tags, ids[i]));
    }
  }

  /** The entries that carry tag `t`. */
  function TaggedWith(db: Db, t: TagId): set<EntryId>
  {
    set k | k in db.entryTags && k.1 == t :: k.0
  }

  /** The number of `entry_tags` rows that reference tag `t`: one per entry carrying it. */
  function TagEntryCount(db: Db, t: TagId): (n: nat)
    ensures n == |TaggedWith(db, t)|
    ensures n == 0 <==> forall e :: (e, t) !in db.entryTags
  {
    var rows := set k | k in db.entryTags && k.1 == t;
    RowsOfOneTag(rows, t);
    assert (set k | k in rows :: k.0) == TaggedWith(db, t);
    assert rows == {} <==> forall e :: (e, t) !in db.entryTags by {
      if rows != {} {
        var k :| k in rows;
        assert (k.0, t) in db.entryTags;
      }
      if exists e :: (e, t) in db.entryTags {
        var e :| (e, t) in db.entryTags;
        assert (e, t) in rows;
      }
    }
    |rows|
  }

  /** Rows that all reference one tag are as many as the entries they name. */
  lemma {:induction false} RowsOfOneTag(rows: set<EntryTagKey>, t: TagId)
    requires forall k | k in rows :: k.1 == t
    ensures |rows| == |set k | k in rows :: k.0|
    decreases rows
  {
    if rows != {} {
      var k :| k in rows;
      var rest := rows - {k};
      RowsOfOneTag(rest, t);
      var names := set j | j in rows :: j.0;
      var restNames := set j | j in rest :: j.0;
      assert names == restNames + {k.0};
      forall j | j in rest ensures j.0 != k.0 {
        assert j.1 == k.1 && j != k;
      }
    }
  }

  /**
   * `SELECT t.*, COUNT(et.entry_id) FROM tags t LEFT JOIN entry_tags et ...
   * WHERE t.user_id = $1 GROUP BY ... ORDER BY t.name ASC`
   */
  function TagsWithCount(db: Db, user: UserId): (r: seq<Tag>)
    ensures |r| == |Tags(db, user)|
    ensures forall i | 0 <= i < |r| :: r[i] == Tags(db, user)[i].(entryCount := Some(TagEntryCount(db, r[i].id)))
  {
    Counted(db, Tags(db, user))
  }

  /** The tags `ts`, each with its number of associations. */
  function Counted(db: Db, ts: seq<Tag>): (r: seq<Tag>)
    ensures |r| == |ts| && forall i | 0 <= i < |ts| :: r[i] == ts[i].(entryCount := Some(TagEntryCount(db, ts[i].id)))
  {
    if ts == [] then [] else [ts[0].(entryCount := Some(TagEntryCount(db, ts[0].id)))] + Counted(db, ts[1..])
  }

  // ---------------------------------------------------------------- statements

  /** `INSERT INTO tags (user_id, name) VALUES ($1, $2) RETURNING ...` */
  function CreateTag(db: Db, user: UserId, name: string, now: Time): (r: (Db, Tag))
    requires Valid(db)
    ensures Valid(r.0)
    ensures r.1.id !in db.tags && r.0.tags.Keys == db.tags.Keys + {r.1.id}
    ensures r.1 == Tag(r.1.id, user, name, now, None) && r.0.tags[r.1.id] == TagRow(user, name, now)
    ensures forall t | t in db.tags :: r.0.tags[t] == db.tags[t]
    ensures r.0 == db.(tags := r.0.tags, nextTagId := r.0.nextTagId)
  {
    var id := db.nextTagId;
    (db.(tags := db.tags[id := TagRow(user, name, now)], nextTagId := id + 1), Tag(id, user, name, now, None))
  }

  /** `UPDATE tags SET name=$1 WHERE id=$2 AND user_id=$3` */
  function UpdateTag(db: Db, tag: Tag): (r: Db)
    ensures !OwnsTag(db, tag.userId, tag.id) ==> r == db
    ensures r.tags.Keys == db.tags.Keys
    ensures forall t | t in db.tags && t != tag.id :: r.tags[t] == db.tags[t]
    ensures OwnsTag(db, tag.userId, tag.id) ==>
      r.tags[tag.id] == TagRow(tag.userId, tag.name, db.tags[tag.id].createdAt)
    ensures r == db.(tags := r.tags)
  {
    if OwnsTag(db, tag.userId, tag.id) then
      db.(tags := db.tags[tag.id := db.tags[tag.id].(name := tag.name)])
    else db
  }

  /** `DELETE FROM tags WHERE id=$1 AND user_id=$2`, reporting a miss when no row was affected. */
  function RemoveTag(db: Db, user: UserId, t: TagId): (r: (Db, Outcome))
    ensures !OwnsTag(db, user, t) ==> r == (db, Fail(NotFound))
    ensures OwnsTag(db, user, t) ==> r.1 == Pass && r.0.tags == db.tags - {t}
    ensures OwnsTag(db, user, t) ==> forall k | k in r.0.entryTags :: k.1 != t
    ensures forall k | k in r.0.entryTags :: k in db.entryTags && r.0.entryTags[k] == db.entryTags[k]
    ensures forall k | k in db.entryTags && k.1 != t :: k in r.0.entryTags
    ensures r.0 == db.(tags := r.0.tags, entryTags := r.0.entryTags)
  {
    if OwnsTag(db, user, t) then (DropTag(db, t), Pass) else (db, Fail(NotFound))
  }

  /** `TagByName`, then `CreateTag` when nothing matched. */
  function GetOrCreateTag(db: Db, user: UserId, name: string, now: Time): (r: (Db, Tag))
    requires Valid(db)
    ensures Valid(r.0)
    ensures r.1.id in r.0.tags && r.1 == TagOf(r.0, r.1.id)
    ensures r.1.userId == user && SameFolded(r.1.name, name)
    ensures TagByName(db, user, name).Some? ==> r.0 == db
    ensures TagByName(db, user, name).None? ==> r.1.id !in db.tags && r.0.tags == db.tags[r.1.id := TagRow(user, name, now)]
    ensures r.0 == db.(tags := r.0.tags, nextTagId := r.0.nextTagId)
  {
    match TagByName(db, user, name)
    case Some(tag) => (db, tag)
    case None => CreateTag(db, user, name, now)
  }

  /** When exactly one tag matches, the lookup by name returns it. */
  lemma TagByNameSingleton(db: Db, user: UserId, name: string, id: TagId)
    requires MatchingTags(db, user, name) == {id}
    ensures id in db.tags && TagByName(db, user, name) == Some(TagOf(db, id))
  {
    assert id in MatchingTags(db, user, name);
    SortedUnique([id], {id}, IdOrder());
  }

  /** After `GetOrCreateTag`, looking the name up finds the tag it returned. */
  lemma GetOrCreateTagFinds(db: Db, user: UserId, name: string, now: Time)
    requires Valid(db)
    ensures TagByName(GetOrCreateTag(db, user, name, now).0, user, name) == Some(GetOrCreateTag(db, user, name, now).1)
  {
    var r := GetOrCreateTag(db, user, name, now);
    if TagByName(db, user, name).None? {
      var id := r.1.id;
      assert MatchingTags(r.0, user, name) == {id} by {
        assert id in MatchingTags(r.0, user, name);
        forall u | u in MatchingTags(r.0, user, name) ensures u == id {
        }
      }
      TagByNameSingleton(r.0, user, name, id);
    }
  }

  /** A second call with the same name returns the same tag and creates nothing. */
  lemma GetOrCreateTagIsStable(db: Db, user: UserId, name: string, now1: Time, now2: Time)
    requires Valid(db)
    ensures GetOrCreateTag(GetOrCreateTag(db, user, name, now1).0, user, name, now2)
         == GetOrCreateTag(db, user, name, now1)
  {
    GetOrCreateTagFinds(db, user, name, now1);
  }

  /** Creating a tag only when no case-variant exists keeps names unique. */
  lemma GetOrCreateTagKeepsNamesUnique(db: Db, user: UserId, name: string, now: Time)
    requires Valid(db) && NamesUnique(db)
    ensures NamesUnique(GetOrCreateTag(db, user, name, now).0)
  {
  }

  // ---------------------------------------------------------------- integrity

  /**
   * The tag statements keep every association pointing at an existing entry
   * and tag of one owner: the insert takes a fresh id, the rename changes no
   * owner, and the delete cascades to the tag's associations.
   */
  lemma TagStatementsKeepIntegrity(db: Db, user: UserId, t: TagId, tag: Tag, name: string, now: Time)
    requires Valid(db) && TagRefsIntact(db) && TenantIsolated(db)
    ensures TagRefsIntact(CreateTag(db, user, name, now).0) && TenantIsolated(CreateTag(db, user, name, now).0)
    ensures TagRefsIntact(UpdateTag(db, tag)) && TenantIsolated(UpdateTag(db, tag))
    ensures TagRefsIntact(RemoveTag(db, user, t).0) && TenantIsolated(RemoveTag(db, user, t).0)
  {
    var created := CreateTag(db, user, name, now).0;
    forall k | k in created.entryTags ensures k.1 in created.tags && created.tags[k.1] == db.tags[k.1] {
      assert k.1 in db.tags;
    }
  }
}
