/**
 * The entry-tag functions of the storage layer (internal/storage/entry_tag.go)
 * as functions of the database: attaching and detaching tags, confirming
 * automatic tags, and the listings and counts over `entry_tags`.
 */
module EntryTagStore {
  import opened Wrappers
  import opened Names
  import opened Sorting
  import opened Model
  import opened Schema
  import opened TagStore

  // ---------------------------------------------------------------- attaching

  /** The provenance that is stored for a requested one: an empty source means manual. */
  function StoredSource(source: string): string
  {
    if source == "" then TagSourceManual else source
  }

  /** `INSERT INTO entry_tags ... VALUES (k, source) ON CONFLICT (entry_id, tag_id) DO UPDATE SET source = source` */
  function Upsert(et: map<EntryTagKey, EntryTagRow>, k: EntryTagKey, source: string, now: Time): (r: map<EntryTagKey, EntryTagRow>)
    ensures r.Keys == et.Keys + {k}
    ensures r[k].source == source
    ensures r[k].createdAt == if k in et then et[k].createdAt else now
    ensures forall j | j in et && j != k :: r[j] == et[j]
  {
    if k in et then et[k := et[k].(source := source)] else et[k := EntryTagRow(source, now)]
  }

  /** `AddTagToEntry(userID, entryID, tagID, source)`: both ownership checks, then the upsert. */
  function AddTagToEntry(db: Db, user: UserId, e: EntryId, t: TagId, source: string, now: Time): (r: (Db, Outcome))
    ensures r.1.Fail? <==> !OwnsEntry(db, user, e) || !OwnsTag(db, user, t)
    ensures r.1.Fail? ==> r == (db, Fail(NotFound))
    ensures r.0 == db.(entryTags := r.0.entryTags)
    ensures r.1 == Pass ==> (e, t) in r.0.entryTags && r.0.entryTags[(e, t)].source == StoredSource(source)
    ensures r.1 == Pass ==> r.0.entryTags[(e, t)].createdAt == if (e, t) in db.entryTags then db.entryTags[(e, t)].createdAt else now
    ensures r.0.entryTags.Keys <= db.entryTags.Keys + {(e, t)}
    ensures forall k | k in db.entryTags && k != (e, t) :: k in r.0.entryTags && r.0.entryTags[k] == db.entryTags[k]
    ensures (e, t) in db.entryTags ==> (e, t) in r.0.entryTags
  {
    if !OwnsEntry(db, user, e) then (db, Fail(NotFound))
    else if !OwnsTag(db, user, t) then (db, Fail(NotFound))
    else (db.(entryTags := Upsert(db.entryTags, (e, t), StoredSource(source), now)), Pass)
  }

  /** `AddTagsToEntry`: `AddTagToEntry` for each id in order, stopping at the first error. */
  function AddTagsToEntry(db: Db, user: UserId, e: EntryId, ts: seq<TagId>, source: string, now: Time): (r: (Db, Outcome))
    ensures r.0 == db.(entryTags := r.0.entryTags)
    ensures r.1 == Pass <==> ts == [] || (OwnsEntry(db, user, e) && forall t | t in ts :: OwnsTag(db, user, t))
    ensures r.1.Fail? ==> r.1.error == NotFound
    ensures !OwnsEntry(db, user, e) ==> r == (db, if ts == [] then Pass else Fail(NotFound))
    decreases |ts|
  {
    if ts == [] then (db, Pass)
    else
      var first := AddTagToEntry(db, user, e, ts[0], source, now);
      if first.1.Fail? then first
      else
        AllOwnedCons(db, first.0, user, ts);
        AddTagsToEntry(first.0, user, e, ts[1..], source, now)
  }

  /** One step of `AddTagsToEntry` over the suffix that starts at `i`. */
  lemma AddTagsToEntryFrom(db: Db, user: UserId, e: EntryId, ts: seq<TagId>, source: string, now: Time, i: nat)
    requires i < |ts|
    ensures AddTagsToEntry(db, user, e, ts[i..], source, now) ==
      var first := AddTagToEntry(db, user, e, ts[i], source, now);
      if first.1.Fail? then first else AddTagsToEntry(first.0, user, e, ts[i + 1..], source, now)
  {
    assert ts[i..][1..] == ts[i + 1..];
  }

  /** The user owns every listed tag exactly when it owns the first and every later one. */
  lemma AllOwnedCons(db: Db, db1: Db, user: UserId, ts: seq<TagId>)
    requires ts != [] && db1.tags == db.tags
    ensures (forall t | t in ts :: OwnsTag(db, user, t)) <==>
            OwnsTag(db, user, ts[0]) && forall t | t in ts[1..] :: OwnsTag(db1, user, t)
  {
    if OwnsTag(db, user, ts[0]) && forall t | t in ts[1..] :: OwnsTag(db1, user, t) {
      forall t | t in ts ensures OwnsTag(db, user, t) {
        var j :| 0 <= j < |ts| && ts[j] == t;
        if j > 0 {
          assert ts[1..][j - 1] == t;
          assert t in ts[1..] && OwnsTag(db1, user, t);
        }
      }
    }
    if forall t | t in ts :: OwnsTag(db, user, t) {
      assert ts[0] in ts;
      forall t | t in ts[1..] ensures OwnsTag(db1, user, t) {
        assert t in ts;
      }
    }
  }

  /**
   * What `AddTagsToEntry` writes: every id is attached with the stored source
   * when the call succeeds, no row disappears, and the only rows that appear
   * or change are the entry's rows for the listed ids.
   */
  lemma {:induction false} AddTagsToEntryEffect(db: Db, user: UserId, e: EntryId, ts: seq<TagId>, source: string, now: Time)
    ensures var r := AddTagsToEntry(db, user, e, ts, source, now);
      && (r.1 == Pass ==> forall t | t in ts :: (e, t) in r.0.entryTags && r.0.entryTags[(e, t)].source == StoredSource(source))
      && (forall k | k in db.entryTags :: k in r.0.entryTags)
      && (forall k | k in r.0.entryTags && (k !in db.entryTags || r.0.entryTags[k] != db.entryTags[k]) :: k.0 == e && k.1 in ts)
    decreases |ts|
  {
    if ts != [] {
      var first := AddTagToEntry(db, user, e, ts[0], source, now);
      if first.1 == Pass {
        AddTagsToEntryEffect(first.0, user, e, ts[1..], source, now);
        var r := AddTagsToEntry(db, user, e, ts, source, now);
        assert r == AddTagsToEntry(first.0, user, e, ts[1..], source, now);
        assert forall t | t in ts[1..] :: t in ts;
        assert forall t | t in ts :: t == ts[0] || t in ts[1..];
      }
    }
  }

  /**
   * When the `j`-th id is the first one the user does not own, the ids before
   * it are attached and stay attached, and the call reports the error.
   */
  lemma {:induction false} AddTagsToEntryStopsAtFirstError(db: Db, user: UserId, e: EntryId, ts: seq<TagId>, source: string, now: Time, j: nat)
    requires OwnsEntry(db, user, e)
    requires j < |ts| && !OwnsTag(db, user, ts[j])
    requires forall i | 0 <= i < j :: OwnsTag(db, user, ts[i])
    ensures AddTagsToEntry(db, user, e, ts[..j], source, now).1 == Pass
    ensures AddTagsToEntry(db, user, e, ts, source, now) == (AddTagsToEntry(db, user, e, ts[..j], source, now).0, Fail(NotFound))
    decreases j
  {
    if j > 0 {
      var first := AddTagToEntry(db, user, e, ts[0], source, now);
      assert ts[..j][1..] == ts[1..][..j - 1];
      assert first.0.tags == db.tags && first.0.entries == db.entries;
      AddTagsToEntryStopsAtFirstError(first.0, user, e, ts[1..], source, now, j - 1);
    }
  }

  /** Reading a tag by name looks at the `tags` table only. */
  lemma TagByNameReadsTags(db1: Db, db2: Db, user: UserId, name: string)
    requires db1.tags == db2.tags
    ensures TagByName(db1, user, name) == TagByName(db2, user, name)
  {
    assert MatchingTags(db1, user, name) == MatchingTags(db2, user, name);
  }

  /** `AddTagToEntryByName`: resolve the name with `GetOrCreateTag`, then `AddTagToEntry`. */
  function AddTagToEntryByName(db: Db, user: UserId, e: EntryId, name: string, source: string, now: Time): (r: (Db, Outcome))
    requires Valid(db)
    ensures Valid(r.0)
    ensures r.1 == Pass <==> OwnsEntry(db, user, e)
    ensures r.1.Fail? ==> r.1.error == NotFound && r.0.entryTags == db.entryTags
    ensures r.0 == db.(tags := r.0.tags, entryTags := r.0.entryTags, nextTagId := r.0.nextTagId)
    ensures forall t | t in db.tags :: t in r.0.tags && r.0.tags[t] == db.tags[t]
    ensures forall k | k in db.entryTags :: k in r.0.entryTags
  {
    var (db1, tag) := GetOrCreateTag(db, user, name, now);
    AddTagToEntry(db1, user, e, tag.id, source, now)
  }

  /**
   * What `AddTagToEntryByName` does to the tags and the associations: a tag
   * is created only when no case variant exists, the name resolves afterwards,
   * and on success the resolved tag is attached with the stored source; no
   * other association changes.
   */
  lemma AddTagToEntryByNameEffect(db: Db, user: UserId, e: EntryId, name: string, source: string, now: Time)
    requires Valid(db)
    ensures var r := AddTagToEntryByName(db, user, e, name, source, now);
      && (TagByName(db, user, name).Some? ==> r.0.tags == db.tags)
      && (TagByName(db, user, name).None? ==> exists t :: t !in db.tags && r.0.tags == db.tags[t := TagRow(user, name, now)])
      && TagByName(r.0, user, name).Some?
      && (r.1 == Pass ==> var t := TagByName(r.0, user, name).value.id;
            (e, t) in r.0.entryTags && r.0.entryTags[(e, t)].source == StoredSource(source))
      && (forall k | k in r.0.entryTags && (k !in db.entryTags || r.0.entryTags[k] != db.entryTags[k]) ::
            k.0 == e && k.1 == TagByName(r.0, user, name).value.id)
  {
    var (db1, tag) := GetOrCreateTag(db, user, name, now);
    var r := AddTagToEntry(db1, user, e, tag.id, source, now);
    GetOrCreateTagFinds(db, user, name, now);
    TagByNameReadsTags(db1, r.0, user, name);
  }

  /** `AddTagsToEntryByName`: `AddTagToEntryByName` for each name in order, stopping at the first error. */
  function AddTagsToEntryByName(db: Db, user: UserId, e: EntryId, names: seq<string>, source: string, now: Time): (r: (Db, Outcome))
    requires Valid(db)
    ensures Valid(r.0)
    ensures r.1 == Pass <==> names == [] || OwnsEntry(db, user, e)
    ensures r.1.Fail? ==> r.1.error == NotFound
    ensures names == [] ==> r == (db, Pass)
    ensures r.0 == db.(tags := r.0.tags, entryTags := r.0.entryTags, nextTagId := r.0.nextTagId)
    ensures forall t | t in db.tags :: t in r.0.tags && r.0.tags[t] == db.tags[t]
    ensures forall k | k in db.entryTags :: k in r.0.entryTags
    decreases |names|
  {
    if names == [] then (db, Pass)
    else
      var first := AddTagToEntryByName(db, user, e, names[0], source, now);
      if first.1.Fail? then first
      else AddTagsToEntryByName(first.0, user, e, names[1..], source, now)
  }

  /** One step of `AddTagsToEntryByName` over the suffix that starts at `i`. */
  lemma AddTagsToEntryByNameFrom(db: Db, user: UserId, e: EntryId, names: seq<string>, source: string, now: Time, i: nat)
    requires Valid(db) && i < |names|
    ensures AddTagsToEntryByName(db, user, e, names[i..], source, now) ==
      var first := AddTagToEntryByName(db, user, e, names[i], source, now);
      if first.1.Fail? then first else AddTagsToEntryByName(first.0, user, e, names[i + 1..], source, now)
  {
    assert names[i..][1..] == names[i + 1..];
  }

  /** A name that already resolved before the call resolves to the same tag after it. */
  lemma {:induction false} AddTagsToEntryByNameKeepsLookups(db: Db, user: UserId, e: EntryId, names: seq<string>, source: string, now: Time, other: string)
    requires Valid(db) && TagByName(db, user, other).Some?
    ensures TagByName(AddTagsToEntryByName(db, user, e, names, source, now).0, user, other) == TagByName(db, user, other)
    decreases |names|
  {
    if names != [] {
      var first := AddTagToEntryByName(db, user, e, names[0], source, now);
      AttachByNameKeepsLookups(db, user, e, names[0], source, now, other);
      if first.1 == Pass {
        AddTagsToEntryByNameKeepsLookups(first.0, user, e, names[1..], source, now, other);
      }
    }
  }

  /**
   * After a successful call every listed name resolves to a tag of the user
   * that is attached to the entry with the requested provenance.
   */
  lemma {:induction false} AddTagsToEntryByNameAttachesAll(db: Db, user: UserId, e: EntryId, names: seq<string>, source: string, now: Time)
    requires Valid(db)
    requires AddTagsToEntryByName(db, user, e, names, source, now).1 == Pass
    ensures var r := AddTagsToEntryByName(db, user, e, names, source, now).0;
      forall n | n in names :: TagByName(r, user, n).Some? &&
        (e, TagByName(r, user, n).value.id) in r.entryTags &&
        r.entryTags[(e, TagByName(r, user, n).value.id)].source == StoredSource(source)
    decreases |names|
  {
    if names != [] {
      var first := AddTagToEntryByName(db, user, e, names[0], source, now);
      var r := AddTagsToEntryByName(db, user, e, names, source, now).0;
      AddTagsToEntryByNameAttachesAll(first.0, user, e, names[1..], source, now);
      forall n | n in names
        ensures TagByName(r, user, n).Some? &&
          (e, TagByName(r, user, n).value.id) in r.entryTags &&
          r.entryTags[(e, TagByName(r, user, n).value.id)].source == StoredSource(source)
      {
        if n != names[0] {
          assert n in names[1..];
        } else {
          AddTagToEntryByNameEffect(db, user, e, names[0], source, now);
          AddTagsToEntryByNameKeepsLookups(first.0, user, e, names[1..], source, now, n);
          AddTagsToEntryByNameKeepsRow(first.0, user, e, names[1..], source, now, (e, TagByName(first.0, user, n).value.id));
        }
      }
    }
  }

  /** A row the later names do not touch keeps its provenance. */
  lemma {:induction false} AddTagsToEntryByNameKeepsRow(db: Db, user: UserId, e: EntryId, names: seq<string>, source: string, now: Time, k: EntryTagKey)
    requires Valid(db) && k in db.entryTags && db.entryTags[k].source == StoredSource(source)
    ensures var r := AddTagsToEntryByName(db, user, e, names, source, now).0;
      k in r.entryTags && r.entryTags[k].source == StoredSource(source)
    decreases |names|
  {
    if names != [] {
      var first := AddTagToEntryByName(db, user, e, names[0], source, now);
      if first.1 == Pass {
        AddTagsToEntryByNameKeepsRow(first.0, user, e, names[1..], source, now, k);
      }
    }
  }

  /**
   * Attaching by one name does not change what another name that already
   * resolved resolves to: a tag is created only when no case variant exists.
   */
  lemma AttachByNameKeepsLookups(db: Db, user: UserId, e: EntryId, name: string, source: string, now: Time, other: string)
    requires Valid(db) && TagByName(db, user, other).Some?
    ensures TagByName(AddTagToEntryByName(db, user, e, name, source, now).0, user, other) == TagByName(db, user, other)
  {
    var r := AddTagToEntryByName(db, user, e, name, source, now);
    AddTagToEntryByNameEffect(db, user, e, name, source, now);
    if TagByName(db, user, name).None? {
      var t :| t !in db.tags && r.0.tags == db.tags[t := TagRow(user, name, now)];
      assert MatchingTags(r.0, user, other) == MatchingTags(db, user, other);
    } else {
      TagByNameReadsTags(db, r.0, user, other);
    }
  }

  // ---------------------------------------------------------------- detaching

  /** `RemoveTagFromEntry`: the entry check, then `DELETE FROM entry_tags WHERE entry_id=$1 AND tag_id=$2`. */
  function RemoveTagFromEntry(db: Db, user: UserId, e: EntryId, t: TagId): (r: (Db, Outcome))
    ensures !OwnsEntry(db, user, e) ==> r == (db, Fail(NotFound))
    ensures OwnsEntry(db, user, e) ==> r.1 == Pass
    ensures r.0 == db.(entryTags := r.0.entryTags)
    ensures OwnsEntry(db, user, e) ==> r.0.entryTags.Keys == db.entryTags.Keys - {(e, t)}
    ensures forall k | k in r.0.entryTags :: k in db.entryTags && r.0.entryTags[k] == db.entryTags[k]
  {
    if !OwnsEntry(db, user, e) then (db, Fail(NotFound))
    else (db.(entryTags := db.entryTags - {(e, t)}), Pass)
  }

  /** Detaching twice is detaching once. */
  lemma RemoveTagFromEntryIdempotent(db: Db, user: UserId, e: EntryId, t: TagId)
    ensures RemoveTagFromEntry(RemoveTagFromEntry(db, user, e, t).0, user, e, t) == RemoveTagFromEntry(db, user, e, t)
  {
    var once := RemoveTagFromEntry(db, user, e, t);
    if OwnsEntry(db, user, e) {
      assert once.0.entryTags - {(e, t)} == once.0.entryTags;
    }
  }

  /** `RemoveAllTagsFromEntry`: the entry check, then `DELETE FROM entry_tags WHERE entry_id=$1`. */
  function RemoveAllTagsFromEntry(db: Db, user: UserId, e: EntryId): (r: (Db, Outcome))
    ensures !OwnsEntry(db, user, e) ==> r == (db, Fail(NotFound))
    ensures OwnsEntry(db, user, e) ==> r.1 == Pass && forall k | k in r.0.entryTags :: k.0 != e
    ensures r.0 == db.(entryTags := r.0.entryTags)
    ensures forall k | k in r.0.entryTags :: k in db.entryTags && r.0.entryTags[k] == db.entryTags[k]
    ensures forall k | k in db.entryTags && k.0 != e :: k in r.0.entryTags
  {
    if !OwnsEntry(db, user, e) then (db, Fail(NotFound))
    else (db.(entryTags := map k | k in db.entryTags && k.0 != e :: db.entryTags[k]), Pass)
  }

  /** `ConfirmAutoTag`: the entry check, then `UPDATE entry_tags SET source='manual' WHERE entry_id=$2 AND tag_id=$3`. */
  function ConfirmAutoTag(db: Db, user: UserId, e: EntryId, t: TagId): (r: (Db, Outcome))
    ensures !OwnsEntry(db, user, e) ==> r == (db, Fail(NotFound))
    ensures OwnsEntry(db, user, e) ==> r.1 == Pass
    ensures r.0 == db.(entryTags := r.0.entryTags)
    ensures r.0.entryTags.Keys == db.entryTags.Keys
    ensures forall k | k in db.entryTags && k != (e, t) :: r.0.entryTags[k] == db.entryTags[k]
    ensures OwnsEntry(db, user, e) && (e, t) in db.entryTags ==>
      r.0.entryTags[(e, t)] == EntryTagRow(TagSourceManual, db.entryTags[(e, t)].createdAt)
  {
    if !OwnsEntry(db, user, e) then (db, Fail(NotFound))
    else if (e, t) in db.entryTags then
      (db.(entryTags := db.entryTags[(e, t) := db.entryTags[(e, t)].(source := TagSourceManual)]), Pass)
    else (db, Pass)
  }

  /**
   * `DELETE FROM entry_tags WHERE entry_id=$1 AND source='auto' AND tag_id IN
   * (SELECT id FROM tags WHERE user_id=$3)`; there is no entry check.
   */
  function RemoveAutoTagsFromEntry(db: Db, user: UserId, e: EntryId): (r: Db)
    ensures r == db.(entryTags := r.entryTags)
    ensures forall k | k in r.entryTags :: k in db.entryTags && r.entryTags[k] == db.entryTags[k]
    ensures forall k | k in db.entryTags ::
      k !in r.entryTags <==> k.0 == e && db.entryTags[k].source == TagSourceAuto && OwnsTag(db, user, k.1)
  {
    db.(entryTags := map k | k in db.entryTags && !(k.0 == e && db.entryTags[k].source == TagSourceAuto && OwnsTag(db, user, k.1)) :: db.entryTags[k])
  }

  /** Attaching by name keeps case-insensitive names unique per user. */
  lemma {:induction false} AddTagsToEntryByNameKeepsNamesUnique(db: Db, user: UserId, e: EntryId, names: seq<string>, source: string, now: Time)
    requires Valid(db) && NamesUnique(db)
    ensures NamesUnique(AddTagsToEntryByName(db, user, e, names, source, now).0)
    decreases |names|
  {
    if names != [] {
      var first := AddTagToEntryByName(db, user, e, names[0], source, now);
      GetOrCreateTagKeepsNamesUnique(db, user, names[0], now);
      assert first.0.tags == GetOrCreateTag(db, user, names[0], now).0.tags;
      if first.1 == Pass {
        AddTagsToEntryByNameKeepsNamesUnique(first.0, user, e, names[1..], source, now);
      }
    }
  }

  /**
   * A call for an entry the user does not own fails, yet the first name's
   * tag has been created by then when it did not exist.
   */
  lemma AddTagsToEntryByNameFailureKeepsCreatedTag(db: Db, user: UserId, e: EntryId, names: seq<string>, source: string, now: Time)
    requires Valid(db) && names != [] && !OwnsEntry(db, user, e)
    requires TagByName(db, user, names[0]).None?
    ensures var r := AddTagsToEntryByName(db, user, e, names, source, now);
      r.1 == Fail(NotFound) && r.0.entryTags == db.entryTags &&
      TagByName(r.0, user, names[0]).Some? && |r.0.tags| == |db.tags| + 1
  {
    var r := AddTagToEntryByName(db, user, e, names[0], source, now);
    AddTagToEntryByNameEffect(db, user, e, names[0], source, now);
    var t :| t !in db.tags && r.0.tags == db.tags[t := TagRow(user, names[0], now)];
    assert r.0.tags.Keys == db.tags.Keys + {t};
  }

  // ---------------------------------------------------------------- listings

  /** The association `(e, t)` exists and `t` is a tag, so it can be joined. */
  predicate Attached(db: Db, e: EntryId, t: TagId)
  {
    (e, t) in db.entryTags && t in db.tags
  }

  /** The joined row `SELECT et.entry_id, et.tag_id, et.source, et.created_at, t.name`. */
  function EntryTagOf(db: Db, e: EntryId, t: TagId): EntryTag
    requires Attached(db, e, t)
  {
    EntryTag(e, t, db.entryTags[(e, t)].source, db.entryTags[(e, t)].createdAt, db.tags[t].name)
  }

  function Views(db: Db, e: EntryId, ids: seq<TagId>): (r: seq<EntryTag>)
    requires forall t | t in ids :: Attached(db, e, t)
    ensures |r| == |ids| && forall i | 0 <= i < |ids| :: r[i] == EntryTagOf(db, e, ids[i])
  {
    if ids == [] then [] else [EntryTagOf(db, e, ids[0])] + Views(db, e, ids[1..])
  }

  /** The ids of the user's tags attached to entry `e`. */
  function EntryTagIds(db: Db, user: UserId, e: EntryId): set<TagId>
  {
    set t | t in db.tags && db.tags[t].owner == user && (e, t) in db.entryTags
  }

  /** `SELECT ... FROM entry_tags et JOIN tags t ... WHERE et.entry_id=$1 AND t.user_id=$2 ORDER BY t.name ASC` */
  function GetEntryTags(db: Db, user: UserId, e: EntryId): (r: seq<EntryTag>)
    ensures forall i | 0 <= i < |r| :: OwnsTag(db, user, r[i].tagId) && Attached(db, e, r[i].tagId) && r[i] == EntryTagOf(db, e, r[i].tagId)
    ensures forall t | OwnsTag(db, user, t) && (e, t) in db.entryTags :: exists i :: 0 <= i < |r| && r[i].tagId == t
    ensures forall i, j | 0 <= i < j < |r| :: r[i].tagId != r[j].tagId && NameLessOrEqual(r[i].tagName, r[j].tagName)
  {
    TagOrderIsStrictTotal(db.tags, EntryTagIds(db, user, e));
    var ids := SortBy(EntryTagIds(db, user, e), TagOrder(db.tags));
    var r := Views(db, e, ids);
    EntryListingFacts(db, user, e, ids, r);
    r
  }

  lemma EntryListingFacts(db: Db, user: UserId, e: EntryId, ids: seq<TagId>, r: seq<EntryTag>)
    requires forall t | t in ids :: t in EntryTagIds(db, user, e)
    requires forall t | t in EntryTagIds(db, user, e) :: t in ids
    requires Sorted(ids, TagOrder(db.tags))
    requires |r| == |ids| && forall i | 0 <= i < |ids| :: Attached(db, e, ids[i]) && r[i] == EntryTagOf(db, e, ids[i])
    ensures forall i | 0 <= i < |r| :: OwnsTag(db, user, r[i].tagId) && Attached(db, e, r[i].tagId) && r[i] == EntryTagOf(db, e, r[i].tagId)
    ensures forall t | OwnsTag(db, user, t) && (e, t) in db.entryTags :: exists i :: 0 <= i < |r| && r[i].tagId == t
    ensures forall i, j | 0 <= i < j < |r| :: r[i].tagId != r[j].tagId && NameLessOrEqual(r[i].tagName, r[j].tagName)
  {
    forall i | 0 <= i < |r| ensures OwnsTag(db, user, r[i].tagId) {
      assert ids[i] in ids;
    }
    forall t | OwnsTag(db, user, t) && (e, t) in db.entryTags ensures exists i :: 0 <= i < |r| && r[i].tagId == t {
      assert t in EntryTagIds(db, user, e);
      var i :| 0 <= i < |ids| && ids[i] == t;
      assert r[i].tagId == t;
    }
    forall i, j | 0 <= i < j < |r| ensures r[i].tagId != r[j].tagId && NameLessOrEqual(r[i].tagName, r[j].tagName) {
      assert TagOrder(db.tags)(ids[i], ids[j]);
      assert TagBefore(db.tags, ids[i], ids[j]);
      NameLessIrreflexive(NameOf(db.tags, ids[i]));
    }
  }

  /** The association `(e, t)` was made automatically. */
  function AutoRow(db: Db, e: EntryId): TagId -> bool
  {
    t => (e, t) in db.entryTags && db.entryTags[(e, t)].source == TagSourceAuto
  }

  predicate AutoSource(x: EntryTag)
  {
    x.source == TagSourceAuto
  }

  /** `GetEntryTags` with the extra condition `AND et.source = 'auto'`. */
  function GetAutoTagsForEntry(db: Db, user: UserId, e: EntryId): (r: seq<EntryTag>)
    ensures forall i | 0 <= i < |r| :: OwnsTag(db, user, r[i].tagId) && Attached(db, e, r[i].tagId) && r[i] == EntryTagOf(db, e, r[i].tagId)
    ensures forall i | 0 <= i < |r| :: r[i].source == TagSourceAuto
  {
    var sorted := AutoListed(db, user, e);
    var r := Views(db, e, sorted);
    AutoListingFacts(db, user, e, sorted, r);
    r
  }

  /** The ids of `AutoTagIds` in listing order. */
  function AutoListed(db: Db, user: UserId, e: EntryId): (ids: seq<TagId>)
    ensures forall t | t in ids :: t in AutoTagIds(db, user, e) && Attached(db, e, t)
  {
    TagOrderIsStrictTotal(db.tags, AutoTagIds(db, user, e));
    SortBy(AutoTagIds(db, user, e), TagOrder(db.tags))
  }

  /** The ids of the user's tags attached to entry `e` automatically. */
  function AutoTagIds(db: Db, user: UserId, e: EntryId): set<TagId>
  {
    set t | t in db.tags && db.tags[t].owner == user && (e, t) in db.entryTags && db.entryTags[(e, t)].source == TagSourceAuto
  }

  lemma AutoListingFacts(db: Db, user: UserId, e: EntryId, ids: seq<TagId>, r: seq<EntryTag>)
    requires forall t | t in ids :: t in AutoTagIds(db, user, e)
    requires |r| == |ids| && forall i | 0 <= i < |ids| :: Attached(db, e, ids[i]) && r[i] == EntryTagOf(db, e, ids[i])
    ensures forall i | 0 <= i < |r| :: OwnsTag(db, user, r[i].tagId) && Attached(db, e, r[i].tagId) && r[i] == EntryTagOf(db, e, r[i].tagId)
    ensures forall i | 0 <= i < |r| :: r[i].source == TagSourceAuto
  {
    forall i | 0 <= i < |r|
      ensures OwnsTag(db, user, r[i].tagId) && r[i].source == TagSourceAuto
    {
      assert ids[i] in ids;
    }
  }

  lemma {:induction false} ViewsOfFilter(db: Db, e: EntryId, ids: seq<TagId>)
    requires forall t | t in ids :: Attached(db, e, t)
    ensures Views(db, e, Filter(ids, AutoRow(db, e))) == Filter(Views(db, e, ids), AutoSource)
  {
    if ids != [] {
      assert forall t | t in ids[1..] :: t in ids;
      ViewsOfFilter(db, e, ids[1..]);
      var v := Views(db, e, ids);
      assert v[1..] == Views(db, e, ids[1..]);
      assert v[0] == EntryTagOf(db, e, ids[0]);
      assert AutoSource(v[0]) <==> AutoRow(db, e)(ids[0]);
      if AutoRow(db, e)(ids[0]) {
        var f := Filter(ids, AutoRow(db, e));
        assert f == [ids[0]] + Filter(ids[1..], AutoRow(db, e));
        assert f[1..] == Filter(ids[1..], AutoRow(db, e));
        assert Filter(v, AutoSource) == [v[0]] + Filter(v[1..], AutoSource);
        assert Views(db, e, f) == [EntryTagOf(db, e, ids[0])] + Views(db, e, f[1..]);
      }
    }
  }

  /** The automatic tags of an entry are exactly the automatic rows of its tag listing, in the same order. */
  lemma AutoTagsAreFiltered(db: Db, user: UserId, e: EntryId)
    ensures GetAutoTagsForEntry(db, user, e) == Filter(GetEntryTags(db, user, e), AutoSource)
  {
    var all := EntryTagIds(db, user, e);
    assert AutoTagIds(db, user, e) == Where(all, AutoRow(db, e));
    TagOrderIsStrictTotal(db.tags, all);
    FilterOfSortBy(all, AutoRow(db, e), TagOrder(db.tags));
    assert AutoListed(db, user, e) == SortBy(Where(all, AutoRow(db, e)), TagOrder(db.tags));
    ViewsOfFilter(db, e, SortBy(all, TagOrder(db.tags)));
  }

  /** After the automatic tags of an entry are removed, none is listed. */
  lemma RemoveAutoTagsLeavesNone(db: Db, user: UserId, e: EntryId)
    ensures GetAutoTagsForEntry(RemoveAutoTagsFromEntry(db, user, e), user, e) == []
  {
    var r := RemoveAutoTagsFromEntry(db, user, e);
    assert AutoTagIds(r, user, e) == {};
  }

  /** A confirmed association is no longer listed as automatic. */
  lemma ConfirmedTagIsNotAuto(db: Db, user: UserId, e: EntryId, t: TagId)
    requires OwnsEntry(db, user, e)
    ensures forall x | x in GetAutoTagsForEntry(ConfirmAutoTag(db, user, e, t).0, user, e) :: x.tagId != t
  {
    assert TagSourceManual != TagSourceAuto;
  }

  // ---------------------------------------------------------------- entries of a tag

  /** The publication time of entry `e`, or 0 if there is no such row. */
  function PublishedOf(entries: map<EntryId, EntryRow>, e: EntryId): Time
  {
    if e in entries then entries[e].publishedAt else 0
  }

  /** `ORDER BY published_at DESC`, ties broken by the larger entry id first. */
  predicate EntryBefore(entries: map<EntryId, EntryRow>, a: EntryId, b: EntryId)
  {
    PublishedOf(entries, a) > PublishedOf(entries, b) || (PublishedOf(entries, a) == PublishedOf(entries, b) && a > b)
  }

  function EntryOrder(entries: map<EntryId, EntryRow>): (EntryId, EntryId) -> bool
  {
    (a, b) => EntryBefore(entries, a, b)
  }

  lemma EntryOrderIsStrictTotal(entries: map<EntryId, EntryRow>, s: set<EntryId>)
    ensures StrictTotalOn(s, EntryOrder(entries))
  {
  }

  /** The user's entries that carry tag `t`. */
  function TaggedEntries(db: Db, user: UserId, t: TagId): set<EntryId>
  {
    set e | e in db.entries && db.entries[e].owner == user && (e, t) in db.entryTags
  }

  /** `SELECT et.entry_id FROM entry_tags et JOIN entries e ... WHERE et.tag_id=$1 AND e.user_id=$2 ORDER BY e.published_at DESC` */
  function GetEntriesWithTag(db: Db, user: UserId, t: TagId): (r: seq<EntryId>)
    ensures forall e | e in r :: OwnsEntry(db, user, e) && (e, t) in db.entryTags
    ensures forall e | OwnsEntry(db, user, e) && (e, t) in db.entryTags :: e in r
    ensures forall i, j | 0 <= i < j < |r| :: r[i] != r[j] && PublishedOf(db.entries, r[i]) >= PublishedOf(db.entries, r[j])
  {
    EntryOrderIsStrictTotal(db.entries, TaggedEntries(db, user, t));
    var r := SortBy(TaggedEntries(db, user, t), EntryOrder(db.entries));
    assert forall i, j | 0 <= i < j < |r| :: EntryOrder(db.entries)(r[i], r[j]);
    r
  }

  /** `SELECT COUNT(et.entry_id) FROM entry_tags et JOIN entries e ... WHERE et.tag_id=$1 AND e.user_id=$2` */
  function CountEntriesWithTag(db: Db, user: UserId, t: TagId): (n: nat)
    ensures n == |GetEntriesWithTag(db, user, t)|
  {
    EntryOrderIsStrictTotal(db.entries, TaggedEntries(db, user, t));
    |TaggedEntries(db, user, t)|
  }

  // ---------------------------------------------------------------- integrity

  /** The ownership checks of `AddTagToEntry` keep every association within one owner. */
  lemma AddTagToEntryKeepsIntegrity(db: Db, user: UserId, e: EntryId, t: TagId, source: string, now: Time)
    requires TagRefsIntact(db) && TenantIsolated(db)
    ensures TagRefsIntact(AddTagToEntry(db, user, e, t, source, now).0)
    ensures TenantIsolated(AddTagToEntry(db, user, e, t, source, now).0)
  {
  }

  lemma {:induction false} AddTagsToEntryKeepsIntegrity(db: Db, user: UserId, e: EntryId, ts: seq<TagId>, source: string, now: Time)
    requires TagRefsIntact(db) && TenantIsolated(db)
    ensures TagRefsIntact(AddTagsToEntry(db, user, e, ts, source, now).0)
    ensures TenantIsolated(AddTagsToEntry(db, user, e, ts, source, now).0)
    decreases |ts|
  {
    if ts != [] {
      var first := AddTagToEntry(db, user, e, ts[0], source, now);
      AddTagToEntryKeepsIntegrity(db, user, e, ts[0], source, now);
      if first.1 == Pass {
        AddTagsToEntryKeepsIntegrity(first.0, user, e, ts[1..], source, now);
      }
    }
  }

  /** A tag created for the name is new, so no association references it; then the attach keeps integrity. */
  lemma AddTagToEntryByNameKeepsIntegrity(db: Db, user: UserId, e: EntryId, name: string, source: string, now: Time)
    requires Valid(db) && TagRefsIntact(db) && TenantIsolated(db)
    ensures TagRefsIntact(AddTagToEntryByName(db, user, e, name, source, now).0)
    ensures TenantIsolated(AddTagToEntryByName(db, user, e, name, source, now).0)
  {
    var (db1, tag) := GetOrCreateTag(db, user, name, now);
    assert TagRefsIntact(db1) && TenantIsolated(db1) by {
      forall k | k in db1.entryTags ensures k.1 in db1.tags && db1.tags[k.1] == db.tags[k.1] {
        assert k.1 in db.tags;
      }
    }
    AddTagToEntryKeepsIntegrity(db1, user, e, tag.id, source, now);
  }

  lemma {:induction false} AddTagsToEntryByNameKeepsIntegrity(db: Db, user: UserId, e: EntryId, names: seq<string>, source: string, now: Time)
    requires Valid(db) && TagRefsIntact(db) && TenantIsolated(db)
    ensures TagRefsIntact(AddTagsToEntryByName(db, user, e, names, source, now).0)
    ensures TenantIsolated(AddTagsToEntryByName(db, user, e, names, source, now).0)
    decreases |names|
  {
    if names != [] {
      var first := AddTagToEntryByName(db, user, e, names[0], source, now);
      AddTagToEntryByNameKeepsIntegrity(db, user, e, names[0], source, now);
      if first.1 == Pass {
        AddTagsToEntryByNameKeepsIntegrity(first.0, user, e, names[1..], source, now);
      }
    }
  }

  /** Detaching, confirming and removing auto tags only drop or rewrite existing associations. */
  lemma DetachKeepsIntegrity(db: Db, user: UserId, e: EntryId, t: TagId)
    requires TagRefsIntact(db) && TenantIsolated(db)
    ensures TagRefsIntact(RemoveTagFromEntry(db, user, e, t).0) && TenantIsolated(RemoveTagFromEntry(db, user, e, t).0)
    ensures TagRefsIntact(RemoveAllTagsFromEntry(db, user, e).0) && TenantIsolated(RemoveAllTagsFromEntry(db, user, e).0)
    ensures TagRefsIntact(ConfirmAutoTag(db, user, e, t).0) && TenantIsolated(ConfirmAutoTag(db, user, e, t).0)
    ensures TagRefsIntact(RemoveAutoTagsFromEntry(db, user, e)) && TenantIsolated(RemoveAutoTagsFromEntry(db, user, e))
  {
  }
}
