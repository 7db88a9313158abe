/**
 * The `Storage` type of internal/storage: the tables live in fields, and each
 * statement-issuing function updates them in place. Every method is proved to
 * leave the tables as the corresponding value-level function of the `TagStore`,
 * `TagMerge`, `EntryTagStore`, `TagNames` and `ClusterStore` modules describes.
 */
module Storage {
  import opened Wrappers
  import opened Model
  import opened Schema
  import TagStore
  import TagMerge
  import EntryTagStore
  import TagNames
  import ClusterStore

  class Store {
    var tags: map<TagId, TagRow>
    var entries: map<EntryId, EntryRow>
    var entryTags: map<EntryTagKey, EntryTagRow>
    var clusters: map<ClusterId, ClusterRow>
    var clusterEntries: set<ClusterEntry>
    var nextTagId: TagId
    var nextClusterId: ClusterId

    /** The tables as one value. */
    function Snapshot(): Db
      reads this
    {
      Db(tags, entries, entryTags, clusters, clusterEntries, nextTagId, nextClusterId)
    }

    ghost predicate Valid()
      reads this
    {
      Schema.Valid(Snapshot())
    }

    /** A store over existing tables. */
    constructor (db: Db)
      requires Schema.Valid(db)
      ensures Valid() && Snapshot() == db
    {
      tags, entries, entryTags := db.tags, db.entries, db.entryTags;
      clusters, clusterEntries := db.clusters, db.clusterEntries;
      nextTagId, nextClusterId := db.nextTagId, db.nextClusterId;
    }

    // ------------------------------------------------------------ tags

    /** `CreateTag(userID, request)`: the insert takes the next id from the sequence. */
    method CreateTag(user: UserId, request: TagCreationRequest, now: Time) returns (tag: Tag)
      requires Valid()
      modifies this
      ensures Valid()
      ensures (Snapshot(), tag) == TagStore.CreateTag(old(Snapshot()), user, request.name, now)
    {
      var id := nextTagId;
      tags := tags[id := TagRow(user, request.name, now)];
      nextTagId := id + 1;
      tag := Tag(id, user, request.name, now, None);
    }

    /** `UpdateTag(tag)`: renames the row with the tag's id and owner, if there is one. */
    method UpdateTag(tag: Tag)
      requires Valid()
      modifies this
      ensures Valid()
      ensures Snapshot() == TagStore.UpdateTag(old(Snapshot()), tag)
    {
      if tag.id in tags && tags[tag.id].owner == tag.userId {
        tags := tags[tag.id := tags[tag.id].(name := tag.name)];
      }
    }

    /**
     * `DELETE FROM tags WHERE id=$1 AND user_id=$2`, with the cascade to
     * `entry_tags`; reports whether a row was affected.
     */
    method DeleteTag(user: UserId, t: TagId) returns (affected: bool)
      modifies this
      ensures affected == OwnsTag(old(Snapshot()), user, t)
      ensures Snapshot() == if affected then DropTag(old(Snapshot()), t) else old(Snapshot())
    {
      affected := t in tags && tags[t].owner == user;
      if affected {
        tags := tags - {t};
        entryTags := map k | k in entryTags && k.1 != t :: entryTags[k];
      }
    }

    /** `RemoveTag(userID, tagID)`: the delete, then an error when no row was affected. */
    method RemoveTag(user: UserId, t: TagId) returns (outcome: Outcome)
      requires Valid()
      modifies this
      ensures Valid()
      ensures (Snapshot(), outcome) == TagStore.RemoveTag(old(Snapshot()), user, t)
    {
      var affected := DeleteTag(user, t);
      if !affected {
        return Fail(NotFound);
      }
      return Pass;
    }

    /** `GetOrCreateTag(userID, name)`: the lookup by name, then the insert when nothing matched. */
    method GetOrCreateTag(user: UserId, name: string, now: Time) returns (tag: Tag)
      requires Valid()
      modifies this
      ensures Valid()
      ensures (Snapshot(), tag) == TagStore.GetOrCreateTag(old(Snapshot()), user, name, now)
    {
      var found := TagStore.TagByName(Snapshot(), user, name);
      if found.Some? {
        return found.value;
      }
      tag := CreateTag(user, TagCreationRequest(name), now);
    }

    /**
     * One pass of the `MergeTags` loop for a source other than the target:
     * the copy of its associations, then the delete of the tag, statements
     * `stmt` and `stmt + 1` of the transaction. On a fault the caller rolls back.
     */
    method ReassignSource(user: UserId, target: TagId, s: TagId, stmt: nat, fault: Option<nat>) returns (ok: bool)
      requires s != target
      modifies this
      ensures ok <==> !(fault.Some? && stmt <= fault.value <= stmt + 1)
      ensures ok ==> Snapshot() == TagMerge.MergeOne(old(Snapshot()), user, target, s)
      ensures !ok ==> Snapshot() == old(Snapshot()).(entryTags := entryTags)
    {
      if fault == Some(stmt) {
        return false;
      }
      entryTags := TagMerge.CopyRows(entryTags, s, target);
      if fault == Some(stmt + 1) {
        return false;
      }
      var _ := DeleteTag(user, s);
      return true;
    }

    /**
     * The loop of `MergeTags` inside the open transaction: statements from 1
     * on, two per source other than the target. On a fault it stops and leaves
     * the rollback to the caller; only `tags` and `entry_tags` are touched.
     */
    method ReassignAll(user: UserId, target: TagId, srcs: seq<TagId>, fault: Option<nat>) returns (ok: bool, stmt: nat)
      requires fault.Some? ==> 1 <= fault.value
      modifies this
      ensures Snapshot() == old(Snapshot()).(tags := tags, entryTags := entryTags)
      ensures ok ==> Snapshot() == TagMerge.MergeAll(old(Snapshot()), user, target, srcs)
      ensures ok ==> stmt + 1 == TagMerge.MergeStatements(target, srcs) && (fault.Some? ==> stmt <= fault.value)
      ensures !ok ==> fault.Some? && fault.value < TagMerge.MergeStatements(target, srcs)
    {
      ghost var db0 := Snapshot();
      stmt := 1;
      var i := 0;
      while i < |srcs|
        invariant 0 <= i <= |srcs|
        invariant stmt == 1 + 2 * TagMerge.NonTargetCount(target, srcs[..i])
        invariant fault.Some? ==> stmt <= fault.value
        invariant Snapshot() == TagMerge.MergeAll(db0, user, target, srcs[..i])
        invariant Snapshot() == db0.(tags := tags, entryTags := entryTags)
      {
        TagMerge.MergeAllStep(db0, user, target, srcs, i);
        if srcs[i] != target {
          ok := ReassignSource(user, target, srcs[i], stmt, fault);
          if !ok {
            return;
          }
          stmt := stmt + 2;
        }
        i := i + 1;
      }
      assert srcs[..|srcs|] == srcs;
      ok := true;
    }

    /**
     * `MergeTags(userID, targetTagID, sourceTagIDs)` in one transaction.
     * `fault` names the statement (BEGIN is 0) at which the database reports
     * an error; the rollback restores the tables.
     */
    method MergeTags(user: UserId, target: TagId, srcs: seq<TagId>, fault: Option<nat>) returns (outcome: Outcome)
      requires Valid()
      modifies this
      ensures Valid()
      ensures (Snapshot(), outcome) == TagMerge.MergeTags(old(Snapshot()), user, target, srcs, fault)
    {
      ghost var db0 := Snapshot();
      if fault == Some(0) {
        TagMerge.MergeTagsRollsBack(db0, user, target, srcs, 0);
        return Fail(StorageFailure);
      }
      var savedTags, savedEntryTags := tags, entryTags;
      var ok, stmt := ReassignAll(user, target, srcs, fault);
      if !ok || fault == Some(stmt) {
        tags, entryTags := savedTags, savedEntryTags;
        TagMerge.MergeTagsRollsBack(db0, user, target, srcs, fault.value);
        return Fail(StorageFailure);
      }
      TagMerge.MergeKeepsValid(db0, user, target, srcs, fault);
      return Pass;
    }

    // ------------------------------------------------------------ entry tags

    /** `AddTagToEntry(userID, entryID, tagID, source)`: two ownership checks, then the upsert. */
    method AddTagToEntry(user: UserId, e: EntryId, t: TagId, source: string, now: Time) returns (outcome: Outcome)
      requires Valid()
      modifies this
      ensures Valid()
      ensures (Snapshot(), outcome) == EntryTagStore.AddTagToEntry(old(Snapshot()), user, e, t, source, now)
    {
      if !(e in entries && entries[e].owner == user) {
        return Fail(NotFound);
      }
      if !(t in tags && tags[t].owner == user) {
        return Fail(NotFound);
      }
      var stored := if source == "" then TagSourceManual else source;
      if (e, t) in entryTags {
        entryTags := entryTags[(e, t) := entryTags[(e, t)].(source := stored)];
      } else {
        entryTags := entryTags[(e, t) := EntryTagRow(stored, now)];
      }
      return Pass;
    }

    /** `AddTagsToEntry`: `AddTagToEntry` for each id in order, returning the first error. */
    method AddTagsToEntry(user: UserId, e: EntryId, ts: seq<TagId>, source: string, now: Time) returns (outcome: Outcome)
      requires Valid()
      modifies this
      ensures Valid()
      ensures (Snapshot(), outcome) == EntryTagStore.AddTagsToEntry(old(Snapshot()), user, e, ts, source, now)
    {
      ghost var goal := EntryTagStore.AddTagsToEntry(Snapshot(), user, e, ts, source, now);
      var i := 0;
      while i < |ts|
        invariant 0 <= i <= |ts|
        invariant Valid()
        invariant EntryTagStore.AddTagsToEntry(Snapshot(), user, e, ts[i..], source, now) == goal
      {
        EntryTagStore.AddTagsToEntryFrom(Snapshot(), user, e, ts, source, now, i);
        outcome := AddTagToEntry(user, e, ts[i], source, now);
        if outcome.Fail? {
          return;
        }
        i := i + 1;
      }
      return Pass;
    }

    /** `AddTagToEntryByName`: `GetOrCreateTag`, then `AddTagToEntry` with the tag's id. */
    method AddTagToEntryByName(user: UserId, e: EntryId, name: string, source: string, now: Time) returns (outcome: Outcome)
      requires Valid()
      modifies this
      ensures Valid()
      ensures (Snapshot(), outcome) == EntryTagStore.AddTagToEntryByName(old(Snapshot()), user, e, name, source, now)
    {
      var tag := GetOrCreateTag(user, name, now);
      outcome := AddTagToEntry(user, e, tag.id, source, now);
    }

    /** `AddTagsToEntryByName`: `AddTagToEntryByName` for each name in order, returning the first error. */
    method AddTagsToEntryByName(user: UserId, e: EntryId, names: seq<string>, source: string, now: Time) returns (outcome: Outcome)
      requires Valid()
      modifies this
      ensures Valid()
      ensures (Snapshot(), outcome) == EntryTagStore.AddTagsToEntryByName(old(Snapshot()), user, e, names, source, now)
    {
      ghost var goal := EntryTagStore.AddTagsToEntryByName(Snapshot(), user, e, names, source, now);
      var i := 0;
      while i < |names|
        invariant 0 <= i <= |names|
        invariant Valid()
        invariant EntryTagStore.AddTagsToEntryByName(Snapshot(), user, e, names[i..], source, now) == goal
      {
        outcome := AttachNameAt(user, e, names, i, source, now, goal);
        if outcome.Fail? {
          return;
        }
        i := i + 1;
      }
      return Pass;
    }

    /** The body of the `AddTagsToEntryByName` loop: one name, and what remains to be done. */
    method AttachNameAt(user: UserId, e: EntryId, names: seq<string>, i: nat, source: string, now: Time,
                        ghost goal: (Db, Outcome)) returns (outcome: Outcome)
      requires Valid() && i < |names|
      requires EntryTagStore.AddTagsToEntryByName(Snapshot(), user, e, names[i..], source, now) == goal
      modifies this
      ensures Valid()
      ensures outcome.Fail? ==> (Snapshot(), outcome) == goal
      ensures outcome.Pass? ==> EntryTagStore.AddTagsToEntryByName(Snapshot(), user, e, names[i + 1..], source, now) == goal
    {
      EntryTagStore.AddTagsToEntryByNameFrom(Snapshot(), user, e, names, source, now, i);
      outcome := AddTagToEntryByName(user, e, names[i], source, now);
    }

    /** `RemoveTagFromEntry`: the entry check, then the delete of one association. */
    method RemoveTagFromEntry(user: UserId, e: EntryId, t: TagId) returns (outcome: Outcome)
      requires Valid()
      modifies this
      ensures Valid()
      ensures (Snapshot(), outcome) == EntryTagStore.RemoveTagFromEntry(old(Snapshot()), user, e, t)
    {
      if !(e in entries && entries[e].owner == user) {
        return Fail(NotFound);
      }
      entryTags := entryTags - {(e, t)};
      return Pass;
    }

    /** `RemoveAllTagsFromEntry`: the entry check, then the delete of every association of the entry. */
    method RemoveAllTagsFromEntry(user: UserId, e: EntryId) returns (outcome: Outcome)
      requires Valid()
      modifies this
      ensures Valid()
      ensures (Snapshot(), outcome) == EntryTagStore.RemoveAllTagsFromEntry(old(Snapshot()), user, e)
    {
      if !(e in entries && entries[e].owner == user) {
        return Fail(NotFound);
      }
      entryTags := map k | k in entryTags && k.0 != e :: entryTags[k];
      return Pass;
    }

    /** `ConfirmAutoTag`: the entry check, then the association's source becomes manual. */
    method ConfirmAutoTag(user: UserId, e: EntryId, t: TagId) returns (outcome: Outcome)
      requires Valid()
      modifies this
      ensures Valid()
      ensures (Snapshot(), outcome) == EntryTagStore.ConfirmAutoTag(old(Snapshot()), user, e, t)
    {
      if !(e in entries && entries[e].owner == user) {
        return Fail(NotFound);
      }
      if (e, t) in entryTags {
        entryTags := entryTags[(e, t) := entryTags[(e, t)].(source := TagSourceManual)];
      }
      return Pass;
    }

    /** `RemoveAutoTagsFromEntry`: deletes the entry's automatic associations with the user's tags. */
    method RemoveAutoTagsFromEntry(user: UserId, e: EntryId)
      requires Valid()
      modifies this
      ensures Valid()
      ensures Snapshot() == EntryTagStore.RemoveAutoTagsFromEntry(old(Snapshot()), user, e)
    {
      entryTags := map k | k in entryTags && !(k.0 == e && entryTags[k].source == TagSourceAuto && k.1 in tags && tags[k.1].owner == user) :: entryTags[k];
    }

    /** `GetTagNamesForEntries`: reads the joined rows and appends each name to its entry's list. */
    method GetTagNamesForEntries(user: UserId, ids: seq<EntryId>) returns (result: map<EntryId, seq<string>>)
      ensures result == TagNames.TagNamesForEntries(Snapshot(), user, ids)
      ensures forall e | e in result :: e in ids && result[e] != [] && result[e] == TagNames.NamesOf(Snapshot(), user, e)
      ensures forall e | e in ids && TagNames.NamesOf(Snapshot(), user, e) != [] :: e in result
    {
      if |ids| == 0 {
        return map[];
      }
      var rows := TagNames.Rows(TagNames.NamesFn(Snapshot(), user), TagNames.AskedEntries(ids));
      result := map[];
      var i := 0;
      while i < |rows|
        invariant 0 <= i <= |rows|
        invariant result == TagNames.Group(map[], rows[..i])
      {
        var (entryId, tagName) := rows[i];
        TagNames.GroupStep(map[], rows, i);
        result := result[entryId := (if entryId in result then result[entryId] else []) + [tagName]];
        i := i + 1;
      }
      assert rows[..|rows|] == rows;
    }

    // ------------------------------------------------------------ clusters

    /** `CreateCluster(userID, name, expiresAt)`: the insert takes the next id from the sequence. */
    method CreateCluster(user: UserId, name: string, expiresAt: Option<Time>, now: Time) returns (cluster: Cluster)
      requires Valid()
      modifies this
      ensures Valid()
      ensures (Snapshot(), cluster) == ClusterStore.CreateCluster(old(Snapshot()), user, name, expiresAt, now)
    {
      var id := nextClusterId;
      clusters := clusters[id := ClusterRow(user, name, now, expiresAt)];
      nextClusterId := id + 1;
      cluster := ClusterStore.ClusterOf(Snapshot(), id);
    }

    /** `AddEntryToCluster(clusterID, entryID)`: an insert that ignores a duplicate. */
    method AddEntryToCluster(c: ClusterId, e: EntryId)
      requires Valid()
      modifies this
      ensures Valid()
      ensures Snapshot() == ClusterStore.AddEntryToCluster(old(Snapshot()), c, e)
    {
      clusterEntries := clusterEntries + {ClusterEntry(c, e)};
    }

    /**
     * `AddEntriesToCluster(clusterID, entryIDs)`: one prepared insert per id
     * inside a transaction. `fault` names the statement (BEGIN is 0, PREPARE
     * is 1) at which the database reports an error; the rollback restores the
     * memberships.
     */
    method AddEntriesToCluster(c: ClusterId, es: seq<EntryId>, fault: Option<nat>) returns (outcome: Outcome)
      requires Valid()
      modifies this
      ensures Valid()
      ensures (Snapshot(), outcome) == ClusterStore.AddEntriesToCluster(old(Snapshot()), c, es, fault)
    {
      if |es| == 0 {
        return Pass;
      }
      if fault == Some(0) || fault == Some(1) {
        return Fail(StorageFailure);
      }
      ghost var db0 := Snapshot();
      var saved := clusterEntries;
      var i := 0;
      while i < |es|
        invariant 0 <= i <= |es|
        invariant fault.None? || fault.value >= i + 2
        invariant Snapshot() == ClusterStore.InsertMemberships(db0, c, es[..i])
        invariant saved == db0.clusterEntries
      {
        if fault == Some(i + 2) {
          clusterEntries := saved;
          return Fail(StorageFailure);
        }
        clusterEntries := clusterEntries + {ClusterEntry(c, es[i])};
        assert es[..i + 1][..i] == es[..i];
        i := i + 1;
      }
      assert es[..|es|] == es;
      if fault == Some(|es| + 2) {
        clusterEntries := saved;
        return Fail(StorageFailure);
      }
      return Pass;
    }

    /** `RemoveEntryFromCluster(clusterID, entryID)`: deletes the membership, if any. */
    method RemoveEntryFromCluster(c: ClusterId, e: EntryId)
      requires Valid()
      modifies this
      ensures Valid()
      ensures Snapshot() == ClusterStore.RemoveEntryFromCluster(old(Snapshot()), c, e)
    {
      clusterEntries := clusterEntries - {ClusterEntry(c, e)};
    }

    /** `RemoveCluster(userID, clusterID)`: deletes the row and, by cascade, its memberships. */
    method RemoveCluster(user: UserId, c: ClusterId) returns (outcome: Outcome)
      requires Valid()
      modifies this
      ensures Valid()
      ensures (Snapshot(), outcome) == ClusterStore.RemoveCluster(old(Snapshot()), user, c)
    {
      if !(c in clusters && clusters[c].owner == user) {
        return Fail(NotFound);
      }
      ghost var db0 := Snapshot();
      clusters := clusters - {c};
      clusterEntries := set m | m in clusterEntries && m.clusterId != c;
      assert Snapshot() == DropClusters(db0, {c});
      return Pass;
    }

    /** `RemoveExpiredClusters()`: deletes every cluster whose expiry is before `now`, returning how many. */
    method RemoveExpiredClusters(now: Time) returns (count: nat)
      requires Valid()
      modifies this
      ensures Valid()
      ensures (Snapshot(), count) == ClusterStore.RemoveExpiredClusters(old(Snapshot()), now)
    {
      var gone := set c | c in clusters && ClusterStore.Expired(clusters[c], now);
      clusters := clusters - gone;
      clusterEntries := set m | m in clusterEntries && m.clusterId !in gone;
      count := |gone|;
    }

    /** `RemoveAllClusters(userID)`: deletes every cluster of the user and, by cascade, their memberships. */
    method RemoveAllClusters(user: UserId)
      requires Valid()
      modifies this
      ensures Valid()
      ensures Snapshot() == ClusterStore.RemoveAllClusters(old(Snapshot()), user)
    {
      var gone := set c | c in clusters && clusters[c].owner == user;
      clusters := clusters - gone;
      clusterEntries := set m | m in clusterEntries && m.clusterId !in gone;
    }
  }
}
