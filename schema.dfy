/**
 * The database the storage layer works on: the tables `tags`, `entries`,
 * `entry_tags`, `clusters` and `cluster_entries`, with the two identifier
 * sequences. `entry_tags` is keyed by `(entry_id, tag_id)` and
 * `cluster_entries` is a set of pairs, so both composite keys are unique by
 * construction.
 */
module Schema {
  import opened Wrappers
  import opened Names
  import opened Model

  datatype TagRow = TagRow(owner: UserId, name: string, createdAt: Time)

  datatype EntryRow = EntryRow(owner: UserId, publishedAt: Time)

  datatype EntryTagRow = EntryTagRow(source: string, createdAt: Time)

  datatype ClusterRow = ClusterRow(owner: UserId, name: string, createdAt: Time, expiresAt: Option<Time>)

  type EntryTagKey = (EntryId, TagId)

  datatype Db = Db(
    tags: map<TagId, TagRow>,
    entries: map<EntryId, EntryRow>,
    entryTags: map<EntryTagKey, EntryTagRow>,
    clusters: map<ClusterId, ClusterRow>,
    clusterEntries: set<ClusterEntry>,
    nextTagId: TagId,
    nextClusterId: ClusterId)

  /** Errors a storage function reports. */
  datatype StoreError = NotFound | StorageFailure

  /** What a storage function that returns only an `error` reports. */
  datatype Outcome = Pass | Fail(error: StoreError)

  /** The identifier sequences are ahead of every identifier in use. */
  ghost predicate Valid(db: Db)
  {
    && (forall t | t in db.tags :: t < db.nextTagId)
    && (forall c | c in db.clusters :: c < db.nextClusterId)
  }

  predicate OwnsTag(db: Db, user: UserId, t: TagId)
  {
    t in db.tags && db.tags[t].owner == user
  }

  predicate OwnsEntry(db: Db, user: UserId, e: EntryId)
  {
    e in db.entries && db.entries[e].owner == user
  }

  predicate OwnsCluster(db: Db, user: UserId, c: ClusterId)
  {
    c in db.clusters && db.clusters[c].owner == user
  }

  /** Every association names an existing entry and an existing tag. */
  ghost predicate TagRefsIntact(db: Db)
  {
    forall k | k in db.entryTags :: k.0 in db.entries && k.1 in db.tags
  }

  /** Every association joins an entry and a tag of the same user. */
  ghost predicate TenantIsolated(db: Db)
  {
    forall k | k in db.entryTags ::
      k.0 in db.entries && k.1 in db.tags && db.entries[k.0].owner == db.tags[k.1].owner
  }

  /** Every membership names an existing cluster. */
  ghost predicate ClusterRefsIntact(db: Db)
  {
    forall m | m in db.clusterEntries :: m.clusterId in db.clusters
  }

  /** No user has two tags whose names differ only in case. */
  ghost predicate NamesUnique(db: Db)
  {
    forall t1, t2 | t1 in db.tags && t2 in db.tags && t1 != t2 && db.tags[t1].owner == db.tags[t2].owner ::
      !SameFolded(db.tags[t1].name, db.tags[t2].name)
  }

  /** `DELETE FROM tags WHERE id = t`, with the cascade to `entry_tags`. */
  function DropTag(db: Db, t: TagId): (r: Db)
    ensures r.tags == db.tags - {t}
    ensures forall k | k in r.entryTags :: k.1 != t
    ensures forall k | k in db.entryTags && k.1 != t :: k in r.entryTags && r.entryTags[k] == db.entryTags[k]
    ensures r.entryTags.Keys <= db.entryTags.Keys
    ensures r == db.(tags := r.tags, entryTags := r.entryTags)
  {
    db.(tags := db.tags - {t}, entryTags := map k | k in db.entryTags && k.1 != t :: db.entryTags[k])
  }

  /** `DELETE FROM clusters WHERE id IN gone`, with the cascade to `cluster_entries`. */
  function DropClusters(db: Db, gone: set<ClusterId>): (r: Db)
    ensures r.clusters.Keys == db.clusters.Keys - gone
    ensures forall c | c in r.clusters :: r.clusters[c] == db.clusters[c]
    ensures forall m | m in r.clusterEntries :: m.clusterId !in gone
    ensures forall m | m in db.clusterEntries && m.clusterId !in gone :: m in r.clusterEntries
    ensures r.clusterEntries <= db.clusterEntries
    ensures r == db.(clusters := r.clusters, clusterEntries := r.clusterEntries)
  {
    db.(clusters := db.clusters - gone, clusterEntries := set m | m in db.clusterEntries && m.clusterId !in gone)
  }
}
