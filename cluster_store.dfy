/**
 * The cluster functions of the storage layer (internal/storage/cluster.go) as
 * functions of the database: clusters with an optional expiry, their entry
 * memberships, the listings that hide expired clusters, and the deletes that
 * cascade to memberships.
 */
module ClusterStore {
  import opened Wrappers
  import opened Sorting
  import opened Model
  import opened Schema
  import opened EntryTagStore

  /** The cluster row `c` as a `Cluster` record, as `ClusterByID` scans it. */
  function ClusterOf(db: Db, c: ClusterId): Cluster
    requires c in db.clusters
  {
    var row := db.clusters[c];
    Cluster(c, row.owner, row.name, row.createdAt, row.expiresAt, None, [])
  }

  /** `expires_at IS NULL OR expires_at > NOW()` */
  predicate Active(row: ClusterRow, now: Time)
  {
    row.expiresAt.None? || row.expiresAt.value > now
  }

  /** `expires_at IS NOT NULL AND expires_at < NOW()` */
  predicate Expired(row: ClusterRow, now: Time)
  {
    row.expiresAt.Some? && row.expiresAt.value < now
  }

  /** A cluster that expires exactly now is neither listed nor swept. */
  lemma ExpiryAtNowIsNeither(row: ClusterRow, now: Time)
    requires row.expiresAt == Some(now)
    ensures !Active(row, now) && !Expired(row, now)
  {
  }

  /** The number of memberships of cluster `c`. */
  function MemberCount(db: Db, c: ClusterId): (n: nat)
    ensures n == 0 <==> forall e :: ClusterEntry(c, e) !in db.clusterEntries
  {
    var rows := set m | m in db.clusterEntries && m.clusterId == c;
    assert rows == {} <==> forall e :: ClusterEntry(c, e) !in db.clusterEntries by {
      if rows != {} {
        var m :| m in rows;
        assert ClusterEntry(c, m.entryId) == m;
      }
      if exists e :: ClusterEntry(c, e) in db.clusterEntries {
        var e :| ClusterEntry(c, e) in db.clusterEntries;
        assert ClusterEntry(c, e) in rows;
      }
    }
    |rows|
  }

  /** The creation time of cluster `c`, or 0 if there is no such row. */
  function CreatedOf(clusters: map<ClusterId, ClusterRow>, c: ClusterId): Time
  {
    if c in clusters then clusters[c].createdAt else 0
  }

  /** `ORDER BY created_at DESC`, ties broken by the larger cluster id first. */
  predicate ClusterBefore(clusters: map<ClusterId, ClusterRow>, a: ClusterId, b: ClusterId)
  {
    CreatedOf(clusters, a) > CreatedOf(clusters, b) || (CreatedOf(clusters, a) == CreatedOf(clusters, b) && a > b)
  }

  function ClusterOrder(clusters: map<ClusterId, ClusterRow>): (ClusterId, ClusterId) -> bool
  {
    (a, b) => ClusterBefore(clusters, a, b)
  }

  lemma ClusterOrderIsStrictTotal(clusters: map<ClusterId, ClusterRow>, s: set<ClusterId>)
    ensures StrictTotalOn(s, ClusterOrder(clusters))
  {
  }

  // ---------------------------------------------------------------- queries

  /** `SELECT ... FROM clusters WHERE user_id=$1 AND id=$2`, whatever the expiry. */
  function ClusterByID(db: Db, user: UserId, c: ClusterId): (r: Option<Cluster>)
    ensures r.Some? <==> OwnsCluster(db, user, c)
    ensures r.Some? ==> r.value == ClusterOf(db, c) && r.value.userId == user && r.value.id == c
  {
    if OwnsCluster(db, user, c) then Some(ClusterOf(db, c)) else None
  }

  /** The user's clusters that have not expired at `now`. */
  function ActiveClusters(db: Db, user: UserId, now: Time): set<ClusterId>
  {
    set c | c in db.clusters && db.clusters[c].owner == user && Active(db.clusters[c], now)
  }

  /** The cluster listing for the ids `ids`, each with or without its membership count. */
  function ClusterViews(db: Db, ids: seq<ClusterId>, counted: bool): (r: seq<Cluster>)
    requires forall c | c in ids :: c in db.clusters
    ensures |r| == |ids|
    ensures forall i | 0 <= i < |ids| ::
      r[i] == ClusterOf(db, ids[i]).(entryCount := if counted then Some(MemberCount(db, ids[i])) else None)
  {
    seq(|ids|, i requires 0 <= i < |ids| =>
      ClusterOf(db, ids[i]).(entryCount := if counted then Some(MemberCount(db, ids[i])) else None))
  }

  /**
   * `SELECT c.*, (SELECT COUNT(*) FROM cluster_entries WHERE cluster_id = c.id)
   *  FROM clusters c WHERE c.user_id = $1 AND (c.expires_at IS NULL OR c.expires_at > NOW())
   *  ORDER BY c.created_at DESC`
   */
  function Clusters(db: Db, user: UserId, now: Time): (r: seq<Cluster>)
    ensures forall i | 0 <= i < |r| :: OwnsCluster(db, user, r[i].id) && Active(db.clusters[r[i].id], now) &&
              r[i] == ClusterOf(db, r[i].id).(entryCount := Some(MemberCount(db, r[i].id)))
    ensures forall c | OwnsCluster(db, user, c) && Active(db.clusters[c], now) :: exists i :: 0 <= i < |r| && r[i].id == c
    ensures forall i, j | 0 <= i < j < |r| :: r[i].id != r[j].id && r[i].createdAt >= r[j].createdAt
  {
    var s := ActiveClusters(db, user, now);
    ClusterOrderIsStrictTotal(db.clusters, s);
    var ids := SortBy(s, ClusterOrder(db.clusters));
    var r := ClusterViews(db, ids, true);
    ClustersFacts(db, user, now, ids, r);
    r
  }

  lemma ClustersFacts(db: Db, user: UserId, now: Time, ids: seq<ClusterId>, r: seq<Cluster>)
    requires forall c | c in ids :: c in ActiveClusters(db, user, now)
    requires forall c | c in ActiveClusters(db, user, now) :: c in ids
    requires Sorted(ids, ClusterOrder(db.clusters))
    requires |r| == |ids|
    requires forall i | 0 <= i < |ids| :: ids[i] in db.clusters && r[i] == ClusterOf(db, ids[i]).(entryCount := Some(MemberCount(db, ids[i])))
    ensures forall i | 0 <= i < |r| :: OwnsCluster(db, user, r[i].id) && Active(db.clusters[r[i].id], now) &&
              r[i] == ClusterOf(db, r[i].id).(entryCount := Some(MemberCount(db, r[i].id)))
    ensures forall c | OwnsCluster(db, user, c) && Active(db.clusters[c], now) :: exists i :: 0 <= i < |r| && r[i].id == c
    ensures forall i, j | 0 <= i < j < |r| :: r[i].id != r[j].id && r[i].createdAt >= r[j].createdAt
  {
    forall i | 0 <= i < |r| ensures OwnsCluster(db, user, r[i].id) && Active(db.clusters[r[i].id], now) {
      assert ids[i] in ids;
    }
    forall c | OwnsCluster(db, user, c) && Active(db.clusters[c], now) ensures exists i :: 0 <= i < |r| && r[i].id == c {
      assert c in ActiveClusters(db, user, now);
      var i :| 0 <= i < |ids| && ids[i] == c;
      assert r[i].id == c;
    }
    forall i, j | 0 <= i < j < |r| ensures r[i].id != r[j].id && r[i].createdAt >= r[j].createdAt {
      assert ClusterOrder(db.clusters)(ids[i], ids[j]);
    }
  }

  /** The user's active clusters that contain entry `e`. */
  function ClustersOfEntry(db: Db, user: UserId, e: EntryId, now: Time): set<ClusterId>
  {
    set c | c in db.clusters && db.clusters[c].owner == user && Active(db.clusters[c], now) && ClusterEntry(c, e) in db.clusterEntries
  }

  /** `SELECT c.* FROM clusters c JOIN cluster_entries ce ... WHERE ce.entry_id=$1 AND c.user_id=$2 AND <active> ORDER BY c.created_at DESC` */
  function GetEntryClusters(db: Db, user: UserId, e: EntryId, now: Time): (r: seq<Cluster>)
    ensures forall i | 0 <= i < |r| :: OwnsCluster(db, user, r[i].id) && Active(db.clusters[r[i].id], now) &&
              ClusterEntry(r[i].id, e) in db.clusterEntries && r[i] == ClusterOf(db, r[i].id)
    ensures forall c | OwnsCluster(db, user, c) && Active(db.clusters[c], now) && ClusterEntry(c, e) in db.clusterEntries ::
      exists i :: 0 <= i < |r| && r[i].id == c
    ensures forall i, j | 0 <= i < j < |r| :: r[i].id != r[j].id && r[i].createdAt >= r[j].createdAt
  {
    var s := ClustersOfEntry(db, user, e, now);
    ClusterOrderIsStrictTotal(db.clusters, s);
    var ids := SortBy(s, ClusterOrder(db.clusters));
    var r := ClusterViews(db, ids, false);
    EntryClustersFacts(db, user, e, now, ids, r);
    r
  }

  lemma EntryClustersFacts(db: Db, user: UserId, e: EntryId, now: Time, ids: seq<ClusterId>, r: seq<Cluster>)
    requires forall c | c in ids :: c in ClustersOfEntry(db, user, e, now)
    requires forall c | c in ClustersOfEntry(db, user, e, now) :: c in ids
    requires Sorted(ids, ClusterOrder(db.clusters))
    requires |r| == |ids| && forall i | 0 <= i < |ids| :: ids[i] in db.clusters && r[i] == ClusterOf(db, ids[i])
    ensures forall i | 0 <= i < |r| :: OwnsCluster(db, user, r[i].id) && Active(db.clusters[r[i].id], now) &&
              ClusterEntry(r[i].id, e) in db.clusterEntries && r[i] == ClusterOf(db, r[i].id)
    ensures forall c | OwnsCluster(db, user, c) && Active(db.clusters[c], now) && ClusterEntry(c, e) in db.clusterEntries ::
      exists i :: 0 <= i < |r| && r[i].id == c
    ensures forall i, j | 0 <= i < j < |r| :: r[i].id != r[j].id && r[i].createdAt >= r[j].createdAt
  {
    forall i | 0 <= i < |r| ensures OwnsCluster(db, user, r[i].id) && Active(db.clusters[r[i].id], now) && ClusterEntry(r[i].id, e) in db.clusterEntries {
      assert ids[i] in ids;
    }
    forall c | OwnsCluster(db, user, c) && Active(db.clusters[c], now) && ClusterEntry(c, e) in db.clusterEntries
      ensures exists i :: 0 <= i < |r| && r[i].id == c
    {
      assert c in ClustersOfEntry(db, user, e, now);
      var i :| 0 <= i < |ids| && ids[i] == c;
      assert r[i].id == c;
    }
    forall i, j | 0 <= i < j < |r| ensures r[i].id != r[j].id && r[i].createdAt >= r[j].createdAt {
      assert ClusterOrder(db.clusters)(ids[i], ids[j]);
    }
  }

  /** The clusters of an entry are among the clusters the user is shown, in the same relative order. */
  lemma EntryClustersAreListed(db: Db, user: UserId, e: EntryId, now: Time)
    ensures forall x | x in GetEntryClusters(db, user, e, now) :: exists y | y in Clusters(db, user, now) :: y.id == x.id
  {
    var listed := Clusters(db, user, now);
    forall x | x in GetEntryClusters(db, user, e, now) ensures exists y | y in listed :: y.id == x.id {
      var i :| 0 <= i < |listed| && listed[i].id == x.id;
      assert listed[i] in listed;
    }
  }

  /** The model record of entry `e`. */
  function EntryOf(db: Db, e: EntryId): Entry
    requires e in db.entries
  {
    Entry(e, db.entries[e].owner, db.entries[e].publishedAt)
  }

  /** The user's entries that are members of cluster `c`. */
  function MemberEntries(db: Db, user: UserId, c: ClusterId): set<EntryId>
  {
    set e | e in db.entries && db.entries[e].owner == user && ClusterEntry(c, e) in db.clusterEntries
  }

  /**
   * `SELECT e.* FROM entries e JOIN cluster_entries ce ON e.id = ce.entry_id ...
   *  WHERE ce.cluster_id = $1 AND e.user_id = $2 ORDER BY e.published_at DESC`
   */
  function GetClusterEntries(db: Db, user: UserId, c: ClusterId): (r: seq<Entry>)
    ensures forall i | 0 <= i < |r| :: OwnsEntry(db, user, r[i].id) && ClusterEntry(c, r[i].id) in db.clusterEntries && r[i] == EntryOf(db, r[i].id)
    ensures forall e | OwnsEntry(db, user, e) && ClusterEntry(c, e) in db.clusterEntries :: exists i :: 0 <= i < |r| && r[i].id == e
    ensures forall i, j | 0 <= i < j < |r| :: r[i].id != r[j].id && r[i].publishedAt >= r[j].publishedAt
  {
    var s := MemberEntries(db, user, c);
    EntryOrderIsStrictTotal(db.entries, s);
    var ids := SortBy(s, EntryOrder(db.entries));
    assert forall e | e in ids :: e in db.entries;
    var r := seq(|ids|, i requires 0 <= i < |ids| => EntryOf(db, ids[i]));
    ClusterEntriesFacts(db, user, c, ids, r);
    r
  }

  lemma ClusterEntriesFacts(db: Db, user: UserId, c: ClusterId, ids: seq<EntryId>, r: seq<Entry>)
    requires forall e | e in ids :: e in MemberEntries(db, user, c)
    requires forall e | e in MemberEntries(db, user, c) :: e in ids
    requires Sorted(ids, EntryOrder(db.entries))
    requires |r| == |ids| && forall i | 0 <= i < |ids| :: ids[i] in db.entries && r[i] == EntryOf(db, ids[i])
    ensures forall i | 0 <= i < |r| :: OwnsEntry(db, user, r[i].id) && ClusterEntry(c, r[i].id) in db.clusterEntries && r[i] == EntryOf(db, r[i].id)
    ensures forall e | OwnsEntry(db, user, e) && ClusterEntry(c, e) in db.clusterEntries :: exists i :: 0 <= i < |r| && r[i].id == e
    ensures forall i, j | 0 <= i < j < |r| :: r[i].id != r[j].id && r[i].publishedAt >= r[j].publishedAt
  {
    forall i | 0 <= i < |r| ensures OwnsEntry(db, user, r[i].id) && ClusterEntry(c, r[i].id) in db.clusterEntries {
      assert ids[i] in ids;
    }
    forall e | OwnsEntry(db, user, e) && ClusterEntry(c, e) in db.clusterEntries ensures exists i :: 0 <= i < |r| && r[i].id == e {
      assert e in MemberEntries(db, user, c);
      var i :| 0 <= i < |ids| && ids[i] == e;
      assert r[i].id == e;
    }
    forall i, j | 0 <= i < j < |r| ensures r[i].id != r[j].id && r[i].publishedAt >= r[j].publishedAt {
      assert EntryOrder(db.entries)(ids[i], ids[j]);
    }
  }

  /** `GetClusterWithEntries`: `ClusterByID`, then its entries and their number. */
  function GetClusterWithEntries(db: Db, user: UserId, c: ClusterId): (r: Option<Cluster>)
    ensures r.None? <==> ClusterByID(db, user, c).None?
    ensures r.Some? ==> var x := r.value;
      && x.id == c && x.userId == user
      && (x.name, x.createdAt, x.expiresAt) == (db.clusters[c].name, db.clusters[c].createdAt, db.clusters[c].expiresAt)
      && x.entries == GetClusterEntries(db, user, c)
      && x.entryCount == Some(|x.entries|)
  {
    match ClusterByID(db, user, c)
    case None => None
    case Some(cluster) =>
      var entries := GetClusterEntries(db, user, c);
      Some(cluster.(entries := entries, entryCount := Some(|entries|)))
  }

  // ---------------------------------------------------------------- statements

  /** `INSERT INTO clusters (user_id, name, expires_at) VALUES ($1, $2, $3) RETURNING ...` */
  function CreateCluster(db: Db, user: UserId, name: string, expiresAt: Option<Time>, now: Time): (r: (Db, Cluster))
    requires Valid(db)
    ensures Valid(r.0)
    ensures r.1.id !in db.clusters && r.0.clusters == db.clusters[r.1.id := ClusterRow(user, name, now, expiresAt)]
    ensures r.1 == ClusterOf(r.0, r.1.id) && r.1.userId == user && r.1.name == name && r.1.expiresAt == expiresAt
    ensures r.0 == db.(clusters := r.0.clusters, nextClusterId := r.0.nextClusterId)
  {
    var id := db.nextClusterId;
    var db1 := db.(clusters := db.clusters[id := ClusterRow(user, name, now, expiresAt)], nextClusterId := id + 1);
    (db1, ClusterOf(db1, id))
  }

  /** `INSERT INTO cluster_entries (cluster_id, entry_id) VALUES ($1, $2) ON CONFLICT DO NOTHING` */
  function AddEntryToCluster(db: Db, c: ClusterId, e: EntryId): (r: Db)
    ensures ClusterEntry(c, e) in r.clusterEntries
    ensures r.clusterEntries - {ClusterEntry(c, e)} == db.clusterEntries - {ClusterEntry(c, e)}
    ensures r == db.(clusterEntries := r.clusterEntries)
  {
    db.(clusterEntries := db.clusterEntries + {ClusterEntry(c, e)})
  }

  /** Adding a membership that exists changes nothing, so a repeated call is harmless. */
  lemma AddEntryToClusterIdempotent(db: Db, c: ClusterId, e: EntryId)
    ensures AddEntryToCluster(AddEntryToCluster(db, c, e), c, e) == AddEntryToCluster(db, c, e)
    ensures ClusterEntry(c, e) in db.clusterEntries ==> AddEntryToCluster(db, c, e) == db
  {
    var once := AddEntryToCluster(db, c, e);
    assert once.clusterEntries + {ClusterEntry(c, e)} == once.clusterEntries;
    if ClusterEntry(c, e) in db.clusterEntries {
      assert db.clusterEntries + {ClusterEntry(c, e)} == db.clusterEntries;
    }
  }

  /** The memberships of cluster `c` for the ids `es`. */
  function Memberships(c: ClusterId, es: seq<EntryId>): set<ClusterEntry>
  {
    set e | e in es :: ClusterEntry(c, e)
  }

  /** The state after the prepared insert has run for each of `es`, in order. */
  function InsertMemberships(db: Db, c: ClusterId, es: seq<EntryId>): (r: Db)
    ensures r.clusterEntries == db.clusterEntries + Memberships(c, es)
    ensures r == db.(clusterEntries := r.clusterEntries)
    decreases |es|
  {
    if es == [] then db
    else
      var p := es[..|es| - 1];
      var r := AddEntryToCluster(InsertMemberships(db, c, p), c, es[|es| - 1]);
      assert Memberships(c, es) == Memberships(c, p) + {ClusterEntry(c, es[|es| - 1])} by {
        assert forall e | e in es :: e in p || e == es[|es| - 1];
        assert forall e | e in p :: e in es;
      }
      r
  }

  /** The statements of the batch: BEGIN, PREPARE, one insert per id, COMMIT. */
  function BatchStatements(es: seq<EntryId>): nat
  {
    |es| + 3
  }

  /**
   * `AddEntriesToCluster(clusterID, entryIDs)`: nothing for an empty list,
   * else one transaction. `fault` names the statement (counted from 0 =
   * BEGIN) at which the database reports an error, if any.
   */
  function AddEntriesToCluster(db: Db, c: ClusterId, es: seq<EntryId>, fault: Option<nat>): (r: (Db, Outcome))
    ensures es == [] ==> r == (db, Pass)
    ensures r.1.Fail? <==> es != [] && fault.Some? && fault.value < BatchStatements(es)
    ensures r.1.Fail? ==> r.0 == db && r.1.error == StorageFailure
    ensures r.1 == Pass ==> r.0.clusterEntries == db.clusterEntries + Memberships(c, es)
    ensures r.0 == db.(clusterEntries := r.0.clusterEntries)
  {
    if es == [] then (db, Pass)
    else if fault.Some? && fault.value < BatchStatements(es) then (db, Fail(StorageFailure))
    else (InsertMemberships(db, c, es), Pass)
  }

  /** `DELETE FROM cluster_entries WHERE cluster_id = $1 AND entry_id = $2`; a missing pair is not an error. */
  function RemoveEntryFromCluster(db: Db, c: ClusterId, e: EntryId): (r: Db)
    ensures ClusterEntry(c, e) !in r.clusterEntries
    ensures r.clusterEntries + {ClusterEntry(c, e)} == db.clusterEntries + {ClusterEntry(c, e)}
    ensures ClusterEntry(c, e) !in db.clusterEntries ==> r == db
    ensures r == db.(clusterEntries := r.clusterEntries)
  {
    db.(clusterEntries := db.clusterEntries - {ClusterEntry(c, e)})
  }

  /** `DELETE FROM clusters WHERE id = $1 AND user_id = $2`, with the cascade; no row affected is an error. */
  function RemoveCluster(db: Db, user: UserId, c: ClusterId): (r: (Db, Outcome))
    ensures !OwnsCluster(db, user, c) ==> r == (db, Fail(NotFound))
    ensures OwnsCluster(db, user, c) ==> r.1 == Pass && r.0.clusters.Keys == db.clusters.Keys - {c}
    ensures OwnsCluster(db, user, c) ==> forall m | m in r.0.clusterEntries :: m.clusterId != c
    ensures forall m | m in db.clusterEntries && m.clusterId != c :: m in r.0.clusterEntries
    ensures r.0.clusterEntries <= db.clusterEntries
    ensures forall x | x in r.0.clusters :: r.0.clusters[x] == db.clusters[x]
    ensures r.0 == db.(clusters := r.0.clusters, clusterEntries := r.0.clusterEntries)
  {
    if OwnsCluster(db, user, c) then (DropClusters(db, {c}), Pass) else (db, Fail(NotFound))
  }

  /** The clusters of every user that have expired by `now`. */
  function ExpiredClusters(db: Db, now: Time): set<ClusterId>
  {
    set c | c in db.clusters && Expired(db.clusters[c], now)
  }

  /** `DELETE FROM clusters WHERE expires_at IS NOT NULL AND expires_at < NOW()`, returning the rows affected. */
  function RemoveExpiredClusters(db: Db, now: Time): (r: (Db, nat))
    ensures r.1 == |ExpiredClusters(db, now)|
    ensures forall c | c in r.0.clusters :: !Expired(r.0.clusters[c], now)
    ensures forall c | c in db.clusters :: c in r.0.clusters <==> !Expired(db.clusters[c], now)
    ensures forall c | c in r.0.clusters :: c in db.clusters && r.0.clusters[c] == db.clusters[c]
    ensures forall m | m in r.0.clusterEntries :: m in db.clusterEntries && m.clusterId !in ExpiredClusters(db, now)
    ensures forall m | m in db.clusterEntries && m.clusterId !in ExpiredClusters(db, now) :: m in r.0.clusterEntries
    ensures r.0 == db.(clusters := r.0.clusters, clusterEntries := r.0.clusterEntries)
  {
    var gone := ExpiredClusters(db, now);
    (DropClusters(db, gone), |gone|)
  }

  /** A second sweep at the same instant finds nothing. */
  lemma RemoveExpiredClustersTwice(db: Db, now: Time)
    ensures RemoveExpiredClusters(RemoveExpiredClusters(db, now).0, now).1 == 0
  {
    var once := RemoveExpiredClusters(db, now).0;
    assert ExpiredClusters(once, now) == {};
  }

  /** The sweep leaves the active listing of every user as it was. */
  lemma SweepKeepsActiveClusters(db: Db, user: UserId, now: Time)
    ensures ActiveClusters(RemoveExpiredClusters(db, now).0, user, now) == ActiveClusters(db, user, now)
  {
    var swept := RemoveExpiredClusters(db, now).0;
    forall c | c in ActiveClusters(db, user, now) ensures c in ActiveClusters(swept, user, now) {
      assert !Expired(db.clusters[c], now);
    }
  }

  /** `DELETE FROM clusters WHERE user_id = $1`, with the cascade. */
  function RemoveAllClusters(db: Db, user: UserId): (r: Db)
    ensures forall c | c in r.clusters :: c in db.clusters && r.clusters[c].owner != user && r.clusters[c] == db.clusters[c]
    ensures forall c | c in db.clusters && db.clusters[c].owner != user :: c in r.clusters
    ensures forall m | m in r.clusterEntries :: m in db.clusterEntries && !OwnsCluster(db, user, m.clusterId)
    ensures forall m | m in db.clusterEntries && !OwnsCluster(db, user, m.clusterId) :: m in r.clusterEntries
    ensures r == db.(clusters := r.clusters, clusterEntries := r.clusterEntries)
  {
    DropClusters(db, set c | c in db.clusters && db.clusters[c].owner == user)
  }

  // ---------------------------------------------------------------- integrity

  /** Deleting clusters with their cascade keeps every membership pointing at a cluster. */
  lemma ClusterDeletesKeepRefsIntact(db: Db, user: UserId, c: ClusterId, now: Time)
    requires ClusterRefsIntact(db)
    ensures ClusterRefsIntact(RemoveCluster(db, user, c).0)
    ensures ClusterRefsIntact(RemoveExpiredClusters(db, now).0)
    ensures ClusterRefsIntact(RemoveAllClusters(db, user))
  {
  }

  /** Membership inserts keep the invariant when they name an existing cluster. */
  lemma AddEntriesKeepsRefsIntact(db: Db, c: ClusterId, es: seq<EntryId>, fault: Option<nat>)
    requires ClusterRefsIntact(db) && c in db.clusters
    ensures ClusterRefsIntact(AddEntriesToCluster(db, c, es, fault).0)
  {
  }
}
