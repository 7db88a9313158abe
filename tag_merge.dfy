/**
 * `MergeTags` (internal/storage/tag.go): every source tag's associations are
 * copied onto the target tag, without overwriting an association the target
 * already has, and every source tag the user owns is deleted, all inside one
 * transaction.
 */
module TagMerge {
  import opened Wrappers
  import opened Model
  import opened Schema

  /**
   * `INSERT INTO entry_tags SELECT et.entry_id, target, et.source, et.created_at
   *  FROM entry_tags et WHERE et.tag_id = s ON CONFLICT (entry_id, tag_id) DO NOTHING`
   */
  function CopyRows(et: map<EntryTagKey, EntryTagRow>, s: TagId, target: TagId): (r: map<EntryTagKey, EntryTagRow>)
    ensures forall k | k in et :: k in r && r[k] == et[k]
    ensures forall k | k in r && k !in et :: k.1 == target && (k.0, s) in et && r[k] == et[(k.0, s)]
    ensures forall k | k in et && k.1 == s :: (k.0, target) in r
  {
    et + map k | k in et && k.1 == s && (k.0, target) !in et :: (k.0, target) := et[k]
  }

  /** One pass of the loop: skipped for the target itself, else copy the rows, then delete the tag if the user owns it. */
  function MergeOne(db: Db, user: UserId, target: TagId, s: TagId): Db
  {
    if s == target then db
    else
      var copied := db.(entryTags := CopyRows(db.entryTags, s, target));
      if OwnsTag(copied, user, s) then DropTag(copied, s) else copied
  }

  /** The state after the loop has handled `srcs`, in order. */
  function MergeAll(db: Db, user: UserId, target: TagId, srcs: seq<TagId>): Db
    decreases |srcs|
  {
    if srcs == [] then db
    else MergeOne(MergeAll(db, user, target, srcs[..|srcs| - 1]), user, target, srcs[|srcs| - 1])
  }

  /** How many of `srcs` differ from the target: each of those costs two statements. */
  function NonTargetCount(target: TagId, srcs: seq<TagId>): nat
    decreases |srcs|
  {
    if srcs == [] then 0
    else NonTargetCount(target, srcs[..|srcs| - 1]) + (if srcs[|srcs| - 1] == target then 0 else 1)
  }

  /** A prefix of the sources costs no more statements than all of them. */
  lemma {:induction false} NonTargetCountOfPrefix(target: TagId, srcs: seq<TagId>, j: nat)
    requires j <= |srcs|
    ensures NonTargetCount(target, srcs[..j]) <= NonTargetCount(target, srcs)
    decreases |srcs|
  {
    if j < |srcs| {
      var p := srcs[..|srcs| - 1];
      assert srcs[..j] == p[..j];
      NonTargetCountOfPrefix(target, p, j);
    } else {
      assert srcs[..j] == srcs;
    }
  }

  /** Handling one more source is one more `MergeOne`, and costs two statements unless it is the target. */
  lemma MergeAllStep(db: Db, user: UserId, target: TagId, srcs: seq<TagId>, i: nat)
    requires i < |srcs|
    ensures MergeAll(db, user, target, srcs[..i + 1]) == MergeOne(MergeAll(db, user, target, srcs[..i]), user, target, srcs[i])
    ensures NonTargetCount(target, srcs[..i + 1]) == NonTargetCount(target, srcs[..i]) + (if srcs[i] == target then 0 else 1)
    ensures NonTargetCount(target, srcs[..i + 1]) <= NonTargetCount(target, srcs)
  {
    assert srcs[..i + 1][..i] == srcs[..i];
    NonTargetCountOfPrefix(target, srcs, i + 1);
  }

  /** The statements of the transaction: BEGIN, two per non-target source, COMMIT. */
  function MergeStatements(target: TagId, srcs: seq<TagId>): nat
  {
    2 + 2 * NonTargetCount(target, srcs)
  }

  /**
   * `MergeTags(userID, targetTagID, sourceTagIDs)`. `fault` names the statement
   * (counted from 0 = BEGIN) at which the database reports an error, if any.
   */
  function MergeTags(db: Db, user: UserId, target: TagId, srcs: seq<TagId>, fault: Option<nat>): (r: (Db, Outcome))
    ensures r.1.Fail? ==> r.0 == db && r.1.error == StorageFailure
    ensures r.1.Fail? <==> fault.Some? && fault.value < MergeStatements(target, srcs)
    ensures r.1 == Pass ==> MergeEffect(db, r.0, user, target, srcs)
  {
    if fault.Some? && fault.value < MergeStatements(target, srcs) then (db, Fail(StorageFailure))
    else
      MergeAllEffect(db, user, target, srcs);
      (MergeAll(db, user, target, srcs), Pass)
  }

  /** A fault within the transaction leaves the tables as they were. */
  lemma MergeTagsRollsBack(db: Db, user: UserId, target: TagId, srcs: seq<TagId>, k: nat)
    requires k < MergeStatements(target, srcs)
    ensures MergeTags(db, user, target, srcs, Some(k)) == (db, Fail(StorageFailure))
  {
  }

  // ---------------------------------------------------------------- closed form

  /** The sources the merge deletes: listed, not the target, owned by the user. */
  function OwnedSources(db: Db, user: UserId, target: TagId, srcs: seq<TagId>): (r: set<TagId>)
    ensures target !in r
    ensures forall s | s in r :: s in srcs && OwnsTag(db, user, s)
  {
    set s | s in srcs && s != target && OwnsTag(db, user, s)
  }

  /** The row of the first listed source (other than the target) that has entry `e`. */
  function FirstCopy(et: map<EntryTagKey, EntryTagRow>, e: EntryId, target: TagId, srcs: seq<TagId>): (r: Option<EntryTagRow>)
    ensures r.Some? <==> exists s | s in srcs :: s != target && (e, s) in et
    ensures r.Some? ==> exists s | s in srcs :: s != target && (e, s) in et && et[(e, s)] == r.value
    decreases |srcs|
  {
    if srcs == [] then None
    else if srcs[0] != target && (e, srcs[0]) in et then Some(et[(e, srcs[0])])
    else
      var r := FirstCopy(et, e, target, srcs[1..]);
      assert forall s | s in srcs[1..] :: s in srcs;
      assert forall s | s in srcs && s != srcs[0] :: s in srcs[1..];
      r
  }

  lemma {:induction false} FirstCopyAppend(et: map<EntryTagKey, EntryTagRow>, e: EntryId, target: TagId, srcs: seq<TagId>, s: TagId)
    ensures FirstCopy(et, e, target, srcs + [s]) ==
      if FirstCopy(et, e, target, srcs).Some? then FirstCopy(et, e, target, srcs)
      else if s != target && (e, s) in et then Some(et[(e, s)])
      else None
    decreases |srcs|
  {
    if srcs == [] {
      assert [] + [s] == [s];
      assert [s][1..] == [];
    } else {
      assert (srcs + [s])[1..] == srcs[1..] + [s];
      FirstCopyAppend(et, e, target, srcs[1..], s);
    }
  }

  /**
   * What a completed merge of `srcs` did to `db`, giving `r`:
   * - the owned sources are gone from `tags`, nothing else in `tags` changed;
   * - no association refers to an owned source any more;
   * - every other association is still there, unchanged;
   * - an association that is new is an `(e, target)` row copied from the first
   *   listed source that had entry `e`, and such a row is added for every `e`
   *   that lacked `(e, target)` and had a row with some listed source.
   */
  ghost predicate MergeEffect(db: Db, r: Db, user: UserId, target: TagId, srcs: seq<TagId>)
  {
    var gone := OwnedSources(db, user, target, srcs);
    && r == db.(tags := r.tags, entryTags := r.entryTags)
    && r.tags == db.tags - gone
    && (forall k | k in r.entryTags :: k.1 !in gone)
    && (forall k | k in db.entryTags && k.1 !in gone :: k in r.entryTags && r.entryTags[k] == db.entryTags[k])
    && (forall k | k in r.entryTags && k !in db.entryTags ::
          k.1 == target && FirstCopy(db.entryTags, k.0, target, srcs) == Some(r.entryTags[k]))
    && (forall e | (e, target) !in db.entryTags && FirstCopy(db.entryTags, e, target, srcs).Some? ::
          (e, target) in r.entryTags)
  }

  lemma MergeStep(db: Db, r0: Db, user: UserId, target: TagId, p: seq<TagId>, s: TagId)
    requires MergeEffect(db, r0, user, target, p)
    ensures MergeEffect(db, MergeOne(r0, user, target, s), user, target, p + [s])
  {
    var srcs := p + [s];
    if s == target {
      assert OwnedSources(db, user, target, srcs) == OwnedSources(db, user, target, p);
      forall e ensures FirstCopy(db.entryTags, e, target, srcs) == FirstCopy(db.entryTags, e, target, p) {
        FirstCopyAppend(db.entryTags, e, target, p, s);
      }
    } else {
      StepTables(db, r0, user, target, p, s);
      StepNewRows(db, r0, user, target, p, s);
      StepCovered(db, r0, user, target, p, s);
    }
  }

  /** The sources deleted after one more pass. */
  lemma StepGone(db: Db, r0: Db, user: UserId, target: TagId, p: seq<TagId>, s: TagId)
    requires MergeEffect(db, r0, user, target, p) && s != target
    ensures OwnedSources(db, user, target, p + [s]) ==
      OwnedSources(db, user, target, p) + (if OwnsTag(db, user, s) then {s} else {})
    ensures OwnsTag(r0, user, s) <==> OwnsTag(db, user, s) && s !in OwnedSources(db, user, target, p)
  {
  }

  /** The rows of source `s` that the copy reads are the original ones, unless `s` is already gone. */
  lemma StepSourceRows(db: Db, r0: Db, user: UserId, target: TagId, p: seq<TagId>, s: TagId, e: EntryId)
    requires MergeEffect(db, r0, user, target, p) && s != target
    ensures (e, s) in r0.entryTags <==> (e, s) in db.entryTags && s !in OwnedSources(db, user, target, p)
    ensures (e, s) in r0.entryTags ==> r0.entryTags[(e, s)] == db.entryTags[(e, s)]
  {
  }

  lemma StepTables(db: Db, r0: Db, user: UserId, target: TagId, p: seq<TagId>, s: TagId)
    requires MergeEffect(db, r0, user, target, p) && s != target
    ensures var r := MergeOne(r0, user, target, s);
      var gone := OwnedSources(db, user, target, p + [s]);
      && r == db.(tags := r.tags, entryTags := r.entryTags)
      && r.tags == db.tags - gone
      && (forall k | k in r.entryTags :: k.1 !in gone)
      && (forall k | k in db.entryTags && k.1 !in gone :: k in r.entryTags && r.entryTags[k] == db.entryTags[k])
  {
    StepGone(db, r0, user, target, p, s);
  }

  lemma StepNewRows(db: Db, r0: Db, user: UserId, target: TagId, p: seq<TagId>, s: TagId)
    requires MergeEffect(db, r0, user, target, p) && s != target
    ensures var r := MergeOne(r0, user, target, s);
      forall k | k in r.entryTags && k !in db.entryTags ::
        k.1 == target && FirstCopy(db.entryTags, k.0, target, p + [s]) == Some(r.entryTags[k])
  {
    var r := MergeOne(r0, user, target, s);
    forall k | k in r.entryTags && k !in db.entryTags
      ensures k.1 == target && FirstCopy(db.entryTags, k.0, target, p + [s]) == Some(r.entryTags[k])
    {
      FirstCopyAppend(db.entryTags, k.0, target, p, s);
      if k !in r0.entryTags {
        StepSourceRows(db, r0, user, target, p, s, k.0);
        assert (k.0, target) !in db.entryTags;
        assert FirstCopy(db.entryTags, k.0, target, p).None?;
      }
    }
  }

  lemma StepCovered(db: Db, r0: Db, user: UserId, target: TagId, p: seq<TagId>, s: TagId)
    requires MergeEffect(db, r0, user, target, p) && s != target
    ensures var r := MergeOne(r0, user, target, s);
      forall e | (e, target) !in db.entryTags && FirstCopy(db.entryTags, e, target, p + [s]).Some? ::
        (e, target) in r.entryTags
  {
    var r := MergeOne(r0, user, target, s);
    forall e | (e, target) !in db.entryTags && FirstCopy(db.entryTags, e, target, p + [s]).Some?
      ensures (e, target) in r.entryTags
    {
      FirstCopyAppend(db.entryTags, e, target, p, s);
      if FirstCopy(db.entryTags, e, target, p).None? {
        StepSourceRows(db, r0, user, target, p, s, e);
        assert s !in OwnedSources(db, user, target, p);
        assert (e, s) in r0.entryTags;
      }
    }
  }

  lemma {:induction false} MergeAllEffect(db: Db, user: UserId, target: TagId, srcs: seq<TagId>)
    ensures MergeEffect(db, MergeAll(db, user, target, srcs), user, target, srcs)
    decreases |srcs|
  {
    if srcs == [] {
      assert OwnedSources(db, user, target, srcs) == {};
    } else {
      var p, s := srcs[..|srcs| - 1], srcs[|srcs| - 1];
      assert srcs == p + [s];
      MergeAllEffect(db, user, target, p);
      MergeStep(db, MergeAll(db, user, target, p), user, target, p, s);
    }
  }

  // ---------------------------------------------------------------- invariants

  /** A merge neither creates tags nor moves the identifier sequences. */
  lemma MergeKeepsValid(db: Db, user: UserId, target: TagId, srcs: seq<TagId>, fault: Option<nat>)
    requires Valid(db)
    ensures Valid(MergeTags(db, user, target, srcs, fault).0)
  {
  }

  /** A merge only deletes tags, so it cannot make two names collide. */
  lemma MergeKeepsNamesUnique(db: Db, user: UserId, target: TagId, srcs: seq<TagId>, fault: Option<nat>)
    requires NamesUnique(db)
    ensures NamesUnique(MergeTags(db, user, target, srcs, fault).0)
  {
  }

  /** Merging into an existing tag leaves no association dangling. */
  lemma MergeKeepsTagRefsIntact(db: Db, user: UserId, target: TagId, srcs: seq<TagId>, fault: Option<nat>)
    requires TagRefsIntact(db) && target in db.tags
    ensures TagRefsIntact(MergeTags(db, user, target, srcs, fault).0)
  {
    var r := MergeTags(db, user, target, srcs, fault);
    if r.1 == Pass {
      forall k | k in r.0.entryTags ensures k.0 in r.0.entries && k.1 in r.0.tags {
        if k !in db.entryTags {
          var row := FirstCopy(db.entryTags, k.0, target, srcs);
          var u :| u in srcs && u != target && (k.0, u) in db.entryTags && db.entryTags[(k.0, u)] == row.value;
        }
      }
    }
  }

  /**
   * Merging the user's own tags into the user's own tag keeps every
   * association within one user. Listed ids that are not tags at all do no
   * harm; a listed tag of another user would (see MergeCopiesForeignRows).
   */
  lemma MergeKeepsTenantIsolated(db: Db, user: UserId, target: TagId, srcs: seq<TagId>, fault: Option<nat>)
    requires TenantIsolated(db) && OwnsTag(db, user, target)
    requires forall s | s in srcs && s in db.tags :: db.tags[s].owner == user
    ensures TenantIsolated(MergeTags(db, user, target, srcs, fault).0)
  {
    var r := MergeTags(db, user, target, srcs, fault);
    if r.1 == Pass {
      forall k | k in r.0.entryTags
        ensures k.0 in r.0.entries && k.1 in r.0.tags && r.0.entries[k.0].owner == r.0.tags[k.1].owner
      {
        if k !in db.entryTags {
          var row := FirstCopy(db.entryTags, k.0, target, srcs);
          var u :| u in srcs && u != target && (k.0, u) in db.entryTags && db.entryTags[(k.0, u)] == row.value;
          assert db.entries[k.0].owner == db.tags[u].owner == user;
        }
      }
    }
  }

  /**
   * The copy has no owner filter: the rows of a listed tag of another user
   * are copied onto the target, and that tag and its rows stay.
   */
  lemma MergeCopiesForeignRows(db: Db, user: UserId, target: TagId, srcs: seq<TagId>, e: EntryId, s: TagId)
    requires s in srcs && s != target && s in db.tags && db.tags[s].owner != user
    requires (e, s) in db.entryTags
    ensures var r := MergeTags(db, user, target, srcs, None).0;
      s in r.tags && (e, s) in r.entryTags && (e, target) in r.entryTags
  {
    var r := MergeTags(db, user, target, srcs, None).0;
    assert FirstCopy(db.entryTags, e, target, srcs).Some?;
  }
}
