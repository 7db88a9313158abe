# Tag and cluster association engine

This project models the part of the storage layer that attaches user tags to
feed entries and groups entries into clusters. The layer has three parts:

- **Tags.** A user owns tags. Names are unique per user when case is
  ignored, but only the request validators enforce this.
- **Entry tags.** An entry-tag association carries a provenance: `"manual"`
  when a person attached the tag, `"auto"` when a classifier did.
- **Clusters.** A cluster belongs to a user, may expire, and holds a set of
  entries.

Every storage function runs one or more SQL statements on five tables:
`tags`, `entries` (read-only here), `entry_tags`, `clusters` and
`cluster_entries`.

The model has two layers.

- **The value layer.** `Schema.Db` holds the five tables as maps and sets,
  plus the two identifier sequences. Each storage function is a Dafny
  function over `Db` in `TagStore`, `TagMerge`, `EntryTagStore`, `TagNames`
  and `ClusterStore`:
  - a query returns what the Go function returns;
  - a statement returns the new database together with the reported outcome.

  Each such function's contract states what the SQL promises. Lemmas relate
  operations to one another: idempotence, stability, list and count
  agreement, and the invariants the operations preserve.
- **The imperative layer.** `Storage.Store` is a class whose fields are the
  tables. Its methods update those fields statement by statement, as the Go
  code does. The loops of `MergeTags`, `AddTagsToEntry`,
  `AddTagsToEntryByName`, `AddEntriesToCluster` and `GetTagNamesForEntries`
  are `while` loops with invariants. Every method is proved to leave the
  tables exactly as the value-layer function prescribes, so every lemma
  about that function holds for the class too. The class invariant
  `Store.Valid()` (each identifier sequence is ahead of the identifiers in
  use) is established by the constructor and kept by every method that
  changes the tables.

Design choices:

- **Transactions.** `MergeTags` and `AddEntriesToCluster` take a fault
  oracle: the index of the statement whose execution fails, or none.
  - In `MergeTags`, BEGIN is statement 0, then an INSERT and a DELETE for
    each source that is not the target, then COMMIT.
  - In `AddEntriesToCluster`, BEGIN is 0, PREPARE is 1, then one execution
    per entry, then COMMIT.

  A fault rolls back to the state before the call.
- **Cascades.** Deleting a tag deletes its `entry_tags` rows. Deleting a
  cluster deletes its `cluster_entries` rows. The doc comments at
  internal/storage/tag.go:139 and :223 and internal/storage/cluster.go:261
  promise this.
- **SQL primitives.** `lower()` and `ORDER BY name` become the abstract
  `Names.Lower` and `Names.NameLess`. `Names.Utf8Length` is Go's byte
  length `len`. `NOW()` is a `now` parameter. Fresh identifiers come from
  the counters.

## Model

| member | source | states |
|---|---|---|
| Model.Patch | internal/model/tag.go:43-47 | an absent name leaves the tag unchanged; a present name becomes the tag's name; id, owner, creation time and count never change |
| Model.ApplyPatch | internal/model/tag.go:43-47 | updating the tag through the pointer leaves it equal to `Patch` of the old tag |
| Model.PatchIdempotent | internal/model/tag.go:43-47 | applying the same patch twice equals applying it once |
| TagStore.TagByID | internal/storage/tag.go:15-29 | a tag is returned exactly when a row with that id exists and belongs to the user, and it is that row |
| TagStore.TagIDExists | internal/storage/tag.go:160-165 | true exactly when `TagByID` finds the tag |
| TagStore.TagByName | internal/storage/tag.go:32-46 | none exactly when no tag of the user matches the name ignoring case; otherwise a stored row of the user that matches |
| TagStore.TagNameExists | internal/storage/tag.go:168-173 | true exactly when `TagByName` finds a tag |
| TagStore.AnotherTagExists | internal/storage/tag.go:176-181 | true exactly when some other tag of the user matches the name ignoring case |
| TagStore.Tags | internal/storage/tag.go:49-67 | every listed tag is the user's and equals its row; every tag of the user is listed; ids are distinct and names ascend |
| TagStore.TagEntryCount | internal/storage/tag.go:71-83 | a tag's count is the number of entries carrying it, and zero exactly when no association references it |
| TagStore.TagsWithCount | internal/storage/tag.go:70-102 | the same tags in the same order as `Tags`, each carrying the number of its associations |
| TagStore.CreateTag | internal/storage/tag.go:105-125 | exactly one row is added, under a fresh id, with the given owner, name and time; the other rows and tables are unchanged |
| TagStore.UpdateTag | internal/storage/tag.go:128-137 | only the name of the row matching both id and owner changes; when no row matches, nothing changes |
| TagStore.RemoveTag | internal/storage/tag.go:139-157 | not found and nothing changed when the user does not own the tag; otherwise the tag and every association referencing it are gone and every other row is kept |
| TagStore.GetOrCreateTag | internal/storage/tag.go:184-195 | an existing case-insensitive match is returned with the database unchanged; otherwise exactly one tag is created with that name |
| TagStore.GetOrCreateTagFinds | internal/storage/tag.go:184-195 | after the call, looking the name up returns the tag the call returned |
| TagStore.GetOrCreateTagIsStable | internal/storage/tag.go:184-195 | a second call with the same name returns the same tag and creates nothing |
| TagStore.GetOrCreateTagKeepsNamesUnique | internal/storage/tag.go:184-195 | per-user case-insensitive uniqueness of names is preserved |
| TagStore.TagStatementsKeepIntegrity | internal/storage/tag.go:105-157 | creating, renaming and removing a tag keep every association pointing at an existing entry and tag of one owner; the removal does so by its cascade |
| TagMerge.CopyRows | internal/storage/tag.go:210-217 | every existing association is kept as it is; each added row is `(entry, target)` with the source row's provenance and time; every entry of the source ends with a target row |
| TagMerge.MergeTags | internal/storage/tag.go:198-236 | a fault at any statement reports a failure and leaves the database unchanged; without a fault the result satisfies `MergeEffect` |
| TagMerge.MergeTagsRollsBack | internal/storage/tag.go:218-234 | a fault at any statement index up to COMMIT yields the original database and a failure |
| TagMerge.MergeAllEffect | internal/storage/tag.go:205-229 | after the loop, the owned sources other than the target are deleted with their rows; every other row is kept unchanged; each new row is the target row copied from the first listed source that had one; every entry of a listed source has a target row |
| TagMerge.MergeKeepsValid | internal/storage/tag.go:198-236 | the identifier sequence stays ahead of every tag id |
| TagMerge.MergeKeepsNamesUnique | internal/storage/tag.go:198-236 | merging preserves per-user name uniqueness |
| TagMerge.MergeKeepsTagRefsIntact | internal/storage/tag.go:198-236 | when the target exists, every association still references an existing tag |
| TagMerge.MergeKeepsTenantIsolated | internal/storage/tag.go:198-236 | when the target and the existing sources are the user's, every association still links an entry and tag of the same owner |
| TagMerge.MergeCopiesForeignRows | internal/storage/tag.go:210-224 | a listed source owned by another user is not deleted, yet its rows are copied to the target |
| EntryTagStore.Upsert | internal/storage/entry_tag.go:30-36 | the key is present with the new provenance; an existing row keeps its creation time; every other row is unchanged |
| EntryTagStore.AddTagToEntry | internal/storage/entry_tag.go:14-43 | fails with not found and changes nothing unless the user owns both entry and tag; otherwise exactly the `(entry, tag)` row is upserted, with an empty source stored as `"manual"` |
| EntryTagStore.AddTagsToEntry | internal/storage/entry_tag.go:46-53 | succeeds exactly when the list is empty or the user owns the entry and every tag; only `entry_tags` changes; a foreign entry changes nothing |
| EntryTagStore.AddTagsToEntryEffect | internal/storage/entry_tag.go:46-53 | on success every listed tag is attached with the stored provenance; no row is lost; only rows of that entry and the listed tags change |
| EntryTagStore.AddTagsToEntryStopsAtFirstError | internal/storage/entry_tag.go:47-52 | the first tag the user does not own stops the loop with not found, and the tags before it stay attached |
| EntryTagStore.AddTagToEntryByName | internal/storage/entry_tag.go:56-63 | succeeds exactly when the user owns the entry; existing tags and associations are kept; a failure leaves `entry_tags` unchanged |
| EntryTagStore.AddTagToEntryByNameEffect | internal/storage/entry_tag.go:56-63 | at most one tag is created, and only when no case variant existed; afterwards the name resolves, and on success the resolved tag is attached; only that row changes |
| EntryTagStore.AddTagsToEntryByName | internal/storage/entry_tag.go:66-73 | succeeds exactly when the list is empty or the user owns the entry; an empty list changes nothing; existing tags and associations are kept |
| EntryTagStore.AddTagsToEntryByNameAttachesAll | internal/storage/entry_tag.go:66-73 | on success every listed name resolves to a tag attached to the entry with the stored provenance |
| EntryTagStore.AddTagsToEntryByNameKeepsLookups | internal/storage/entry_tag.go:66-73 | a name that already resolved keeps resolving to the same tag |
| EntryTagStore.AddTagsToEntryByNameKeepsNamesUnique | internal/storage/entry_tag.go:66-73 | per-user name uniqueness is preserved |
| EntryTagStore.AddTagsToEntryByNameFailureKeepsCreatedTag | internal/storage/entry_tag.go:56-73 | on a foreign entry the call fails, yet the tag created for the first name stays |
| EntryTagStore.AddTagToEntryKeepsIntegrity | internal/storage/entry_tag.go:14-43 | thanks to the two ownership checks, attaching keeps every association pointing at an existing entry and tag of one owner |
| EntryTagStore.AddTagsToEntryKeepsIntegrity | internal/storage/entry_tag.go:46-53 | the batch attach keeps every association pointing at an existing entry and tag of one owner |
| EntryTagStore.AddTagToEntryByNameKeepsIntegrity | internal/storage/entry_tag.go:56-63 | attaching by name, including the creation of a new tag, keeps every association pointing at an existing entry and tag of one owner |
| EntryTagStore.AddTagsToEntryByNameKeepsIntegrity | internal/storage/entry_tag.go:66-73 | the by-name batch keeps every association pointing at an existing entry and tag of one owner |
| EntryTagStore.RemoveTagFromEntry | internal/storage/entry_tag.go:76-91 | not found and nothing changed unless the user owns the entry; otherwise exactly the `(entry, tag)` row is gone, and its absence still counts as success |
| EntryTagStore.RemoveTagFromEntryIdempotent | internal/storage/entry_tag.go:76-91 | repeating the call changes nothing more |
| EntryTagStore.RemoveAllTagsFromEntry | internal/storage/entry_tag.go:94-109 | not found and nothing changed unless the user owns the entry; otherwise exactly the entry's rows are gone |
| EntryTagStore.GetEntryTags | internal/storage/entry_tag.go:112-136 | exactly the entry's associations whose tag is the user's, each joined to its tag name, with names ascending |
| EntryTagStore.ConfirmAutoTag | internal/storage/entry_tag.go:166-181 | not found and nothing changed unless the user owns the entry; otherwise an existing row becomes `"manual"` and keeps its time; a missing row is no error; no other row changes |
| EntryTagStore.DetachKeepsIntegrity | internal/storage/entry_tag.go:76-224 | detaching one tag, detaching all tags, confirming and removing auto tags keep every association pointing at an existing entry and tag of one owner |
| EntryTagStore.GetAutoTagsForEntry | internal/storage/entry_tag.go:184-208 | every returned row is an `"auto"` association of the entry with a tag of the user |
| EntryTagStore.AutoTagsAreFiltered | internal/storage/entry_tag.go:184-208 | the result is exactly the subsequence of `GetEntryTags` whose provenance is `"auto"` |
| EntryTagStore.RemoveAutoTagsFromEntry | internal/storage/entry_tag.go:211-224 | deletes exactly the entry's `"auto"` rows whose tag is the user's, with no entry-ownership check; every other row is kept |
| EntryTagStore.RemoveAutoTagsLeavesNone | internal/storage/entry_tag.go:184-224 | afterwards `GetAutoTagsForEntry` returns nothing |
| EntryTagStore.ConfirmedTagIsNotAuto | internal/storage/entry_tag.go:166-208 | after confirmation the tag is no longer listed among the entry's auto tags; this uses `"manual"` and `"auto"` being distinct |
| EntryTagStore.GetEntriesWithTag | internal/storage/entry_tag.go:139-163 | exactly the user's entries that carry the tag, distinct, newest first |
| EntryTagStore.CountEntriesWithTag | internal/storage/entry_tag.go:227-241 | equals the length of `GetEntriesWithTag` |
| TagNames.TagNamesForEntries | internal/storage/entry_tag.go:244-273 | the empty map for no ids; otherwise every key is a requested id and maps to that entry's names of the user's tags in ascending order, and untagged entries are absent |
| TagNames.GroupRows | internal/storage/entry_tag.go:262-270 | appending the ordered rows of distinct entries groups each tagged entry to exactly its names and adds no other key |
| Validator.CheckName | internal/validator/tag.go:14-20 | passes exactly for a non-empty name of at most 255 bytes; empty gives "required", too long gives "too long" |
| Validator.ValidateTagCreation | internal/validator/tag.go:13-27 | the empty name is rejected first, then the over-long one; "already exists" is reported exactly when the name is well formed and the user has a case variant of it; passes exactly when neither applies |
| Validator.CreationValidationKeepsNamesUnique | internal/validator/tag.go:22-26 | a request that passes validation, followed by `CreateTag`, preserves per-user name uniqueness |
| Validator.ValidateTagModification | internal/validator/tag.go:30-46 | no name always passes; with a name, the same checks apply, but the duplicate check ignores the tag being renamed |
| Validator.RenameToOwnCaseVariantPasses | internal/validator/tag.go:32-42 | renaming a tag to a case variant of its own name passes |
| Validator.ModificationValidationKeepsNamesUnique | internal/validator/tag.go:30-46 | a rename that passes validation, applied with `Patch` and `UpdateTag`, preserves per-user name uniqueness |
| Validator.ValidateEntryTagRequest | internal/validator/tag.go:49-55 | fails, with "ids required", exactly when the id list is empty |
| Validator.FirstBadName | internal/validator/tag.go:63-70 | none exactly when every name is valid; otherwise the error of the first invalid name |
| Validator.ValidateEntryTagByNameRequest | internal/validator/tag.go:58-77 | an empty list fails first, then the first bad name's error, then an unknown provenance; otherwise it passes |
| ClusterStore.ClusterByID | internal/storage/cluster.go:16-40 | returned exactly when the cluster exists and is the user's, whatever its expiry |
| ClusterStore.Clusters | internal/storage/cluster.go:43-75 | exactly the user's active clusters (no expiry, or expiry after now), each with its membership count, newest first |
| ClusterStore.ExpiryAtNowIsNeither | internal/storage/cluster.go:48 | a cluster whose expiry equals now is neither listed as active nor swept as expired |
| ClusterStore.GetEntryClusters | internal/storage/cluster.go:345-376 | exactly the user's active clusters that contain the entry, newest first |
| ClusterStore.EntryClustersAreListed | internal/storage/cluster.go:345-376 | every cluster of an entry is also listed by `Clusters` |
| ClusterStore.GetClusterEntries | internal/storage/cluster.go:171-236 | exactly the user's entries that are members of the cluster, distinct, by publication time descending |
| ClusterStore.GetClusterWithEntries | internal/storage/cluster.go:239-259 | none exactly when `ClusterByID` is none; otherwise the cluster's columns, its entries as listed by `GetClusterEntries`, and an entry count equal to their number |
| ClusterStore.CreateCluster | internal/storage/cluster.go:78-110 | exactly one cluster row is added, under a fresh id, with the given owner, name and expiry; nothing else changes |
| ClusterStore.AddEntryToCluster | internal/storage/cluster.go:113-125 | afterwards the pair is present, and no other membership changes |
| ClusterStore.AddEntryToClusterIdempotent | internal/storage/cluster.go:113-125 | repeating the insert changes nothing, and inserting a present pair is a no-op |
| ClusterStore.AddEntriesToCluster | internal/storage/cluster.go:128-157 | an empty list is a no-op; a fault fails with the memberships unchanged; otherwise memberships become the old ones united with the given pairs |
| ClusterStore.AddEntriesKeepsRefsIntact | internal/storage/cluster.go:128-157 | inserting into an existing cluster keeps every membership pointing to an existing cluster |
| ClusterStore.RemoveEntryFromCluster | internal/storage/cluster.go:160-168 | only that pair is removed, and an absent pair changes nothing |
| ClusterStore.RemoveCluster | internal/storage/cluster.go:262-275 | not found and nothing changed unless the user owns the cluster; otherwise the cluster and its memberships are gone and every other row is kept |
| ClusterStore.RemoveExpiredClusters | internal/storage/cluster.go:278-286 | deletes exactly the clusters whose expiry is strictly before now, with their memberships, and returns how many it deleted |
| ClusterStore.RemoveExpiredClustersTwice | internal/storage/cluster.go:278-286 | a second sweep with the same now deletes nothing |
| ClusterStore.SweepKeepsActiveClusters | internal/storage/cluster.go:43-75 | sweeping never changes which clusters are listed as active at that instant |
| ClusterStore.RemoveAllClusters | internal/storage/cluster.go:289-297 | every cluster of the user and its memberships are gone; other users' clusters and memberships are kept |
| ClusterStore.ClusterDeletesKeepRefsIntact | internal/storage/cluster.go:262-297 | after any cluster delete, every membership still points to an existing cluster |
| Storage.Store.CreateTag | internal/storage/tag.go:105-125 | the tables become those of `TagStore.CreateTag`, and the returned tag is its tag; the class invariant is kept |
| Storage.Store.UpdateTag | internal/storage/tag.go:128-137 | the tables become those of `TagStore.UpdateTag`; the class invariant is kept |
| Storage.Store.DeleteTag | internal/storage/tag.go:141-146 | the delete statement with its cascade: reports a row affected exactly when the user owned the tag, and then the tables are those of `Schema.DropTag`, otherwise unchanged |
| Storage.Store.RemoveTag | internal/storage/tag.go:140-157 | tables and outcome are those of `TagStore.RemoveTag`; the class invariant is kept |
| Storage.Store.GetOrCreateTag | internal/storage/tag.go:184-195 | tables and tag are those of `TagStore.GetOrCreateTag`; the class invariant is kept |
| Storage.Store.ReassignSource | internal/storage/tag.go:206-228 | one pass of the merge loop: with no fault at its two statements the tables become `TagMerge.MergeOne` of the old ones; a fault at either stops it with only `entry_tags` possibly changed |
| Storage.Store.ReassignAll | internal/storage/tag.go:204-229 | the merge loop: without a fault it leaves `TagMerge.MergeAll` of the old tables and the index of COMMIT; a fault stops it at a statement inside the transaction, with only `tags` and `entry_tags` touched |
| Storage.Store.MergeTags | internal/storage/tag.go:198-236 | the transaction loop with rollback leaves the tables and outcome of `TagMerge.MergeTags`; the class invariant is kept |
| Storage.Store.AddTagToEntry | internal/storage/entry_tag.go:14-43 | tables and outcome are those of `EntryTagStore.AddTagToEntry`; the class invariant is kept |
| Storage.Store.AddTagsToEntry | internal/storage/entry_tag.go:46-53 | the early-exit loop leaves the tables and outcome of `EntryTagStore.AddTagsToEntry`; the class invariant is kept |
| Storage.Store.AddTagToEntryByName | internal/storage/entry_tag.go:56-63 | tables and outcome are those of `EntryTagStore.AddTagToEntryByName`; the class invariant is kept |
| Storage.Store.AddTagsToEntryByName | internal/storage/entry_tag.go:66-73 | the early-exit loop leaves the tables and outcome of `EntryTagStore.AddTagsToEntryByName`; the class invariant is kept |
| Storage.Store.AttachNameAt | internal/storage/entry_tag.go:67-72 | one pass of the by-name loop: a failure is the outcome of the whole call, and success leaves exactly the rest of the names to do |
| Storage.Store.RemoveTagFromEntry | internal/storage/entry_tag.go:76-91 | tables and outcome are those of `EntryTagStore.RemoveTagFromEntry`; the class invariant is kept |
| Storage.Store.RemoveAllTagsFromEntry | internal/storage/entry_tag.go:94-109 | tables and outcome are those of `EntryTagStore.RemoveAllTagsFromEntry`; the class invariant is kept |
| Storage.Store.ConfirmAutoTag | internal/storage/entry_tag.go:166-181 | tables and outcome are those of `EntryTagStore.ConfirmAutoTag`; the class invariant is kept |
| Storage.Store.RemoveAutoTagsFromEntry | internal/storage/entry_tag.go:211-224 | the tables become those of `EntryTagStore.RemoveAutoTagsFromEntry`; the class invariant is kept |
| Storage.Store.GetTagNamesForEntries | internal/storage/entry_tag.go:244-273 | the map built row by row has only requested, tagged entries as keys, each mapped to exactly its names |
| Storage.Store.CreateCluster | internal/storage/cluster.go:78-110 | tables and cluster are those of `ClusterStore.CreateCluster`; the class invariant is kept |
| Storage.Store.AddEntryToCluster | internal/storage/cluster.go:113-125 | the tables become those of `ClusterStore.AddEntryToCluster`; the class invariant is kept |
| Storage.Store.AddEntriesToCluster | internal/storage/cluster.go:128-157 | the transaction loop with rollback leaves the tables and outcome of `ClusterStore.AddEntriesToCluster`; the class invariant is kept |
| Storage.Store.RemoveEntryFromCluster | internal/storage/cluster.go:160-168 | the tables become those of `ClusterStore.RemoveEntryFromCluster`; the class invariant is kept |
| Storage.Store.RemoveCluster | internal/storage/cluster.go:262-275 | tables and outcome are those of `ClusterStore.RemoveCluster`; the class invariant is kept |
| Storage.Store.RemoveExpiredClusters | internal/storage/cluster.go:278-286 | tables and count are those of `ClusterStore.RemoveExpiredClusters`; the class invariant is kept |
| Storage.Store.RemoveAllClusters | internal/storage/cluster.go:289-297 | the tables become those of `ClusterStore.RemoveAllClusters`; the class invariant is kept |

## Left out

- Errors from a single statement, such as a lost connection, a failed scan or
  a failed query, are not modelled outside the two transactions. Those
  functions either succeed or report not found.
- Case folding is `Names.Lower`, which maps ASCII letters only. Postgres
  `lower()` also folds non-ASCII letters under the database locale.
- `ORDER BY name` compares code points (`Names.NameLess`), not the database
  collation.
- Rows whose sort keys are equal are ordered by id. SQL leaves that order
  unspecified.
- `TagByName` returns the lowest matching id. Without `ORDER BY`, the
  database may return any matching row.
- Inserts check no foreign keys. This covers `AddEntryToCluster`,
  `AddEntriesToCluster` and the target row inserted by `MergeTags`. No such
  check is visible in the code. The cascades on delete are modelled.
- `TagStore.CreateTag` does not reject a duplicate name. The only guard is
  `ValidateTagCreation`, run before the call.
- The feed, category and icon columns that `GetClusterEntries` joins for
  display are left out. Only the owner filter, the membership filter and the
  publication order are kept.
- The entry-processing functions at internal/storage/cluster.go:299-505 are
  left out. They handle summaries, embeddings, full-text flags and
  day-interval dates, not associations.
- Concurrency and transaction isolation are left out. This includes the race
  between the lookup and the insert in `GetOrCreateTag`. Everything runs
  sequentially.
- Identifiers and counts are unbounded integers. 64-bit overflow of the
  identifier sequences is not modelled.
- `NOW()` is the `now` parameter. The database clock is outside the model.
- The HTTP handlers in internal/api/tag.go are left out. internal/model/cluster.go
  holds only a struct, modelled by `Model.Cluster`, and a `String()` method.
  The `String()` methods are left out.
- Storage.Store.GetOrCreateTag: the error returns of the lookup and the
  insert are not modelled; the lookup either finds a tag or the insert
  creates one.
- EntryTagStore.GetAutoTagsForEntry: its own contract states membership and
  provenance only. Order and completeness follow from
  `EntryTagStore.AutoTagsAreFiltered`, which equates the result with the
  `"auto"` subsequence of `GetEntryTags`.
- Model.PatchIdempotent: Dafny proves it directly from `Patch`'s definition.
