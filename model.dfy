/**
 * The records of the tag and cluster model: the values that queries return
 * and that requests carry (internal/model/tag.go, internal/model/cluster.go).
 */
module Model {
  import opened Wrappers

  type UserId = int
  type TagId = int
  type EntryId = int
  type ClusterId = int
  /** A timestamp; a larger value is a later instant. */
  type Time = int

  /** Provenance of an entry-tag association. */
  const TagSourceManual: string := "manual"
  const TagSourceAuto: string := "auto"

  /** A tag as returned by the store; `entryCount` is set only by `TagsWithCount`. */
  datatype Tag = Tag(id: TagId, userId: UserId, name: string, createdAt: Time, entryCount: Option<int>)

  datatype TagCreationRequest = TagCreationRequest(name: string)

  /** A rename request; an absent name leaves the tag as it is. */
  datatype TagModificationRequest = TagModificationRequest(name: Option<string>)

  /** An entry-tag association joined with the tag's name for display. */
  datatype EntryTag = EntryTag(entryId: EntryId, tagId: TagId, source: string, createdAt: Time, tagName: string)

  datatype EntryTagRequest = EntryTagRequest(tagIds: seq<TagId>)

  datatype EntryTagByNameRequest = EntryTagByNameRequest(tagNames: seq<string>, source: string)

  /** The columns of an entry that the association engine reads. */
  datatype Entry = Entry(id: EntryId, userId: UserId, publishedAt: Time)

  /** A cluster as returned by the store; `entries` is filled only by `GetClusterWithEntries`. */
  datatype Cluster = Cluster(
    id: ClusterId,
    userId: UserId,
    name: string,
    createdAt: Time,
    expiresAt: Option<Time>,
    entryCount: Option<int>,
    entries: seq<Entry>)

  /** One row of `cluster_entries`. */
  datatype ClusterEntry = ClusterEntry(clusterId: ClusterId, entryId: EntryId)

  /** The tag after `TagModificationRequest.Patch` has updated it. */
  function Patch(request: TagModificationRequest, tag: Tag): (r: Tag)
    ensures r.id == tag.id && r.userId == tag.userId
    ensures r.createdAt == tag.createdAt && r.entryCount == tag.entryCount
    ensures request.name.None? ==> r == tag
    ensures request.name.Some? ==> r.name == request.name.value
  {
    match request.name
    case None => tag
    case Some(name) => tag.(name := name)
  }

  lemma PatchIdempotent(request: TagModificationRequest, tag: Tag)
    ensures Patch(request, Patch(request, tag)) == Patch(request, tag)
  {
  }

  /** A `*Tag` held by a handler, which `Patch` updates in place. */
  class TagRef {
    var tag: Tag

    constructor (tag: Tag)
      ensures this.tag == tag
    {
      this.tag := tag;
    }
  }

  /** `TagModificationRequest.Patch(tag)`: overwrite the name through the pointer when one was sent. */
  method ApplyPatch(request: TagModificationRequest, ref: TagRef)
    modifies ref
    ensures ref.tag == Patch(request, old(ref.tag))
  {
    if request.name.Some? {
      ref.tag := ref.tag.(name := request.name.value);
    }
  }
}
