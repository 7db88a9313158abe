/**
 * The request validators of internal/validator/tag.go: guard checks that run
 * in order and report the first problem, consulting the store for duplicate
 * names.
 */
module Validator {
  import opened Wrappers
  import opened Names
  import opened Model
  import opened Schema
  import opened TagStore

  /** The localized error keys the validators return. */
  datatype ValidationError =
    | TagNameRequired
    | TagNameTooLong
    | TagAlreadyExists
    | TagIdsRequired
    | TagNamesRequired
    | InvalidTagSource

  /** The longest tag name accepted, in bytes. */
  const MaxTagNameLength: nat := 255

  /** The first two checks every name goes through: present, and not too long. */
  function CheckName(name: string): (r: Option<ValidationError>)
    ensures r.None? <==> name != "" && Utf8Length(name) <= MaxTagNameLength
    ensures name == "" ==> r == Some(TagNameRequired)
    ensures name != "" && Utf8Length(name) > MaxTagNameLength ==> r == Some(TagNameTooLong)
  {
    if name == "" then Some(TagNameRequired)
    else if Utf8Length(name) > MaxTagNameLength then Some(TagNameTooLong)
    else None
  }

  /** `ValidateTagCreation`: the name checks, then no tag of the user may have the name in any case. */
  function ValidateTagCreation(db: Db, user: UserId, request: TagCreationRequest): (r: Option<ValidationError>)
    ensures request.name == "" ==> r == Some(TagNameRequired)
    ensures request.name != "" && Utf8Length(request.name) > MaxTagNameLength ==> r == Some(TagNameTooLong)
    ensures r == Some(TagAlreadyExists) <==> CheckName(request.name).None? && TagByName(db, user, request.name).Some?
    ensures r.None? <==> (CheckName(request.name).None? &&
                          forall t | t in db.tags :: !(db.tags[t].owner == user && SameFolded(db.tags[t].name, request.name)))
  {
    if CheckName(request.name).Some? then CheckName(request.name)
    else if TagNameExists(db, user, request.name) then Some(TagAlreadyExists)
    else None
  }

  /** A name that passed creation validation can be inserted without a case-insensitive clash. */
  lemma CreationValidationKeepsNamesUnique(db: Db, user: UserId, request: TagCreationRequest, now: Time)
    requires Valid(db) && NamesUnique(db)
    requires ValidateTagCreation(db, user, request).None?
    ensures NamesUnique(CreateTag(db, user, request.name, now).0)
  {
    var r := CreateTag(db, user, request.name, now);
    var id := r.1.id;
    forall t1, t2 | t1 in r.0.tags && t2 in r.0.tags && t1 != t2 && r.0.tags[t1].owner == r.0.tags[t2].owner
      ensures !SameFolded(r.0.tags[t1].name, r.0.tags[t2].name)
    {
      if t1 == id {
        assert !SameFolded(db.tags[t2].name, request.name);
      } else if t2 == id {
        assert !SameFolded(db.tags[t1].name, request.name);
      }
    }
  }

  /** `ValidateTagModification`: nothing to check without a name; else the name checks, ignoring the tag itself. */
  function ValidateTagModification(db: Db, user: UserId, t: TagId, request: TagModificationRequest): (r: Option<ValidationError>)
    ensures request.name.None? ==> r.None?
    ensures request.name.Some? ==> var name := request.name.value;
      && (name == "" ==> r == Some(TagNameRequired))
      && (name != "" && Utf8Length(name) > MaxTagNameLength ==> r == Some(TagNameTooLong))
      && (r.None? <==> (CheckName(name).None? &&
                        forall u | u in db.tags :: !(u != t && db.tags[u].owner == user && SameFolded(db.tags[u].name, name))))
      && (r == Some(TagAlreadyExists) <==> CheckName(name).None? && AnotherTagExists(db, user, t, name))
  {
    match request.name
    case None => None
    case Some(name) =>
      if CheckName(name).Some? then CheckName(name)
      else if AnotherTagExists(db, user, t, name) then Some(TagAlreadyExists)
      else None
  }

  /** Renaming a tag to a case variant of its own name is accepted. */
  lemma RenameToOwnCaseVariantPasses(db: Db, user: UserId, t: TagId, name: string)
    requires NamesUnique(db) && OwnsTag(db, user, t) && SameFolded(db.tags[t].name, name)
    requires CheckName(name).None?
    ensures ValidateTagModification(db, user, t, TagModificationRequest(Some(name))).None?
  {
    forall u | u in db.tags && u != t && db.tags[u].owner == user
      ensures !SameFolded(db.tags[u].name, name)
    {
      assert !SameFolded(db.tags[u].name, db.tags[t].name);
    }
  }

  /**
   * The update flow: the stored tag is loaded, the request validated against it,
   * patched and written back; names stay unique.
   */
  lemma ModificationValidationKeepsNamesUnique(db: Db, user: UserId, t: TagId, request: TagModificationRequest)
    requires NamesUnique(db) && TagByID(db, user, t).Some?
    requires ValidateTagModification(db, user, t, request).None?
    ensures NamesUnique(UpdateTag(db, Patch(request, TagByID(db, user, t).value)))
  {
    var tag := TagByID(db, user, t).value;
    var r := UpdateTag(db, Patch(request, tag));
    if request.name.None? {
      assert r == db;
    } else {
      forall t1, t2 | t1 in r.tags && t2 in r.tags && t1 != t2 && r.tags[t1].owner == r.tags[t2].owner
        ensures !SameFolded(r.tags[t1].name, r.tags[t2].name)
      {
        if t1 == t {
          assert !SameFolded(db.tags[t2].name, request.name.value);
        } else if t2 == t {
          assert !SameFolded(db.tags[t1].name, request.name.value);
        }
      }
    }
  }

  /** `ValidateEntryTagRequest`: at least one tag id. */
  function ValidateEntryTagRequest(request: EntryTagRequest): (r: Option<ValidationError>)
    ensures r.None? <==> |request.tagIds| > 0
    ensures r.Some? ==> r.value == TagIdsRequired
  {
    if |request.tagIds| == 0 then Some(TagIdsRequired) else None
  }

  /** The name check of the first name that fails it, if any. */
  function FirstBadName(names: seq<string>): (r: Option<ValidationError>)
    ensures r.None? <==> forall i | 0 <= i < |names| :: CheckName(names[i]).None?
    ensures r.Some? ==> exists i | 0 <= i < |names| ::
      r == CheckName(names[i]) && forall j | 0 <= j < i :: CheckName(names[j]).None?
  {
    if names == [] then None
    else if CheckName(names[0]).Some? then CheckName(names[0])
    else
      var r := FirstBadName(names[1..]);
      assert forall i | 1 <= i < |names| :: names[i] == names[1..][i - 1];
      if r.Some? then
        var k :| 0 <= k < |names[1..]| && r == CheckName(names[1..][k]) && forall j | 0 <= j < k :: CheckName(names[1..][j]).None?;
        assert r == CheckName(names[k + 1]);
        r
      else r
  }

  /** The sources a request may name: none, `manual` or `auto`. */
  predicate KnownSource(source: string)
  {
    source == "" || source == TagSourceManual || source == TagSourceAuto
  }

  /** `ValidateEntryTagByNameRequest`: a non-empty list, then each name in order, then the source. */
  function ValidateEntryTagByNameRequest(request: EntryTagByNameRequest): (r: Option<ValidationError>)
    ensures |request.tagNames| == 0 ==> r == Some(TagNamesRequired)
    ensures r.None? <==> (|request.tagNames| > 0 &&
                          (forall i | 0 <= i < |request.tagNames| :: CheckName(request.tagNames[i]).None?) &&
                          KnownSource(request.source))
    ensures |request.tagNames| > 0 && FirstBadName(request.tagNames).None? && !KnownSource(request.source) ==>
      r == Some(InvalidTagSource)
    ensures |request.tagNames| > 0 ==> forall i | 0 <= i < |request.tagNames| ::
      CheckName(request.tagNames[i]).Some? && (forall j | 0 <= j < i :: CheckName(request.tagNames[j]).None?) ==>
        r == CheckName(request.tagNames[i])
  {
    if |request.tagNames| == 0 then Some(TagNamesRequired)
    else if FirstBadName(request.tagNames).Some? then
      var names := request.tagNames;
      var r := FirstBadName(names);
      forall i | 0 <= i < |names| && CheckName(names[i]).Some? && (forall j | 0 <= j < i :: CheckName(names[j]).None?)
        ensures r == CheckName(names[i])
      {
        var k :| 0 <= k < |names| && r == CheckName(names[k]) && forall j | 0 <= j < k :: CheckName(names[j]).None?;
        assert k == i;
      }
      r
    else if !KnownSource(request.source) then Some(InvalidTagSource)
    else None
  }
}
