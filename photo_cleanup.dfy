/** The before-delete hook that removes a profile's photo, and its one-time
    registration (services/profile_photo_service.py). */
module PhotoCleanup {
  import opened Common
  import opened Paths
  import opened PhotoStorage

  /** getattr(target, "profile_photo_path", None): a value, or an exception
      raised while looking it up. */
  datatype PathLookup = Found(value: PyValue) | Raises

  /** The file a deleted profile's photo reference resolves to, when the
      lookup succeeds and get_full_file_path accepts the value. */
  function PhotoPath(base: Path, target: PathLookup): (r: Option<Path>)
    requires Canonical(base)
    ensures r.Some? <==> target.Found? && target.value.PyStr? && target.value.s != ""
                         && IsWithin(Resolve(base, target.value.s), base)
    ensures r.Some? ==> Truthy(target.value) && IsWithin(r.value, base)
    ensures r.Some? ==> r.value == Resolve(base, target.value.s)
  {
    if target.Found? && GetFullFilePath(base, target.value).Ok? then Some(GetFullFilePath(base, target.value).value)
    else None
  }

  /** The exception of a failed registration, re-raised to the caller. */
  datatype InitError = RegistrationFailed

  /** The module state: the _listeners_registered flag, the listeners the ORM
      holds for Profile deletes, and the remove_file calls the hook has made. */
  class CleanupListeners {
    var registered: bool
    var registrations: nat
    var removalCalls: seq<PyValue>

    /** The flag is set exactly when one listener is registered. */
    ghost predicate Valid()
      reads this
    {
      registrations == if registered then 1 else 0
    }

    constructor ()
      ensures Valid() && !registered && registrations == 0 && removalCalls == []
    {
      registered := false;
      registrations := 0;
      removalCalls := [];
    }

    /** init_profile_photo_cleanup_listeners: does nothing once the flag is
        set; otherwise registers the hook and sets the flag, or, when the
        registration raises, re-raises and leaves the flag clear. */
    method InitProfilePhotoCleanupListeners(registrationFails: bool) returns (r: Result<(), InitError>)
      requires Valid()
      modifies this`registered, this`registrations
      ensures Valid() && registrations <= 1
      ensures old(registered) ==> r.Ok? && registered && registrations == old(registrations)
      ensures !old(registered) ==> (r.Ok? <==> !registrationFails)
      ensures !old(registered) ==> registered == r.Ok? && registrations == if r.Ok? then 1 else 0
    {
      if registered {
        return Ok(());
      }
      if registrationFails {
        return Err(RegistrationFailed);
      }
      registrations := registrations + 1;
      registered := true;
      return Ok(());
    }

    /** _cleanup_profile_photo_on_delete: removes the photo the deleted profile
        points to, if any. It has no error result: whatever the lookup or
        remove_file does, the deletion goes on. */
    method CleanupProfilePhotoOnDelete(target: PathLookup, store: Storage, unlinkDenied: bool)
      requires store.Valid()
      modifies this`removalCalls, store`files
      ensures store.Valid()
      // remove_file is called, once and with the path, exactly when the path is present.
      ensures target.Found? && Truthy(target.value) ==> removalCalls == old(removalCalls) + [target.value]
      ensures !(target.Found? && Truthy(target.value)) ==>
                removalCalls == old(removalCalls) && store.files == old(store.files)
      // What changes on disk is what remove_file changes.
      ensures store.files == old(store.files)
              || (target.Found? && GetFullFilePath(store.base, target.value).Ok?
                  && store.files == old(store.files) - {GetFullFilePath(store.base, target.value).value})
      ensures target.Found? && Truthy(target.value) && GetFullFilePath(store.base, target.value).Ok?
              && GetFullFilePath(store.base, target.value).value in old(store.files) && !unlinkDenied
              ==> GetFullFilePath(store.base, target.value).value !in store.files
      // Exactly the resolved photo is gone afterwards, unless the unlink was refused.
      ensures store.files == if PhotoPath(store.base, target).Some? && !unlinkDenied
                             then old(store.files) - {PhotoPath(store.base, target).value}
                             else old(store.files)
    {
      if target.Raises? {
        return;
      }
      var path := target.value;
      if !Truthy(path) {
        return;
      }
      removalCalls := removalCalls + [path];
      var removed := store.RemoveFile(path, unlinkDenied);
      // a failure is logged and swallowed
    }

    /** The ORM's before_delete dispatch for one Profile deletion: the hook
        runs if, and only if, it is registered. */
    method BeforeDelete(target: PathLookup, store: Storage, unlinkDenied: bool)
      requires Valid() && store.Valid()
      modifies this`removalCalls, store`files
      ensures store.Valid()
      ensures |removalCalls| <= |old(removalCalls)| + 1
      ensures removalCalls == if registered && target.Found? && Truthy(target.value)
                              then old(removalCalls) + [target.value] else old(removalCalls)
      ensures !registered ==> store.files == old(store.files)
      ensures store.files == if registered && PhotoPath(store.base, target).Some? && !unlinkDenied
                             then old(store.files) - {PhotoPath(store.base, target).value}
                             else old(store.files)
    {
      if registered {
        CleanupProfilePhotoOnDelete(target, store, unlinkDenied);
      }
    }

    /** Initialising twice registers the hook once; a delete then removes the
        photo with a single remove_file call. */
    method InitTwiceThenDelete(target: PathLookup, store: Storage)
      returns (r1: Result<(), InitError>, r2: Result<(), InitError>)
      requires Valid() && store.Valid()
      modifies this, store`files
      ensures Valid() && store.Valid()
      ensures r1.Ok? && r2.Ok? && registered && registrations == 1
      ensures removalCalls == if target.Found? && Truthy(target.value)
                              then old(removalCalls) + [target.value] else old(removalCalls)
      ensures store.files == if PhotoPath(store.base, target).Some?
                             then old(store.files) - {PhotoPath(store.base, target).value}
                             else old(store.files)
    {
      r1 := InitProfilePhotoCleanupListeners(false);
      r2 := InitProfilePhotoCleanupListeners(false);
      BeforeDelete(target, store, false);
    }
  }
}
