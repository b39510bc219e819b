# Profile-photo storage, profile field validators and the photo cleanup hook

This project models three parts of the user/profile service `nta_user_svc`
and proves properties of them in Dafny.

- **Photo storage** (`storage/files.py`).
  - `save_profile_photo` checks an upload in a fixed order: file, file name,
    extension, content type, file object, a bounded read, the decoded image
    format, and format against extension. It then creates the base and user
    directories and writes the bytes to `<token><ext>.tmp`. Finally it
    `os.replace`s that file onto `<token><ext>` and returns
    `"<user id>/<token><ext>"`.
  - `get_full_file_path` resolves a stored reference against the base
    directory. It accepts the result only when it is the base itself or lies
    below it.
  - `remove_file` unlinks a resolved reference. A file that is already gone
    counts as removed.
  - The file system is a class `PhotoStorage.Storage`. Its fields are a map
    from resolved paths (sequences of names) to contents and a set of
    directories, both kept in the shape of a tree.
  - A save is "unobstructed" (`Storage.Unobstructed`) when no file stands at
    or above the user's directory and no directory stands at the temporary
    or the final path. A valid upload with no injected fault and nothing in
    the way is always stored.
  - Path resolution is a pure walk over the segments:
    - `""` and `"."` stay where they are;
    - `".."` goes up, but not past the root;
    - a reference starting with `/` starts from the root.
- **Profile validators** (`schemas/profile.py`). These are pure functions:
  - `_strip_and_truncate` strips a value and cuts it to its column width
    (name 255, bio 1000, others 255);
  - `_validate_phone` strips, cuts to 50 and maps a blank value to `None`.
    Otherwise it requires the pattern `^\+\d+$`. Python's `$` also matches
    before a final newline, so as written `_validate_phone` also keeps `+digits\n`
    when the cut leaves a newline at the end (see "## Findings").
    `ProfileSchema.ValidateProfile` uses the phone check as written;
    `ProfileSchema.ValidateProfileIntended` uses the intended one.
- **Delete cleanup** (`services/profile_photo_service.py`). The class
  `PhotoCleanup.CleanupListeners` holds:
  - the `_listeners_registered` flag;
  - the number of listeners registered with the ORM;
  - the log of `remove_file` calls the hook made.

  The hook calls `PhotoStorage.Storage.RemoveFile` and never reports an error.

The following become parameters:

- The image decoder (PIL) is a function `seq<byte> -> Decoded`.
- `uuid.uuid4().hex` is a token argument: 32 lower-case hex digits that no
  earlier save has used. The ghost field `usedTokens` records the tokens
  handed out.
- `PROFILE_PHOTO_DIR` and `MAX_PHOTO_SIZE_BYTES` are constructor arguments of
  `Storage`. The `config.py` shown does not define them.
- Operating-system failures are arguments: the `Faults` record for a save, and
  flags for an unlink and for a listener registration.

Where the code and its documentation disagree, the model follows the code.

- The traversal guard's docstring asks for a path that is "a child of base".
  But `relative_to` also accepts the base itself, so `"."` and `"42/.."` are
  accepted. See `Paths.BaseItselfAccepted`.

Strings:

- `str.isspace` (used by `strip`) is Python's exact list of whitespace code
  points.
- `str.lower` and the regular expression's `\d` are modelled on ASCII only.

## Model

| member | source | states |
|---|---|---|
| Paths.Split | src/nta_user_svc/storage/files.py:163 | str.split("/"): at least one segment, none containing '/' |
| Paths.Join | src/nta_user_svc/storage/files.py:163 | joining n segments gives a string at least n-1 characters long; that it is the inverse of Split is JoinSplit and SplitJoin |
| Paths.SplitAroundSlash | src/nta_user_svc/storage/files.py:162-163 | splitting "a/b" gives the segments of a followed by those of b |
| Paths.Step | src/nta_user_svc/storage/files.py:163 | one segment of resolve(): "" and "." keep the length, ".." removes one name (none at the root), a name adds one |
| Paths.StepMoves | src/nta_user_svc/storage/files.py:163 | ".." goes to an ancestor, any other segment to the path itself or a child, and a '/'-free segment keeps the path resolved |
| Paths.Resolve | src/nta_user_svc/storage/files.py:163 | (base / rel).resolve() is a resolved path, and lies under the base when rel is relative and never climbs above it |
| Paths.JoinSplit | src/nta_user_svc/storage/files.py:163 | joining the segments of a split reference with '/' gives the reference back |
| Paths.SplitJoin | src/nta_user_svc/storage/files.py:163 | splitting a join of '/'-free segments gives the segments back |
| Paths.Walk | src/nta_user_svc/storage/files.py:163 | resolving segments from a resolved path gives a resolved path (no "", ".", ".." left) |
| Paths.GetFullFilePath | src/nta_user_svc/storage/files.py:153-172 | Ok exactly for a non-empty str whose resolution is the base or lies below it; the result is that resolution and is canonical |
| Paths.PlainReferenceResolves | src/nta_user_svc/storage/files.py:162-169 | a reference made of plain names resolves to the base with those names appended, and is accepted |
| Paths.WalkStaysUnder | src/nta_user_svc/storage/files.py:163-165 | a walk that never climbs above its start stays under the base |
| Paths.ContainedReferenceAccepted | src/nta_user_svc/storage/files.py:163-169 | a relative reference that never climbs above the base is accepted as its resolution |
| Paths.ResolveJoin | src/nta_user_svc/storage/files.py:163 | resolving a joined reference walks its segments, from the root when it starts with '/' |
| Paths.ParentTraversalRejected | src/nta_user_svc/storage/files.py:163-168 | "../etc/passwd" is refused for any base below the root not named "etc" |
| Paths.NestedTraversalRejected | src/nta_user_svc/storage/files.py:163-168 | "42/../../evil.jpg" is refused for any base below the root not named "evil.jpg" |
| Paths.AbsoluteReferenceRejected | src/nta_user_svc/storage/files.py:163-168 | "/etc/passwd" replaces the base and is refused unless the base is one of its ancestors |
| Paths.BaseItselfAccepted | src/nta_user_svc/storage/files.py:164-169 | "." and "42/.." resolve to the base itself and are accepted |
| Paths.EmptyOrNonStringRejected | src/nta_user_svc/storage/files.py:159-160 | "", None and non-str values are refused |
| UploadValidation.Suffix | src/nta_user_svc/storage/files.py:48 | PurePath.suffix: "" or a proper suffix of the name that starts with '.' and has no other dot |
| UploadValidation.FinalName | src/nta_user_svc/storage/files.py:48 | PurePath(filename).name: the last segment that is not "" or ".", never containing '/' and never "." |
| UploadValidation.FinalNameOfPath | src/nta_user_svc/storage/files.py:48 | the final name of "dir/name" is name |
| UploadValidation.Lower | src/nta_user_svc/storage/files.py:48 | str.lower keeps the length |
| UploadValidation.LowerIsAsciiLower | src/nta_user_svc/storage/files.py:48 | lower-casing leaves no upper-case letter, keeps every other character and maps A-Z to a-z |
| UploadValidation.NormalizeExtensionShape | src/nta_user_svc/storage/files.py:48-50 | the normalised extension is "" or a '.' followed by at least one character, with no other dot, no '/' and no upper-case letter |
| UploadValidation.ReadAtMost | src/nta_user_svc/storage/files.py:72 | read(n): the first n bytes, or all of them for a negative n |
| UploadValidation.Validate | src/nta_user_svc/storage/files.py:39-97 | on acceptance the payload is the whole stream, 1 <= length <= max, ext is .jpg/.png/.webp and equals the normalised extension, the MIME type is allowed and the decoded format maps to ext |
| UploadValidation.ValidateNamed | src/nta_user_svc/storage/files.py:52-97 | the checks after the file name: on acceptance the payload is the whole stream, the extension is .jpg/.png/.webp, the MIME type is allowed and the decoded format maps to the extension; a rejection is by one of these checks |
| UploadValidation.CheckContent | src/nta_user_svc/storage/files.py:72-97 | the checks on the bytes read: on acceptance the bytes are non-empty, within the limit, and decode to a format that maps to the extension; a rejection is by one of these checks |
| UploadValidation.ValidateIsFirstFailure | src/nta_user_svc/storage/files.py:39-97 | accepted exactly when every check holds; a rejection names a failing check, and every earlier check holds |
| UploadValidation.ValidateNamedIsFirstFailure | src/nta_user_svc/storage/files.py:52-97 | the same ordering for the checks after the file name, whatever the extension |
| UploadValidation.AcceptedExtensions | src/nta_user_svc/storage/files.py:48-53 | an accepted extension is .jpg, .png or .webp |
| UploadValidation.SizeLimit | src/nta_user_svc/storage/files.py:60-76 | at most max+1 bytes are read; "empty" exactly for an empty stream, "too large" exactly for a stream over max |
| UploadValidation.NegativeLimitRejectsAll | src/nta_user_svc/storage/files.py:61-76 | a negative limit refuses every upload |
| UploadValidation.OversizeNeverDecoded | src/nta_user_svc/storage/files.py:75-80 | an oversized payload is refused before decoding: the verdict does not depend on the decoder |
| UploadValidation.SuffixOfExtension | src/nta_user_svc/storage/files.py:48 | the suffix of stem + ".ext" is ".ext" |
| UploadValidation.FinalNameOfPlainName | src/nta_user_svc/storage/files.py:48 | a plain name is its own final component |
| UploadValidation.NormalizeExtensionOf | src/nta_user_svc/storage/files.py:48-50 | the extension of "stem.ext" is the lower-cased ".ext", with ".jpeg" written ".jpg" |
| UploadValidation.JpgExtension | src/nta_user_svc/storage/files.py:48-50 | "x.jpg" and "x.JPEG" both give ".jpg" |
| UploadValidation.RenamedPngRejected | src/nta_user_svc/storage/files.py:90-97 | a PNG named ".jpg" is refused by the format-match check |
| UploadValidation.NonImageRejected | src/nta_user_svc/storage/files.py:78-88 | undecodable bytes named "evil.jpg" are refused as invalid image content |
| UploadValidation.TenByteLimitRejects | src/nta_user_svc/storage/files.py:72-76 | with a 10-byte limit a longer JPEG is refused as too large |
| UploadValidation.JpegAccepted | src/nta_user_svc/storage/files.py:44-97 | a JPEG named ".JPEG" within the limit is accepted whole, with extension ".jpg" |
| ProfileSchema.Strip | src/nta_user_svc/schemas/profile.py:31-31 | str.strip(): no longer than the input, neither starts nor ends with whitespace, empty exactly for an all-whitespace input |
| ProfileSchema.Truncate | src/nta_user_svc/schemas/profile.py:39-40 | s[:n]: a prefix of length min(len(s), n) |
| ProfileSchema.TrimStart | src/nta_user_svc/schemas/profile.py:31 | drops exactly the leading whitespace: the result is a suffix, does not start with whitespace, and everything dropped is whitespace |
| ProfileSchema.TrimEnd | src/nta_user_svc/schemas/profile.py:31 | drops exactly the trailing whitespace: the result is a prefix, does not end with whitespace, and everything dropped is whitespace |
| ProfileSchema.StripPadded | src/nta_user_svc/schemas/profile.py:31 | strip removes exactly the whitespace around a value that neither starts nor ends with whitespace |
| ProfileSchema.StripIdempotent | src/nta_user_svc/schemas/profile.py:31 | stripping twice is stripping once |
| ProfileSchema.StripAndTruncate | src/nta_user_svc/schemas/profile.py:26-41 | None iff None; otherwise a prefix of the stripped value of length min(len, max), not starting with whitespace |
| ProfileSchema.StripAndTruncateStableWhenShort | src/nta_user_svc/schemas/profile.py:31-41 | a value whose stripped form fits the column is unchanged by a second pass |
| ProfileSchema.StripAndTruncateNotIdempotent | src/nta_user_svc/schemas/profile.py:39-41 | a value one longer than the column with a blank before its last character: the first pass keeps the blank, the second drops it |
| ProfileSchema.PaddedValueTrimmedAndCut | src/nta_user_svc/schemas/profile.py:31-41 | a padded value comes back unpadded and cut to its column (a 300-character name gives 255 characters, a 1200-character bio 1000) |
| ProfileSchema.PhoneCandidate | src/nta_user_svc/schemas/profile.py:48-50 | a prefix of the stripped value, of length min(len(stripped), 50) |
| ProfileSchema.ValidatePhoneAsWritten | src/nta_user_svc/schemas/profile.py:43-55 | None or a candidate that is empty after stripping and cutting to 50 gives None; it refuses exactly a non-empty candidate that the pattern with Python's `$` does not match; a kept value is that candidate |
| ProfileSchema.ValidatePhone | src/nta_user_svc/schemas/profile.py:43-55 | None for None or blank input; an error exactly when the stripped, cut value is not "+digits"; a kept value is that value, of length 2..50 |
| ProfileSchema.ValidatePhoneStable | src/nta_user_svc/schemas/profile.py:48-55 | an accepted phone number passes again unchanged |
| ProfileSchema.PhoneChecksDifferOnlyAfterCut | src/nta_user_svc/schemas/profile.py:49-53 | the as-written and intended checks disagree only when the cut leaves a final newline, and then only the as-written one accepts |
| ProfileSchema.CandidateEndsInSpaceOnlyAfterCut | src/nta_user_svc/schemas/profile.py:48-50 | the value checked can end in whitespace only when the stripped value was longer than 50 |
| ProfileSchema.TrailingNewlineAccepted | src/nta_user_svc/schemas/profile.py:53 | "+" + 48 ones + "\n2" is accepted as "+<48 ones>\n" as written, refused as intended |
| ProfileSchema.PaddedPhoneAccepted | src/nta_user_svc/schemas/profile.py:48-55 | a padded "+digits" (as "+1234567890") is accepted without its padding |
| ProfileSchema.PhoneWithoutPlusRejected | src/nta_user_svc/schemas/profile.py:53-54 | digits without "+" (as "12345") are refused |
| ProfileSchema.PhoneWithNonDigitRejected | src/nta_user_svc/schemas/profile.py:53-54 | "+", digits, a non-digit within the first 50 and digits (as "+12 345", "+12a34") are refused |
| ProfileSchema.WithPhone | src/nta_user_svc/schemas/profile.py:26-41 | each text field of the built profile is what `_strip_and_truncate` makes of it for its column, so it fits that column; the phone is the one given |
| ProfileSchema.ValidateProfile | src/nta_user_svc/schemas/profile.py:18-55 | only the phone can refuse, exactly as the as-written check; a built profile holds every text field stripped and cut to its column and the phone that check kept, which matches the pattern with Python's `$` |
| ProfileSchema.ValidateProfileIntended | src/nta_user_svc/schemas/profile.py:18-55 | with the intended phone check: only the phone can refuse; a built profile holds every text field stripped and cut to its column and the phone that check kept, which is "+digits" |
| ProfileSchema.ProfilesDifferOnlyOnPhoneNewline | src/nta_user_svc/schemas/profile.py:48-55 | the two profile builds disagree only on a phone longer than 50 after stripping whose cut ends in a newline; then only the as-written build succeeds, keeping that value |
| ProfileSchema.PlainPhoneKept | src/nta_user_svc/schemas/profile.py:43-55 | an unpadded "+digits" of at most 50 characters is kept by the check as written |
| ProfileSchema.ProfileTrimsAndTruncates | src/nta_user_svc/schemas/profile.py:18-55 | a padded 300-character name is cut to 255, a padded bio and hobby are trimmed, and "+1234567890" is kept |
| ProfileSchema.ProfileBioCutToColumn | src/nta_user_svc/schemas/profile.py:18-41 | "  John Doe  " becomes "John Doe" and a padded 1200-character bio is cut to 1000 |
| ProfileSchema.TrailingNewlineProfileBuilt | src/nta_user_svc/schemas/profile.py:53 | a profile whose phone is "+" + 48 ones + "\n2" is built as written with phone "+<48 ones>\n", and refused as intended |
| PhotoStorage.NatToDecimal | src/nta_user_svc/storage/files.py:102 | the decimal digits of a non-negative number, starting with '0' only for 0 |
| PhotoStorage.IntToDecimal | src/nta_user_svc/storage/files.py:102 | str(int(user_id)) is a valid directory name; NatToDecimal gives no leading zero |
| PhotoStorage.IntDecimalRoundTrip | src/nta_user_svc/storage/files.py:102 | reading the directory name back gives the user id |
| PhotoStorage.UserDirsDistinct | src/nta_user_svc/storage/files.py:102 | different users get different directories |
| PhotoStorage.StoredNameIsName | src/nta_user_svc/storage/files.py:118 | "<token><ext>" and its ".tmp" sibling are plain names |
| PhotoStorage.StoredReference | src/nta_user_svc/storage/files.py:118-119 | "<uid>/<token><ext>" splits into the user's directory name followed by the segments of the file name |
| PhotoStorage.StoredReferencesDistinct | src/nta_user_svc/storage/files.py:118-119 | two tokens give two different references |
| PhotoStorage.FortyTwoDecimal | src/nta_user_svc/storage/files.py:102 | user 42's directory is named "42" |
| PhotoStorage.StoredReferenceInUserDir | src/nta_user_svc/storage/files.py:119 | the reference starts with str(user_id) followed by "/" |
| PhotoStorage.StoredReferenceResolves | src/nta_user_svc/storage/files.py:118-119 | the returned "<uid>/<token><ext>" resolves through get_full_file_path to base/uid/token+ext |
| PhotoStorage.DestinationWithinBase | src/nta_user_svc/storage/files.py:120-127 | the destination is base/uid/token+ext, under the base, so the guard never refuses |
| PhotoStorage.StoredNamesDistinct | src/nta_user_svc/storage/files.py:118-131 | distinct tokens give distinct names; a ".tmp" name never equals a final name |
| PhotoStorage.AddDirsKeepsTree | src/nta_user_svc/storage/files.py:107-108 | creating a path's missing ancestors keeps the tree a tree when no file is in the way |
| PhotoStorage.AddFileKeepsTree | src/nta_user_svc/storage/files.py:129-136 | a new file in an existing directory keeps the tree a tree |
| PhotoStorage.NothingLeftToRemove | src/nta_user_svc/storage/files.py:182-185 | after a file is unlinked, nothing stands at or above its path |
| PhotoStorage.Storage.MakeDirs | src/nta_user_svc/storage/files.py:107-116 | mkdir(parents, exist_ok): succeeds iff the directory exists or nothing blocks it and it is allowed; adds exactly the path and its ancestors |
| PhotoStorage.Storage.EnsureBaseDir | src/nta_user_svc/storage/files.py:24-31 | the base directory exists afterwards, or the call fails and nothing changes |
| PhotoStorage.Storage.DiscardTmp | src/nta_user_svc/storage/files.py:139-144 | the .tmp is unlinked if it exists and the unlink is not refused; nothing else changes |
| PhotoStorage.Storage.WriteAtomically | src/nta_user_svc/storage/files.py:129-145 | fails iff the .tmp or the destination is a directory or the write or replace fails; on success only the destination changes and no .tmp is left; on failure no final file changes and the .tmp is gone unless its unlink failed |
| PhotoStorage.Storage.MakeUserDir | src/nta_user_svc/storage/files.py:100-117 | the base directory fails exactly when it is missing and cannot be created, changing nothing; the user directory then fails exactly when it is missing and mkdir is denied or a file stands at or above it, having added only the base's ancestors; on success the user directory exists and exactly its ancestors were added |
| PhotoStorage.Storage.StoreAccepted | src/nta_user_svc/storage/files.py:100-147 | the directory and write steps: each failure happens exactly when its condition holds (base directory, user directory, write and replace), with the new file tree after each; with no fault and nothing in the way the photo is stored |
| PhotoStorage.Storage.SaveProfilePhoto | src/nta_user_svc/storage/files.py:34-150 | a rejection touches nothing; a valid upload fails at the user directory exactly when it is missing and cannot be created, and with no fault and nothing in the way it is stored; on success the reference is "<uid>/<token><ext>", it resolves to the file that holds exactly the payload, and no .tmp remains; a failed write creates no final file |
| PhotoStorage.Storage.RemoveFile | src/nta_user_svc/storage/files.py:175-191 | refuses a bad reference; otherwise fails only when the unlink is refused or the path is a directory or lies below a file; after success the path is not a file |
| PhotoStorage.Storage.SaveTwice | src/nta_user_svc/storage/files.py:118-147 | a valid upload is saved both times when nothing is in the way; two saves give different references, and both files hold the payload |
| PhotoStorage.Storage.RemoveTwice | src/nta_user_svc/storage/files.py:175-191 | removal is idempotent: the second call gives the same answer and removes nothing more |
| PhotoStorage.Storage.SaveThenRemove | src/nta_user_svc/storage/files.py:34-191 | a valid upload is saved when nothing is in the way; removing a saved reference deletes exactly the stored file (and its .tmp name) |
| PhotoCleanup.CleanupListeners.InitProfilePhotoCleanupListeners | src/nta_user_svc/services/profile_photo_service.py:35-53 | once the flag is set, nothing is registered again; otherwise the flag is set exactly when registration succeeds, so at most one listener exists |
| PhotoCleanup.PhotoPath | src/nta_user_svc/services/profile_photo_service.py:21-26 | the file the hook removes: present exactly when profile_photo_path is a non-empty str resolving under the base, and then that resolution |
| PhotoCleanup.CleanupListeners.CleanupProfilePhotoOnDelete | src/nta_user_svc/services/profile_photo_service.py:11-32 | one remove_file call with the path exactly when the path is truthy; no error escapes; the file at the resolved path is deleted unless the unlink is refused, and nothing else changes |
| PhotoCleanup.CleanupListeners.BeforeDelete | src/nta_user_svc/services/profile_photo_service.py:49 | the hook runs on a delete exactly when it is registered, so a delete triggers at most one removal; when registered, the resolved file is deleted unless the unlink is refused, otherwise no file changes |
| PhotoCleanup.CleanupListeners.InitTwiceThenDelete | src/nta_user_svc/services/profile_photo_service.py:35-53 | initialising twice registers once; a delete then makes exactly one remove_file call for a truthy path and deletes exactly the resolved file |

## Left out

- PIL decoding (`Image.open`, `verify`) is not modelled. It is a decoder parameter whose failure means "invalid image content".
- `uuid.uuid4()` is not modelled. Freshness of the token is a precondition, not randomness.
- Exception messages and logging are not modelled. Errors are constructors of `Check`, `SaveError`, `RemoveError`, `PathError`, `PhoneError` and `InitError`.
- `chmod(0o700)` is left out: its failures are swallowed and it changes no content.
- `flush` and `fsync` are left out. Their failure is covered by `Faults.writeStopsAfter`.
- `expanduser` is left out: the base is given already resolved.
- Symbolic links are left out. `Path.resolve()` is a lexical walk over a symlink-free tree.
- The special handling of a leading `//` by `pathlib` is not modelled.
- Partial failures of `mkdir(parents=True)` are not modelled. A denied or blocked mkdir creates nothing.
- `file_obj.seek(0)` is not modelled: the stream is read from its start.
- The `str(v)` coercion of non-string values in the schema validators is not modelled: the validators take `Option<string>`.
- `getattr` probing of `UploadFile` is not modelled. The upload is a record with an optional file name and an optional payload.
- Unicode `\d` and Unicode `lower()` are not modelled: both are ASCII. `str.isspace` is exact.
- Concurrent saves and removals are not modelled: all operations are sequential.
- The HTTP routers, ORM models and CRUD, migrations, JWT handling, configuration loading and application wiring are not part of this model.
- A "replace photo" coordinator is not modelled: no such code exists to model.
- `event.listen` is a registration counter. Partial registration is not modelled.
- PhotoStorage.Storage.SaveProfilePhoto: the `int(user_id)` conversion and its `ValueError("invalid user_id")` (files.py:101-104) are not modelled; the user id is an integer argument.

## Findings

| source | as written | input that shows it | evidently intended | confidence | as-written member | corrected member |
|---|---|---|---|---|---|---|
| src/nta_user_svc/schemas/profile.py:53 | `_PHONE_REGEX.match(s)` with `^\+\d+$`; `$` also matches just before a final newline, and cutting to 50 characters can leave a newline at the end | `"+" + "1"*48 + "\n2"` is stripped (unchanged), cut to `"+" + "1"*48 + "\n"`, and accepted with the newline kept | only `+` followed by digits is accepted (`fullmatch` or `\Z`) | not executed | ProfileSchema.ValidatePhoneAsWritten, ProfileSchema.TrailingNewlineAccepted, ProfileSchema.ValidateProfile, ProfileSchema.TrailingNewlineProfileBuilt | ProfileSchema.ValidatePhone, ProfileSchema.ValidateProfileIntended |
