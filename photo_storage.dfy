/** save_profile_photo, _ensure_base_dir and remove_file (storage/files.py) over
    an abstract, symlink-free file tree: a map from resolved paths to file
    contents and a set of directories. */
module PhotoStorage {
  import opened Common
  import opened Paths
  import opened UploadValidation

  // ---------------------------------------------------------------------------
  // str(int(user_id)): the name of a user's directory

  function DigitChar(d: nat): (c: char)
    requires d < 10
    ensures IsDigit(c) && c as int - '0' as int == d
  {
    ('0' as int + d) as char
  }

  /** The decimal digits of n, without leading zeros. */
  function NatToDecimal(n: nat): (r: string)
    ensures |r| >= 1 && forall i :: 0 <= i < |r| ==> IsDigit(r[i])
    ensures r[0] == '0' <==> n == 0
    decreases n
  {
    if n < 10 then [DigitChar(n)] else NatToDecimal(n / 10) + [DigitChar(n % 10)]
  }

  /** The number a string of decimal digits spells. */
  function DecimalValue(s: string): nat
    decreases |s|
  {
    if s == [] then 0
    else
      var last := s[|s| - 1];
      10 * DecimalValue(s[..|s| - 1]) + (if IsDigit(last) then last as int - '0' as int else 0)
  }

  /** str(i): a minus sign for negative numbers, then the digits. */
  function IntToDecimal(i: int): (r: string)
    ensures IsName(r)
  {
    var digits := NatToDecimal(if i < 0 then -i else i);
    assert '/' !in digits && digits[0] != '.';
    if i < 0 then
      var r := "-" + digits;
      assert r[0] == '-' && forall k :: 1 <= k < |r| ==> r[k] == digits[k - 1];
      r
    else digits
  }

  /** int(s) on what str(i) produces. */
  function ParseInt(s: string): int
  {
    if s != [] && s[0] == '-' then 0 - DecimalValue(s[1..]) else DecimalValue(s)
  }

  lemma {:induction false} NatDecimalRoundTrip(n: nat)
    ensures DecimalValue(NatToDecimal(n)) == n
    decreases n
  {
    if n >= 10 {
      var r := NatToDecimal(n);
      NatDecimalRoundTrip(n / 10);
      assert r[..|r| - 1] == NatToDecimal(n / 10);
    }
  }

  /** Reading the directory name back gives the user id. */
  lemma IntDecimalRoundTrip(i: int)
    ensures ParseInt(IntToDecimal(i)) == i
  {
    if i < 0 {
      NatDecimalRoundTrip(-i);
      assert IntToDecimal(i)[1..] == NatToDecimal(-i);
    } else {
      NatDecimalRoundTrip(i);
    }
  }

  /** User 42's directory is "42". */
  lemma FortyTwoDecimal()
    ensures IntToDecimal(42) == "42"
  {
    assert NatToDecimal(4) == "4";
  }

  /** Different users get different directories. */
  lemma UserDirsDistinct(i: int, j: int)
    requires i != j
    ensures IntToDecimal(i) != IntToDecimal(j)
  {
    IntDecimalRoundTrip(i);
    IntDecimalRoundTrip(j);
  }

  // ---------------------------------------------------------------------------
  // uuid4().hex and the stored name

  predicate IsHexDigit(c: char)
  {
    '0' <= c <= '9' || 'a' <= c <= 'f'
  }

  /** What uuid.uuid4().hex produces: 32 lower-case hexadecimal digits. */
  predicate IsHexToken(t: string)
  {
    |t| == 32 && forall i :: 0 <= i < |t| ==> IsHexDigit(t[i])
  }

  /** The extensions a validated upload can carry. */
  predicate StoredExtension(ext: string)
  {
    ext == ".jpg" || ext == ".png" || ext == ".webp"
  }

  /** A token followed by a stored extension names a child of the user directory. */
  lemma StoredNameIsName(token: string, ext: string)
    requires IsHexToken(token) && StoredExtension(ext)
    ensures IsName(token + ext) && IsName(token + ext + ".tmp")
  {
    var name := token + ext;
    assert forall i :: 0 <= i < |name| ==> name[i] == if i < 32 then token[i] else ext[i - 32];
    var tmp := name + ".tmp";
    assert forall i :: 0 <= i < |tmp| ==> tmp[i] == if i < |name| then name[i] else ".tmp"[i - |name|];
  }

  /** The reference returned to the caller: "<user id>/<token><ext>". */
  function StoredReference(userId: int, token: string, ext: string): (r: string)
    ensures Split(r) == [IntToDecimal(userId)] + Split(token + ext)
  {
    var dir := IntToDecimal(userId);
    var name := token + ext;
    SplitAfterName(dir, "/" + name);
    assert ("/" + name)[0] == '/' && ("/" + name)[1..] == name;
    var tail := Split("/" + name);
    assert tail == [""] + Split(name);
    assert tail[0] == "" && dir + tail[0] == dir && tail[1..] == Split(name);
    assert dir + "/" + token + ext == dir + ("/" + name);
    dir + "/" + token + ext
  }

  /** The reference starts with the user's directory and a slash. */
  lemma StoredReferenceInUserDir(userId: int, token: string, ext: string)
    ensures IntToDecimal(userId) + "/" <= StoredReference(userId, token, ext)
  {
    var dir := IntToDecimal(userId);
    assert StoredReference(userId, token, ext) == (dir + "/") + (token + ext);
  }

  /** The stored reference resolves, through get_full_file_path, to the file in
      the user's directory. */
  lemma StoredReferenceResolves(base: Path, userId: int, token: string, ext: string)
    requires Canonical(base) && IsHexToken(token) && StoredExtension(ext)
    ensures GetFullFilePath(base, PyStr(StoredReference(userId, token, ext)))
            == Ok(base + [IntToDecimal(userId), token + ext])
  {
    var names := [IntToDecimal(userId), token + ext];
    StoredNameIsName(token, ext);
    assert Join(names) == names[0] + "/" + Join(names[1..]);
    assert Join(names) == StoredReference(userId, token, ext);
    PlainReferenceResolves(base, names);
  }

  /** The destination (user_dir / name).resolve() always lies under the base,
      so the relative_to guard after it never refuses a destination. */
  lemma DestinationWithinBase(base: Path, userId: int, token: string, ext: string)
    requires Canonical(base) && IsHexToken(token) && StoredExtension(ext)
    ensures Canonical(base + [IntToDecimal(userId)])
    ensures Walk(base + [IntToDecimal(userId)], [token + ext]) == base + [IntToDecimal(userId), token + ext]
    ensures IsWithin(Walk(base + [IntToDecimal(userId)], [token + ext]), base)
  {
    var userDir := base + [IntToDecimal(userId)];
    StoredNameIsName(token, ext);
    assert Canonical(userDir);
    WalkNames(userDir, [token + ext]);
    assert userDir + [token + ext] == base + [IntToDecimal(userId), token + ext];
  }

  /** Distinct tokens give distinct files, and a temporary name never equals a
      final name. */
  lemma StoredNamesDistinct(t1: string, t2: string, ext1: string, ext2: string)
    requires IsHexToken(t1) && IsHexToken(t2) && StoredExtension(ext1) && StoredExtension(ext2)
    ensures t1 != t2 ==> t1 + ext1 != t2 + ext2
    ensures t1 + ext1 + ".tmp" != t2 + ext2
  {
    if t1 + ext1 == t2 + ext2 {
      assert (t1 + ext1)[..32] == t1 && (t2 + ext2)[..32] == t2;
    }
    assert |t1 + ext1 + ".tmp"| > |t2 + ext2|;
  }

  // ---------------------------------------------------------------------------
  // The file tree

  /** Every prefix of a path, the root and the path itself included. */
  function Prefixes(p: Path): (r: set<Path>)
    ensures forall k :: 0 <= k <= |p| ==> p[..k] in r
    ensures forall q :: q in r ==> q <= p
  {
    set k | 0 <= k <= |p| :: p[..k]
  }

  /** Two tokens give two references. */
  lemma StoredReferencesDistinct(userId: int, t1: string, t2: string, ext: string)
    requires IsHexToken(t1) && IsHexToken(t2) && StoredExtension(ext) && t1 != t2
    ensures StoredReference(userId, t1, ext) != StoredReference(userId, t2, ext)
  {
    StoredNamesDistinct(t1, t2, ext, ext);
    StoredNameIsName(t1, ext);
    StoredNameIsName(t2, ext);
    SplitJoin([t1 + ext]);
    SplitJoin([t2 + ext]);
    var s1 := Split(StoredReference(userId, t1, ext));
    var s2 := Split(StoredReference(userId, t2, ext));
    assert s1[1] == t1 + ext && s2[1] == t2 + ext;
  }

  /** Writing a second file into a directory, through its own temporary name,
      leaves a first file with a different name as it was. */
  lemma SecondWriteKeepsFirst(dir: Path, first: string, second: string, data: seq<byte>,
                              before: map<Path, seq<byte>>, after: map<Path, seq<byte>>)
    requires first != second && first != second + ".tmp"
    requires dir + [first] in before && before[dir + [first]] == data
    requires after == (before - {dir + [second + ".tmp"]})[dir + [second] := data]
    ensures dir + [first] in after && after[dir + [first]] == data
    ensures dir + [second] in after && after[dir + [second]] == data
  {
    assert (dir + [first])[|dir|] == first;
    assert (dir + [second])[|dir|] == second && (dir + [second + ".tmp"])[|dir|] == second + ".tmp";
  }

  /** Writing a file and then removing it leaves the map without it and without
      its temporary name. */
  lemma WriteThenRemove(files: map<Path, seq<byte>>, tmp: Path, dest: Path, data: seq<byte>)
    ensures (files - {tmp})[dest := data] - {dest} == files - {tmp, dest}
  {
  }

  /** The ancestors of an ancestor are ancestors. */
  lemma PrefixesGrow(p: Path, q: Path)
    requires p <= q
    ensures Prefixes(p) <= Prefixes(q)
  {
    forall r | r in Prefixes(p)
      ensures r in Prefixes(q)
    {
      var j :| 0 <= j <= |p| && r == p[..j];
      assert r == q[..j];
    }
  }

  /** A tree: the root exists, no path is both a file and a directory, and the
      parents of every directory and file are directories. */
  predicate TreeShaped(files: map<Path, seq<byte>>, dirs: set<Path>)
  {
    && [] in dirs
    && files.Keys !! dirs
    && (forall d, k :: d in dirs && 0 <= k < |d| ==> d[..k] in dirs)
    && (forall f, k :: f in files && 0 <= k < |f| ==> f[..k] in dirs)
  }

  /** A file sits at the path or at one of its ancestors: mkdir cannot create it. */
  predicate Blocked(files: map<Path, seq<byte>>, p: Path)
  {
    exists k :: 0 <= k <= |p| && p[..k] in files
  }

  /** Adding a path's ancestors to the directories keeps a tree a tree. */
  lemma {:induction false} AddDirsKeepsTree(files: map<Path, seq<byte>>, dirs: set<Path>, p: Path)
    requires TreeShaped(files, dirs) && !Blocked(files, p)
    ensures TreeShaped(files, dirs + Prefixes(p))
  {
    var nd := dirs + Prefixes(p);
    forall d, k | d in nd && 0 <= k < |d|
      ensures d[..k] in nd
    {
      if d !in dirs {
        var j :| 0 <= j <= |p| && d == p[..j];
        assert d[..k] == p[..k];
      }
    }
    forall q | q in Prefixes(p)
      ensures q !in files
    {
      var j :| 0 <= j <= |p| && q == p[..j];
    }
  }

  /** What blocks an ancestor blocks its descendants. */
  lemma BlockedAncestor(files: map<Path, seq<byte>>, p: Path, q: Path)
    requires p <= q && !Blocked(files, q)
    ensures !Blocked(files, p)
  {
    forall k | 0 <= k <= |p|
      ensures p[..k] !in files
    {
      assert p[..k] == q[..k];
    }
  }

  /** A directory's ancestors are already directories. */
  lemma PrefixesOfDir(files: map<Path, seq<byte>>, dirs: set<Path>, p: Path)
    requires TreeShaped(files, dirs) && p in dirs
    ensures Prefixes(p) <= dirs && !Blocked(files, p)
  {
    forall q | q in Prefixes(p)
      ensures q in dirs
    {
      var j :| 0 <= j <= |p| && q == p[..j];
      if j < |p| {
        assert q in dirs;
      } else {
        assert q == p;
      }
    }
  }

  /** A new file in an existing directory keeps a tree a tree. */
  lemma {:induction false} AddFileKeepsTree(files: map<Path, seq<byte>>, dirs: set<Path>, dir: Path, name: string, content: seq<byte>)
    requires TreeShaped(files, dirs) && dir in dirs && dir + [name] !in dirs
    ensures TreeShaped(files[dir + [name] := content], dirs)
  {
    var f := dir + [name];
    forall k | 0 <= k < |f|
      ensures f[..k] in dirs
    {
      if k == |dir| {
        assert f[..k] == dir;
      } else {
        assert f[..k] == dir[..k];
      }
    }
  }

  /** Once a file is removed, nothing stands at or above its path. */
  lemma NothingLeftToRemove(files: map<Path, seq<byte>>, dirs: set<Path>, p: Path)
    requires TreeShaped(files, dirs) && p in files
    ensures p !in dirs && !Blocked(files - {p}, p)
  {
    forall k | 0 <= k <= |p|
      ensures p[..k] !in files - {p}
    {
      if k == |p| {
        assert p[..k] == p;
      } else {
        assert p[..k] in dirs;
      }
    }
  }

  /** Injected failures of the operating system, one per call that can fail. */
  datatype Faults = Faults(
    baseMkdirDenied: bool,        // mkdir of the base directory raises
    userMkdirDenied: bool,        // mkdir of the user directory raises
    writeStopsAfter: Option<nat>, // write, flush or fsync raises after this many bytes
    replaceFails: bool,           // os.replace raises
    tmpUnlinkFails: bool)         // the cleanup's unlink raises (and is ignored)

  function NoFaults(): Faults
  {
    Faults(false, false, None, false, false)
  }

  datatype SaveError =
    | Rejected(check: Check)      // ValueError from a validation step
    | BaseDirFailed               // the error of _ensure_base_dir, re-raised
    | UserDirFailed               // OSError("failed to create user directory")
    | DestinationOutsideBase      // ValueError("invalid destination path")
    | WriteFailed                 // OSError("failed to write file to disk")

  datatype RemoveError = BadPath | UnlinkFailed

  /** The photo directory and the files below it. */
  class Storage {
    /** PROFILE_PHOTO_DIR, expanded and resolved. */
    const base: Path
    /** MAX_PHOTO_SIZE_BYTES. */
    const maxBytes: int
    var files: map<Path, seq<byte>>
    var dirs: set<Path>
    /** The tokens uuid4 has handed out so far. */
    ghost var usedTokens: set<string>

    ghost predicate Valid()
      reads this
    {
      Canonical(base) && TreeShaped(files, dirs)
    }

    constructor (base: Path, maxBytes: int)
      requires Canonical(base)
      ensures Valid() && this.base == base && this.maxBytes == maxBytes
      ensures files == map[] && dirs == {[]} && usedTokens == {}
    {
      this.base := base;
      this.maxBytes := maxBytes;
      files := map[];
      dirs := {[]};
      usedTokens := {};
    }

    function UserDir(userId: int): Path
    {
      base + [IntToDecimal(userId)]
    }

    function DestPath(userId: int, name: string): Path
    {
      UserDir(userId) + [name]
    }

    function TmpPath(userId: int, name: string): Path
    {
      UserDir(userId) + [name + ".tmp"]
    }

    /** Nothing in the tree stands in the way of storing name for the user: no
        file at or above the user's directory, and no directory at the
        temporary or the final path. */
    ghost predicate Unobstructed(userId: int, name: string)
      reads this
    {
      !Blocked(files, UserDir(userId)) && TmpPath(userId, name) !in dirs && DestPath(userId, name) !in dirs
    }

    /** Path.mkdir(parents=True, exist_ok=True): succeeds when the directory is
        there already, else creates it with its missing ancestors unless a file
        is in the way or the call is denied. */
    method MakeDirs(p: Path, denied: bool) returns (ok: bool)
      requires Valid()
      modifies this`dirs
      ensures Valid()
      ensures ok <==> p in old(dirs) || (!denied && !Blocked(files, p))
      ensures dirs == if ok then old(dirs) + Prefixes(p) else old(dirs)
      ensures ok ==> p in dirs
    {
      if p in dirs {
        PrefixesOfDir(files, dirs, p);
        dirs := dirs + Prefixes(p);
        return true;
      }
      if denied || Blocked(files, p) {
        return false;
      }
      AddDirsKeepsTree(files, dirs, p);
      dirs := dirs + Prefixes(p);
      assert p[..|p|] == p;
      return true;
    }

    /** _ensure_base_dir. */
    method EnsureBaseDir(denied: bool) returns (ok: bool)
      requires Valid()
      modifies this`dirs
      ensures Valid()
      ensures ok <==> base in old(dirs) || (!denied && !Blocked(files, base))
      ensures dirs == if ok then old(dirs) + Prefixes(base) else old(dirs)
      ensures ok ==> base in dirs
    {
      ok := MakeDirs(base, denied);
    }

    /** The cleanup after a failed write: unlink the temporary file if it exists,
        ignoring a failure to do so. */
    method DiscardTmp(tmp: Path, unlinkFails: bool)
      requires Valid()
      modifies this`files
      ensures Valid()
      ensures files == if tmp in old(files) && !unlinkFails then old(files) - {tmp} else old(files)
    {
      if tmp in files && !unlinkFails {
        files := files - {tmp};
      }
    }

    /** Lines 129-145 of save_profile_photo: write the bytes to "<name>.tmp",
        then os.replace it onto "<name>"; on a failure, discard the .tmp. */
    method WriteAtomically(dir: Path, name: string, data: seq<byte>, faults: Faults) returns (ok: bool)
      requires Valid() && dir in dirs && name + ".tmp" != name
      modifies this`files
      ensures Valid()
      ensures ok <==> !(dir + [name + ".tmp"] in dirs || faults.writeStopsAfter.Some?
                        || dir + [name] in dirs || faults.replaceFails)
      ensures ok ==> files == (old(files) - {dir + [name + ".tmp"]})[dir + [name] := data]
      ensures !ok ==> files - {dir + [name + ".tmp"]} == old(files) - {dir + [name + ".tmp"]}
      ensures !ok && dir + [name + ".tmp"] in files ==> faults.tmpUnlinkFails
    {
      var tmp := dir + [name + ".tmp"];
      var dest := dir + [name];
      assert tmp[|dir|] != dest[|dir|];
      if tmp in dirs {
        // open() fails on a directory, and so does the cleanup's unlink
        return false;
      }
      if faults.writeStopsAfter.Some? {
        AddFileKeepsTree(files, dirs, dir, name + ".tmp", data[..Min(faults.writeStopsAfter.value, |data|)]);
        files := files[tmp := data[..Min(faults.writeStopsAfter.value, |data|)]];
        DiscardTmp(tmp, faults.tmpUnlinkFails);
        return false;
      }
      AddFileKeepsTree(files, dirs, dir, name + ".tmp", data);
      files := files[tmp := data];
      if dest in dirs || faults.replaceFails {
        DiscardTmp(tmp, faults.tmpUnlinkFails);
        return false;
      }
      // os.replace
      AddFileKeepsTree(files - {tmp}, dirs, dir, name, data);
      files := (files - {tmp})[dest := data];
      return true;
    }

    /** Lines 100-117 of save_profile_photo: the base directory, then the
        user's directory below it, each created with its missing ancestors. */
    method MakeUserDir(userId: int, faults: Faults) returns (r: Result<Path, SaveError>)
      requires Valid()
      modifies this`dirs
      ensures Valid()
      ensures r.Ok? || r == Err(BaseDirFailed) || r == Err(UserDirFailed)
      ensures r == Err(BaseDirFailed) <==>
                !(base in old(dirs) || (!faults.baseMkdirDenied && !Blocked(files, base)))
      ensures r == Err(BaseDirFailed) ==> dirs == old(dirs)
      ensures r == Err(UserDirFailed) <==>
                r != Err(BaseDirFailed)
                && !(UserDir(userId) in old(dirs) || (!faults.userMkdirDenied && !Blocked(files, UserDir(userId))))
      ensures r == Err(UserDirFailed) ==> dirs == old(dirs) + Prefixes(base)
      ensures r.Ok? ==> r.value == UserDir(userId) && r.value in dirs
                        && dirs == old(dirs) + Prefixes(UserDir(userId))
    {
      var baseOk := EnsureBaseDir(faults.baseMkdirDenied);
      if !baseOk {
        return Err(BaseDirFailed);
      }
      var userDir := UserDir(userId);
      assert userDir !in Prefixes(base);
      PrefixesGrow(base, userDir);
      var userOk := MakeDirs(userDir, faults.userMkdirDenied);
      if !userOk {
        return Err(UserDirFailed);
      }
      return Ok(userDir);
    }

    /** Lines 100-147 of save_profile_photo, once the upload is accepted:
        create the directories, name the file and write it. */
    method StoreAccepted(acc: Accepted, userId: int, token: string, faults: Faults)
      returns (r: Result<string, SaveError>)
      requires Valid() && IsHexToken(token) && token !in usedTokens && StoredExtension(acc.ext)
      modifies this`files, this`dirs, this`usedTokens
      ensures Valid()
      ensures r.Err? ==> !r.error.Rejected? && r.error != DestinationOutsideBase
      ensures usedTokens == if r.Ok? || r == Err(WriteFailed) then old(usedTokens) + {token} else old(usedTokens)
      ensures r == Err(BaseDirFailed) <==>
                !(base in old(dirs) || (!faults.baseMkdirDenied && !Blocked(old(files), base)))
      ensures r == Err(BaseDirFailed) ==> files == old(files) && dirs == old(dirs)
      ensures r == Err(UserDirFailed) <==>
                r != Err(BaseDirFailed)
                && !(UserDir(userId) in old(dirs) || (!faults.userMkdirDenied && !Blocked(old(files), UserDir(userId))))
      ensures r == Err(UserDirFailed) ==> files == old(files) && dirs == old(dirs) + Prefixes(base)
      // With no fault and nothing in the way, the photo is stored.
      ensures (&& !faults.baseMkdirDenied && !faults.userMkdirDenied
               && faults.writeStopsAfter.None? && !faults.replaceFails
               && old(Unobstructed(userId, token + acc.ext)))
              ==> r.Ok?
      ensures r.Ok? || r == Err(WriteFailed) ==>
                && dirs == old(dirs) + Prefixes(UserDir(userId))
                && (r.Err? <==> TmpPath(userId, token + acc.ext) in dirs || faults.writeStopsAfter.Some?
                                || DestPath(userId, token + acc.ext) in dirs || faults.replaceFails)
      ensures r.Ok? ==>
                && r.value == StoredReference(userId, token, acc.ext)
                && GetFullFilePath(base, PyStr(r.value)) == Ok(DestPath(userId, token + acc.ext))
                && files == (old(files) - {TmpPath(userId, token + acc.ext)})[DestPath(userId, token + acc.ext) := acc.data]
      ensures r == Err(WriteFailed) ==>
                && files - {TmpPath(userId, token + acc.ext)} == old(files) - {TmpPath(userId, token + acc.ext)}
                && (TmpPath(userId, token + acc.ext) in files ==> faults.tmpUnlinkFails)
    {
      if !Blocked(files, UserDir(userId)) {
        BlockedAncestor(files, base, UserDir(userId));
      }
      var made := MakeUserDir(userId, faults);
      if made.Err? {
        return Err(made.error);
      }
      var userDir := made.value;
      usedTokens := usedTokens + {token};
      var name := token + acc.ext;
      assert TmpPath(userId, name) !in Prefixes(userDir) && DestPath(userId, name) !in Prefixes(userDir);
      assert userDir + [name] == DestPath(userId, name) && userDir + [name + ".tmp"] == TmpPath(userId, name);
      var reference := StoredReference(userId, token, acc.ext);
      DestinationWithinBase(base, userId, token, acc.ext);
      var dest := Walk(userDir, [name]);
      if !IsWithin(dest, base) {
        return Err(DestinationOutsideBase);
      }
      StoredReferenceResolves(base, userId, token, acc.ext);
      StoredNamesDistinct(token, token, acc.ext, acc.ext);
      var written := WriteAtomically(userDir, name, acc.data, faults);
      if !written {
        return Err(WriteFailed);
      }
      return Ok(reference);
    }

    /** save_profile_photo: validate, create the directories, write the bytes to
        a ".tmp" sibling and move it onto the destination. */
    method SaveProfilePhoto(upload: Option<Upload>, userId: int, token: string,
                            decode: seq<byte> -> Decoded, faults: Faults)
      returns (r: Result<string, SaveError>)
      requires Valid() && IsHexToken(token) && token !in usedTokens
      modifies this`files, this`dirs, this`usedTokens
      ensures Valid()
      // Every check runs first; a rejected upload touches nothing.
      ensures Validate(upload, maxBytes, decode).Err? ==>
                r == Err(Rejected(Validate(upload, maxBytes, decode).error))
                && files == old(files) && dirs == old(dirs) && usedTokens == old(usedTokens)
      ensures (r.Err? && r.error.Rejected?) ==> Validate(upload, maxBytes, decode).Err?
      // Directory creation.
      ensures r == Err(BaseDirFailed) <==>
                Validate(upload, maxBytes, decode).Ok?
                && !(base in old(dirs) || (!faults.baseMkdirDenied && !Blocked(old(files), base)))
      ensures r == Err(BaseDirFailed) ==> files == old(files) && dirs == old(dirs)
      ensures r == Err(UserDirFailed) <==>
                Validate(upload, maxBytes, decode).Ok? && r != Err(BaseDirFailed)
                && !(UserDir(userId) in old(dirs) || (!faults.userMkdirDenied && !Blocked(old(files), UserDir(userId))))
      ensures r == Err(UserDirFailed) ==> files == old(files) && dirs == old(dirs) + Prefixes(base)
      // A valid upload with no fault and nothing in the way is stored.
      ensures (&& Validate(upload, maxBytes, decode).Ok?
               && !faults.baseMkdirDenied && !faults.userMkdirDenied
               && faults.writeStopsAfter.None? && !faults.replaceFails
               && old(Unobstructed(userId, token + Validate(upload, maxBytes, decode).value.ext)))
              ==> r.Ok?
      // The destination guard never refuses.
      ensures r != Err(DestinationOutsideBase)
      // uuid4 hands out the token once the directories exist.
      ensures usedTokens == if r.Ok? || r == Err(WriteFailed) then old(usedTokens) + {token} else old(usedTokens)
      // Success: the payload sits at base/<user id>/<token><ext>, and no .tmp remains.
      ensures r.Ok? ==>
                var acc := Validate(upload, maxBytes, decode).value;
                && r.value == StoredReference(userId, token, acc.ext)
                && GetFullFilePath(base, PyStr(r.value)) == Ok(DestPath(userId, token + acc.ext))
                && files == (old(files) - {TmpPath(userId, token + acc.ext)})[DestPath(userId, token + acc.ext) := acc.data]
                && dirs == old(dirs) + Prefixes(UserDir(userId))
      // A failed write leaves no final file behind and removes the .tmp unless
      // the cleanup itself fails.
      ensures r == Err(WriteFailed) ==>
                var acc := Validate(upload, maxBytes, decode).value;
                && files - {TmpPath(userId, token + acc.ext)} == old(files) - {TmpPath(userId, token + acc.ext)}
                && (TmpPath(userId, token + acc.ext) in files ==> faults.tmpUnlinkFails)
                && dirs == old(dirs) + Prefixes(UserDir(userId))
      // Which failure occurs, once the directories exist.
      ensures r.Ok? || r == Err(WriteFailed) ==>
                var acc := Validate(upload, maxBytes, decode).value;
                r.Err? <==> TmpPath(userId, token + acc.ext) in dirs || faults.writeStopsAfter.Some?
                            || DestPath(userId, token + acc.ext) in dirs || faults.replaceFails
    {
      var v := Validate(upload, maxBytes, decode);
      if v.Err? {
        return Err(Rejected(v.error));
      }
      r := StoreAccepted(v.value, userId, token, faults);
    }

    /** remove_file: resolve the reference through get_full_file_path and
        unlink it; a file that is not there counts as removed. */
    method RemoveFile(ref: PyValue, unlinkDenied: bool) returns (r: Result<(), RemoveError>)
      requires Valid()
      modifies this`files
      ensures Valid()
      ensures GetFullFilePath(base, ref).Err? ==> r == Err(BadPath) && files == old(files)
      ensures GetFullFilePath(base, ref).Ok? ==>
                var p := GetFullFilePath(base, ref).value;
                && (r.Ok? <==>
                      if p in old(files) then !unlinkDenied else p !in dirs && !Blocked(old(files), p))
                && (r.Err? ==> r.error == UnlinkFailed)
                && files == (if r.Ok? then old(files) - {p} else old(files))
                && (r.Ok? ==> p !in files)
    {
      var full := GetFullFilePath(base, ref);
      if full.Err? {
        return Err(BadPath);
      }
      var p := full.value;
      if p in files {
        if unlinkDenied {
          return Err(UnlinkFailed);
        }
        files := files - {p};
        return Ok(());
      }
      if p in dirs || Blocked(files, p) {
        // IsADirectoryError or NotADirectoryError: re-raised
        return Err(UnlinkFailed);
      }
      // FileNotFoundError: already gone
      return Ok(());
    }

    /** Saving the same upload twice for the same user gives two references,
        and both files hold the payload. */
    method SaveTwice(upload: Option<Upload>, userId: int, t1: string, t2: string, decode: seq<byte> -> Decoded)
      returns (r1: Result<string, SaveError>, r2: Result<string, SaveError>)
      requires Valid() && IsHexToken(t1) && IsHexToken(t2) && t1 != t2
      requires t1 !in usedTokens && t2 !in usedTokens
      modifies this`files, this`dirs, this`usedTokens
      ensures Valid()
      ensures r1.Ok? && r2.Ok? ==>
                && r1.value != r2.value
                && upload.Some? && upload.value.file.Some?
                && GetFullFilePath(base, PyStr(r1.value)).Ok? && GetFullFilePath(base, PyStr(r2.value)).Ok?
                && GetFullFilePath(base, PyStr(r1.value)).value in files
                && GetFullFilePath(base, PyStr(r2.value)).value in files
                && files[GetFullFilePath(base, PyStr(r1.value)).value] == upload.value.file.value
                && files[GetFullFilePath(base, PyStr(r2.value)).value] == upload.value.file.value
      // A valid upload is saved both times when nothing is in the way.
      ensures (&& Validate(upload, maxBytes, decode).Ok?
               && old(Unobstructed(userId, t1 + Validate(upload, maxBytes, decode).value.ext))
               && old(Unobstructed(userId, t2 + Validate(upload, maxBytes, decode).value.ext)))
              ==> r1.Ok? && r2.Ok?
    {
      r1 := SaveProfilePhoto(upload, userId, t1, decode, NoFaults());
      ghost var mid := files;
      if r1.Ok? {
        ghost var ext := Validate(upload, maxBytes, decode).value.ext;
        ghost var userDir := UserDir(userId);
        assert userDir[..|userDir|] == userDir;
        PrefixesOfDir(files, dirs, userDir);
        assert TmpPath(userId, t2 + ext) !in Prefixes(userDir) && DestPath(userId, t2 + ext) !in Prefixes(userDir);
      }
      r2 := SaveProfilePhoto(upload, userId, t2, decode, NoFaults());
      if r1.Ok? && r2.Ok? {
        var acc := Validate(upload, maxBytes, decode).value;
        StoredNamesDistinct(t1, t2, acc.ext, acc.ext);
        StoredNamesDistinct(t2, t1, acc.ext, acc.ext);
        StoredReferencesDistinct(userId, t1, t2, acc.ext);
        SecondWriteKeepsFirst(UserDir(userId), t1 + acc.ext, t2 + acc.ext, acc.data, mid, files);
      }
    }

    /** Removing is idempotent: a second removal of the same reference gives
        the same answer and changes nothing more. */
    method RemoveTwice(ref: PyValue, unlinkDenied: bool) returns (r1: Result<(), RemoveError>, r2: Result<(), RemoveError>)
      requires Valid()
      modifies this`files
      ensures Valid()
      ensures r2.Ok? == r1.Ok? && (r1.Err? ==> r2 == r1)
      ensures r1.Ok? ==> GetFullFilePath(base, ref).Ok? && files == old(files) - {GetFullFilePath(base, ref).value}
      ensures r1.Err? ==> files == old(files)
    {
      ghost var before := files;
      r1 := RemoveFile(ref, unlinkDenied);
      ghost var full := GetFullFilePath(base, ref);
      if r1.Ok? {
        if full.value in before {
          NothingLeftToRemove(before, dirs, full.value);
        }
        assert full.value !in files && full.value !in dirs && !Blocked(files, full.value);
      }
      r2 := RemoveFile(ref, unlinkDenied);
    }

    /** Removing what a save returned deletes the stored file and leaves every
        other file as it was before the save. */
    method SaveThenRemove(upload: Option<Upload>, userId: int, token: string, decode: seq<byte> -> Decoded)
      returns (saved: Result<string, SaveError>, removed: Result<(), RemoveError>)
      requires Valid() && IsHexToken(token) && token !in usedTokens
      modifies this`files, this`dirs, this`usedTokens
      ensures Valid()
      ensures saved.Ok? ==>
                && removed.Ok?
                && Validate(upload, maxBytes, decode).Ok?
                && var name := token + Validate(upload, maxBytes, decode).value.ext;
                   files == old(files) - {TmpPath(userId, name), DestPath(userId, name)}
      ensures (&& Validate(upload, maxBytes, decode).Ok?
               && old(Unobstructed(userId, token + Validate(upload, maxBytes, decode).value.ext)))
              ==> saved.Ok?
    {
      saved := SaveProfilePhoto(upload, userId, token, decode, NoFaults());
      if saved.Ok? {
        ghost var name := token + Validate(upload, maxBytes, decode).value.ext;
        removed := RemoveFile(PyStr(saved.value), false);
        WriteThenRemove(old(files), TmpPath(userId, name), DestPath(userId, name), Validate(upload, maxBytes, decode).value.data);
      } else {
        removed := Err(BadPath);
      }
    }
  }
}
