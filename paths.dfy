/** Lexical paths: splitting a stored reference on '/', resolving '.' and '..'
    against a base directory, and the traversal guard of get_full_file_path
    (storage/files.py). The tree is free of symbolic links, so resolving a path
    is a walk over its segments. */
module Paths {
  import opened Common

  /** An absolute path: the names from the root down; [] is the root itself. */
  type Path = seq<string>

  /** A segment that names a child: not empty, not "." or "..", no separator. */
  predicate IsName(seg: string)
  {
    seg != "" && seg != "." && seg != ".." && '/' !in seg
  }

  /** A resolved path: every segment names a child. */
  predicate Canonical(p: Path)
  {
    forall i :: 0 <= i < |p| ==> IsName(p[i])
  }

  predicate NoSlash(segs: seq<string>)
  {
    forall i :: 0 <= i < |segs| ==> '/' !in segs[i]
  }

  /** `p` is `base` itself or lies below it: what PurePath.relative_to accepts. */
  predicate IsWithin(p: Path, base: Path)
  {
    base <= p
  }

  /** Cuts a string at every '/', as str.split("/") does: "a//b/" gives ["a", "", "b", ""]. */
  function Split(s: string): (r: seq<string>)
    ensures |r| >= 1 && NoSlash(r)
    decreases |s|
  {
    if s == [] then [""]
    else
      var rest := Split(s[1..]);
      if s[0] == '/' then [""] + rest
      else [[s[0]] + rest[0]] + rest[1..]
  }

  /** Glues segments back together with '/' between them. */
  function Join(segs: seq<string>): (r: string)
    requires |segs| >= 1
    ensures |r| >= |segs| - 1
    decreases |segs|
  {
    if |segs| == 1 then segs[0] else segs[0] + "/" + Join(segs[1..])
  }

  /** Splitting loses nothing: the separators come back where they were. */
  lemma {:induction false} JoinSplit(s: string)
    ensures Join(Split(s)) == s
    decreases |s|
  {
    if s != [] {
      var rest := Split(s[1..]);
      JoinSplit(s[1..]);
      SplitUnfold(s);
      if s[0] == '/' {
        JoinAfterEmpty(rest);
      } else {
        JoinAfterChar(s[0], rest);
      }
      assert s == [s[0]] + s[1..];
    }
  }

  /** An empty first segment puts a separator in front. */
  lemma JoinAfterEmpty(rest: seq<string>)
    requires |rest| >= 1
    ensures Join([""] + rest) == "/" + Join(rest)
  {
    var segs := [""] + rest;
    JoinUnfold(segs);
    assert segs[0] == "" && segs[1..] == rest;
  }

  /** A character in front of the first segment goes in front of the whole. */
  lemma JoinAfterChar(c: char, rest: seq<string>)
    requires |rest| >= 1
    ensures Join([[c] + rest[0]] + rest[1..]) == [c] + Join(rest)
  {
    var head := [c] + rest[0];
    var segs := [head] + rest[1..];
    assert segs[0] == head && segs[1..] == rest[1..];
    if |rest| > 1 {
      JoinUnfold(segs);
      JoinUnfold(rest);
      SlashAssoc([c], rest[0], Join(rest[1..]));
    } else {
      assert |segs| == 1;
    }
  }

  lemma SlashAssoc(x: string, y: string, z: string)
    ensures x + y + "/" + z == x + (y + "/" + z)
  {
  }

  /** One step of Join's definition. */
  lemma JoinUnfold(segs: seq<string>)
    requires |segs| >= 2
    ensures Join(segs) == segs[0] + "/" + Join(segs[1..])
  {
  }

  /** Splitting at a separator splits each side on its own. */
  lemma {:induction false} SplitAroundSlash(a: string, b: string)
    ensures Split(a + "/" + b) == Split(a) + Split(b)
    decreases |a|
  {
    if a == [] {
      assert a + "/" + b == "/" + b && ("/" + b)[1..] == b;
      SplitUnfold("/" + b);
    } else {
      SplitAroundSlash(a[1..], b);
      SplitAroundSlashStep(a, b);
    }
  }

  /** One character more in front of the separator. */
  lemma SplitAroundSlashStep(a: string, b: string)
    requires a != []
    requires Split(a[1..] + "/" + b) == Split(a[1..]) + Split(b)
    ensures Split(a + "/" + b) == Split(a) + Split(b)
  {
    var u := a + "/" + b;
    SlashJoinTail(a, b);
    SplitUnfold(u);
    SplitUnfold(a);
    var rest := Split(a[1..]);
    var sb := Split(b);
    var w := Split(u[1..]);
    assert w == rest + sb;
    var su := Split(u);
    var sa := Split(a);
    if a[0] == '/' {
      assert su == [""] + w;
      assert sa == [""] + rest;
      ConsAppend("", rest, sb);
    } else {
      var head := [a[0]] + rest[0];
      AppendHeadTail(rest, sb);
      assert su == [head] + w[1..];
      assert sa == [head] + rest[1..];
      ConsAppend(head, rest[1..], sb);
    }
  }

  lemma AppendHeadTail(r: seq<string>, t: seq<string>)
    requires r != []
    ensures (r + t)[0] == r[0] && (r + t)[1..] == r[1..] + t
  {
  }

  lemma ConsAppend(x: string, r: seq<string>, t: seq<string>)
    ensures [x] + (r + t) == ([x] + r) + t
  {
  }

  lemma SlashJoinTail(a: string, b: string)
    requires a != []
    ensures (a + "/" + b)[0] == a[0] && (a + "/" + b)[1..] == a[1..] + "/" + b
  {
  }

  /** One step of Split's definition. */
  lemma SplitUnfold(s: string)
    requires s != []
    ensures Split(s) == if s[0] == '/' then [""] + Split(s[1..])
                        else [[s[0]] + Split(s[1..])[0]] + Split(s[1..])[1..]
  {
  }

  /** Splitting a string that starts with a separator-free prefix. */
  lemma {:induction false} SplitAfterName(a: string, t: string)
    requires '/' !in a
    ensures Split(a + t) == [a + Split(t)[0]] + Split(t)[1..]
    decreases |a|
  {
    if a == [] {
      var x := Split(t);
      assert a + t == t && a + x[0] == x[0];
      assert [x[0]] + x[1..] == x;
    } else {
      assert (a + t)[0] == a[0];
      assert (a + t)[1..] == a[1..] + t;
      SplitAfterName(a[1..], t);
      assert [a[0]] + (a[1..] + Split(t)[0]) == a + Split(t)[0];
    }
  }

  /** Joining separator-free segments and splitting again gives them back. */
  lemma {:induction false} SplitJoin(segs: seq<string>)
    requires |segs| >= 1 && NoSlash(segs)
    ensures Split(Join(segs)) == segs
    decreases |segs|
  {
    if |segs| == 1 {
      SplitAfterName(segs[0], "");
      assert segs[0] + "" == segs[0];
    } else {
      var tail := Join(segs[1..]);
      var rest := "/" + tail;
      SplitJoin(segs[1..]);
      SplitAfterName(segs[0], rest);
      assert Join(segs) == segs[0] + rest;
      assert rest[0] == '/' && rest[1..] == tail;
      var y := Split(rest);
      assert y == [""] + segs[1..];
      assert y[0] == "" && y[1..] == segs[1..];
      assert segs[0] + y[0] == segs[0];
      assert segs == [segs[0]] + segs[1..];
    }
  }

  /** One segment of a resolution: "" and "." stay, ".." goes up (not past the
      root), a name goes down. */
  function Step(p: Path, seg: string): (r: Path)
    ensures |r| == if seg == ".." then (if p == [] then 0 else |p| - 1)
                   else if seg == "" || seg == "." then |p| else |p| + 1
  {
    if seg == "" || seg == "." then p
    else if seg == ".." then (if p == [] then [] else p[..|p| - 1])
    else p + [seg]
  }

  /** A step goes up to the parent on "..", and otherwise stays or goes down
      into a child; it never moves sideways. */
  lemma StepMoves(p: Path, seg: string)
    ensures seg == ".." ==> Step(p, seg) <= p
    ensures seg != ".." ==> p <= Step(p, seg)
    ensures Canonical(p) && '/' !in seg ==> Canonical(Step(p, seg))
  {
  }

  /** Resolves the segments one after another, starting at `p`. */
  function Walk(p: Path, segs: seq<string>): (r: Path)
    requires Canonical(p) && NoSlash(segs)
    ensures Canonical(r)
    decreases |segs|
  {
    if segs == [] then p else Walk(Step(p, segs[0]), segs[1..])
  }

  /** A path starts at the root when it begins with '/'. */
  predicate IsAbsolute(s: string)
  {
    |s| > 0 && s[0] == '/'
  }

  /** `(base / rel).resolve()`: an absolute `rel` replaces the base; then '.',
      '..' and empty segments are resolved. */
  function Resolve(base: Path, rel: string): (r: Path)
    requires Canonical(base)
    ensures Canonical(r)
    ensures !IsAbsolute(rel) && StaysWithin(Split(rel), 0) ==> IsWithin(r, base)
  {
    var segs := Split(rel);
    assert !IsAbsolute(rel) && StaysWithin(segs, 0) ==> IsWithin(Walk(base, segs), base) by {
      if !IsAbsolute(rel) && StaysWithin(segs, 0) {
        WalkStaysUnder(base, base, segs);
      }
    }
    Walk(if IsAbsolute(rel) then [] else base, segs)
  }

  datatype PathError = InvalidPath

  /** get_full_file_path: refuses anything but a non-empty str, then resolves it
      against the base and keeps it only when it is the base or lies below it. */
  function GetFullFilePath(base: Path, ref: PyValue): (r: Result<Path, PathError>)
    requires Canonical(base)
    ensures r.Ok? <==> ref.PyStr? && ref.s != "" && IsWithin(Resolve(base, ref.s), base)
    ensures r.Ok? ==> Canonical(r.value) && IsWithin(r.value, base)
    ensures r.Ok? ==> r.value == Resolve(base, ref.s)
  {
    if !Truthy(ref) || !ref.PyStr? then Err(InvalidPath)
    else
      var candidate := Resolve(base, ref.s);
      if IsWithin(candidate, base) then Ok(candidate) else Err(InvalidPath)
  }

  /** Walking a list that starts with `seg`: one step, then the rest. */
  lemma WalkCons(p: Path, seg: string, rest: seq<string>)
    requires Canonical(p) && '/' !in seg && NoSlash(rest)
    ensures NoSlash([seg] + rest) && Canonical(Step(p, seg))
    ensures Walk(p, [seg] + rest) == Walk(Step(p, seg), rest)
  {
    var segs := [seg] + rest;
    assert segs[0] == seg && segs[1..] == rest;
  }

  /** Walking through names only appends them. */
  lemma {:induction false} WalkNames(p: Path, names: seq<string>)
    requires Canonical(p) && Canonical(names)
    ensures Walk(p, names) == p + names
    decreases |names|
  {
    if names != [] {
      assert Step(p, names[0]) == p + [names[0]];
      WalkNames(p + [names[0]], names[1..]);
      assert p + [names[0]] + names[1..] == p + names;
    }
  }

  /** A reference made of names only, not starting with '/', resolves to the
      base with those names appended, and is accepted. */
  lemma PlainReferenceResolves(base: Path, names: seq<string>)
    requires Canonical(base) && |names| >= 1 && Canonical(names)
    ensures GetFullFilePath(base, PyStr(Join(names))) == Ok(base + names)
  {
    var rel := Join(names);
    JoinStartsWithHead(names);
    assert !IsAbsolute(rel);
    SplitJoin(names);
    WalkNames(base, names);
    assert Resolve(base, rel) == base + names;
  }

  lemma {:induction false} JoinStartsWithHead(segs: seq<string>)
    requires |segs| >= 1 && segs[0] != ""
    ensures Join(segs) != "" && Join(segs)[0] == segs[0][0]
  {
    if |segs| > 1 {
      assert Join(segs) == segs[0] + "/" + Join(segs[1..]);
    }
  }

  /** The segments never climb more than `depth` levels above where the walk
      starts. */
  predicate StaysWithin(segs: seq<string>, depth: nat)
    decreases |segs|
  {
    segs == [] ||
    if segs[0] == ".." then depth > 0 && StaysWithin(segs[1..], depth - 1)
    else if segs[0] == "" || segs[0] == "." then StaysWithin(segs[1..], depth)
    else StaysWithin(segs[1..], depth + 1)
  }

  lemma {:induction false} WalkStaysUnder(base: Path, p: Path, segs: seq<string>)
    requires Canonical(p) && NoSlash(segs) && IsWithin(p, base)
    requires StaysWithin(segs, |p| - |base|)
    ensures IsWithin(Walk(p, segs), base)
    decreases |segs|
  {
    if segs != [] {
      var q := Step(p, segs[0]);
      if segs[0] == ".." {
        assert q == p[..|p| - 1];
        assert base <= q;
      } else if segs[0] != "" && segs[0] != "." {
        assert q == p + [segs[0]];
        assert base <= q;
      }
      WalkStaysUnder(base, q, segs[1..]);
    }
  }

  /** A relative reference that never climbs above the base is accepted: the
      guard only refuses references that leave the base at some point. */
  lemma ContainedReferenceAccepted(base: Path, rel: string)
    requires Canonical(base) && rel != "" && !IsAbsolute(rel)
    requires StaysWithin(Split(rel), 0)
    ensures GetFullFilePath(base, PyStr(rel)) == Ok(Resolve(base, rel))
  {
    WalkStaysUnder(base, base, Split(rel));
  }

  /** Resolving a joined reference walks its segments, from the root when the
      first segment is empty (the reference starts with '/'), else from the base. */
  lemma ResolveJoin(base: Path, segs: seq<string>)
    requires Canonical(base) && |segs| >= 1 && NoSlash(segs)
    ensures Resolve(base, Join(segs)) == Walk(if segs[0] == "" && |segs| > 1 then [] else base, segs)
  {
    SplitJoin(segs);
    if segs[0] != "" {
      JoinStartsWithHead(segs);
    } else if |segs| > 1 {
      assert Join(segs) == "" + "/" + Join(segs[1..]);
    }
  }

  /** "../etc/passwd" is refused, whether or not such a file exists, for any
      base below the root that is not itself a directory named "etc". */
  lemma ParentTraversalRejected(base: Path)
    requires Canonical(base) && |base| > 0 && base[|base| - 1] != "etc"
    ensures GetFullFilePath(base, PyStr("../etc/passwd")) == Err(InvalidPath)
  {
    var names := ["etc", "passwd"];
    var segs := [".."] + names;
    assert Join(segs) == "../etc/passwd";
    ResolveJoin(base, segs);
    var up := base[..|base| - 1];
    WalkCons(base, "..", names);
    WalkNames(up, names);
    var r := up + names;
    assert r[|base| - 1] == "etc";
    assert !(base <= r);
  }

  /** "42/../../evil.jpg" is refused for any base below the root that is not
      itself named "evil.jpg". */
  lemma NestedTraversalRejected(base: Path)
    requires Canonical(base) && |base| > 0 && base[|base| - 1] != "evil.jpg"
    ensures GetFullFilePath(base, PyStr("42/../../evil.jpg")) == Err(InvalidPath)
  {
    var up := base[..|base| - 1];
    var last := ["evil.jpg"];
    var segs := ["42"] + ([".."] + ([".."] + last));
    assert Resolve(base, "42/../../evil.jpg") == up + last by {
      NestedTraversalSegments();
      ResolveJoin(base, segs);
      WalkIntoAndBack(base, "42", [".."] + last);
      WalkUp(base, last);
      WalkNames(up, last);
    }
    var r := up + last;
    assert r[|base| - 1] == "evil.jpg";
    assert !(base <= r);
  }

  /** Going into a child and straight back out leaves the walk where it was. */
  lemma WalkIntoAndBack(p: Path, name: string, rest: seq<string>)
    requires Canonical(p) && IsName(name) && NoSlash(rest)
    ensures NoSlash([name] + ([".."] + rest))
    ensures Walk(p, [name] + ([".."] + rest)) == Walk(p, rest)
  {
    var down := p + [name];
    WalkCons(p, name, [".."] + rest);
    assert Step(p, name) == down;
    WalkCons(down, "..", rest);
    assert down[..|down| - 1] == p;
  }

  /** ".." first: the walk goes on from the parent. */
  lemma WalkUp(p: Path, rest: seq<string>)
    requires Canonical(p) && p != [] && NoSlash(rest)
    ensures NoSlash([".."] + rest) && Canonical(p[..|p| - 1])
    ensures Walk(p, [".."] + rest) == Walk(p[..|p| - 1], rest)
  {
    WalkCons(p, "..", rest);
  }

  lemma NestedTraversalSegments()
    ensures Join(["42"] + ([".."] + ([".."] + ["evil.jpg"]))) == "42/../../evil.jpg"
  {
    var last := ["evil.jpg"];
    var s2 := [".."] + last;
    var s1 := [".."] + s2;
    var segs := ["42"] + s1;
    assert segs[1..] == s1 && s1[1..] == s2 && s2[1..] == last;
    JoinUnfold(segs);
    JoinUnfold(s1);
    JoinUnfold(s2);
    assert "42" + "/" + (".." + "/" + (".." + "/" + "evil.jpg")) == "42/../../evil.jpg";
  }

  /** An absolute reference replaces the base: "/etc/passwd" is refused unless
      the base is the root, "/etc" or "/etc/passwd". */
  lemma AbsoluteReferenceRejected(base: Path)
    requires Canonical(base) && !(base <= ["etc", "passwd"])
    ensures GetFullFilePath(base, PyStr("/etc/passwd")) == Err(InvalidPath)
  {
    var names := ["etc", "passwd"];
    var segs := [""] + names;
    assert Join(segs) == "/etc/passwd";
    ResolveJoin(base, segs);
    WalkCons([], "", names);
    WalkNames([], names);
  }

  /** The guard admits the base directory itself: "." and "42/.." resolve to
      the base, not to something strictly below it. */
  lemma BaseItselfAccepted(base: Path)
    requires Canonical(base)
    ensures GetFullFilePath(base, PyStr(".")) == Ok(base)
    ensures GetFullFilePath(base, PyStr("42/..")) == Ok(base)
  {
    assert Resolve(base, ".") == base by {
      assert Join(["."]) == ".";
      ResolveJoin(base, ["."]);
      WalkCons(base, ".", []);
    }
    assert Resolve(base, "42/..") == base by {
      var segs := ["42"] + [".."];
      assert Join(segs) == "42/..";
      ResolveJoin(base, segs);
      var down := base + ["42"];
      WalkCons(base, "42", [".."]);
      assert down[..|down| - 1] == base;
      WalkCons(down, "..", []);
    }
  }

  /** Empty and non-string references are refused before any resolution. */
  lemma EmptyOrNonStringRejected(base: Path, v: PyValue)
    requires Canonical(base) && (v == PyStr("") || v == PyNone || v.PyOther?)
    ensures GetFullFilePath(base, v) == Err(InvalidPath)
  {
  }
}
