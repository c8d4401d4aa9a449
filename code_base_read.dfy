/** Codebase file listing (src/code_base_read.py): the files Git tracks or
    sees as untracked, kept when they exist as regular files under the
    analysed directory and their extension is not on the denylist; the
    priority files are prepended and the whole list sorted. Git's listings,
    the working-tree root it reports and the set of existing regular files
    are inputs; paths are absolute, normalised strings. */
module CodeBase {
  import opened Wrappers
  import opened Text
  import opened Ordering

  /** Extensions never sent to the agent (images, fonts, media, binaries,
      archives, documents), in lower case. */
  const IgnoredExtensions: set<string> := {
    ".jpg", ".jpeg", ".png", ".gif", ".bmp", ".svg", ".ico", ".webp",
    ".ttf", ".otf", ".woff", ".woff2", ".eot",
    ".mp4", ".avi", ".mov", ".mp3", ".wav",
    ".pyc", ".pyo", ".so", ".dll", ".exe", ".bin",
    ".zip", ".tar", ".gz", ".rar",
    ".pdf", ".doc", ".docx"
  }

  /** Base names that are listed a second time in front of the others. */
  const PriorityNames: set<string> := {"main.ts", "index.ts", "package.json", "tsconfig.json"}

  /** `path.split("/")[-1]`: the final component of a path. */
  function Name(path: string): (name: string)
    ensures '/' !in name
  {
    var parts := Split(path, "/");
    SplitPieces(path, "/");
    ContainsChar(parts[|parts| - 1], '/');
    parts[|parts| - 1]
  }

  /** `PurePath.suffix` of a final component: from its last dot on, provided
      that dot is neither its first nor its last character. */
  function Suffix(name: string): (r: string)
    ensures r == [] || (|r| >= 2 && r[0] == '.' && '.' !in r[1..] && |r| < |name| && r == name[|name| - |r|..])
  {
    match LastIndexOf(name, '.')
    case None => ""
    case Some(i) => if 0 < i < |name| - 1 then name[i..] else ""
  }

  /** A name has no suffix exactly when it has no dot after its first
      character or ends with a dot: ".gitignore", "Makefile" and "notes."
      have none. */
  lemma {:induction false} SuffixEmptyIff(name: string)
    ensures Suffix(name) == "" <==> (|name| == 0 || '.' !in name[1..] || name[|name| - 1] == '.')
  {
    var found := LastIndexOf(name, '.');
    if found.Some? {
      var i := found.value;
      if i == 0 {
        assert name[1..] == name[i + 1..];
      } else if i < |name| - 1 {
        assert name[i] == name[1..][i - 1];
        assert name[|name| - 1] in name[i + 1..];
      }
    } else if |name| > 0 {
      assert forall c :: c in name[1..] ==> c in name;
    }
  }

  /** A dot strictly inside the name with no dot after it starts the suffix. */
  lemma {:induction false} SuffixAtLastDot(name: string, i: nat)
    requires 0 < i < |name| - 1 && name[i] == '.' && '.' !in name[i + 1..]
    ensures Suffix(name) == name[i..]
  {
  }

  /** `full_path.suffix.lower() in ignored_extensions` */
  predicate IsIgnored(path: string): (b: bool)
    ensures b ==> Suffix(Name(path)) != ""
  {
    assert Lower("") == "";
    Lower(Suffix(Name(path))) in IgnoredExtensions
  }

  /** Two characters that are equal or are the two cases of one ASCII letter. */
  predicate SameIgnoringAsciiCase(c: char, d: char) {
    || c == d
    || ('A' <= c <= 'Z' && d as int == c as int + 32)
    || ('A' <= d <= 'Z' && c as int == d as int + 32)
  }

  /** Equal texts up to the case of ASCII letters, character by character. */
  predicate EqualIgnoringAsciiCase(a: string, b: string) {
    |a| == |b| && forall i :: 0 <= i < |a| ==> SameIgnoringAsciiCase(a[i], b[i])
  }

  /** Lower-case ASCII letters, digits and dots, without 'k'. */
  predicate PlainExtension(e: string) {
    forall i :: 0 <= i < |e| ==> ('a' <= e[i] <= 'z' && e[i] != 'k') || '0' <= e[i] <= '9' || e[i] == '.'
  }

  /** Every denylisted extension is written in lower case, and none holds a
      'k' (the only ASCII letter a non-ASCII character lowers to). */
  lemma {:induction false} IgnoredExtensionsPlain()
    ensures forall e :: e in IgnoredExtensions ==> PlainExtension(e)
  {
  }

  /** For a list of plain extensions, lower-casing a text and looking it up
      is looking the text up ignoring ASCII case. */
  lemma {:induction false} LowerLookup(x: string, exts: set<string>)
    requires forall e :: e in exts ==> PlainExtension(e)
    ensures Lower(x) in exts <==> exists e :: e in exts && EqualIgnoringAsciiCase(x, e)
  {
    if Lower(x) in exts {
      var e := Lower(x);
      assert PlainExtension(e);
      forall i | 0 <= i < |x|
        ensures SameIgnoringAsciiCase(x[i], e[i])
      {
        assert e[i] == LowerChar(x[i]);
        assert e[i] != 'k';
      }
      assert EqualIgnoringAsciiCase(x, e);
    }
    if exists e :: e in exts && EqualIgnoringAsciiCase(x, e) {
      var e :| e in exts && EqualIgnoringAsciiCase(x, e);
      assert PlainExtension(e);
      forall i | 0 <= i < |x|
        ensures Lower(x)[i] == e[i]
      {
        assert SameIgnoringAsciiCase(x[i], e[i]);
      }
      assert Lower(x) == e;
    }
  }

  /** A suffix is denied exactly when it spells a denylisted extension in
      any mix of upper and lower case: ".PNG" and ".Jpg" are denied like
      ".png" and ".jpg". */
  lemma {:induction false} IgnoredAnyCase(path: string)
    ensures IsIgnored(path) <==>
              exists e :: e in IgnoredExtensions && EqualIgnoringAsciiCase(Suffix(Name(path)), e)
  {
    IgnoredExtensionsPlain();
    LowerLookup(Suffix(Name(path)), IgnoredExtensions);
  }

  /** A file without a suffix is never ignored. */
  lemma {:induction false} NoSuffixNotIgnored(path: string)
    requires Suffix(Name(path)) == ""
    ensures !IsIgnored(path)
  {
    assert Lower("") == "";
  }

  /** `f.split("/")[-1] in {...}` */
  predicate IsPriority(path: string) {
    Name(path) in PriorityNames
  }

  /** `git_root / file_path` rendered with `str()`, for the clean relative
      paths Git lists. */
  function PathJoin(gitRoot: string, rel: string): (r: string)
    ensures rel == "" ==> r == gitRoot
    ensures rel != "" ==> StartsWith(r, gitRoot) && EndsWith(r, "/" + rel)
  {
    if rel == "" then gitRoot
    else if gitRoot == "/" then "/" + rel
    else gitRoot + "/" + rel
  }

  /** Distinct listed paths name distinct files. */
  lemma {:induction false} PathJoinInjective(gitRoot: string, rel1: string, rel2: string)
    requires PathJoin(gitRoot, rel1) == PathJoin(gitRoot, rel2)
    ensures rel1 == rel2
  {
    var p := PathJoin(gitRoot, rel1);
    if rel1 != "" && rel2 != "" {
      var k := if gitRoot == "/" then 1 else |gitRoot| + 1;
      assert rel1 == p[k..];
      assert rel2 == p[k..];
    }
  }

  /** `full_path.relative_to(root_path)` succeeds: the path is the root
      itself or lies below it, compared component-wise. */
  predicate IsWithin(full: string, root: string): (b: bool)
    ensures b ==> StartsWith(full, root)
  {
    assert StartsWith(full, root + "/") ==> full[..|root|] == (root + "/")[..|root|] == root;
    full == root || StartsWith(full, if root == "/" then "/" else root + "/")
  }

  /** The loop's three tests: an existing regular file, under the root, not
      on the denylist. */
  predicate Keeps(full: string, root: string, files: set<string>) {
    full in files && IsWithin(full, root) && !IsIgnored(full)
  }

  /** `set(tracked_files + untracked_files)` */
  function Candidates(lsFiles: string, untracked: seq<string>): (r: set<string>)
    ensures forall p :: p in r <==> p in Split(lsFiles, "\n") || p in untracked
  {
    set p | p in Split(lsFiles, "\n") + untracked
  }

  /** The full paths the loop keeps from the candidates. */
  function KeptFiles(gitRoot: string, root: string, candidates: set<string>, files: set<string>): (r: set<string>)
    ensures forall f :: f in r ==> Keeps(f, root, files)
  {
    set p | p in candidates && Keeps(PathJoin(gitRoot, p), root, files) :: PathJoin(gitRoot, p)
  }

  /** A kept path is an existing regular file under the root whose
      extension is not denied, named by a tracked or untracked path; and
      every such path is kept. */
  lemma {:induction false} KeptFilesIff(gitRoot: string, root: string, candidates: set<string>, files: set<string>, full: string)
    ensures full in KeptFiles(gitRoot, root, candidates, files) <==>
            (full in files && IsWithin(full, root) && !IsIgnored(full)
             && exists p :: p in candidates && PathJoin(gitRoot, p) == full)
  {
  }

  /** `[f for f in code_files if f.split("/")[-1] in {...}]` */
  function PriorityFiles(fs: seq<string>): (r: seq<string>)
    ensures forall x :: multiset(r)[x] == if IsPriority(x) then multiset(fs)[x] else 0
  {
    if fs == [] then []
    else
      assert fs == [fs[0]] + fs[1..];
      (if IsPriority(fs[0]) then [fs[0]] else []) + PriorityFiles(fs[1..])
  }

  predicate NoDuplicates(s: seq<string>) {
    forall i, j :: 0 <= i < j < |s| ==> s[i] != s[j]
  }

  lemma {:induction false} NoDuplicatesCount(s: seq<string>, x: string)
    requires NoDuplicates(s)
    ensures multiset(s)[x] == if x in s then 1 else 0
  {
    if s != [] {
      assert s == [s[0]] + s[1..];
      NoDuplicatesCount(s[1..], x);
      if x == s[0] {
        assert x !in s[1..];
      }
    }
  }

  /** One more candidate adds its full path to the kept files exactly when
      the loop's tests let it through. */
  lemma {:induction false} KeptFilesAdd(gitRoot: string, root: string, done: set<string>, p: string, files: set<string>)
    ensures KeptFiles(gitRoot, root, done + {p}, files) ==
            if Keeps(PathJoin(gitRoot, p), root, files)
            then KeptFiles(gitRoot, root, done, files) + {PathJoin(gitRoot, p)}
            else KeptFiles(gitRoot, root, done, files)
  {
  }

  /** After the prepend and the sort, each kept file appears once and each
      kept priority file twice. */
  lemma {:induction false} PrependAndSortCounts(codeFiles: seq<string>, kept: set<string>)
    requires NoDuplicates(codeFiles)
    requires forall x :: x in codeFiles <==> x in kept
    ensures forall x :: multiset(Sort(PriorityFiles(codeFiles) + codeFiles))[x] ==
              if x in kept then (if IsPriority(x) then 2 else 1) else 0
  {
    forall x
      ensures multiset(Sort(PriorityFiles(codeFiles) + codeFiles))[x] ==
              if x in kept then (if IsPriority(x) then 2 else 1) else 0
    {
      NoDuplicatesCount(codeFiles, x);
    }
  }

  /** One turn of the loop: the candidate's full path is appended exactly
      when the loop's tests let it through, and the list stays free of
      duplicates and in step with the kept files of the candidates seen. */
  lemma {:induction false} KeepStep(gitRoot: string, root: string, done: set<string>, p: string, files: set<string>, codeFiles: seq<string>)
    requires p !in done && NoDuplicates(codeFiles)
    requires forall x :: x in codeFiles <==> x in KeptFiles(gitRoot, root, done, files)
    ensures Keeps(PathJoin(gitRoot, p), root, files) ==>
              NoDuplicates(codeFiles + [PathJoin(gitRoot, p)]) &&
              forall x :: x in codeFiles + [PathJoin(gitRoot, p)] <==> x in KeptFiles(gitRoot, root, done + {p}, files)
    ensures !Keeps(PathJoin(gitRoot, p), root, files) ==>
              forall x :: x in codeFiles <==> x in KeptFiles(gitRoot, root, done + {p}, files)
  {
    var full := PathJoin(gitRoot, p);
    KeptFilesAdd(gitRoot, root, done, p, files);
    if Keeps(full, root, files) {
      assert full !in codeFiles by {
        if full in codeFiles {
          var q :| q in done && PathJoin(gitRoot, q) == full;
          PathJoinInjective(gitRoot, q, p);
        }
      }
    }
  }

  /** The error raised when the root is not inside a Git working tree. */
  datatype CodeBaseError = NotAGitRepository(root: string)

  /** `get_code_files`: `gitRoot` is the working tree Git finds from `root`
      (none when there is no repository), `lsFiles` the output of
      `git ls-files`, `untracked` Git's untracked files and `files` the paths
      that exist as regular files. The result lists every kept file once,
      priority files twice, in ascending order. */
  method GetCodeFiles(root: string, gitRoot: Option<string>, lsFiles: string, untracked: seq<string>, files: set<string>)
    returns (r: Result<seq<string>, CodeBaseError>)
    ensures r.Failure? <==> gitRoot.None?
    ensures r.Failure? ==> r.error == NotAGitRepository(root)
    ensures r.Success? ==> Sorted(r.value)
    ensures r.Success? ==>
              (forall x :: multiset(r.value)[x] ==
                 if x in KeptFiles(gitRoot.value, root, Candidates(lsFiles, untracked), files)
                 then (if IsPriority(x) then 2 else 1) else 0)
  {
    if gitRoot.None? {
      return Failure(NotAGitRepository(root));
    }
    var gitDir := gitRoot.value;
    var allFiles := Candidates(lsFiles, untracked);
    var codeFiles: seq<string> := [];
    var remaining := allFiles;
    while remaining != {}
      invariant remaining <= allFiles
      invariant NoDuplicates(codeFiles)
      invariant forall x :: x in codeFiles <==> x in KeptFiles(gitDir, root, allFiles - remaining, files)
      decreases |remaining|
    {
      var filePath :| filePath in remaining;
      ghost var done := allFiles - remaining;
      remaining := remaining - {filePath};
      assert allFiles - remaining == done + {filePath};
      var fullPath := PathJoin(gitDir, filePath);
      KeepStep(gitDir, root, done, filePath, files, codeFiles);
      if fullPath !in files || !IsWithin(fullPath, root) || IsIgnored(fullPath) {
        continue;
      }
      codeFiles := codeFiles + [fullPath];
    }
    assert allFiles - remaining == allFiles;
    PrependAndSortCounts(codeFiles, KeptFiles(gitDir, root, allFiles, files));
    codeFiles := PriorityFiles(codeFiles) + codeFiles;
    return Success(Sort(codeFiles));
  }
}
