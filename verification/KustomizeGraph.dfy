/**
 * Collecting a Kustomize source: the bounded worklist over a reference graph that may
 * be cyclic, and the least closure it computes.
 */
module KustomizeGraph {
  import opened Json
  import opened Sets

  type Bytes = seq<bv8>

  // One normalised local reference of a kustomization document.
  datatype Ref = Ref(path: string, mayBeDirectory: bool)

  // The repository tree at one revision. `content` holds the blobs that can be fetched;
  // `refs` parses a kustomization of a directory into its normalised local references.
  datatype Repo = Repo(
    blobs: set<string>,
    content: map<string, Bytes>,
    refs: (string, Bytes) -> Option<seq<Ref>>)

  const MAX_FILES := 500
  const MAX_BYTES := 5 * 1048576
  const FILE_NAMES := ["kustomization.yaml", "kustomization.yml", "Kustomization"]

  // ----- paths -----

  function LastSlash(path: string): (i: Option<nat>)
    ensures i.Some? ==> i.value < |path| && path[i.value] == '/' && '/' !in path[i.value + 1..]
    ensures i.None? ==> '/' !in path
  {
    if path == "" then None
    else if path[|path| - 1] == '/' then Some(|path| - 1)
    else LastSlash(path[..|path| - 1])
  }

  function ParentPath(path: string): string {
    var slash := LastSlash(path);
    if slash.None? then "." else path[..slash.value]
  }

  predicate Under(path: string, directory: string) {
    directory == "." || path == directory || directory + "/" <= path
  }

  // A directory of the repository: the root, or what stands before some slash of a blob path.
  ghost predicate IsDirectory(blobs: set<string>, d: string) {
    d == "." || exists path, i :: path in blobs && 0 <= i < |path| && path[i] == '/' && d == path[..i]
  }

  method RepositoryDirectories(blobs: set<string>) returns (directories: set<string>)
    ensures forall d :: d in directories <==> IsDirectory(blobs, d)
  {
    directories := {"."};
    var rest := blobs;
    while rest != {}
      invariant rest <= blobs
      invariant forall d :: d in directories <==> IsDirectory(blobs - rest, d)
      decreases rest
    {
      var path :| path in rest;
      ghost var before := directories;
      var parent := ParentPath(path);
      while parent != "."
        invariant parent == "." || (parent < path && path[|parent|] == '/')
        invariant forall d :: d in directories <==>
                    d in before || exists i :: 0 <= i < |path| && path[i] == '/' && d == path[..i] && (parent == "." || |parent| < i)
        decreases if parent == "." then 0 else |parent| + 1
      {
        var next := ParentPath(parent);
        NextParent(path, parent, directories, before);
        directories := directories + {parent};
        parent := next;
      }
      DirectoriesExtended(blobs - rest, path, before, directories);
      assert blobs - (rest - {path}) == (blobs - rest) + {path};
      rest := rest - {path};
    }
    assert blobs - {} == blobs;
  }

  lemma NextParent(path: string, parent: string, directories: set<string>, before: set<string>)
    requires parent != "." && parent < path && path[|parent|] == '/'
    requires "." in before
    requires forall d :: d in directories <==>
               d in before || exists i :: 0 <= i < |path| && path[i] == '/' && d == path[..i] && |parent| < i
    ensures var next := ParentPath(parent);
            && (next == "." || (next < path && path[|next|] == '/' && |next| < |parent|))
            && forall d :: d in directories + {parent} <==>
                 d in before || exists i :: 0 <= i < |path| && path[i] == '/' && d == path[..i] && (next == "." || |next| < i)
  {
    var slash := LastSlash(parent);
    var next := ParentPath(parent);
    assert parent == path[..|parent|];
    if slash.Some? {
      assert next == path[..slash.value] && path[slash.value] == parent[slash.value];
      assert forall i :: slash.value < i < |parent| ==> path[i] == parent[i] && parent[i] in parent[slash.value + 1..];
    } else {
      assert forall i :: 0 <= i < |parent| ==> path[i] == parent[i] && parent[i] in parent;
    }
    assert next == "." ==> forall i :: 0 <= i < |parent| && path[i] == '/' ==> path[..i] == "." by {
      if next == "." && slash.Some? {
        assert path[..slash.value] == "." && slash.value == 1;
      }
    }
  }

  lemma DirectoriesExtended(done: set<string>, path: string, before: set<string>, directories: set<string>)
    requires forall d :: d in before <==> IsDirectory(done, d)
    requires forall d :: d in directories <==>
               d in before || exists i :: 0 <= i < |path| && path[i] == '/' && d == path[..i]
    ensures forall d :: d in directories <==> IsDirectory(done + {path}, d)
  {
  }

  // ----- the reference graph -----

  function InDirectory(directory: string, name: string): string {
    if directory == "." then name else directory + "/" + name
  }

  function Candidates(directory: string, blobs: set<string>, names: seq<string>): seq<string> {
    if names == [] then []
    else
      var path := InDirectory(directory, names[0]);
      (if path in blobs then [path] else []) + Candidates(directory, blobs, names[1..])
  }

  // find_kustomization_path: the single kustomization file of a directory.
  function KustomizationOf(repo: Repo, directory: string): Option<string> {
    var found := Candidates(directory, repo.blobs, FILE_NAMES);
    if |found| == 1 then Some(found[0]) else None
  }

  // The references of a directory's kustomization, when it can be found, fetched and parsed.
  function RefsOf(repo: Repo, directory: string): Option<seq<Ref>> {
    var k := KustomizationOf(repo, directory);
    if k.None? || k.value !in repo.blobs || k.value !in repo.content then None else repo.refs(directory, repo.content[k.value])
  }

  ghost predicate Followed(repo: Repo, r: Ref) {
    r.mayBeDirectory && IsDirectory(repo.blobs, r.path)
  }

  // `directory` refers to the directory `next`.
  ghost predicate Edge(repo: Repo, directory: string, next: string) {
    RefsOf(repo, directory).Some? &&
    exists r :: r in RefsOf(repo, directory).value && Followed(repo, r) && r.path == next
  }

  // `directory` needs the file `path`: its kustomization, or a file it refers to.
  ghost predicate Needs(repo: Repo, directory: string, path: string) {
    KustomizationOf(repo, directory) == Some(path) ||
    (RefsOf(repo, directory).Some? &&
     exists r :: r in RefsOf(repo, directory).value && !Followed(repo, r) && r.path == path)
  }

  predicate Fetchable(repo: Repo, path: string) {
    path in repo.blobs && path in repo.content
  }

  ghost predicate Walk(repo: Repo, walk: seq<string>) {
    walk != [] && forall i :: 0 <= i < |walk| - 1 ==> Edge(repo, walk[i], walk[i + 1])
  }

  ghost predicate Reachable(repo: Repo, source: string, directory: string) {
    exists walk :: Walk(repo, walk) && walk[0] == source && walk[|walk| - 1] == directory
  }

  // The files needed anywhere in the graph: the least closure under local references.
  ghost function Closure(repo: Repo, source: string): set<string> {
    set path | path in repo.blobs && exists d :: Reachable(repo, source, d) && Needs(repo, d, path)
  }

  ghost function TotalBytes(repo: Repo, paths: set<string>): nat {
    if paths == {} then 0
    else
      var path :| path in paths;
      (if path in repo.content then |repo.content[path]| else 0) + TotalBytes(repo, paths - {path})
  }

  function SelectedCount(repo: Repo, source: string): nat {
    |set path | path in repo.blobs && Under(path, source)|
  }

  // A reachable directory with one parseable kustomization and only fetchable files.
  ghost predicate Sound(repo: Repo, directory: string) {
    RefsOf(repo, directory).Some? && forall path :: Needs(repo, directory, path) ==> Fetchable(repo, path)
  }

  ghost predicate Succeeds(repo: Repo, source: string) {
    && SelectedCount(repo, source) <= MAX_FILES
    && (forall d :: Reachable(repo, source, d) ==> Sound(repo, d))
    && |Closure(repo, source)| <= MAX_FILES
    && TotalBytes(repo, Closure(repo, source)) <= MAX_BYTES
  }

  // Some reachable directory refers outside the source directory.
  ghost predicate RefersOutside(repo: Repo, source: string) {
    exists d :: Reachable(repo, source, d) && Outside(repo, source, d)
  }

  ghost predicate Outside(repo: Repo, source: string, d: string) {
    RefsOf(repo, d).Some? && exists r :: r in RefsOf(repo, d).value && r.path != d && !Under(r.path, source)
  }

  // ----- lemmas about the graph -----

  lemma SourceReachable(repo: Repo, source: string)
    ensures Reachable(repo, source, source)
  {
    assert Walk(repo, [source]);
  }

  lemma ReachableStep(repo: Repo, source: string, d: string, next: string)
    requires Reachable(repo, source, d) && Edge(repo, d, next)
    ensures Reachable(repo, source, next)
  {
    var walk :| Walk(repo, walk) && walk[0] == source && walk[|walk| - 1] == d;
    var more := walk + [next];
    assert Walk(repo, more) && more[0] == source && more[|more| - 1] == next;
  }

  // A set that contains the source and is closed under edges contains everything reachable.
  lemma {:induction false} ClosedContains(repo: Repo, walk: seq<string>, closed: set<string>)
    requires Walk(repo, walk) && walk[0] in closed
    requires forall d, next :: d in closed && Edge(repo, d, next) ==> next in closed
    ensures walk[|walk| - 1] in closed
    decreases |walk|
  {
    if |walk| > 1 {
      assert Edge(repo, walk[0], walk[1]);
      assert forall i :: 0 <= i < |walk| - 2 ==> Edge(repo, walk[1..][i], walk[1..][i + 1]) by {
        forall i | 0 <= i < |walk| - 2
          ensures Edge(repo, walk[1..][i], walk[1..][i + 1])
        {
          assert Edge(repo, walk[i + 1], walk[i + 2]);
        }
      }
      ClosedContains(repo, walk[1..], closed);
    }
  }

  lemma {:induction false} TotalBytesSplit(repo: Repo, paths: set<string>, path: string)
    requires path in paths
    ensures TotalBytes(repo, paths)
         == (if path in repo.content then |repo.content[path]| else 0) + TotalBytes(repo, paths - {path})
    decreases |paths|
  {
    var first :| first in paths &&
      TotalBytes(repo, paths) == (if first in repo.content then |repo.content[first]| else 0) + TotalBytes(repo, paths - {first});
    if first != path {
      TotalBytesSplit(repo, paths - {first}, path);
      TotalBytesSplit(repo, paths - {path}, first);
      assert paths - {first} - {path} == paths - {path} - {first};
    }
  }

  lemma {:induction false} TotalBytesMonotone(repo: Repo, some: set<string>, all: set<string>)
    requires some <= all
    ensures TotalBytes(repo, some) <= TotalBytes(repo, all)
    decreases |some|
  {
    if some != {} {
      var path :| path in some;
      TotalBytesSplit(repo, some, path);
      TotalBytesSplit(repo, all, path);
      TotalBytesMonotone(repo, some - {path}, all - {path});
    }
  }

  // ----- the worklist -----

  // What has been fetched so far: files of the closure, within the limits.
  ghost predicate Fetched(repo: Repo, closure: set<string>, contents: map<string, Bytes>, total: nat) {
    && contents.Keys <= closure
    && (forall path :: path in contents ==> Fetchable(repo, path) && contents[path] == repo.content[path])
    && total == TotalBytes(repo, contents.Keys)
    && |contents| <= MAX_FILES && total <= MAX_BYTES
  }

  ghost predicate WithinLimits(repo: Repo, paths: set<string>) {
    |paths| <= MAX_FILES && TotalBytes(repo, paths) <= MAX_BYTES
  }

  lemma LimitsMonotone(repo: Repo, paths: set<string>, closure: set<string>)
    requires paths <= closure && WithinLimits(repo, closure)
    ensures WithinLimits(repo, paths)
  {
    SubsetCount(paths, closure);
    TotalBytesMonotone(repo, paths, closure);
  }

  // fetch(): the cached content, or one more file if it exists and fits.
  method Fetch(repo: Repo, ghost closure: set<string>, contents: map<string, Bytes>, total: nat, path: string)
    returns (ok: bool, contents': map<string, Bytes>, total': nat)
    requires Fetched(repo, closure, contents, total)
    requires path in repo.blobs ==> path in closure
    ensures ok ==> Fetched(repo, closure, contents', total') && contents'.Keys == contents.Keys + {path} && Fetchable(repo, path)
    ensures !ok ==> !Fetchable(repo, path) || !WithinLimits(repo, closure)
  {
    ok, contents', total' := false, contents, total;
    if path in contents {
      assert contents.Keys + {path} == contents.Keys;
      return true, contents, total;
    }
    if path !in repo.blobs {
      return;
    }
    ghost var grown := contents.Keys + {path};
    TotalBytesSplit(repo, grown, path);
    assert grown - {path} == contents.Keys;
    if WithinLimits(repo, closure) {
      LimitsMonotone(repo, grown, closure);
    }
    if |contents| >= MAX_FILES {
      return;
    }
    if path !in repo.content {
      return;
    }
    total' := total + |repo.content[path]|;
    if total' > MAX_BYTES {
      return;
    }
    contents' := contents[path := repo.content[path]];
    assert contents'.Keys == grown;
    ok := true;
  }

  function Elements(xs: seq<string>): set<string> {
    set x | x in xs
  }

  // A visited directory has its files fetched and its edges on the worklist.
  ghost predicate Settled(repo: Repo, d: string, known: set<string>, files: set<string>) {
    && RefsOf(repo, d).Some?
    && (forall path :: Needs(repo, d, path) ==> path in files)
    && (forall next :: Edge(repo, d, next) ==> next in known)
  }

  lemma SettledMonotone(repo: Repo, d: string, known: set<string>, files: set<string>, known': set<string>, files': set<string>)
    requires Settled(repo, d, known, files) && known <= known' && files <= files'
    ensures Settled(repo, d, known', files')
  {
  }

  predicate IsFollowed(directories: set<string>, r: Ref) {
    r.mayBeDirectory && r.path in directories
  }

  predicate LeavesSource(source: string, directory: string, r: Ref) {
    r.path != directory && !Under(r.path, source)
  }

  // The inner loop over one document's references: directories are pushed, files fetched.
  method Follow(repo: Repo, ghost closure: set<string>, source: string, directories: set<string>, directory: string,
                refs: seq<Ref>, contents: map<string, Bytes>, total: nat)
    returns (ok: bool, contents': map<string, Bytes>, total': nat, found: seq<string>, outside: bool)
    requires Fetched(repo, closure, contents, total)
    requires forall r :: r in refs && !IsFollowed(directories, r) && r.path in repo.blobs ==> r.path in closure
    ensures !ok ==> !WithinLimits(repo, closure) || exists r :: r in refs && !IsFollowed(directories, r) && !Fetchable(repo, r.path)
    ensures ok ==> Fetched(repo, closure, contents', total') && contents.Keys <= contents'.Keys
    ensures ok ==> forall r :: r in refs ==> if IsFollowed(directories, r) then r.path in found else r.path in contents'.Keys
    ensures ok ==> forall d :: d in found ==> exists r :: r in refs && IsFollowed(directories, r) && r.path == d
    ensures ok ==> (outside <==> exists r :: r in refs && LeavesSource(source, directory, r))
  {
    ok, contents', total', found, outside := true, contents, total, [], false;
    for n := 0 to |refs|
      invariant ok && Fetched(repo, closure, contents', total') && contents.Keys <= contents'.Keys
      invariant forall r :: r in refs[..n] ==> if IsFollowed(directories, r) then r.path in found else r.path in contents'.Keys
      invariant forall d :: d in found ==> exists r :: r in refs[..n] && IsFollowed(directories, r) && r.path == d
      invariant outside <==> exists r :: r in refs[..n] && LeavesSource(source, directory, r)
    {
      var r := refs[n];
      assert r in refs;
      assert forall x :: x in refs[..n + 1] <==> x in refs[..n] || x == r by {
        assert refs[..n + 1] == refs[..n] + [r];
      }
      if LeavesSource(source, directory, r) {
        outside := true;
      }
      if IsFollowed(directories, r) {
        found := found + [r.path];
        continue;
      }
      ok, contents', total' := Fetch(repo, closure, contents', total', r.path);
      if !ok {
        return;
      }
    }
    assert refs[..|refs|] == refs;
  }

  lemma Unparsed(repo: Repo, source: string, directory: string)
    requires Reachable(repo, source, directory) && RefsOf(repo, directory).None?
    ensures !Succeeds(repo, source)
  {
  }

  lemma Unfetchable(repo: Repo, source: string, directory: string, path: string)
    requires Reachable(repo, source, directory) && Needs(repo, directory, path) && !Fetchable(repo, path)
    ensures !Succeeds(repo, source)
  {
  }

  // A set holding every existing file that a reachable directory needs.
  ghost predicate Covers(repo: Repo, source: string, closure: set<string>) {
    forall d, path :: Reachable(repo, source, d) && Needs(repo, d, path) && path in repo.blobs ==> path in closure
  }

  ghost predicate KnowsDirectories(repo: Repo, directories: set<string>) {
    forall d :: d in directories <==> IsDirectory(repo.blobs, d)
  }

  lemma FileNeeded(repo: Repo, directories: set<string>, directory: string, refs: seq<Ref>, r: Ref)
    requires KnowsDirectories(repo, directories) && RefsOf(repo, directory) == Some(refs) && r in refs
    ensures IsFollowed(directories, r) <==> Followed(repo, r)
    ensures !IsFollowed(directories, r) ==> Needs(repo, directory, r.path)
    ensures IsFollowed(directories, r) ==> Edge(repo, directory, r.path)
  {
  }

  lemma Handled(repo: Repo, directories: set<string>, directory: string, refs: seq<Ref>, found: seq<string>, files: set<string>)
    requires KnowsDirectories(repo, directories) && RefsOf(repo, directory) == Some(refs)
    requires KustomizationOf(repo, directory).value in files
    requires forall r :: r in refs ==> if IsFollowed(directories, r) then r.path in found else r.path in files
    ensures Settled(repo, directory, Elements(found), files)
  {
  }

  // One turn of the outer loop: fetch and parse the kustomization, then follow its references.
  method Visit(repo: Repo, ghost closure: set<string>, source: string, directories: set<string>, directory: string,
               contents: map<string, Bytes>, total: nat)
    returns (ok: bool, contents': map<string, Bytes>, total': nat, found: seq<string>, outside: bool)
    requires KnowsDirectories(repo, directories) && Covers(repo, source, closure) && Reachable(repo, source, directory)
    requires Fetched(repo, closure, contents, total)
    ensures !ok ==> !Succeeds(repo, source) || !WithinLimits(repo, closure)
    ensures ok ==> Fetched(repo, closure, contents', total') && contents.Keys <= contents'.Keys
    ensures ok ==> Settled(repo, directory, Elements(found), contents'.Keys)
    ensures ok ==> forall d :: d in found ==> Edge(repo, directory, d) && d in directories
    ensures ok ==> (outside <==> Outside(repo, source, directory))
  {
    ok, contents', total', found, outside := false, contents, total, [], false;
    var kustomization := KustomizationOf(repo, directory);
    if kustomization.None? {
      Unparsed(repo, source, directory);
      return;
    }
    assert Needs(repo, directory, kustomization.value);
    ok, contents', total' := Fetch(repo, closure, contents, total, kustomization.value);
    if !ok {
      if !Fetchable(repo, kustomization.value) {
        Unfetchable(repo, source, directory, kustomization.value);
      }
      return;
    }
    var parsed := repo.refs(directory, contents'[kustomization.value]);
    if parsed.None? {
      Unparsed(repo, source, directory);
      ok := false;
      return;
    }
    ghost var refs := parsed.value;
    forall r | r in refs
      ensures !IsFollowed(directories, r) ==> Needs(repo, directory, r.path)
      ensures IsFollowed(directories, r) ==> Edge(repo, directory, r.path)
    {
      FileNeeded(repo, directories, directory, refs, r);
    }
    ok, contents', total', found, outside :=
      Follow(repo, closure, source, directories, directory, parsed.value, contents', total');
    if !ok {
      if WithinLimits(repo, closure) {
        var r :| r in refs && !IsFollowed(directories, r) && !Fetchable(repo, r.path);
        Unfetchable(repo, source, directory, r.path);
      }
      return;
    }
    Handled(repo, directories, directory, refs, found, contents'.Keys);
  }

  // The worklist: everything known is reachable, and everything visited is settled.
  ghost predicate Progress(repo: Repo, source: string, visited: set<string>, pending: seq<string>, files: set<string>) {
    && (forall d :: d in visited || d in pending ==> Reachable(repo, source, d))
    && (source in visited || source in pending)
    && (forall d :: d in visited ==> Settled(repo, d, visited + Elements(pending), files))
  }

  lemma ProgressStep(repo: Repo, source: string, visited: set<string>, pending: seq<string>, files: set<string>,
                     directory: string, found: seq<string>, files': set<string>)
    requires Progress(repo, source, visited, pending + [directory], files) && files <= files'
    requires Settled(repo, directory, Elements(found), files')
    requires forall d :: d in found ==> Edge(repo, directory, d)
    ensures Progress(repo, source, visited + {directory}, pending + found, files')
  {
    var before, after := visited + Elements(pending + [directory]), (visited + {directory}) + Elements(pending + found);
    assert before <= after;
    forall d | d in found
      ensures Reachable(repo, source, d)
    {
      ReachableStep(repo, source, directory, d);
    }
    forall d | d in visited + {directory}
      ensures Settled(repo, d, after, files')
    {
      if d in visited {
        SettledMonotone(repo, d, before, files, after, files');
      } else {
        SettledMonotone(repo, d, Elements(found), files', after, files');
      }
    }
  }

  lemma ProgressSkip(repo: Repo, source: string, visited: set<string>, pending: seq<string>, files: set<string>, directory: string)
    requires Progress(repo, source, visited, pending + [directory], files) && directory in visited
    ensures Progress(repo, source, visited, pending, files)
  {
  }

  ghost predicate SomeOutside(repo: Repo, source: string, visited: set<string>) {
    exists d :: d in visited && Outside(repo, source, d)
  }

  lemma OutsideStep(repo: Repo, source: string, visited: set<string>, directory: string)
    ensures SomeOutside(repo, source, visited + {directory})
        <==> SomeOutside(repo, source, visited) || Outside(repo, source, directory)
  {
  }

  ghost predicate Crawling(repo: Repo, closure: set<string>, source: string, directories: set<string>,
                           seen: set<string>, pending: seq<string>, contents: map<string, Bytes>, total: nat, warned: bool) {
    && Progress(repo, source, seen, pending, contents.Keys)
    && Fetched(repo, closure, contents, total)
    && seen <= directories + {source} && Elements(pending) <= directories + {source}
    && (warned <==> SomeOutside(repo, source, seen))
  }

  // One directory taken off the worklist.
  method Turn(repo: Repo, ghost closure: set<string>, source: string, directories: set<string>,
              seen: set<string>, pending: seq<string>, directory: string, contents: map<string, Bytes>, total: nat, warned: bool)
    returns (ok: bool, pending': seq<string>, contents': map<string, Bytes>, total': nat, warned': bool)
    requires KnowsDirectories(repo, directories) && Covers(repo, source, closure) && directory !in seen
    requires Crawling(repo, closure, source, directories, seen, pending + [directory], contents, total, warned)
    ensures !ok ==> !Succeeds(repo, source) || !WithinLimits(repo, closure)
    ensures ok ==> Crawling(repo, closure, source, directories, seen + {directory}, pending', contents', total', warned')
  {
    assert directory in pending + [directory];
    var found, outside;
    ok, contents', total', found, outside := Visit(repo, closure, source, directories, directory, contents, total);
    pending', warned' := pending + found, warned || outside;
    if ok {
      ProgressStep(repo, source, seen, pending, contents.Keys, directory, found, contents'.Keys);
      OutsideStep(repo, source, seen, directory);
      assert Elements(pending + found) <= Elements(pending + [directory]) + directories;
      assert directory in Elements(pending + [directory]);
    }
  }

  lemma CrawlingStart(repo: Repo, closure: set<string>, source: string, directories: set<string>)
    ensures Crawling(repo, closure, source, directories, {}, [source], map[], 0, false)
  {
    SourceReachable(repo, source);
    var contents: map<string, Bytes> := map[];
    assert contents.Keys == {};
  }

  // The directory taken next is a known one, and is skipped when already visited.
  lemma CrawlingDirectory(repo: Repo, closure: set<string>, source: string, directories: set<string>,
                          seen: set<string>, rest: seq<string>, directory: string, contents: map<string, Bytes>, total: nat, warned: bool)
    requires Crawling(repo, closure, source, directories, seen, rest + [directory], contents, total, warned)
    ensures directory in directories + {source}
    ensures directory in seen ==> Crawling(repo, closure, source, directories, seen, rest, contents, total, warned)
  {
    assert directory in Elements(rest + [directory]);
    assert Elements(rest) <= Elements(rest + [directory]);
    if directory in seen {
      ProgressSkip(repo, source, seen, rest, contents.Keys, directory);
    }
  }

  // One turn of the worklist: pop a directory, skip it if visited, else visit it.
  method Pop(repo: Repo, ghost closure: set<string>, source: string, directories: set<string>,
             seen: set<string>, pending: seq<string>, contents: map<string, Bytes>, total: nat, warned: bool)
    returns (ok: bool, seen': set<string>, pending': seq<string>, contents': map<string, Bytes>, total': nat, warned': bool)
    requires KnowsDirectories(repo, directories) && Covers(repo, source, closure) && pending != []
    requires Crawling(repo, closure, source, directories, seen, pending, contents, total, warned)
    ensures !ok ==> !Succeeds(repo, source) || !WithinLimits(repo, closure)
    ensures ok ==> Crawling(repo, closure, source, directories, seen', pending', contents', total', warned')
    ensures ok ==> (seen' == seen && |pending'| < |pending|) || (seen < seen' && seen' <= directories + {source})
  {
    var directory, rest := pending[|pending| - 1], pending[..|pending| - 1];
    assert pending == rest + [directory];
    CrawlingDirectory(repo, closure, source, directories, seen, rest, directory, contents, total, warned);
    if directory in seen {
      return true, seen, rest, contents, total, warned;
    }
    ok, pending', contents', total', warned' :=
      Turn(repo, closure, source, directories, seen, rest, directory, contents, total, warned);
    seen' := seen + {directory};
  }

  // The worklist loop.
  method Crawl(repo: Repo, ghost closure: set<string>, source: string, directories: set<string>)
    returns (ok: bool, contents: map<string, Bytes>, total: nat, warned: bool, ghost visited: set<string>)
    requires KnowsDirectories(repo, directories) && Covers(repo, source, closure)
    ensures !ok ==> !Succeeds(repo, source) || !WithinLimits(repo, closure)
    ensures ok ==> Crawling(repo, closure, source, directories, visited, [], contents, total, warned)
  {
    ok, contents, total, warned := true, map[], 0, false;
    var pending, seen: set<string> := [source], {};
    CrawlingStart(repo, closure, source, directories);
    while pending != []
      invariant Crawling(repo, closure, source, directories, seen, pending, contents, total, warned)
      decreases directories + {source} - seen, |pending|
    {
      ok, seen, pending, contents, total, warned := Pop(repo, closure, source, directories, seen, pending, contents, total, warned);
      if !ok {
        return ok, contents, total, warned, {};
      }
    }
    visited := seen;
  }

  // When nothing is pending, the visited directories are exactly the reachable ones.
  lemma Complete(repo: Repo, source: string, visited: set<string>, files: set<string>)
    requires Progress(repo, source, visited, [], files)
    ensures forall d :: Reachable(repo, source, d) <==> d in visited
    ensures forall d :: Reachable(repo, source, d) ==> Settled(repo, d, visited, files)
  {
    assert visited + Elements([]) == visited;
    forall d | Reachable(repo, source, d)
      ensures d in visited
    {
      var walk :| Walk(repo, walk) && walk[0] == source && walk[|walk| - 1] == d;
      ClosedContains(repo, walk, visited);
    }
  }

  lemma ClosureCovers(repo: Repo, source: string)
    ensures Covers(repo, source, Closure(repo, source))
  {
  }

  lemma ClosureFetched(repo: Repo, source: string, visited: set<string>, contents: map<string, Bytes>, total: nat)
    requires Progress(repo, source, visited, [], contents.Keys)
    requires Fetched(repo, Closure(repo, source), contents, total)
    ensures contents.Keys == Closure(repo, source)
  {
    Complete(repo, source, visited, contents.Keys);
    forall path | path in Closure(repo, source)
      ensures path in contents.Keys
    {
      var d :| Reachable(repo, source, d) && Needs(repo, d, path);
      assert Settled(repo, d, visited, contents.Keys);
    }
  }

  lemma AllSound(repo: Repo, source: string, visited: set<string>, contents: map<string, Bytes>, total: nat,
                 closure: set<string>, d: string)
    requires Progress(repo, source, visited, [], contents.Keys) && Fetched(repo, closure, contents, total)
    requires Reachable(repo, source, d)
    ensures Sound(repo, d)
  {
    Complete(repo, source, visited, contents.Keys);
    assert Settled(repo, d, visited, contents.Keys);
  }

  lemma OutsideReachable(repo: Repo, source: string, visited: set<string>, files: set<string>)
    requires Progress(repo, source, visited, [], files)
    ensures SomeOutside(repo, source, visited) <==> RefersOutside(repo, source)
  {
    Complete(repo, source, visited, files);
  }

  // collect_kustomize_source_contents: it always ends; it succeeds exactly when every
  // reachable directory is sound and the limits hold; and then it has collected exactly the
  // least closure, with its total size, whatever the order of the references.
  method CollectKustomizeSource(repo: Repo, source: string) returns (result: Option<map<string, Bytes>>, total: nat, warned: bool)
    ensures result.Some? <==> Succeeds(repo, source)
    ensures result.Some? ==> result.value.Keys == Closure(repo, source) && total == TotalBytes(repo, Closure(repo, source))
    ensures result.Some? ==> forall path :: path in result.value ==> path in repo.content && result.value[path] == repo.content[path]
    ensures result.Some? ==> (warned <==> RefersOutside(repo, source))
  {
    result, total, warned := None, 0, false;
    if SelectedCount(repo, source) > MAX_FILES {
      return;
    }
    var directories := RepositoryDirectories(repo.blobs);
    ClosureCovers(repo, source);
    ghost var closure := Closure(repo, source);
    var ok, contents;
    ghost var visited;
    ok, contents, total, warned, visited := Crawl(repo, closure, source, directories);
    if !ok {
      return;
    }
    ClosureFetched(repo, source, visited, contents, total);
    forall d | Reachable(repo, source, d)
      ensures Sound(repo, d)
    {
      AllSound(repo, source, visited, contents, total, closure, d);
    }
    OutsideReachable(repo, source, visited, contents.Keys);
    result := Some(contents);
  }
}
