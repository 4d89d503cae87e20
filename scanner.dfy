/**
 * The tree builder: walks a file system from a root path and produces an owned,
 * size-annotated tree. The real file system is replaced by a finite datatype
 * (FsObject) that records, for each path, what the metadata call, the directory
 * listing and each step of the listing's iteration report.
 */
module Scanner {
  import opened Wrappers

  /** The platform's description of a failed I/O call. */
  datatype IoError = IoError(description: string)

  /** One node of the built tree: a file (no children) or a directory. */
  datatype FileSystemNode = FileSystemNode(name: string, size: nat, children: seq<FileSystemNode>)

  /** What the file system reports for one path. */
  datatype FsObject =
    | RegularFile(length: nat)           // metadata succeeds and is not a directory
    | Directory(entries: seq<DirEntry>)  // metadata says directory and the listing opens
    | MetadataFailure(error: IoError)    // the metadata call itself fails
    | ListingFailure(error: IoError)     // a directory whose listing cannot be opened

  /** One step of iterating over a directory listing. */
  datatype DirEntry =
    | Entry(fileName: string, target: FsObject)  // an entry with its final path component
    | EntryFailure(error: IoError)               // the iterator yields an error

  // ---------------------------------------------------------------------------
  // Paths (Unix-style strings)
  // ---------------------------------------------------------------------------

  /** Start of the last '/'-free segment of s. */
  function SegmentStart(s: string): (k: nat)
    ensures k <= |s|
    ensures k == 0 || s[k - 1] == '/'
    ensures forall i :: k <= i < |s| ==> s[i] != '/'
  {
    if s == [] || s[|s| - 1] == '/' then |s| else SegmentStart(s[..|s| - 1])
  }

  /** A name a directory listing can yield: non-empty, no separator, not "." or "..". */
  predicate ValidEntryName(n: string) {
    n != [] && (forall i :: 0 <= i < |n| ==> n[i] != '/') && n != "." && n != ".."
  }

  /**
   * The final component of a path: trailing separators and "." components are
   * ignored, and a path that ends in "..", is a bare root or is empty has none.
   */
  function FileName(path: string): (r: Option<string>)
    ensures r.Some? ==> ValidEntryName(r.value)
    decreases |path|
  {
    if path == [] then None
    else if path[|path| - 1] == '/' then FileName(path[..|path| - 1])
    else
      var k := SegmentStart(path);
      var last := path[k..];
      if last == "." then FileName(path[..k])
      else if last == ".." then None
      else Some(last)
  }

  /** The name a node gets: its final path component, or else the whole path. */
  function NodeName(path: string): string {
    match FileName(path)
    case Some(n) => n
    case None => path
  }

  /** The path of a directory entry: the directory joined with the entry's name. */
  function Join(dir: string, name: string): string {
    if dir == [] || dir[|dir| - 1] == '/' then dir + name else dir + "/" + name
  }

  // ---------------------------------------------------------------------------
  // Sizes and the shape of a built tree
  // ---------------------------------------------------------------------------

  /** Sum of the sizes of a sequence of nodes. */
  function TotalSize(nodes: seq<FileSystemNode>): nat {
    if nodes == [] then 0 else TotalSize(nodes[..|nodes| - 1]) + nodes[|nodes| - 1].size
  }

  /** Every node that has children is as large as the sum of their sizes. */
  ghost predicate Consistent(n: FileSystemNode) {
    (n.children != [] ==> n.size == TotalSize(n.children))
    && forall c :: c in n.children ==> Consistent(c)
  }

  // ---------------------------------------------------------------------------
  // The builder, as a specification
  // ---------------------------------------------------------------------------

  /** The result of building the tree rooted at path, whose file system object is fs. */
  function Build(path: string, fs: FsObject): (r: Result<FileSystemNode, IoError>)
    ensures r.Ok? ==> r.value.name == NodeName(path)
    ensures r.Ok? && fs.Directory? ==> r.value.size == TotalSize(r.value.children)
    decreases fs
  {
    match fs
    case MetadataFailure(e) => Err(e)
    case RegularFile(len) => Ok(FileSystemNode(NodeName(path), len, []))
    case ListingFailure(e) => Err(e)
    case Directory(entries) =>
      match Scan(path, entries)
      case Err(e) => Err(e)
      case Ok(kept) => Ok(FileSystemNode(NodeName(path), TotalSize(kept), kept))
  }

  /**
   * The children kept from the listing of dir: an iteration error fails the
   * whole listing, a child whose own build fails is dropped.
   */
  function Scan(dir: string, entries: seq<DirEntry>): Result<seq<FileSystemNode>, IoError>
    decreases entries
  {
    if entries == [] then Ok([])
    else ScanNext(dir, Scan(dir, entries[..|entries| - 1]), entries[|entries| - 1])
  }

  /** What visiting one more entry of dir does to the children kept so far. */
  function ScanNext(dir: string, sofar: Result<seq<FileSystemNode>, IoError>, e: DirEntry)
    : Result<seq<FileSystemNode>, IoError>
    decreases e
  {
    match sofar
    case Err(err) => Err(err)
    case Ok(kept) =>
      match e
      case EntryFailure(err) => Err(err)
      case Entry(n, t) =>
        match Build(Join(dir, n), t)
        case Ok(c) => Ok(kept + [c])
        case Err(_) => Ok(kept)
  }

  // ---------------------------------------------------------------------------
  // The builder, as the source runs it
  // ---------------------------------------------------------------------------

  /** A failed prefix of the listing fails the whole listing with the same error. */
  lemma {:induction false} ScanErrPrefix(dir: string, es: seq<DirEntry>, i: nat)
    requires i <= |es| && Scan(dir, es[..i]).Err?
    ensures Scan(dir, es) == Scan(dir, es[..i])
    decreases |es|
  {
    if i < |es| {
      var front := es[..|es| - 1];
      assert front[..i] == es[..i];
      ScanErrPrefix(dir, front, i);
    } else {
      assert es[..i] == es;
    }
  }

  /** Builds the tree with a loop over the listing that pushes kept children and sums their sizes. */
  method BuildTree(path: string, fs: FsObject) returns (r: Result<FileSystemNode, IoError>)
    ensures r == Build(path, fs)
    decreases fs
  {
    if fs.MetadataFailure? {
      return Err(fs.error);
    }
    var name := NodeName(path);
    if fs.RegularFile? {
      return Ok(FileSystemNode(name, fs.length, []));
    }
    if fs.ListingFailure? {
      return Err(fs.error);
    }
    var entries := fs.entries;
    var children: seq<FileSystemNode> := [];
    var totalSize: nat := 0;
    var i := 0;
    while i < |entries|
      invariant 0 <= i <= |entries|
      invariant Scan(path, entries[..i]) == Ok(children)
      invariant totalSize == TotalSize(children)
    {
      var entry := entries[i];
      assert entries[..i + 1][..i] == entries[..i];
      if entry.EntryFailure? {
        ScanErrPrefix(path, entries, i + 1);
        return Err(entry.error);
      }
      var childPath := Join(path, entry.fileName);
      var child := BuildTree(childPath, entry.target);
      if child.Ok? {
        totalSize := totalSize + child.value.size;
        assert (children + [child.value])[..|children|] == children;
        children := children + [child.value];
      }
      i := i + 1;
    }
    assert entries[..i] == entries;
    r := Ok(FileSystemNode(name, totalSize, children));
  }

  // ---------------------------------------------------------------------------
  // Names
  // ---------------------------------------------------------------------------

  lemma {:induction false} SegmentStartAfterSeparator(p: string, n: string)
    requires p == [] || p[|p| - 1] == '/'
    requires forall i :: 0 <= i < |n| ==> n[i] != '/'
    ensures SegmentStart(p + n) == |p|
    decreases |n|
  {
    if n == [] {
      assert p + n == p;
    } else {
      var front := n[..|n| - 1];
      assert (p + n)[..|p + n| - 1] == p + front;
      SegmentStartAfterSeparator(p, front);
    }
  }

  /** A child's node name is the name under which its directory listed it. */
  lemma ChildNamedAfterEntry(dir: string, n: string)
    requires ValidEntryName(n)
    ensures NodeName(Join(dir, n)) == n
  {
    var q := if dir == [] || dir[|dir| - 1] == '/' then dir else dir + "/";
    assert Join(dir, n) == q + n;
    SegmentStartAfterSeparator(q, n);
    assert (q + n)[|q|..] == n;
  }

  /** A trailing separator, or a trailing "." component, does not change a path's final component. */
  lemma TrailingComponentsIgnored(p: string)
    ensures FileName(p + "/") == FileName(p)
    ensures FileName(p + "/.") == FileName(p)
  {
    assert (p + "/")[..|p|] == p;
    assert p + "/." == (p + "/") + ".";
    SegmentStartAfterSeparator(p + "/", ".");
    assert (p + "/.")[|p + "/"|..] == ".";
  }

  /** An entry's path is its directory, at most one separator, then its name. */
  lemma JoinShape(dir: string, name: string)
    ensures |dir| + |name| <= |Join(dir, name)| <= |dir| + |name| + 1
    ensures Join(dir, name)[..|dir|] == dir
    ensures Join(dir, name)[|Join(dir, name)| - |name|..] == name
    ensures |Join(dir, name)| == |dir| + |name| + 1 ==> Join(dir, name)[|dir|] == '/'
  {
  }

  // ---------------------------------------------------------------------------
  // Which children are kept, and in which order
  // ---------------------------------------------------------------------------

  /** The entry is listed and its own build succeeds. */
  predicate Kept(dir: string, e: DirEntry) {
    e.Entry? && Build(Join(dir, e.fileName), e.target).Ok?
  }

  /** Positions, in listing order, of the entries whose build succeeds. */
  function KeptIndices(dir: string, es: seq<DirEntry>): (r: seq<nat>)
    ensures forall j :: 0 <= j < |r| ==> r[j] < |es| && Kept(dir, es[r[j]])
    ensures forall j, k :: 0 <= j < k < |r| ==> r[j] < r[k]
  {
    if es == [] then []
    else
      var front := KeptIndices(dir, es[..|es| - 1]);
      assert forall j :: 0 <= j < |front| ==> es[front[j]] == es[..|es| - 1][front[j]];
      if Kept(dir, es[|es| - 1]) then front + [|es| - 1] else front
  }

  /** Every entry whose build succeeds has its position listed. */
  lemma {:induction false} KeptIndicesComplete(dir: string, es: seq<DirEntry>, i: nat)
    requires i < |es| && Kept(dir, es[i])
    ensures i in KeptIndices(dir, es)
    decreases |es|
  {
    if i < |es| - 1 {
      var front := es[..|es| - 1];
      assert front[i] == es[i];
      KeptIndicesComplete(dir, front, i);
    }
  }

  /**
   * A listing without iteration errors keeps exactly the entries whose build
   * succeeds, in listing order; failed entries are left out and later entries
   * are still visited.
   */
  lemma {:induction false} ScanKeepsSuccesses(dir: string, es: seq<DirEntry>)
    requires forall i :: 0 <= i < |es| ==> es[i].Entry?
    ensures Scan(dir, es).Ok?
    ensures var kept := Scan(dir, es).value; var idx := KeptIndices(dir, es);
      |kept| == |idx| &&
      forall j :: 0 <= j < |idx| ==>
        kept[j] == Build(Join(dir, es[idx[j]].fileName), es[idx[j]].target).value
  {
    if es != [] {
      var front := es[..|es| - 1];
      assert forall i :: 0 <= i < |front| ==> front[i] == es[i];
      ScanKeepsSuccesses(dir, front);
      var kept := Scan(dir, front).value;
      var idx := KeptIndices(dir, front);
      var last := es[|es| - 1];
      var all := KeptIndices(dir, es);
      if Kept(dir, last) {
        var c := Build(Join(dir, last.fileName), last.target).value;
        assert Scan(dir, es) == Ok(kept + [c]);
        assert all == idx + [|es| - 1];
        forall j | 0 <= j < |all|
          ensures (kept + [c])[j] == Build(Join(dir, es[all[j]].fileName), es[all[j]].target).value
        {
          if j < |idx| {
            assert all[j] == idx[j] && es[idx[j]] == front[idx[j]];
            assert (kept + [c])[j] == kept[j];
          } else {
            assert all[j] == |es| - 1 && (kept + [c])[j] == c;
          }
        }
      } else {
        assert Scan(dir, es) == Ok(kept);
        assert all == idx;
        forall j | 0 <= j < |all|
          ensures kept[j] == Build(Join(dir, es[all[j]].fileName), es[all[j]].target).value
        {
          assert es[idx[j]] == front[idx[j]];
        }
      }
    }
  }

  /** The first iteration error of a listing is the error of the whole listing. */
  lemma {:induction false} ScanFirstFailure(dir: string, es: seq<DirEntry>, k: nat)
    requires k < |es| && es[k].EntryFailure?
    requires forall i :: 0 <= i < k ==> es[i].Entry?
    ensures Scan(dir, es) == Err(es[k].error)
    decreases |es|
  {
    var front := es[..|es| - 1];
    if k == |es| - 1 {
      ScanKeepsSuccesses(dir, front);
    } else {
      ScanFirstFailure(dir, front, k);
    }
  }

  /** An entry whose own build fails contributes nothing: the listing scans as if it were absent. */
  lemma {:induction false} ScanSkipsFailedChild(dir: string, es: seq<DirEntry>, k: nat)
    requires k < |es| && es[k].Entry?
    requires Build(Join(dir, es[k].fileName), es[k].target).Err?
    ensures Scan(dir, es) == Scan(dir, es[..k] + es[k + 1..])
    decreases |es|
  {
    var rest := es[..k] + es[k + 1..];
    var front := es[..|es| - 1];
    if k == |es| - 1 {
      assert rest == front;
    } else {
      ScanSkipsFailedChild(dir, front, k);
      assert rest[..|rest| - 1] == front[..k] + front[k + 1..];
      assert rest[|rest| - 1] == es[|es| - 1];
    }
  }

  /**
   * Visiting one more entry never loses a child already kept: it keeps them
   * and adds at most one, unless it hits an iteration error, which then fails
   * the listing with that error; an earlier failure stays.
   */
  lemma ScanNextExtends(dir: string, sofar: Result<seq<FileSystemNode>, IoError>, e: DirEntry)
    ensures sofar.Err? ==> ScanNext(dir, sofar, e) == sofar
    ensures sofar.Ok? && e.EntryFailure? ==> ScanNext(dir, sofar, e) == Err(e.error)
    ensures ScanNext(dir, sofar, e).Ok? ==>
      sofar.Ok? && e.Entry? && sofar.value <= ScanNext(dir, sofar, e).value &&
      |ScanNext(dir, sofar, e).value| <= |sofar.value| + 1
  {
  }

  /** A listing keeps at most one child per entry, and its only errors are its own iteration errors. */
  lemma {:induction false} ScanOutcome(dir: string, es: seq<DirEntry>)
    ensures Scan(dir, es).Ok? ==> |Scan(dir, es).value| <= |es|
    ensures Scan(dir, es).Err? ==> exists i :: 0 <= i < |es| && es[i] == EntryFailure(Scan(dir, es).error)
    decreases |es|
  {
    if es != [] {
      var front := es[..|es| - 1];
      ScanOutcome(dir, front);
      ScanNextExtends(dir, Scan(dir, front), es[|es| - 1]);
      if Scan(dir, es).Err? {
        if Scan(dir, front).Err? {
          var i :| 0 <= i < |front| && front[i] == EntryFailure(Scan(dir, front).error);
          assert es[i] == front[i];
        } else {
          assert es[|es| - 1] == EntryFailure(Scan(dir, es).error);
        }
      }
    }
  }

  // ---------------------------------------------------------------------------
  // Sizes: the bytes of the files reached without error
  // ---------------------------------------------------------------------------

  /**
   * The bytes that a scan of fs can account for, or None if the scan of fs
   * fails: a file counts its length, a directory fails on any iteration error
   * and otherwise adds up the entries that do not fail.
   */
  function ReadableBytes(fs: FsObject): Option<nat>
    decreases fs
  {
    match fs
    case RegularFile(len) => Some(len)
    case Directory(es) =>
      if forall i :: 0 <= i < |es| ==> es[i].Entry? then Some(ReadableSum(es)) else None
    case MetadataFailure(_) => None
    case ListingFailure(_) => None
  }

  function ReadableSum(es: seq<DirEntry>): nat
    decreases es
  {
    if es == [] then 0
    else
      ReadableSum(es[..|es| - 1]) +
      match es[|es| - 1]
      case EntryFailure(_) => 0
      case Entry(_, t) => (match ReadableBytes(t) case Some(b) => b case None => 0)
  }

  /** Building succeeds exactly when the scan accounts for fs, and then measures exactly its bytes. */
  lemma {:induction false} BuildMeasuresReadableBytes(path: string, fs: FsObject)
    ensures Build(path, fs).Ok? <==> ReadableBytes(fs).Some?
    ensures Build(path, fs).Ok? ==> Build(path, fs).value.size == ReadableBytes(fs).value
    decreases fs
  {
    if fs.Directory? {
      ScanMeasuresReadableSum(path, fs.entries);
    }
  }

  lemma {:induction false} ScanMeasuresReadableSum(dir: string, es: seq<DirEntry>)
    ensures Scan(dir, es).Ok? <==> forall i :: 0 <= i < |es| ==> es[i].Entry?
    ensures Scan(dir, es).Ok? ==> TotalSize(Scan(dir, es).value) == ReadableSum(es)
    decreases es
  {
    if es != [] {
      var front := es[..|es| - 1];
      ScanMeasuresReadableSum(dir, front);
      assert forall i :: 0 <= i < |front| ==> front[i] == es[i];
      match es[|es| - 1]
      case EntryFailure(_) =>
      case Entry(n, t) =>
        BuildMeasuresReadableBytes(Join(dir, n), t);
        if Scan(dir, front).Ok? && Build(Join(dir, n), t).Ok? {
          var kept := Scan(dir, front).value;
          var c := Build(Join(dir, n), t).value;
          assert (kept + [c])[..|kept|] == kept;
        }
    }
  }

  /** Every tree the builder returns is consistent: each directory's size is the sum of its kept children. */
  lemma {:induction false} BuiltTreesAreConsistent(path: string, fs: FsObject)
    ensures Build(path, fs).Ok? ==> Consistent(Build(path, fs).value)
    decreases fs
  {
    if fs.Directory? {
      ScannedTreesAreConsistent(path, fs.entries);
    }
  }

  lemma {:induction false} ScannedTreesAreConsistent(dir: string, es: seq<DirEntry>)
    ensures Scan(dir, es).Ok? ==> forall c :: c in Scan(dir, es).value ==> Consistent(c)
    decreases es
  {
    if es != [] {
      ScannedTreesAreConsistent(dir, es[..|es| - 1]);
      match es[|es| - 1]
      case EntryFailure(_) =>
      case Entry(n, t) => BuiltTreesAreConsistent(Join(dir, n), t);
    }
  }

  /** Sum of the sizes of the childless nodes of a tree. */
  function LeafBytes(n: FileSystemNode): nat
    decreases n
  {
    if n.children == [] then n.size else LeafBytesAll(n.children)
  }

  function LeafBytesAll(ns: seq<FileSystemNode>): nat
    decreases ns
  {
    if ns == [] then 0 else LeafBytesAll(ns[..|ns| - 1]) + LeafBytes(ns[|ns| - 1])
  }

  /** In a consistent tree, and so in every built one, the root's size is the sum of its leaves. */
  lemma {:induction false} ConsistentSizeIsLeafBytes(n: FileSystemNode)
    requires Consistent(n)
    ensures n.size == LeafBytes(n)
    decreases n
  {
    if n.children != [] {
      ConsistentTotalIsLeafBytes(n.children);
    }
  }

  lemma {:induction false} ConsistentTotalIsLeafBytes(ns: seq<FileSystemNode>)
    requires forall c :: c in ns ==> Consistent(c)
    ensures TotalSize(ns) == LeafBytesAll(ns)
    decreases ns
  {
    if ns != [] {
      var front := ns[..|ns| - 1];
      assert forall c :: c in front ==> c in ns;
      ConsistentTotalIsLeafBytes(front);
      ConsistentSizeIsLeafBytes(ns[|ns| - 1]);
    }
  }

  // ---------------------------------------------------------------------------
  // Scenarios
  // ---------------------------------------------------------------------------

  lemma ScanOfOne(dir: string, e1: DirEntry)
    ensures Scan(dir, [e1]) == ScanNext(dir, Ok([]), e1)
  {
    assert [e1][..0] == [];
  }

  lemma ScanOfTwo(dir: string, e1: DirEntry, e2: DirEntry)
    ensures Scan(dir, [e1, e2]) == ScanNext(dir, ScanNext(dir, Ok([]), e1), e2)
  {
    assert [e1, e2][..1] == [e1];
    ScanOfOne(dir, e1);
  }

  lemma TotalSizeOfTwo(a: FileSystemNode, b: FileSystemNode)
    ensures TotalSize([a]) == a.size
    ensures TotalSize([a, b]) == a.size + b.size
  {
    assert [a][..0] == [];
    assert [a, b][..1] == [a];
  }

  /** A root whose metadata or listing cannot be read reports that error to the caller. */
  lemma RootFailuresReachCaller(path: string, e: IoError)
    ensures Build(path, MetadataFailure(e)) == Err(e)
    ensures Build(path, ListingFailure(e)) == Err(e)
    ensures Build(path, Directory([EntryFailure(e)])) == Err(e)
  {
    ScanOfOne(path, EntryFailure(e));
  }

  /** An iteration error at the root, after any number of readable entries, reaches the caller. */
  lemma RootIterationErrorReachesCaller(path: string, es: seq<DirEntry>, k: nat)
    requires k < |es| && es[k].EntryFailure?
    requires forall i :: 0 <= i < k ==> es[i].Entry?
    ensures Build(path, Directory(es)) == Err(es[k].error)
  {
    ScanFirstFailure(path, es, k);
  }

  /** A listing that scans to kept makes a node holding kept, sized by their total. */
  lemma BuildOfScanned(dir: string, es: seq<DirEntry>, kept: seq<FileSystemNode>)
    requires Scan(dir, es) == Ok(kept)
    ensures Build(dir, Directory(es)) == Ok(FileSystemNode(NodeName(dir), TotalSize(kept), kept))
  {
  }

  lemma ScanOfBuiltPair(dir: string, n1: string, t1: FsObject, c1: FileSystemNode,
                        n2: string, t2: FsObject, c2: FileSystemNode)
    requires Build(Join(dir, n1), t1) == Ok(c1) && Build(Join(dir, n2), t2) == Ok(c2)
    ensures Scan(dir, [Entry(n1, t1), Entry(n2, t2)]) == Ok([c1, c2])
  {
    var none: seq<FileSystemNode> := [];
    assert ScanNext(dir, Ok(none), Entry(n1, t1)) == Ok(none + [c1]);
    assert ScanNext(dir, Ok([c1]), Entry(n2, t2)) == Ok([c1] + [c2]);
    assert none + [c1] == [c1];
    assert [c1] + [c2] == [c1, c2];
    ScanOfTwo(dir, Entry(n1, t1), Entry(n2, t2));
  }

  lemma DirectoryOfOneFile(dir: string, n: string, len: nat)
    requires ValidEntryName(n)
    ensures Build(dir, Directory([Entry(n, RegularFile(len))]))
         == Ok(FileSystemNode(NodeName(dir), len, [FileSystemNode(n, len, [])]))
  {
    var none: seq<FileSystemNode> := [];
    var f := FileSystemNode(n, len, []);
    var e := Entry(n, RegularFile(len));
    ChildNamedAfterEntry(dir, n);
    assert ScanNext(dir, Ok(none), e) == Ok(none + [f]);
    assert none + [f] == [f];
    ScanOfOne(dir, e);
    BuildOfScanned(dir, [e], [f]);
    TotalSizeOfTwo(f, f);
  }

  /** A sub-directory entry holding one file becomes a child named after the entry, as large as the file. */
  lemma SubdirectoryOfOneFile(dir: string, sub: string, f: string, len: nat)
    requires ValidEntryName(sub) && ValidEntryName(f)
    ensures Build(Join(dir, sub), Directory([Entry(f, RegularFile(len))]))
         == Ok(FileSystemNode(sub, len, [FileSystemNode(f, len, [])]))
  {
    ChildNamedAfterEntry(dir, sub);
    DirectoryOfOneFile(Join(dir, sub), f, len);
  }

  /** A file beside a sub-directory holding one file: the directory counts the bytes of both files. */
  lemma ScanOfFileBesideSubdirectory(dir: string, a: string, la: nat, sub: string, b: string, lb: nat)
    requires ValidEntryName(a) && ValidEntryName(sub) && ValidEntryName(b)
    ensures Build(dir, Directory([Entry(a, RegularFile(la)), Entry(sub, Directory([Entry(b, RegularFile(lb))]))]))
         == Ok(FileSystemNode(NodeName(dir), la + lb, [
              FileSystemNode(a, la, []),
              FileSystemNode(sub, lb, [FileSystemNode(b, lb, [])])]))
  {
    var fa := FileSystemNode(a, la, []);
    var fs := FileSystemNode(sub, lb, [FileSystemNode(b, lb, [])]);
    var inner := Directory([Entry(b, RegularFile(lb))]);
    var es := [Entry(a, RegularFile(la)), Entry(sub, inner)];
    assert Scan(dir, es) == Ok([fa, fs]) by {
      ChildNamedAfterEntry(dir, a);
      SubdirectoryOfOneFile(dir, sub, b, lb);
      ScanOfBuiltPair(dir, a, RegularFile(la), fa, sub, inner, fs);
    }
    assert TotalSize([fa, fs]) == la + lb by { TotalSizeOfTwo(fa, fs); }
    BuildOfScanned(dir, es, [fa, fs]);
  }

  /** Children keep the listing's order, whatever their names: nothing sorts them. */
  lemma ScanKeepsListingOrder(dir: string, n1: string, l1: nat, n2: string, l2: nat)
    requires ValidEntryName(n1) && ValidEntryName(n2)
    ensures Build(dir, Directory([Entry(n1, RegularFile(l1)), Entry(n2, RegularFile(l2))]))
         == Ok(FileSystemNode(NodeName(dir), l1 + l2, [FileSystemNode(n1, l1, []), FileSystemNode(n2, l2, [])]))
  {
    var f1 := FileSystemNode(n1, l1, []);
    var f2 := FileSystemNode(n2, l2, []);
    var es := [Entry(n1, RegularFile(l1)), Entry(n2, RegularFile(l2))];
    assert Scan(dir, es) == Ok([f1, f2]) by {
      ChildNamedAfterEntry(dir, n1);
      ChildNamedAfterEntry(dir, n2);
      ScanOfBuiltPair(dir, n1, RegularFile(l1), f1, n2, RegularFile(l2), f2);
    }
    assert TotalSize([f1, f2]) == l1 + l2 by { TotalSizeOfTwo(f1, f2); }
    BuildOfScanned(dir, es, [f1, f2]);
  }

  /** An unreadable entry between two readable files is dropped and its size is not counted. */
  lemma ScanDropsUnreadableEntry(dir: string, a: string, la: nat, locked: string, e: IoError, b: string, lb: nat)
    requires ValidEntryName(a) && ValidEntryName(b)
    ensures Build(dir, Directory([
              Entry(a, RegularFile(la)),
              Entry(locked, MetadataFailure(e)),
              Entry(b, RegularFile(lb))]))
         == Ok(FileSystemNode(NodeName(dir), la + lb, [FileSystemNode(a, la, []), FileSystemNode(b, lb, [])]))
  {
    var fa := FileSystemNode(a, la, []);
    var fb := FileSystemNode(b, lb, []);
    var ea := Entry(a, RegularFile(la));
    var el := Entry(locked, MetadataFailure(e));
    var eb := Entry(b, RegularFile(lb));
    var es := [ea, el, eb];
    assert Scan(dir, es) == Scan(dir, [ea, eb]) by {
      ScanSkipsFailedChild(dir, es, 1);
      assert es[..1] + es[2..] == [ea, eb];
    }
    assert Scan(dir, [ea, eb]) == Ok([fa, fb]) by {
      ChildNamedAfterEntry(dir, a);
      ChildNamedAfterEntry(dir, b);
      ScanOfBuiltPair(dir, a, RegularFile(la), fa, b, RegularFile(lb), fb);
    }
    assert TotalSize([fa, fb]) == la + lb by { TotalSizeOfTwo(fa, fb); }
    BuildOfScanned(dir, es, [fa, fb]);
  }

  /** A path without a final component keeps the whole path as its name. */
  lemma RootNamedByWholePath()
    ensures NodeName("/") == "/"
    ensures NodeName(".") == "."
    ensures NodeName("/home/user/") == "user"
  {
    assert "/"[..0] == [];
    assert "."[..0] == [];
    assert SegmentStart(".") == 0;
    assert "/home/user/"[..10] == "/home/user";
    SegmentStartAfterSeparator("/home/", "user");
    assert "/home/user" == "/home/" + "user";
    assert "/home/user"[6..] == "user";
  }
}
