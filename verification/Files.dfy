/**
 Files as the kernel finds them in the ramdisk archive.
 */
module Files {
  import opened Wrappers
  import opened VirtualMemory
  import opened Programs
  import R = Ramdisk
  import D = Dirents

  /** A string copied from user memory ends at its NUL. */
  type CString = s: seq<Byte> | 0 !in s

  /** What execve is called with. */
  datatype Invocation = Invocation(path: CString, argv: seq<seq<Byte>>, envp: seq<seq<Byte>>)

  /** The file a lookup yields: a directory known only as a prefix has no data. */
  function FileOf(a: seq<Byte>, node: R.Node): (f: File) {
    var data := match node.data
                case None => []
                case Some((at, size)) => if at + size <= |a| then a[at..at + size] else [];
    File(node.path, data, node.dir, node.exec)
  }

  function FileAt(a: seq<Byte>, path: CString): (f: Option<File>) {
    match R.Find(R.Walk(a, 0), path)
    case None => None
    case Some(node) => Some(FileOf(a, node))
  }

  function Resolve(a: seq<Byte>, call: Invocation): (req: Request) {
    Request(FileAt(a, call.path), call.argv, call.envp)
  }

  /** No program in the archive has a segment whose copy would leave the user half. */
  ghost predicate SafeArchive(a: seq<Byte>) {
    forall i :: 0 <= i < |R.Walk(a, 0)| ==> UserOnly(FileOf(a, R.FileNode(R.Walk(a, 0)[i])))
  }

  lemma SafeResolve(a: seq<Byte>, call: Invocation)
    requires SafeArchive(a)
    ensures Harmless(Resolve(a, call))
  {
    hide R.Walk, R.Normalize, R.IsPrefix, UserOnly;
    var es := R.Walk(a, 0);
    forall n: R.Path ensures UserOnly(FileOf(a, R.DirNode(n))) {
      EmptyIsUserOnly(FileOf(a, R.DirNode(n)));
    }
  }

  lemma EmptyIsUserOnly(f: File)
    requires f.data == []
    ensures UserOnly(f)
  {
  }

  /** A path that was found is a C string again. */
  lemma FoundPath(a: seq<Byte>, path: CString)
    requires FileAt(a, path).Some?
    ensures 0 !in FileAt(a, path).value.path
  {
    hide R.Walk, R.Normalize, R.IsPrefix, R.FirstNamed;
    var es, n := R.Walk(a, 0), R.Normalize(path);
    D.NormalizeIn(path);
    var i := R.FirstNamed(es, n, 0);
    if i < |es| {
      D.WalkHasNoNul(a, 0, i);
    }
  }
}
