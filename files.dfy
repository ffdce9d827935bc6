/** The uploads directory as far as the handlers touch it: a set of file
    paths relative to the backend root, some of which cannot be removed
    (missing, locked or otherwise failing). Every removal is best effort. */
module Files {
  import Text

  const UploadsUrlPrefix: string := "/uploads/"

  /** `url.replace(/^\//, "")`: a public URL such as `/uploads/x` names the
      file `uploads/x` under the backend root. */
  function RelativePath(url: string): (r: string)
    ensures |url| > 0 && url[0] == '/' ==> url == "/" + r
    ensures !(|url| > 0 && url[0] == '/') ==> r == url
  {
    if |url| > 0 && url[0] == '/' then url[1..] else url
  }

  /** The public URL of an uploaded file, and the file it names. */
  function UploadUrl(fileName: string): (url: string)
    ensures Text.StartsWith(url, UploadsUrlPrefix)
  {
    UploadsUrlPrefix + fileName
  }

  lemma UploadUrlPath(fileName: string)
    ensures RelativePath(UploadUrl(fileName)) == "uploads/" + fileName
  {
    assert UploadUrl(fileName)[1..] == "uploads/" + fileName;
  }

  /** `path.join`/`path.normalize` on a path below a base directory, as
      its segments: empty and `.` segments vanish, `..` cancels the segment
      before it, and a `..` with nothing before it stays, climbing out of
      the base. */
  function Normalise(path: string): (r: seq<string>)
    ensures forall i :: 0 <= i < |r| ==> r[i] != "" && r[i] != "."
  {
    Resolve([], Text.Split(path, '/'))
  }

  /** Resolves `segs` on top of the already resolved `stack`. */
  function Resolve(stack: seq<string>, segs: seq<string>): (r: seq<string>)
    requires forall i :: 0 <= i < |stack| ==> stack[i] != "" && stack[i] != "."
    ensures forall i :: 0 <= i < |r| ==> r[i] != "" && r[i] != "."
    decreases |segs|
  {
    if segs == [] then stack
    else if segs[0] == "" || segs[0] == "." then Resolve(stack, segs[1..])
    else if segs[0] == ".." && |stack| > 0 && stack[|stack| - 1] != ".." then
      Resolve(stack[..|stack| - 1], segs[1..])
    else Resolve(stack + [segs[0]], segs[1..])
  }

  /** A segment that resolution leaves as it is. */
  predicate Plain(seg: string) {
    seg != "" && seg != "." && seg != ".."
  }

  /** Resolving plain segments only stacks them up. */
  lemma {:induction false} ResolvePlain(stack: seq<string>, segs: seq<string>)
    requires forall i :: 0 <= i < |stack| ==> stack[i] != "" && stack[i] != "."
    requires forall i :: 0 <= i < |segs| ==> Plain(segs[i])
    ensures Resolve(stack, segs) == stack + segs
    decreases |segs|
  {
    if segs != [] {
      assert Plain(segs[0]);
      ResolvePlain(stack + [segs[0]], segs[1..]);
      assert stack + [segs[0]] + segs[1..] == stack + segs;
    }
  }

  /** A path with no empty, `.` or `..` segment resolves to its own
      segments. */
  lemma NormalisePlain(path: string)
    requires forall i :: 0 <= i < |Text.Split(path, '/')| ==> Plain(Text.Split(path, '/')[i])
    ensures Normalise(path) == Text.Split(path, '/')
  {
    ResolvePlain([], Text.Split(path, '/'));
  }

  /** The URL the upload handler gives a file with a plain name resolves
      to that file inside the uploads directory. */
  lemma UploadUrlResolves(fileName: string)
    requires '/' !in fileName && Plain(fileName)
    ensures Normalise(RelativePath(UploadUrl(fileName))) == ["uploads", fileName]
    ensures InUploads(Normalise(RelativePath(UploadUrl(fileName))))
  {
    UploadUrlPath(fileName);
    assert "uploads/" + fileName == "uploads" + ['/'] + fileName;
    Text.SplitAfter("uploads", '/', fileName);
    Text.IndexOfAbsent(fileName, '/');
    assert Text.Split(fileName, '/') == [fileName];
    NormalisePlain("uploads/" + fileName);
  }

  /** A resolved path that names a file inside the uploads directory. */
  predicate InUploads(r: seq<string>) {
    |r| >= 2 && r[0] == "uploads" && forall i :: 0 <= i < |r| ==> r[i] != ".."
  }

  class Disk {
    var files: set<string>
    const locked: set<string>

    constructor(files: set<string>, locked: set<string>)
      ensures this.files == files && this.locked == locked
    {
      this.files := files;
      this.locked := locked;
    }

    /** `fs.unlink` / `fs.unlinkSync` with the error ignored: the file is
        gone afterwards unless its removal fails. */
    method Unlink(path: string)
      modifies this`files
      ensures files == if path in locked then old(files) else old(files) - {path}
    {
      if path !in locked {
        files := files - {path};
      }
    }
  }
}
