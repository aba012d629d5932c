/**
 * The three file-system calls the downloader makes: `epub.write_epub` to a
 * path, `os.remove` and `os.rename`, plus `os.path.exists`. Files are a map
 * from path to what was written there. Whether a call fails (a full disk, a
 * permission error) is not up to the program: the `fails` oracle says, for the
 * k-th failable call, whether it raises.
 */
module Storage {
  import opened Book

  /**
   * What a path holds: an EPUB archive serialised from a book, or the
   * truncated archive a `write_epub` leaves when it raises after opening the
   * file (it opens the archive for writing before it serialises the items).
   */
  datatype Blob = Epub(book: BookState) | Truncated

  type Files = map<string, Blob>

  /** A failable call, as it was attempted (whether or not it raised). */
  datatype Op = WriteOp(path: string, blob: Blob) | RemoveOp(path: string) | RenameOp(source: string, target: string)

  /** The files after writing `b` to `path`. */
  function Written(files: Files, path: string, b: Blob): (r: Files)
    ensures path in r && r[path] == b
    ensures forall p :: p != path ==> (p in r <==> p in files) && (p in r ==> r[p] == files[p])
  {
    files[path := b]
  }

  /**
   * The files after a `write_epub` of `b` to `path` that succeeded (`ok`),
   * or that raised with the archive already opened (`torn`: `path` holds a
   * truncated archive) or before opening it (nothing changed).
   */
  function WriteResult(files: Files, path: string, b: Blob, ok: bool, torn: bool): (r: Files)
    ensures path in files ==> path in r
    ensures forall p :: p != path ==> (p in r <==> p in files) && (p in r ==> r[p] == files[p])
    ensures ok ==> path in r && r[path] == b
    ensures !ok && !torn ==> r == files
    ensures !ok && torn ==> path in r && r[path] == Truncated
  {
    if ok then Written(files, path, b) else if torn then Written(files, path, Truncated) else files
  }

  /** The files after removing `path`. */
  function Removed(files: Files, path: string): (r: Files)
    ensures path !in r
    ensures forall p :: p != path ==> (p in r <==> p in files) && (p in r ==> r[p] == files[p])
  {
    files - {path}
  }

  /** The files after moving `source` to `target`, replacing whatever `target` held. */
  function Renamed(files: Files, source: string, target: string): (r: Files)
    requires source in files && source != target
    ensures source !in r && target in r && r[target] == files[source]
    ensures forall p :: p != source && p != target ==> (p in r <==> p in files) && (p in r ==> r[p] == files[p])
  {
    Written(Removed(files, source), target, files[source])
  }

  /** Renaming over a target replaces it: removing the target first makes no difference. */
  lemma RenamedOverRemoved(files: Files, source: string, target: string)
    requires source in files && source != target
    ensures Renamed(Removed(files, target), source, target) == Renamed(files, source, target)
  {
    var a, b := Renamed(Removed(files, target), source, target), Renamed(files, source, target);
    assert forall p :: p in a <==> p in b;
  }

  class FileSystem {
    var files: Files
    /** How many failable calls were made so far. */
    var calls: nat
    /** Whether the k-th failable call raises. */
    const fails: nat -> bool
    /** Whether the k-th call, a write that raises, had already opened (and so truncated) its file. */
    const torn: nat -> bool
    /** The failable calls attempted so far, in order. */
    ghost var log: seq<Op>

    constructor (initial: Files, fails: nat -> bool, torn: nat -> bool)
      ensures files == initial && calls == 0 && this.fails == fails && this.torn == torn && log == []
    {
      files := initial;
      calls := 0;
      this.fails := fails;
      this.torn := torn;
      log := [];
    }

    /** `os.path.exists`: never raises. */
    method Exists(path: string) returns (b: bool)
      ensures b <==> path in files
    {
      b := path in files;
    }

    /**
     * `epub.write_epub`: writes `b` to `path` unless the call fails; a failed
     * write leaves every other path as it was, and `path` truncated when the
     * archive had already been opened.
     */
    method Write(path: string, b: Blob) returns (ok: bool)
      modifies this
      ensures calls == old(calls) + 1 && log == old(log) + [WriteOp(path, b)]
      ensures ok <==> !fails(old(calls))
      ensures files == WriteResult(old(files), path, b, ok, torn(old(calls)))
    {
      ok := !fails(calls);
      files := WriteResult(files, path, b, ok, torn(calls));
      calls := calls + 1;
      log := log + [WriteOp(path, b)];
    }

    /** `os.remove`: raises when the path is missing or the call fails. */
    method Remove(path: string) returns (ok: bool)
      modifies this
      ensures calls == old(calls) + 1 && log == old(log) + [RemoveOp(path)]
      ensures ok <==> path in old(files) && !fails(old(calls))
      ensures files == if ok then Removed(old(files), path) else old(files)
    {
      ok := path in files && !fails(calls);
      if ok {
        files := Removed(files, path);
      }
      calls := calls + 1;
      log := log + [RemoveOp(path)];
    }

    /** `os.rename`: raises when the source is missing or the call fails. */
    method Rename(source: string, target: string) returns (ok: bool)
      requires source != target
      modifies this
      ensures calls == old(calls) + 1 && log == old(log) + [RenameOp(source, target)]
      ensures ok <==> source in old(files) && !fails(old(calls))
      ensures files == if ok then Renamed(old(files), source, target) else old(files)
    {
      ok := source in files && !fails(calls);
      if ok {
        files := Renamed(files, source, target);
      }
      calls := calls + 1;
      log := log + [RenameOp(source, target)];
    }
  }
}
