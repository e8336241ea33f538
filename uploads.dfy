/** The upload store of server.js: files in the uploads directory, named by their
    sanitized names, written whole and overwritten on a name collision. The
    directory is a map from file name to its bytes. */
module Uploads {
  import opened Strings
  import opened Sanitizer

  newtype byte = b: int | 0 <= b < 256

  /** Largest accepted upload: `50 * 1024 * 1024` bytes (server.js line 179). */
  const MaxUploadBytes := 50 * 1024 * 1024

  /** The `file` field of the multipart form: its client-side name and its bytes. */
  datatype FormFile = FormFile(name: string, data: seq<byte>)

  /** One entry of the file listing. */
  datatype FileInfo = FileInfo(name: string, size: nat)

  type FileMap = map<string, seq<byte>>

  /** The guard of line 179 passes: a file is present and is at most 50 MiB. */
  predicate UploadAccepted(file: Option<FormFile>) {
    file.Some? && |file.value.data| <= MaxUploadBytes
  }

  /** `readdirSync(...).filter(name => !name.startsWith('.'))` with each file's size
      (server.js lines 188-198). */
  function ListFiles(files: FileMap): (r: set<FileInfo>)
    ensures forall f :: f in r <==> f.name in files && !StartsWith(f.name, ".") && f.size == |files[f.name]|
  {
    set name | name in files && !StartsWith(name, ".") :: FileInfo(name, |files[name]|)
  }

  /** `GET /files/<segment>` (server.js lines 201-206): the bytes of the file under
      the sanitized name; `None` is the handler's 404. */
  function Download(files: FileMap, segment: string): (r: Option<seq<byte>>)
    ensures r.Some? <==> Sanitize(segment) in files
    ensures r.Some? ==> r.value == files[Sanitize(segment)]
  {
    var name := Sanitize(segment);
    if name in files then Some(files[name]) else None
  }

  class UploadStore {
    var files: FileMap

    constructor (existing: FileMap)
      ensures files == existing
    {
      files := existing;
    }

    /** `POST /upload` (server.js lines 176-185): rejects a missing or oversized
        file, otherwise writes it under its sanitized name, replacing any file
        already there. */
    method Upload(file: Option<FormFile>) returns (accepted: bool)
      modifies this
      ensures accepted <==> UploadAccepted(file)
      ensures accepted ==> files == old(files)[Sanitize(file.value.name) := file.value.data]
      ensures !accepted ==> files == old(files)
    {
      if file.None? || |file.value.data| > MaxUploadBytes {
        return false;
      }
      files := files[Sanitize(file.value.name) := file.value.data];
      return true;
    }

    /** `DELETE /files/<segment>` (server.js lines 209-214): removes the file if it
        exists; never fails. */
    method Delete(segment: string)
      modifies this
      ensures files == old(files) - {Sanitize(segment)}
    {
      var name := Sanitize(segment);
      if name in files {
        files := files - {name};
      }
    }
  }

  /** Exactly 50 MiB is accepted; one byte more is rejected, and so is a missing file. */
  lemma {:induction false} UploadLimit(name: string, data: seq<byte>)
    ensures |data| == MaxUploadBytes ==> UploadAccepted(Some(FormFile(name, data)))
    ensures |data| == MaxUploadBytes + 1 ==> !UploadAccepted(Some(FormFile(name, data)))
    ensures !UploadAccepted(None)
  {
  }

  /** An upload is listed under its sanitized name with its size, unless that name
      starts with a dot: such a file is stored but never listed. */
  lemma {:induction false} UploadThenList(files: FileMap, file: FormFile)
    ensures var name := Sanitize(file.name);
            (FileInfo(name, |file.data|) in ListFiles(files[name := file.data]) <==> !StartsWith(name, "."))
            && Download(files[name := file.data], name) == Some(file.data)
  {
    var name := Sanitize(file.name);
    SanitizeIdempotent(file.name);
  }

  /** Deleting is idempotent: a second delete changes nothing, and afterwards the
      file neither downloads nor appears in the listing. */
  lemma {:induction false} DeleteIdempotent(files: FileMap, segment: string)
    ensures var gone := files - {Sanitize(segment)};
            && gone - {Sanitize(segment)} == gone
            && Download(gone, segment).None?
            && forall f :: f in ListFiles(gone) ==> f.name != Sanitize(segment)
  {
  }
}
