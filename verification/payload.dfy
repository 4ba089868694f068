/** The `files` list of the `publish-files` request
    (`_load_files_for_publish`): every file of the directory becomes one
    JSON object carrying its relative path and its contents, as text when
    text is preferred and the bytes are UTF-8, as base 64 otherwise. */
module Payload {
  import opened Wrappers
  import opened Bytes
  import Utf8
  import Base64

  /** A file found under the directory: its POSIX path relative to the
      directory and its bytes. Finding and reading the files is not modelled;
      the list arrives in the sorted order `_find_files` returns, and the
      entries keep that order. */
  datatype SourceFile = SourceFile(relPath: string, bytes: seq<byte>)

  /** One element of `files`: the `path` key and the keys `content` and
      `contentBase64`, each present or absent. */
  datatype FileEntry = FileEntry(path: string, content: Option<string>, contentBase64: Option<string>)

  /** How a reader of the request gets the bytes back from an entry:
      `contentBase64` decoded if present, else `content` encoded as UTF-8.
      This is a reference for the entries' meaning; the server that reads
      them is not part of this model. */
  function EntryBytes(e: FileEntry): Option<seq<byte>> {
    match e.contentBase64
    case Some(b64) => Base64.Decode(b64)
    case None =>
      match e.content
      case Some(text) => Some(Utf8.Encode(text))
      case None => None
  }

  /** The body of the source's loop for one file: the entry keeps the
      path and carries exactly one of the two content keys. */
  function ShapeFile(f: SourceFile, preferText: bool): (e: FileEntry)
    ensures e.path == f.relPath
    ensures e.content.Some? != e.contentBase64.Some?
  {
    var text := if preferText then Utf8.Decode(f.bytes) else None;
    if text.Some? then FileEntry(f.relPath, text, None)
    else FileEntry(f.relPath, None, Some(Base64.Encode(f.bytes)))
  }

  /** An entry uses `content` exactly when text is preferred and the bytes
      decode as UTF-8, and that text encodes back to the same bytes; any
      other entry carries the base 64 text of the bytes. Either way a reader
      gets back the file's bytes unaltered. */
  lemma ShapeFileSpec(f: SourceFile, preferText: bool)
    ensures var e := ShapeFile(f, preferText);
      && (e.content.Some? <==> preferText && Utf8.Decode(f.bytes).Some?)
      && (e.content.Some? ==> Utf8.Encode(e.content.value) == f.bytes)
      && (e.contentBase64.Some? ==> e.contentBase64.value == Base64.Encode(f.bytes))
      && EntryBytes(e) == Some(f.bytes)
  {
    var e := ShapeFile(f, preferText);
    if e.content.Some? {
      Utf8.EncodeDecode(f.bytes);
    } else {
      Base64.DecodeEncode(f.bytes);
    }
  }

  /** `_load_files_for_publish` given the directory's files: one entry per
      file, in the same order, each shaped by `ShapeFile`, so each keeps its
      file's path and bytes. */
  method LoadFilesForPublish(files: seq<SourceFile>, preferText: bool) returns (entries: seq<FileEntry>)
    ensures |entries| == |files|
    ensures forall i :: 0 <= i < |files| ==> entries[i] == ShapeFile(files[i], preferText)
    ensures forall i :: 0 <= i < |files| ==> entries[i].path == files[i].relPath
    ensures forall i :: 0 <= i < |files| ==> EntryBytes(entries[i]) == Some(files[i].bytes)
  {
    entries := [];
    for i := 0 to |files|
      invariant |entries| == i
      invariant forall k :: 0 <= k < i ==> entries[k] == ShapeFile(files[k], preferText)
    {
      entries := entries + [ShapeFile(files[i], preferText)];
    }
    forall i | 0 <= i < |files|
      ensures EntryBytes(entries[i]) == Some(files[i].bytes)
    {
      ShapeFileSpec(files[i], preferText);
    }
  }
}
