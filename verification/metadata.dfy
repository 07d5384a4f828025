/** The metadata extractor: one display record per file on the current
    page (`buildMeta` and the loop that calls it). */
module Metadata {
  import opened Basics
  import opened Text

  /** What the extractor may learn about a path from the outside world.
      `sizeText` stands for the file size in KiB rounded to one decimal and
      `modifiedText` for the modification time written as year-month-day
      hour:minute, both taken as opaque text;
      `exifReader` is `None` when `exif_read_data` does not exist, and a
      reader answers `None` where PHP would return `false`. */
  datatype FileSystem = FileSystem(
    isFile: string -> bool,
    sizeText: string -> string,
    modifiedText: string -> string,
    exifReader: Option<string -> Option<map<string, string>>>)
  {
    /** A formatted date is never the lone dash used for "unavailable". */
    ghost predicate Valid() {
      forall p :: modifiedText(p) != Unavailable
    }
  }

  /** Marker for a size or time that could not be read. */
  const Unavailable: string := "-"

  /** Embedded capture data: `Make` and `Model` joined by a space, and the
      original capture time. */
  datatype Capture = Capture(camera: string, taken: string)

  /** One record as handed to the page renderer; `capture` is `None` when
      the `camera` and `taken` keys are absent. */
  datatype MetaRecord = MetaRecord(
    filename: string,
    filesize: string,
    modified: string,
    capture: Option<Capture>)

  /** The value stored under `key`, or the empty string when the key is absent. */
  function FieldOr(m: map<string, string>, key: string): (v: string)
    ensures key in m ==> v == m[key]
    ensures key !in m ==> v == ""
  {
    if key in m then m[key] else ""
  }

  /** The reader exists and gives a truthy (non-empty) array for `path`. */
  predicate ExifSucceeds(fs: FileSystem, path: string) {
    fs.exifReader.Some? && fs.exifReader.value(path).Some? && |fs.exifReader.value(path).value| > 0
  }

  function ReadCapture(fs: FileSystem, path: string): (c: Option<Capture>)
    ensures c.Some? <==> ExifSucceeds(fs, path)
  {
    match fs.exifReader
    case None => None
    case Some(read) =>
      match read(path)
      case None => None
      case Some(exif) =>
        if |exif| == 0 then None
        else Some(Capture(FieldOr(exif, "Make") + " " + FieldOr(exif, "Model"),
                          FieldOr(exif, "DateTimeOriginal")))
  }

  /** The record for one path. */
  function BuildMeta(fs: FileSystem, path: string): (r: MetaRecord)
    ensures r.filename == Basename(path)
    ensures r.filesize == Unavailable <==> !fs.isFile(path)
    ensures fs.Valid() ==> (r.modified == Unavailable <==> !fs.isFile(path))
    ensures fs.isFile(path) ==> r.filesize == fs.sizeText(path) + " KB"
    ensures fs.isFile(path) ==> r.modified == fs.modifiedText(path)
    ensures r.capture.Some? <==> ExifSucceeds(fs, path)
    ensures r.capture.Some? ==>
      var exif := fs.exifReader.value(path).value;
      && r.capture.value.camera == FieldOr(exif, "Make") + " " + FieldOr(exif, "Model")
      && r.capture.value.taken == FieldOr(exif, "DateTimeOriginal")
  {
    var regular := fs.isFile(path);
    MetaRecord(
      Basename(path),
      if regular then fs.sizeText(path) + " KB" else Unavailable,
      if regular then fs.modifiedText(path) else Unavailable,
      ReadCapture(fs, path))
  }

  /** Whether capture data is read or not never changes the other fields:
      two worlds that agree on the file itself give records that differ at
      most in `capture`. */
  lemma CaptureIsIsolated(fs: FileSystem, fs': FileSystem, path: string)
    requires fs.isFile(path) == fs'.isFile(path)
    requires fs.sizeText(path) == fs'.sizeText(path)
    requires fs.modifiedText(path) == fs'.modifiedText(path)
    ensures BuildMeta(fs, path).(capture := None) == BuildMeta(fs', path).(capture := None)
  {
  }

  /** A picture whose metadata names only the maker: the missing model
      counts as empty and the missing capture time as `''`. */
  lemma MakeOnlyExample(fs: FileSystem, path: string)
    requires fs.exifReader.Some? && fs.exifReader.value(path) == Some(map["Make" := "Canon"])
    ensures BuildMeta(fs, path).capture == Some(Capture("Canon ", ""))
  {
    var exif := map["Make" := "Canon"];
    assert "Make" in exif && |exif| == 1;
    assert "Model" !in exif && "DateTimeOriginal" !in exif;
    assert FieldOr(exif, "Make") + " " + FieldOr(exif, "Model") == "Canon ";
  }

  /** The per-page loop: one record per page file, in page order. */
  method BuildPageMeta(dir: string, fs: FileSystem, files: seq<string>) returns (metas: seq<MetaRecord>)
    ensures |metas| == |files|
    ensures forall i :: 0 <= i < |files| ==> metas[i] == BuildMeta(fs, dir + files[i])
    ensures forall i :: 0 <= i < |files| ==>
      && metas[i].filesize == (if fs.isFile(dir + files[i]) then fs.sizeText(dir + files[i]) + " KB" else Unavailable)
      && metas[i].capture.Some? == ExifSucceeds(fs, dir + files[i])
    ensures |dir| > 0 && dir[|dir| - 1] == '/' && (forall f :: f in files ==> '/' !in f) ==>
      forall i :: 0 <= i < |files| ==> metas[i].filename == files[i]
  {
    metas := [];
    var k := 0;
    while k < |files|
      invariant 0 <= k <= |files|
      invariant |metas| == k
      invariant forall i :: 0 <= i < k ==> metas[i] == BuildMeta(fs, dir + files[i])
    {
      metas := metas + [BuildMeta(fs, dir + files[k])];
      k := k + 1;
    }
    if |dir| > 0 && dir[|dir| - 1] == '/' && (forall f :: f in files ==> '/' !in f) {
      forall i | 0 <= i < |files|
        ensures metas[i].filename == files[i]
      {
        BasenameOfJoin(dir, files[i]);
      }
    }
  }
}
