/** The archive builder behind `?download=all`: which catalog files go into
    the zip and under what names, and what becomes of the temporary file. */
module Archive {
  import opened Scanner

  /** One `addFile(source, name)` call. */
  datatype Entry = Entry(source: string, name: string)

  /** The fixed name the download is offered under. */
  const ArchiveName: string := "gallery-images.zip"

  /** Outcome of an export request.  `tempRemoved` records whether the
      temporary file made by `tempnam` has been unlinked when the request
      ends. */
  datatype ExportResponse =
    | Download(contentType: string, fileName: string, entries: seq<Entry>, tempRemoved: bool)
    | ServerError(status: nat, message: string, tempRemoved: bool)

  function Names(entries: seq<Entry>): (ns: seq<string>)
    ensures |ns| == |entries|
    ensures forall i :: 0 <= i < |entries| ==> ns[i] == entries[i].name
  {
    seq(|entries|, i requires 0 <= i < |entries| => entries[i].name)
  }

  /** Reference definition: the catalog files that are regular files, in
      catalog order, each added under its bare name. */
  function Selected(dir: string, isFile: string -> bool, files: seq<string>): (r: seq<Entry>)
    ensures |r| <= |files|
    ensures forall e :: e in r ==> e.source == dir + e.name && isFile(e.source)
  {
    if |files| == 0 then []
    else
      var f := files[|files| - 1];
      Selected(dir, isFile, files[..|files| - 1]) + (if isFile(dir + f) then [Entry(dir + f, f)] else [])
  }

  /** The archive holds exactly the catalog names that are regular files,
      and holds each at most as often as the catalog does. */
  lemma {:induction false} SelectedNames(dir: string, isFile: string -> bool, files: seq<string>)
    ensures forall f :: f in Names(Selected(dir, isFile, files)) <==> f in files && isFile(dir + f)
    ensures multiset(Names(Selected(dir, isFile, files))) <= multiset(files)
  {
    if |files| > 0 {
      var init := files[..|files| - 1];
      var f := files[|files| - 1];
      SelectedNames(dir, isFile, init);
      assert files == init + [f];
      var extra := if isFile(dir + f) then [Entry(dir + f, f)] else [];
      assert Names(Selected(dir, isFile, files)) == Names(Selected(dir, isFile, init)) + Names(extra);
    }
  }

  /** The test the archive loop applies to a catalog name. */
  function IsRegularIn(dir: string, isFile: string -> bool): (regular: string -> bool) {
    f => isFile(dir + f)
  }

  /** The archive names are the regular files of the catalog in catalog
      order: filtering the catalog front to back gives the same sequence. */
  lemma {:induction false} SelectedInCatalogOrder(dir: string, isFile: string -> bool, files: seq<string>)
    ensures Names(Selected(dir, isFile, files)) == FilterBy(IsRegularIn(dir, isFile), files)
  {
    if |files| > 0 {
      var init := files[..|files| - 1];
      var f := files[|files| - 1];
      SelectedInCatalogOrder(dir, isFile, init);
      assert files == init + [f];
      FilterByAppend(IsRegularIn(dir, isFile), init, [f]);
      assert FilterBy(IsRegularIn(dir, isFile), []) == [];
      var extra := if isFile(dir + f) then [Entry(dir + f, f)] else [];
      assert Names(Selected(dir, isFile, files)) == Names(Selected(dir, isFile, init)) + Names(extra);
    }
  }

  /** Distinct catalog names give distinct archive entries. */
  lemma SelectedDistinct(dir: string, isFile: string -> bool, files: seq<string>)
    requires Distinct(files)
    ensures Distinct(Names(Selected(dir, isFile, files)))
  {
    SelectedNames(dir, isFile, files);
    var ns := Names(Selected(dir, isFile, files));
    forall x
      ensures multiset(ns)[x] <= 1
    {
      assert multiset(ns)[x] <= multiset(files)[x];
    }
  }

  /** The `foreach` over the catalog: a file that is not regular is
      skipped and the loop goes on. */
  method AddRegularFiles(dir: string, isFile: string -> bool, files: seq<string>) returns (entries: seq<Entry>)
    ensures entries == Selected(dir, isFile, files)
    ensures forall f :: f in Names(entries) <==> f in files && isFile(dir + f)
  {
    entries := [];
    var k := 0;
    while k < |files|
      invariant 0 <= k <= |files|
      invariant entries == Selected(dir, isFile, files[..k])
    {
      var f := files[k];
      assert files[..k + 1][..k] == files[..k];
      if isFile(dir + f) {
        entries := entries + [Entry(dir + f, f)];
      }
      k := k + 1;
    }
    assert files[..k] == files;
    SelectedNames(dir, isFile, files);
  }

  /** The export as the code is written: when the zip cannot be opened the
      request ends with status 500 and the temporary file is left behind. */
  method ExportAsWritten(dir: string, isFile: string -> bool, zipOpens: bool, catalog: seq<string>)
    returns (r: ExportResponse)
    ensures r.ServerError? <==> !zipOpens
    ensures r.ServerError? ==> r.status == 500 && !r.tempRemoved
    ensures r.Download? ==>
      && r.contentType == "application/zip" && r.fileName == ArchiveName
      && r.entries == Selected(dir, isFile, catalog)
      && r.tempRemoved
  {
    if !zipOpens {
      return ServerError(500, "Unable to create ZIP file.", false);
    }
    var entries := AddRegularFiles(dir, isFile, catalog);
    r := Download("application/zip", ArchiveName, entries, true);
  }

  /** The export with the temporary file released on both exits. */
  method Export(dir: string, isFile: string -> bool, zipOpens: bool, catalog: seq<string>)
    returns (r: ExportResponse)
    ensures r.ServerError? <==> !zipOpens
    ensures r.ServerError? ==> r.status == 500
    ensures r.Download? ==>
      && r.contentType == "application/zip" && r.fileName == ArchiveName
      && r.entries == Selected(dir, isFile, catalog)
      && (forall f :: f in Names(r.entries) <==> f in catalog && isFile(dir + f))
    ensures r.tempRemoved
  {
    if !zipOpens {
      return ServerError(500, "Unable to create ZIP file.", true);
    }
    var entries := AddRegularFiles(dir, isFile, catalog);
    r := Download("application/zip", ArchiveName, entries, true);
  }
}
