/** One request end to end: scan, paginate, enrich the page, or export the
    whole catalog. */
module Gallery {
  import opened Basics
  import opened Scanner
  import opened Paginator
  import opened Metadata
  import Archive
  import Links

  /** The query parameters the page reads: `page` and `download`. */
  datatype Request = Request(page: Option<string>, download: Option<string>)

  /** What the core hands the renderer for one page. */
  datatype PageView = PageView(
    totalItems: nat,
    currentPage: nat,
    totalPages: nat,
    files: seq<string>,
    meta: seq<MetaRecord>,
    links: Links.LinkBar)

  datatype Response =
    | Fatal(status: nat, message: string)
    | Gallery(view: PageView)
    | Export(outcome: Archive.ExportResponse)

  /** The page view for one catalog and one `page` parameter. */
  method ServePage(dir: string, fs: FileSystem, files: seq<string>, page: Option<string>) returns (v: PageView)
    ensures v.totalItems == |files|
    ensures v.totalPages == TotalPages(|files|)
    ensures v.currentPage == ClampPage(RequestedPage(page), v.totalPages)
    ensures 1 <= v.currentPage <= v.totalPages
    ensures v.files == PageFiles(files, v.currentPage)
    ensures |v.meta| == |v.files| <= PerPage
    ensures forall i :: 0 <= i < |v.files| ==> v.meta[i] == BuildMeta(fs, dir + v.files[i])
    ensures forall i :: 0 <= i < |v.files| ==>
      (v.meta[i].filesize == Unavailable <==> !fs.isFile(dir + v.files[i]))
    ensures v.links == Links.LinkWindow(v.currentPage, v.totalPages)
  {
    var total := TotalPages(|files|);
    var current := ClampPage(RequestedPage(page), total);
    var pageFiles := PageFiles(files, current);
    var pageMeta := BuildPageMeta(dir, fs, pageFiles);
    v := PageView(|files|, current, total, pageFiles, pageMeta, Links.LinkWindow(current, total));
  }

  /** `dir` is the media directory with its trailing `/`, `readable` the
      outcome of the `is_dir`/`is_readable` check, `listing` what `scandir`
      returned and `zipOpens` whether the archive writer opens.  The page
      view is built on every request, as in the source, and then set aside
      when the request asks for the export.  The export runs as the code is
      written, so a zip that cannot be opened leaves the temporary file. */
  method Handle(dir: string, readable: bool, listing: seq<string>, fs: FileSystem, zipOpens: bool, req: Request)
    returns (r: Response)
    ensures !readable <==> r.Fatal?
    ensures r.Fatal? ==> r.status == 500
    ensures readable && req.download == Some("all") ==>
      && r.Export?
      && (r.outcome.ServerError? <==> !zipOpens)
      && (r.outcome.ServerError? ==> r.outcome.status == 500)
      && (r.outcome.tempRemoved <==> zipOpens)
      && (r.outcome.Download? ==> r.outcome.entries == Archive.Selected(dir, fs.isFile, Catalog(listing)))
      && (r.outcome.Download? ==>
            forall f :: f in Archive.Names(r.outcome.entries) <==> f in Catalog(listing) && fs.isFile(dir + f))
    ensures readable && req.download != Some("all") ==>
      && r.Gallery?
      && r.view.totalItems == |Catalog(listing)|
      && r.view.totalPages == TotalPages(r.view.totalItems)
      && r.view.currentPage == ClampPage(RequestedPage(req.page), r.view.totalPages)
      && r.view.links == Links.LinkWindow(r.view.currentPage, r.view.totalPages)
      && r.view.files == PageFiles(Catalog(listing), r.view.currentPage)
      && |r.view.meta| == |r.view.files|
      && (forall i :: 0 <= i < |r.view.files| ==> r.view.meta[i] == BuildMeta(fs, dir + r.view.files[i]))
  {
    if !readable {
      return Fatal(500, "Media directory is missing or not readable.");
    }
    var files := Catalog(listing);
    var view := ServePage(dir, fs, files, req.page);
    if req.download == Some("all") {
      var outcome := Archive.ExportAsWritten(dir, fs.isFile, zipOpens, files);
      Archive.SelectedNames(dir, fs.isFile, files);
      return Export(outcome);
    }
    r := Gallery(view);
  }

  /** The same request with the temporary file released on both exits of
      the export. */
  method HandleIntended(dir: string, readable: bool, listing: seq<string>, fs: FileSystem, zipOpens: bool, req: Request)
    returns (r: Response)
    ensures !readable <==> r.Fatal?
    ensures r.Fatal? ==> r.status == 500
    ensures readable && req.download == Some("all") ==>
      && r.Export?
      && r.outcome.tempRemoved
      && (r.outcome.ServerError? <==> !zipOpens)
      && (r.outcome.Download? ==> r.outcome.entries == Archive.Selected(dir, fs.isFile, Catalog(listing)))
      && (r.outcome.Download? ==>
            forall f :: f in Archive.Names(r.outcome.entries) <==> f in Catalog(listing) && fs.isFile(dir + f))
    ensures readable && req.download != Some("all") ==>
      && r.Gallery?
      && r.view.totalItems == |Catalog(listing)|
      && r.view.totalPages == TotalPages(r.view.totalItems)
      && r.view.currentPage == ClampPage(RequestedPage(req.page), r.view.totalPages)
      && r.view.links == Links.LinkWindow(r.view.currentPage, r.view.totalPages)
      && r.view.files == PageFiles(Catalog(listing), r.view.currentPage)
      && |r.view.meta| == |r.view.files|
      && (forall i :: 0 <= i < |r.view.files| ==> r.view.meta[i] == BuildMeta(fs, dir + r.view.files[i]))
  {
    if !readable {
      return Fatal(500, "Media directory is missing or not readable.");
    }
    var files := Catalog(listing);
    var view := ServePage(dir, fs, files, req.page);
    if req.download == Some("all") {
      var outcome := Archive.Export(dir, fs.isFile, zipOpens, files);
      return Export(outcome);
    }
    r := Gallery(view);
  }
}
