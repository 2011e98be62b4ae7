/**
 * The document routes: validation of an upload, the stored file's
 * extension and relative path, the access rule for a single document, and
 * the 404 replies.
 */
module PdfsRoute {

  import opened Wrappers
  import Text
  import opened Models
  import PdfsService

  const CategoryMessage := "Category must be one of: NOTICE, DATESHEET, CIRCULAR, EVENT"
  const PdfNotFound := "PDF not found"

  /**
   * The checks of `upload_pdf` before anything is written: an empty
   * category first, then an empty title, then the upper-cased category
   * against the four allowed ones. The accepted value is the stored category.
   */
  function ValidateUpload(title: string, category: string): (r: Result<string, HttpError>)
    ensures category == [] ==> r == Err(HttpError(400, "Category is required"))
    ensures category != [] && title == [] ==> r == Err(HttpError(400, "Title is required"))
    ensures r.Ok? <==> category != [] && title != [] && Text.Upper(category) in PdfCategories
    ensures r.Ok? ==> r.value == Text.Upper(category)
    ensures r.Err? ==> r.error.status == 400
  {
    if category == [] then Err(HttpError(400, "Category is required"))
    else if title == [] then Err(HttpError(400, "Title is required"))
    else if Text.Upper(category) !in PdfCategories then Err(HttpError(400, CategoryMessage))
    else Ok(Text.Upper(category))
  }

  /** Categories the admin form offers but the route refuses. */
  lemma StudyMaterialRefused(title: string)
    requires title != []
    ensures ValidateUpload(title, "STUDY_MATERIAL") == Err(HttpError(400, CategoryMessage))
  {
    assert Text.Upper("STUDY_MATERIAL") == "STUDY_MATERIAL";
    assert "STUDY_MATERIAL" !in PdfCategories;
  }

  /**
   * The stored extension: the text after the last `.` of the uploaded
   * name, or `pdf` when the name has no `.`.
   */
  function Extension(filename: string): (ext: string)
    ensures '.' !in ext
    ensures '.' !in filename ==> ext == "pdf"
    ensures '.' in filename ==> exists front :: filename == front + "." + ext
  {
    if '.' !in filename then "pdf"
    else
      var parts := Text.Split(filename, '.');
      Text.LastPiece(filename, '.');
      parts[|parts| - 1]
  }

  /** A character absent from the uploaded name, other than the letters of `pdf`, is absent from its extension. */
  lemma ExtensionFrom(filename: string, c: char)
    requires c !in filename && c !in "pdf"
    ensures c !in Extension(filename)
  {
    var ext := Extension(filename);
    if '.' in filename {
      var front :| filename == front + "." + ext;
      assert forall i :: 0 <= i < |ext| ==> ext[i] == filename[|front| + 1 + i];
    }
  }

  /** No allowed category holds a path separator. */
  lemma PlainCategory(c: string)
    requires c in PdfCategories
    ensures '/' !in c && '\\' !in c
  {
  }

  /** The relative path stored for an upload: `uploads/{lower-case category}/{uuid}.{ext}`. */
  function StoredPath(storedCategory: string, uuid: string, ext: string): string {
    "uploads/" + PdfsService.CategoryDir(storedCategory) + "/" + uuid + "." + ext
  }

  /**
   * A freshly stored path is already in the canonical form, so the legacy
   * normalisation leaves it alone, and its folder is the lower-cased category.
   */
  lemma StoredPathCanonical(category: string, uuid: string, filename: string)
    requires Text.Upper(category) in PdfCategories
    requires '\\' !in uuid && '\\' !in filename
    ensures PdfsService.CategoryDir(Text.Upper(category)) == Text.Lower(category)
    ensures PdfsService.Normalized(StoredPath(Text.Upper(category), uuid, Extension(filename)))
         == Some(StoredPath(Text.Upper(category), uuid, Extension(filename)))
  {
    var upper := Text.Upper(category);
    var dir := PdfsService.CategoryDir(upper);
    var ext := Extension(filename);
    Text.LowerFacts(category);
    PlainCategory(upper);
    PdfsService.LowerSlashes(upper);
    ExtensionFrom(filename, '\\');
    var file := uuid + "." + ext;
    assert '\\' !in file;
    assert StoredPath(upper, uuid, ext) == "uploads/" + dir + "/" + file;
    PdfsService.CanonicalOf(dir, file);
    PdfsService.CanonicalFixed("uploads/" + dir + "/" + file);
  }

  /**
   * `upload_pdf`: a rejected upload writes nothing; a failure while saving
   * (`failure`, the exception's text) is a 500 and stores no row; otherwise
   * a row is appended with the upper-cased category and the stored path.
   */
  method UploadPdf(store: PdfsService.PdfStore, filename: string, title: string, category: string,
                   isPublic: bool, uuid: string, failure: Option<string>, now: int)
    returns (resp: Result<Pdf, HttpError>)
    requires store.Valid()
    modifies store
    ensures store.Valid()
    ensures ValidateUpload(title, category).Err? ==>
      resp == Err(ValidateUpload(title, category).error) && store.pdfs == old(store.pdfs) && store.nextId == old(store.nextId)
    ensures ValidateUpload(title, category).Ok? && failure.Some? ==>
      resp == Err(HttpError(500, "File upload failed: " + failure.value)) && store.pdfs == old(store.pdfs)
      && store.nextId == old(store.nextId)
    ensures ValidateUpload(title, category).Ok? && failure.None? ==>
      var stored := Text.Upper(category);
      resp == Ok(Pdf(old(store.nextId), title, stored, StoredPath(stored, uuid, Extension(filename)), now, isPublic))
      && store.pdfs == old(store.pdfs) + [resp.value] && store.nextId == old(store.nextId) + 1
  {
    var checked := ValidateUpload(title, category);
    if checked.Err? {
      return Err(checked.error);
    }
    if failure.Some? {
      return Err(HttpError(500, "File upload failed: " + failure.value));
    }
    var stored := checked.value;
    var path := StoredPath(stored, uuid, Extension(filename));
    var pdf := store.CreatePdf(title, stored, path, isPublic, now);
    resp := Ok(pdf);
  }

  /**
   * `get_pdf_details`: 404 for an unknown id; a private document is
   * returned only to a caller whose role is `admin` (403 otherwise). `role`
   * is `None` for an anonymous caller.
   */
  function GetPdfDetails(pdfs: seq<Pdf>, id: int, role: Option<string>): (r: Result<Pdf, HttpError>)
    ensures PdfsService.GetPdf(pdfs, id).None? <==> r == Err(HttpError(404, PdfNotFound))
    ensures PdfsService.GetPdf(pdfs, id).Some? ==>
      var p := PdfsService.GetPdf(pdfs, id).value;
      (r.Ok? <==> p.isPublic || role == Some("admin"))
      && (r.Ok? ==> r.value == p)
      && (r.Err? ==> r.error == HttpError(403, "Access denied"))
  {
    match PdfsService.GetPdf(pdfs, id)
    case None => Err(HttpError(404, PdfNotFound))
    case Some(p) =>
      var isAdmin := role.Some? && role.value == "admin";
      if !p.isPublic && !isAdmin then Err(HttpError(403, "Access denied")) else Ok(p)
  }

  /** `update_pdf_metadata`: 404 for an unknown id. */
  method UpdatePdfMetadata(store: PdfsService.PdfStore, id: int, title: Option<string>, isPublic: Option<bool>)
    returns (resp: Result<Pdf, HttpError>)
    requires store.Valid()
    modifies store
    ensures store.Valid()
    ensures PdfsService.IndexOfPdf(old(store.pdfs), id).None? ==>
      resp == Err(HttpError(404, PdfNotFound)) && store.pdfs == old(store.pdfs)
    ensures PdfsService.IndexOfPdf(old(store.pdfs), id).Some? ==>
      var k := PdfsService.IndexOfPdf(old(store.pdfs), id).value;
      resp == Ok(PdfsService.UpdatedPdf(old(store.pdfs)[k], title, isPublic)) && store.pdfs == old(store.pdfs)[k := resp.value]
    ensures store.nextId == old(store.nextId)
  {
    var updated := store.UpdatePdf(id, title, isPublic);
    if updated.None? {
      return Err(HttpError(404, PdfNotFound));
    }
    resp := Ok(updated.value);
  }

  /** `delete_pdf_record`: 404 when nothing was deleted. */
  method DeletePdfRecord(store: PdfsService.PdfStore, id: int, unlinkFails: bool) returns (resp: Result<(), HttpError>)
    requires store.Valid()
    modifies store
    ensures store.Valid()
    ensures resp.Err? <==> PdfsService.IndexOfPdf(old(store.pdfs), id).None?
    ensures resp.Err? ==> resp.error == HttpError(404, PdfNotFound) && store.pdfs == old(store.pdfs)
    ensures resp.Ok? ==> var k := PdfsService.IndexOfPdf(old(store.pdfs), id).value; store.pdfs == old(store.pdfs)[..k] + old(store.pdfs)[k + 1..]
    ensures store.nextId == old(store.nextId)
    ensures forall i :: 0 <= i < |store.pdfs| ==> store.pdfs[i].id != id
  {
    var deleted := store.DeletePdf(id, unlinkFails);
    if !deleted {
      return Err(HttpError(404, PdfNotFound));
    }
    resp := Ok(());
  }
}
