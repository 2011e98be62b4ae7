/**
 * The documents service: per-category directory names, the rewrite of
 * legacy stored paths into `uploads/{category}/{file}`, and the metadata
 * update and deletion of document rows.
 */
module PdfsService {

  import opened Wrappers
  import Text
  import Lists
  import opened Models

  /** `get_category_upload_path`: the directory is named after the lower-cased category. */
  function CategoryDir(category: string): (dir: string)
    ensures Text.IsLower(dir) && |dir| == |category|
    ensures Text.Lower(dir) == Text.Lower(category)
  {
    Text.LowerFacts(category);
    Text.Lower(category)
  }

  // ---------------------------------------------------------------------
  // Legacy path normalisation
  // ---------------------------------------------------------------------

  predicate IsSlash(c: char) {
    c == '/'
  }

  /** `path.replace("\\", "/")`. */
  function ForwardSlashes(path: string): (r: string)
    ensures |r| == |path|
    ensures forall i :: 0 <= i < |path| ==> r[i] == if path[i] == '\\' then '/' else path[i]
    ensures '\\' !in r
  {
    seq(|path|, i requires 0 <= i < |path| => if path[i] == '\\' then '/' else path[i])
  }

  /** The pieces of a stored path: slashes turned forward, leading ones dropped, split at most twice. */
  function Pieces(path: string): seq<string> {
    Text.SplitN(Text.TrimStart(ForwardSlashes(path), IsSlash), '/', 2)
  }

  /**
   * The rewrite `normalize_legacy_pdf_paths` computes for one stored path;
   * `None` when it leaves the path alone (an empty path, a single piece, or
   * three pieces not under `uploads`).
   */
  function Normalized(path: string): Option<string> {
    if path == [] then None
    else
      var parts := Pieces(path);
      if |parts| == 3 && Text.Lower(parts[0]) == "uploads" then
        Some("uploads/" + Text.Lower(parts[1]) + "/" + parts[2])
      else if |parts| == 2 then
        Some("uploads/" + Text.Lower(parts[0]) + "/" + parts[1])
      else None
  }

  /** The stored path after normalisation. */
  function NormalizedPath(path: string): string {
    match Normalized(path)
    case None => path
    case Some(q) => q
  }

  /** The canonical form `uploads/{lower-case folder}/{file}`, with forward slashes only. */
  predicate Canonical(q: string) {
    '\\' !in q
    && var parts := Text.SplitN(q, '/', 2);
       |parts| == 3 && parts[0] == "uploads" && Text.IsLower(parts[1])
  }

  /** A string with two separators, the first two pieces free of them, splits into three. */
  lemma SplitThree(head: string, folder: string, file: string)
    requires '/' !in head && '/' !in folder
    ensures Text.SplitN(head + "/" + folder + "/" + file, '/', 2) == [head, folder, file]
  {
    assert head + "/" + folder + "/" + file == head + ['/'] + (folder + ['/'] + file);
    Text.SplitNCons(head, '/', folder + ['/'] + file, 2);
    Text.SplitNCons(folder, '/', file, 1);
    assert Text.SplitN(file, '/', 0) == [file];
  }

  /** Three pieces joined back. */
  lemma JoinThree(parts: seq<string>)
    requires |parts| == 3
    ensures Text.Join(parts, '/') == parts[0] + "/" + parts[1] + "/" + parts[2]
  {
    assert parts[1..][1..] == [parts[2]];
    assert Text.Join(parts[1..][1..], '/') == parts[2];
    assert Text.Join(parts[1..], '/') == parts[1] + "/" + parts[2];
  }

  /** A path already free of backslashes and leading slashes is split as it is. */
  lemma PiecesOfClean(path: string)
    requires '\\' !in path && |path| > 0 && path[0] != '/'
    ensures Pieces(path) == Text.SplitN(path, '/', 2)
  {
    assert ForwardSlashes(path) == path;
    assert Text.TrimStart(path, IsSlash) == path;
  }

  lemma UploadsIsLower()
    ensures Text.Lower("uploads") == "uploads"
  {
    Text.LowerFacts("uploads");
  }

  lemma UploadsPrefix(folder: string, file: string)
    ensures "uploads/" + folder + "/" + file == "uploads" + "/" + folder + "/" + file
  {
    assert "uploads/" == "uploads" + "/";
  }

  /** Assembling a canonical path from a folder and a file name. */
  lemma CanonicalOf(folder: string, file: string)
    requires Text.IsLower(folder) && '/' !in folder && '\\' !in folder && '\\' !in file
    ensures Canonical("uploads/" + folder + "/" + file)
  {
    UploadsPrefix(folder, file);
    SplitThree("uploads", folder, file);
  }

  /** A canonical path is left as it is. */
  lemma CanonicalFixed(q: string)
    requires Canonical(q)
    ensures Normalized(q) == Some(q)
  {
    var parts := Text.SplitN(q, '/', 2);
    Text.JoinSplitN(q, '/', 2);
    JoinThree(parts);
    UploadsPrefix(parts[1], parts[2]);
    assert q[0] == 'u';
    PiecesOfClean(q);
    Text.LowerFacts(parts[1]);
    UploadsIsLower();
  }

  /** Every piece of a split occurs inside the split string. */
  lemma PiecesInside(s: string, parts: seq<string>, c: char)
    requires parts == Text.SplitN(s, '/', 2) && |parts| == 3 && c !in s
    ensures c !in parts[0] && c !in parts[1] && c !in parts[2]
  {
    Text.JoinSplitN(s, '/', 2);
    JoinThree(parts);
  }

  lemma PiecesInside2(s: string, parts: seq<string>, c: char)
    requires parts == Text.SplitN(s, '/', 2) && |parts| == 2 && c !in s
    ensures c !in parts[0] && c !in parts[1]
  {
    Text.JoinSplitN(s, '/', 2);
    assert s == parts[0] + ['/'] + parts[1];
  }

  /** Lower-casing keeps slashes and adds none. */
  lemma LowerSlashes(s: string)
    ensures ('/' in Text.Lower(s)) == ('/' in s) && ('\\' in Text.Lower(s)) == ('\\' in s)
  {
    var l := Text.Lower(s);
    if '/' in l { var i :| 0 <= i < |l| && l[i] == '/'; assert s[i] == '/'; }
    if '\\' in l { var i :| 0 <= i < |l| && l[i] == '\\'; assert s[i] == '\\'; }
    if '/' in s { var i :| 0 <= i < |s| && s[i] == '/'; assert l[i] == '/'; }
    if '\\' in s { var i :| 0 <= i < |s| && s[i] == '\\'; assert l[i] == '\\'; }
  }

  /** Whatever the rewrite produces is canonical. */
  lemma NormalizedCanonical(path: string)
    requires Normalized(path).Some?
    ensures Canonical(Normalized(path).value)
  {
    var input := Text.TrimStart(ForwardSlashes(path), IsSlash);
    var parts := Pieces(path);
    assert '\\' !in input;
    if |parts| == 3 && Text.Lower(parts[0]) == "uploads" {
      PiecesInside(input, parts, '\\');
      LowerSlashes(parts[1]);
      Text.LowerFacts(parts[1]);
      CanonicalOf(Text.Lower(parts[1]), parts[2]);
    } else {
      PiecesInside2(input, parts, '\\');
      LowerSlashes(parts[0]);
      Text.LowerFacts(parts[0]);
      CanonicalOf(Text.Lower(parts[0]), parts[1]);
    }
  }

  /** Normalising twice is normalising once. */
  lemma NormalizeIdempotent(path: string)
    ensures NormalizedPath(NormalizedPath(path)) == NormalizedPath(path)
  {
    if Normalized(path).Some? {
      NormalizedCanonical(path);
      CanonicalFixed(Normalized(path).value);
    }
  }

  /** A legacy upper-case folder under `uploads`: `uploads/NOTICE/a.pdf` gives `uploads/notice/a.pdf`. */
  lemma UpperFolderLowered(folder: string, file: string)
    requires '/' !in folder && '\\' !in folder && '\\' !in file
    ensures Normalized("uploads/" + folder + "/" + file) == Some("uploads/" + Text.Lower(folder) + "/" + file)
  {
    PiecesUnderUploads(folder, file);
    UploadsIsLower();
  }

  lemma PiecesUnderUploads(folder: string, file: string)
    requires '/' !in folder && '\\' !in folder && '\\' !in file
    ensures Pieces("uploads/" + folder + "/" + file) == ["uploads", folder, file]
  {
    var p := "uploads/" + folder + "/" + file;
    UploadsPrefix(folder, file);
    SplitThree("uploads", folder, file);
    assert p[0] == 'u';
    assert '\\' !in p;
    PiecesOfClean(p);
  }

  /** A path without the `uploads` prefix: `notice/a.pdf` gives `uploads/notice/a.pdf`. */
  lemma MissingPrefixAdded(folder: string, file: string)
    requires '/' !in folder && '\\' !in folder && '/' !in file && '\\' !in file
    requires |folder| > 0
    ensures Normalized(folder + "/" + file) == Some("uploads/" + Text.Lower(folder) + "/" + file)
  {
    var p := folder + "/" + file;
    assert p == folder + ['/'] + file;
    Text.SplitNCons(folder, '/', file, 2);
    assert Text.SplitN(file, '/', 1) == [file];
    assert p[0] == folder[0];
    PiecesOfClean(p);
  }

  /** A bare file name, with no folder at all, is left alone. */
  lemma BareNameUnchanged(path: string)
    requires '/' !in path && '\\' !in path
    ensures Normalized(path) == None
  {
    assert ForwardSlashes(path) == path;
    if path != [] {
      assert Text.TrimStart(path, IsSlash) == path;
    }
  }

  /** Three pieces whose first is not `uploads`, in any letter case, are left alone. */
  lemma ForeignThreeUnchanged(head: string, folder: string, file: string)
    requires '/' !in head && '\\' !in head && '/' !in folder && '\\' !in folder && '\\' !in file
    requires |head| > 0 && Text.Lower(head) != "uploads"
    ensures Normalized(head + "/" + folder + "/" + file) == None
  {
    var p := head + "/" + folder + "/" + file;
    SplitThree(head, folder, file);
    assert p[0] == head[0];
    PiecesOfClean(p);
  }

  /** A leading slash or backslash does not change the rewrite. */
  lemma LeadingSeparatorIgnored(path: string)
    ensures Normalized("/" + path) == Normalized(path)
    ensures Normalized("\\" + path) == Normalized(path)
  {
    PiecesLeadingSeparator(path, '/');
    PiecesLeadingSeparator(path, '\\');
    if path == [] {
      assert Text.SplitN([], '/', 2) == [[]];
    } else {
      SamePieces("/" + path, path);
      SamePieces("\\" + path, path);
    }
  }

  lemma PiecesLeadingSeparator(path: string, c: char)
    requires c == '/' || c == '\\'
    ensures Pieces([c] + path) == Pieces(path)
  {
    var clean := ForwardSlashes(path);
    assert ForwardSlashes([c] + path) == "/" + clean;
    assert ("/" + clean)[1..] == clean;
  }

  /** The rewrite depends only on whether the path is empty and on its pieces. */
  lemma SamePieces(a: string, b: string)
    requires a != [] && b != [] && Pieces(a) == Pieces(b)
    ensures Normalized(a) == Normalized(b)
  {
  }

  /** A row after normalisation; its other columns are untouched. */
  function NormalizeRow(p: Pdf): Pdf {
    p.(filePath := NormalizedPath(p.filePath))
  }

  /** All rows after normalisation. */
  function NormalizeAll(pdfs: seq<Pdf>): (r: seq<Pdf>)
    ensures |r| == |pdfs|
    ensures forall i :: 0 <= i < |pdfs| ==> r[i] == NormalizeRow(pdfs[i])
  {
    Lists.Map(pdfs, NormalizeRow)
  }

  /** What the loop of `normalize_legacy_pdf_paths` does to one row. */
  lemma RowStep(p: Pdf, target: Option<string>)
    requires target == Normalized(p.filePath)
    ensures target.Some? && target.value != p.filePath ==> NormalizeRow(p) == p.(filePath := target.value)
    ensures !(target.Some? && target.value != p.filePath) ==> NormalizeRow(p) == p
  {
  }

  /** A second pass changes nothing, so a second run never commits. */
  lemma NormalizeAllIdempotent(pdfs: seq<Pdf>)
    ensures NormalizeAll(NormalizeAll(pdfs)) == NormalizeAll(pdfs)
  {
    forall i | 0 <= i < |pdfs| ensures NormalizeRow(NormalizeRow(pdfs[i])) == NormalizeRow(pdfs[i]) {
      NormalizeIdempotent(pdfs[i].filePath);
    }
  }

  // ---------------------------------------------------------------------
  // Metadata update
  // ---------------------------------------------------------------------

  /** `update_pdf` on a found row: only the given fields change. */
  function UpdatedPdf(p: Pdf, title: Option<string>, isPublic: Option<bool>): (q: Pdf)
    ensures q.id == p.id && q.category == p.category && q.filePath == p.filePath && q.uploadDate == p.uploadDate
    ensures q.title == if title.Some? then title.value else p.title
    ensures q.isPublic == if isPublic.Some? then isPublic.value else p.isPublic
  {
    var p1 := if title.Some? then p.(title := title.value) else p;
    if isPublic.Some? then p1.(isPublic := isPublic.value) else p1
  }

  /** An update with neither field changes nothing, and repeating an update changes nothing more. */
  lemma UpdatedPdfLaws(p: Pdf, title: Option<string>, isPublic: Option<bool>)
    ensures UpdatedPdf(p, None, None) == p
    ensures UpdatedPdf(UpdatedPdf(p, title, isPublic), title, isPublic) == UpdatedPdf(p, title, isPublic)
  {
  }

  function IndexOfPdf(pdfs: seq<Pdf>, id: int): (r: Option<nat>)
    ensures r.Some? ==> r.value < |pdfs| && pdfs[r.value].id == id
    ensures r.None? ==> forall i :: 0 <= i < |pdfs| ==> pdfs[i].id != id
  {
    Lists.FindIndex(pdfs, (p: Pdf) => p.id == id)
  }

  /** `get_pdf`. */
  function GetPdf(pdfs: seq<Pdf>, id: int): (r: Option<Pdf>)
    ensures r.Some? ==> r.value in pdfs && r.value.id == id
    ensures r.None? <==> forall i :: 0 <= i < |pdfs| ==> pdfs[i].id != id
  {
    match IndexOfPdf(pdfs, id)
    case None => None
    case Some(k) => Some(pdfs[k])
  }

  /** Primary keys below `next` and distinct. */
  predicate KeysBelow(pdfs: seq<Pdf>, next: int) {
    (forall i :: 0 <= i < |pdfs| ==> pdfs[i].id < next)
    && forall i, j :: 0 <= i < j < |pdfs| ==> pdfs[i].id != pdfs[j].id
  }

  /** Normalising paths keeps every primary key. */
  lemma NormalizeKeys(pdfs: seq<Pdf>, next: int)
    requires KeysBelow(pdfs, next)
    ensures KeysBelow(NormalizeAll(pdfs), next)
  {
    var r := NormalizeAll(pdfs);
    assert forall i :: 0 <= i < |r| ==> r[i].id == pdfs[i].id;
  }

  /** The `pdfs` table. */
  class PdfStore {
    var pdfs: seq<Pdf>
    /** The next value of the primary-key sequence. */
    var nextId: int

    predicate Valid()
      reads this
    {
      nextId >= 1 && KeysBelow(pdfs, nextId)
    }

    constructor ()
      ensures Valid() && pdfs == [] && nextId == 1
    {
      pdfs := [];
      nextId := 1;
    }

    /** `create_pdf`: the row is appended under the next key, stamped with the clock reading `now`. */
    method CreatePdf(title: string, category: string, filePath: string, isPublic: bool, now: int) returns (p: Pdf)
      requires Valid()
      modifies this
      ensures Valid()
      ensures p == Pdf(old(nextId), title, category, filePath, now, isPublic)
      ensures pdfs == old(pdfs) + [p] && nextId == old(nextId) + 1
    {
      p := Pdf(nextId, title, category, filePath, now, isPublic);
      pdfs := pdfs + [p];
      nextId := nextId + 1;
    }

    /**
     * `normalize_legacy_pdf_paths`: every row's path is rewritten in turn,
     * and a commit happens exactly when some path changed.
     */
    method NormalizeLegacyPaths() returns (committed: bool)
      requires Valid()
      modifies this
      ensures Valid() && nextId == old(nextId)
      ensures pdfs == NormalizeAll(old(pdfs))
      ensures committed <==> pdfs != old(pdfs)
    {
      ghost var original := pdfs;
      committed := false;
      for i := 0 to |pdfs|
        invariant |original| == |pdfs| && nextId == old(nextId)
        invariant pdfs == NormalizeAll(original[..i]) + original[i..]
        invariant committed <==> NormalizeAll(original[..i]) != original[..i]
      {
        Lists.MapAdvance(original, i, NormalizeRow);
        var changed := RewriteRow(i);
        committed := committed || changed;
      }
      assert original[..|original|] == original;
      NormalizeKeys(original, nextId);
    }

    /** One pass of the loop: the row's path is rewritten when normalisation changes it. */
    method RewriteRow(i: nat) returns (changed: bool)
      requires i < |pdfs|
      modifies this
      ensures nextId == old(nextId)
      ensures pdfs == old(pdfs)[i := NormalizeRow(old(pdfs)[i])]
      ensures changed <==> NormalizeRow(old(pdfs)[i]) != old(pdfs)[i]
    {
      var path := pdfs[i].filePath;
      var target := Normalized(path);
      RowStep(pdfs[i], target);
      changed := false;
      if target.Some? && target.value != path {
        pdfs := pdfs[i := pdfs[i].(filePath := target.value)];
        changed := true;
      }
    }

    /** `update_pdf`: `None` for an unknown id; otherwise the row is updated in place. */
    method UpdatePdf(id: int, title: Option<string>, isPublic: Option<bool>) returns (r: Option<Pdf>)
      requires Valid()
      modifies this
      ensures Valid() && nextId == old(nextId)
      ensures IndexOfPdf(old(pdfs), id).None? ==> r.None? && pdfs == old(pdfs)
      ensures IndexOfPdf(old(pdfs), id).Some? ==>
        var k := IndexOfPdf(old(pdfs), id).value;
        r == Some(UpdatedPdf(old(pdfs)[k], title, isPublic)) && pdfs == old(pdfs)[k := r.value]
    {
      var k := IndexOfPdf(pdfs, id);
      if k.None? {
        return None;
      }
      var pdf := pdfs[k.value];
      if title.Some? {
        pdf := pdf.(title := title.value);
      }
      if isPublic.Some? {
        pdf := pdf.(isPublic := isPublic.value);
      }
      pdfs := pdfs[k.value := pdf];
      r := Some(pdf);
    }

    /**
     * `delete_pdf`: true exactly when the row existed, and then the row is
     * removed whether or not removing its file (`unlinkFails`) succeeded.
     */
    method DeletePdf(id: int, unlinkFails: bool) returns (deleted: bool)
      requires Valid()
      modifies this
      ensures Valid() && nextId == old(nextId)
      ensures deleted <==> IndexOfPdf(old(pdfs), id).Some?
      ensures !deleted ==> pdfs == old(pdfs)
      ensures deleted ==> var k := IndexOfPdf(old(pdfs), id).value; pdfs == old(pdfs)[..k] + old(pdfs)[k + 1..]
      ensures forall i :: 0 <= i < |pdfs| ==> pdfs[i].id != id
    {
      var k := IndexOfPdf(pdfs, id);
      if k.None? {
        return false;
      }
      pdfs := pdfs[..k.value] + pdfs[k.value + 1..];
      deleted := true;
    }
  }
}
