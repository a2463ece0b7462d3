/**
 * certificates/services.py: the calibration of a certificate document and its
 * split into one PDF file per page. The PDF library, the text extractor, the
 * image renderer and `uuid4` stay outside: a document is the sequence of the
 * texts the extractor gives for its pages, the fresh folder and image names are
 * parameters, and the disk is the set of paths that exist.
 */
module Services {
  import opened Wrappers
  import opened PyText
  import opened PyPath
  import opened FileHelper

  /** The extractor's text for one page; `None` when it raised or gave no content (slicing `None` raises). */
  type PageText = Option<string>

  datatype SplitError =
    | PageTextUnavailable(page: nat)
    | ArchiveFailed

  datatype CalibrationError =
    | NoFirstPage
    | FirstPageTextUnavailable
    | NoAlphabeticContent
    | ImageWriteFailed

  /** What `CalibrationDataService.__call__` returns: the page text, the suggested name offset, the preview image. */
  datatype CalibrationData = CalibrationData(parsedPage: string, startWithAuto: nat, imagePath: string)

  const PdfExtension: string := "pdf"
  const ImageExtension: string := "png"
  const ArchiveExtension: string := "zip"

  predicate IsHexDigit(c: char)
  {
    ('0' <= c <= '9') || ('a' <= c <= 'f')
  }

  /** `str(uuid.uuid4())`: 36 characters, lower-case hex digits in groups of 8-4-4-4-12. */
  predicate IsUuid4Text(s: string)
  {
    |s| == 36 && forall i :: 0 <= i < 36 ==> if i in {8, 13, 18, 23} then s[i] == '-' else IsHexDigit(s[i])
  }

  /** `str(ARCHIVE_SAVE_PATH / temporary_folder_name)`. */
  function ScratchDir(archiveSavePath: string, folderName: string): (r: string)
    requires IsDirPath(archiveSavePath) && IsUuid4Text(folderName)
    ensures IsDirPath(r)
  {
    archiveSavePath + [Sep] + folderName
  }

  /** The name a page's file is given: its text from `namePosition` to the line end, formatted. */
  function CertificateName(text: string, namePosition: int): string
  {
    FormatFileName(TrimStringToNewline(text, namePosition))
  }

  /** A certificate name is a single path component on one line: no space, no slash, no newline. */
  lemma CertificateNameSpec(text: string, namePosition: int)
    ensures var r := CertificateName(text, namePosition);
      ' ' !in r && Sep !in r && '\n' !in r
  {
    var name := TrimStringToNewline(text, namePosition);
    TrimStringToNewlineSpec(text, namePosition);
    FormatFileNameSpec(name);
    FormatFileNameAbsent(name, '\n');
  }

  /** The disk after the pages in `written` have been saved into `savePath` (created with the first of them). */
  ghost function StateAfter(fs: FileSystem, savePath: string, written: seq<string>): FileSystem
  {
    if written == [] then fs else fs + {savePath} + set p | p in written
  }

  /** `written[k]` is the path `generate_name` picks for page `k`, given the disk left by pages `0..k-1`. */
  ghost predicate PagePathGenerated(fs: FileSystem, savePath: string, pages: seq<PageText>, namePosition: int,
                                    written: seq<string>, k: nat)
    requires k < |written| <= |pages|
  {
    && pages[k].Some?
    && var name := CertificateName(pages[k].value, namePosition);
       IsGeneratedName(StateAfter(fs, savePath, written[..k]), JoinFile(savePath, name, PdfExtension),
                       savePath, name, PdfExtension, written[k])
  }

  /** Every written path is the one `generate_name` picks for its page, in page order. */
  ghost predicate PagePathsGenerated(fs: FileSystem, savePath: string, pages: seq<PageText>, namePosition: int,
                                     written: seq<string>)
  {
    && |written| <= |pages|
    && forall k: nat :: k < |written| ==> PagePathGenerated(fs, savePath, pages, namePosition, written, k)
  }

  lemma StateAfterAppend(fs: FileSystem, dir: string, written: seq<string>, g: string)
    ensures StateAfter(fs, dir, written + [g]) == StateAfter(fs, dir, written) + {dir, g}
  {
    assert (set p | p in written + [g]) == (set p | p in written) + {g};
  }

  /** Saving the next page at its generated path keeps the account of the written paths. */
  lemma PageSaved(fs: FileSystem, dir: string, pages: seq<PageText>, namePosition: int, written: seq<string>, g: string)
    requires PagePathsGenerated(fs, dir, pages, namePosition, written)
    requires |written| < |pages| && pages[|written|].Some?
    requires var name := CertificateName(pages[|written|].value, namePosition);
      IsGeneratedName(StateAfter(fs, dir, written), JoinFile(dir, name, PdfExtension), dir, name, PdfExtension, g)
    ensures PagePathsGenerated(fs, dir, pages, namePosition, written + [g])
  {
    var next := written + [g];
    forall k: nat | k < |next| ensures PagePathGenerated(fs, dir, pages, namePosition, next, k) {
      if k < |written| {
        EarlierPageKept(fs, dir, pages, namePosition, written, g, k);
      } else {
        assert next[..k] == written;
      }
    }
  }

  lemma EarlierPageKept(fs: FileSystem, dir: string, pages: seq<PageText>, namePosition: int, written: seq<string>,
                        g: string, k: nat)
    requires k < |written| < |pages|
    requires PagePathGenerated(fs, dir, pages, namePosition, written, k)
    ensures PagePathGenerated(fs, dir, pages, namePosition, written + [g], k)
  {
    var next := written + [g];
    assert next[..k] == written[..k];
    assert next[k] == written[k];
    assert StateAfter(fs, dir, next[..k]) == StateAfter(fs, dir, written[..k]);
  }

  /** Every path written was free just before its page was saved. */
  lemma {:induction false} PagePathsFresh(fs: FileSystem, savePath: string, pages: seq<PageText>, namePosition: int,
                                          written: seq<string>)
    requires PagePathsGenerated(fs, savePath, pages, namePosition, written)
    ensures forall k :: 0 <= k < |written| ==> written[k] !in StateAfter(fs, savePath, written[..k])
  {
    forall k | 0 <= k < |written| ensures written[k] !in StateAfter(fs, savePath, written[..k]) {
      assert PagePathGenerated(fs, savePath, pages, namePosition, written, k);
      var name := CertificateName(pages[k].value, namePosition);
      GeneratedNameIsFree(StateAfter(fs, savePath, written[..k]), JoinFile(savePath, name, PdfExtension),
                          savePath, name, PdfExtension, written[k]);
    }
  }

  /** Paths that were each free when written are new to the disk and pairwise different: no page overwrites another. */
  lemma FreshPathsDistinct(fs: FileSystem, savePath: string, written: seq<string>)
    requires forall k :: 0 <= k < |written| ==> written[k] !in StateAfter(fs, savePath, written[..k])
    ensures forall k :: 0 <= k < |written| ==> written[k] !in fs
    ensures forall k, l :: 0 <= k < l < |written| ==> written[k] != written[l]
  {
    forall k, l | 0 <= k < l < |written| ensures written[k] != written[l] {
      assert written[..l][k] == written[k];
      assert written[k] in StateAfter(fs, savePath, written[..l]);
    }
  }

  /** Distinct paths: as many as there are elements. */
  lemma {:induction false} DistinctCard(written: seq<string>)
    requires forall k, l :: 0 <= k < l < |written| ==> written[k] != written[l]
    ensures |set p | p in written| == |written|
  {
    if written != [] {
      var last := written[|written| - 1];
      var init := written[..|written| - 1];
      DistinctCard(init);
      assert (set p | p in written) == (set p | p in init) + {last};
      assert last !in init;
    }
  }

  /**
   * With nothing inside the scratch directory beforehand, the archive of it holds
   * exactly the written pages, one entry per page.
   */
  lemma ArchiveEntries(fs: FileSystem, savePath: string, written: seq<string>)
    requires EntriesUnder(fs, savePath) == {}
    requires forall k :: 0 <= k < |written| ==> IsUnder(written[k], savePath)
    requires forall k, l :: 0 <= k < l < |written| ==> written[k] != written[l]
    ensures EntriesUnder(StateAfter(fs, savePath, written), savePath) == set p | p in written
    ensures |EntriesUnder(StateAfter(fs, savePath, written), savePath)| == |written|
  {
    DistinctCard(written);
    var after := StateAfter(fs, savePath, written);
    forall p | p in EntriesUnder(after, savePath) ensures p in written {
      assert p !in EntriesUnder(fs, savePath);
      assert p != savePath by { assert !IsUnder(savePath, savePath); }
    }
    forall p | p in written ensures p in EntriesUnder(after, savePath) {
      var k :| 0 <= k < |written| && written[k] == p;
    }
  }

  /**
   * The state the page loop keeps: the pages so far all had text, each got the path
   * `generate_name` picks for it inside `savePath`, and the disk holds exactly those.
   */
  ghost predicate PagesWritten(fs: FileSystem, savePath: string, pages: seq<PageText>, namePosition: int,
                               written: seq<string>, disk: FileSystem)
  {
    && |written| <= |pages|
    && None !in pages[..|written|]
    && PagePathsGenerated(fs, savePath, pages, namePosition, written)
    && (forall k :: 0 <= k < |written| ==> DirName(written[k]) == savePath && IsUnder(written[k], savePath))
    && disk == StateAfter(fs, savePath, written)
  }

  /** Saving the next page at the path `generate_name` picks for its name keeps the loop's state. */
  lemma PageWrittenStep(fs: FileSystem, savePath: string, pages: seq<PageText>, namePosition: int,
                        written: seq<string>, disk: FileSystem, g: string)
    requires IsDirPath(savePath)
    requires PagesWritten(fs, savePath, pages, namePosition, written, disk)
    requires |written| < |pages| && pages[|written|].Some?
    requires var name := CertificateName(pages[|written|].value, namePosition);
      IsGeneratedName(disk, JoinFile(savePath, name, PdfExtension), savePath, name, PdfExtension, g)
    ensures g !in disk && DirName(g) == savePath
    ensures PagesWritten(fs, savePath, pages, namePosition, written + [g], disk + {savePath, g})
  {
    var name := CertificateName(pages[|written|].value, namePosition);
    CertificateNameSpec(pages[|written|].value, namePosition);
    GeneratedNameIsFree(disk, JoinFile(savePath, name, PdfExtension), savePath, name, PdfExtension, g);
    GeneratedNameInDir(disk, savePath, name, PdfExtension, g);
    PageSaved(fs, savePath, pages, namePosition, written, g);
    StateAfterAppend(fs, savePath, written, g);
    TextsExtend(pages, |written|);
  }

  /** One more page with text extends the run of pages with text. */
  lemma TextsExtend(pages: seq<PageText>, n: nat)
    requires n < |pages| && None !in pages[..n] && pages[n].Some?
    ensures None !in pages[..n + 1]
  {
    assert pages[..n + 1] == pages[..n] + [pages[n]];
  }

  /**
   * One turn of the page loop of `SplitCertificatesService.__call__`: the page's name is
   * read from its text, made free with `generate_name`, its directory is made when
   * missing and the page is written there; `save_path` becomes that directory again.
   */
  method SavePage(fs: FileSystem, savePath: string, pages: seq<PageText>, namePosition: int, written: seq<string>,
                  disk: FileSystem)
    returns (generatedName: string, disk': FileSystem, savePath': string)
    requires IsDirPath(savePath)
    requires PagesWritten(fs, savePath, pages, namePosition, written, disk)
    requires |written| < |pages| && pages[|written|].Some?
    ensures PagesWritten(fs, savePath, pages, namePosition, written + [generatedName], disk')
    ensures generatedName !in disk
    ensures disk' == disk + {savePath, generatedName}
    ensures savePath' == savePath
  {
    var parsedDocument := pages[|written|].value;
    var certificateName := TrimStringToNewline(parsedDocument, namePosition);
    var formattedName := FormatFileName(certificateName);
    var fullPath := JoinFile(savePath, formattedName, PdfExtension);
    generatedName := GenerateName(disk, fullPath, savePath, formattedName);
    assert formattedName == CertificateName(parsedDocument, namePosition);
    PageWrittenStep(fs, savePath, pages, namePosition, written, disk, generatedName);
    savePath' := DirName(generatedName);
    disk' := disk;
    if savePath' !in disk' {
      disk' := disk' + {savePath'};
    }
    disk' := disk' + {generatedName};
  }

  /**
   * The page loop of `SplitCertificatesService.__call__`: pages are saved in order until
   * one has no text, where the service raises; `saved` counts the pages written.
   */
  method SavePages(fs: FileSystem, scratchDir: string, pages: seq<PageText>, namePosition: int)
    returns (saved: nat, disk: FileSystem, written: seq<string>)
    requires IsDirPath(scratchDir)
    ensures saved == |written| <= |pages|
    ensures None !in pages[..saved]
    ensures saved < |pages| ==> pages[saved].None?
    ensures PagePathsGenerated(fs, scratchDir, pages, namePosition, written)
    ensures forall k :: 0 <= k < saved ==> DirName(written[k]) == scratchDir && IsUnder(written[k], scratchDir)
    ensures disk == StateAfter(fs, scratchDir, written)
  {
    disk, written := fs, [];
    saved := 0;
    var savePath := scratchDir;
    while saved < |pages| && pages[saved].Some?
      invariant savePath == scratchDir
      invariant saved == |written|
      invariant PagesWritten(fs, savePath, pages, namePosition, written, disk)
    {
      var generatedName;
      generatedName, disk, savePath := SavePage(fs, savePath, pages, namePosition, written, disk);
      written := written + [generatedName];
      saved := saved + 1;
    }
  }

  /**
   * `SplitCertificatesService.__call__`: every page is saved, in order, under the
   * name read from its text at `namePosition`, numbered when taken; then the scratch
   * directory is zipped beside itself and removed. Nothing is cleaned up when a page fails.
   */
  method SplitCertificates(fs: FileSystem, pages: seq<PageText>, namePosition: int,
                           archiveSavePath: string, temporaryFolderName: string)
    returns (result: Result<string, SplitError>, fs': FileSystem, written: seq<string>)
    requires IsDirPath(archiveSavePath) && IsUuid4Text(temporaryFolderName)
    ensures PagePathsGenerated(fs, ScratchDir(archiveSavePath, temporaryFolderName), pages, namePosition, written)
    ensures forall k :: 0 <= k < |written| ==>
      && written[k] !in fs
      && DirName(written[k]) == ScratchDir(archiveSavePath, temporaryFolderName)
      && IsUnder(written[k], ScratchDir(archiveSavePath, temporaryFolderName))
    ensures forall k, l :: 0 <= k < l < |written| ==> written[k] != written[l]
    ensures result.Success? <==> None !in pages && (pages != [] || ScratchDir(archiveSavePath, temporaryFolderName) in fs)
    ensures result.Success? ==>
      var dir := ScratchDir(archiveSavePath, temporaryFolderName);
      && result.value == dir + "." + ArchiveExtension
      && |written| == |pages|
      && fs' == RemoveTree(StateAfter(fs, dir, written) + {result.value}, dir)
      && result.value in fs' && dir !in fs'
      && (forall k :: 0 <= k < |written| ==> written[k] !in fs')
      && (EntriesUnder(fs, dir) == {} ==>
            && EntriesUnder(StateAfter(fs, dir, written), dir) == (set p | p in written)
            && |EntriesUnder(StateAfter(fs, dir, written), dir)| == |pages|)
    ensures result.Failure? && result.error.PageTextUnavailable? ==>
      && result.error.page == |written| < |pages|
      && pages[|written|].None?
      && fs' == StateAfter(fs, ScratchDir(archiveSavePath, temporaryFolderName), written)
    ensures result == Failure(ArchiveFailed) ==> pages == [] && written == [] && fs' == fs
  {
    var savePath := ScratchDir(archiveSavePath, temporaryFolderName);
    var saved;
    saved, fs', written := SavePages(fs, savePath, pages, namePosition);
    PagePathsFresh(fs, savePath, pages, namePosition, written);
    FreshPathsDistinct(fs, savePath, written);
    if saved < |pages| {
      assert pages[saved] in pages;
      result := Failure(PageTextUnavailable(saved));
      return;
    }
    assert pages[..|pages|] == pages;
    if savePath !in fs' {
      result := Failure(ArchiveFailed);
      return;
    }
    if EntriesUnder(fs, savePath) == {} {
      ArchiveEntries(fs, savePath, written);
    }
    var archive := savePath + "." + ArchiveExtension;
    fs' := fs' + {archive};
    ArchiveThenRemove(fs', savePath);
    ArchiveSurvives(fs', savePath, written);
    fs' := RemoveTree(fs', savePath);
    result := Success(archive);
  }

  /**
   * The archive `<dir>.zip` lies beside `dir`, not inside it, so removing `dir` keeps the
   * archive and drops `dir` and every page written inside it.
   */
  lemma ArchiveSurvives(disk: FileSystem, dir: string, written: seq<string>)
    requires dir + "." + ArchiveExtension in disk
    requires forall k :: 0 <= k < |written| ==> IsUnder(written[k], dir)
    ensures var after := RemoveTree(disk, dir);
      && dir + "." + ArchiveExtension in after
      && dir !in after
      && forall k :: 0 <= k < |written| ==> written[k] !in after
  {
    var archive := dir + "." + ArchiveExtension;
    assert archive[|dir|] == '.';
    assert !IsUnder(archive, dir);
  }

  /**
   * `_save_first_pdf_page_to_image`, corrected: the PNG gets a free name in the image
   * directory, and that directory, not the image path, is made when missing.
   */
  method SaveFirstPageToImage(fs: FileSystem, imageSavePath: string, imageName: string)
    returns (imagePath: string, fs': FileSystem)
    requires IsDirPath(imageSavePath) && IsUuid4Text(imageName)
    ensures IsGeneratedName(fs, JoinFile(imageSavePath, imageName, ImageExtension), imageSavePath, imageName,
                            ImageExtension, imagePath)
    ensures imagePath !in fs && DirName(imagePath) == imageSavePath && IsUnder(imagePath, imageSavePath)
    ensures fs' == fs + {imageSavePath, imagePath}
  {
    var fullPath := JoinFile(imageSavePath, imageName, ImageExtension);
    imagePath := GenerateName(fs, fullPath, imageSavePath, imageName, ImageExtension);
    GeneratedNameInDir(fs, imageSavePath, imageName, ImageExtension, imagePath);
    fs' := fs;
    var imageDir := DirName(imagePath);
    if imageDir !in fs' {
      fs' := fs' + {imageDir};
    }
    fs' := fs' + {imagePath};
  }

  /**
   * `_save_first_pdf_page_to_image` as written: when the image directory is missing,
   * `mkdir` is given the image path itself, so a directory takes the PNG's place and
   * writing the PNG fails.
   */
  method SaveFirstPageToImageAsWritten(fs: FileSystem, imageSavePath: string, imageName: string)
    returns (result: Result<string, CalibrationError>, imagePath: string, fs': FileSystem)
    requires IsDirPath(imageSavePath) && IsUuid4Text(imageName)
    ensures IsGeneratedName(fs, JoinFile(imageSavePath, imageName, ImageExtension), imageSavePath, imageName,
                            ImageExtension, imagePath)
    ensures imagePath !in fs && DirName(imagePath) == imageSavePath
    ensures result.Failure? <==> imageSavePath !in fs
    ensures result.Success? ==> result.value == imagePath && fs' == fs + {imagePath}
    ensures result.Failure? ==> result.error == ImageWriteFailed && fs' == fs + {imageSavePath, imagePath}
  {
    var fullPath := JoinFile(imageSavePath, imageName, ImageExtension);
    imagePath := GenerateName(fs, fullPath, imageSavePath, imageName, ImageExtension);
    GeneratedNameInDir(fs, imageSavePath, imageName, ImageExtension, imagePath);
    fs' := fs;
    var imageDir := DirName(imagePath);
    var imageIsDirectory := false;
    if imageDir !in fs' {
      fs' := fs' + {imageDir, imagePath};
      imageIsDirectory := true;
    }
    if imageIsDirectory {
      result := Failure(ImageWriteFailed);
    } else {
      fs' := fs' + {imagePath};
      result := Success(imagePath);
    }
  }

  /**
   * `CalibrationDataService.__call__` with the corrected image step: the text of the
   * first page, the index of its first letter (the suggested name position) and a fresh
   * preview image of the page, its directory made when missing.
   */
  method Calibrate(fs: FileSystem, pages: seq<PageText>, imageSavePath: string, imageName: string)
    returns (result: Result<CalibrationData, CalibrationError>, fs': FileSystem)
    requires IsDirPath(imageSavePath) && IsUuid4Text(imageName)
    ensures result == Failure(NoFirstPage) <==> pages == []
    ensures result == Failure(FirstPageTextUnavailable) <==> pages != [] && pages[0].None?
    ensures result == Failure(NoAlphabeticContent) <==> pages != [] && pages[0].Some? && NoAlpha(pages[0].value)
    ensures result.Failure? ==> result.error != ImageWriteFailed && fs' == fs
    ensures result.Success? ==>
      && pages != [] && pages[0] == Some(result.value.parsedPage)
      && var text, start := result.value.parsedPage, result.value.startWithAuto;
         start < |text| && IsAlpha(text[start]) && NoAlpha(text[..start])
    ensures result.Success? ==>
      && var imagePath := result.value.imagePath;
         imagePath !in fs && DirName(imagePath) == imageSavePath
         && fs' == fs + {imageSavePath, imagePath}
  {
    fs' := fs;
    if pages == [] {
      return Failure(NoFirstPage), fs';
    }
    if pages[0].None? {
      return Failure(FirstPageTextUnavailable), fs';
    }
    var parsedPdf := pages[0].value;
    var startWithAuto := GetFirstAlphaFromString(parsedPdf);
    if startWithAuto.None? {
      return Failure(NoAlphabeticContent), fs';
    }
    var calibrationCertificatePath;
    calibrationCertificatePath, fs' := SaveFirstPageToImage(fs, imageSavePath, imageName);
    result := Success(CalibrationData(parsedPdf, startWithAuto.value, calibrationCertificatePath));
  }

  /**
   * `CalibrationDataService.__call__` as written: as above, except that on a disk without
   * the image directory the preview image cannot be written and the call fails, leaving
   * that directory and a directory at the image path behind.
   */
  method CalibrateAsWritten(fs: FileSystem, pages: seq<PageText>, imageSavePath: string, imageName: string)
    returns (result: Result<CalibrationData, CalibrationError>, fs': FileSystem)
    requires IsDirPath(imageSavePath) && IsUuid4Text(imageName)
    ensures result == Failure(NoFirstPage) <==> pages == []
    ensures result == Failure(FirstPageTextUnavailable) <==> pages != [] && pages[0].None?
    ensures result == Failure(NoAlphabeticContent) <==> pages != [] && pages[0].Some? && NoAlpha(pages[0].value)
    ensures result == Failure(ImageWriteFailed) <==>
      pages != [] && pages[0].Some? && !NoAlpha(pages[0].value) && imageSavePath !in fs
    ensures result == Failure(ImageWriteFailed) ==>
      exists imagePath ::
        && IsGeneratedName(fs, JoinFile(imageSavePath, imageName, ImageExtension), imageSavePath, imageName,
                           ImageExtension, imagePath)
        && fs' == fs + {imageSavePath, imagePath}
    ensures result.Failure? && result.error != ImageWriteFailed ==> fs' == fs
    ensures result.Success? ==>
      && pages != [] && pages[0] == Some(result.value.parsedPage)
      && var text, start := result.value.parsedPage, result.value.startWithAuto;
         start < |text| && IsAlpha(text[start]) && NoAlpha(text[..start])
    ensures result.Success? ==>
      && var imagePath := result.value.imagePath;
         imagePath !in fs && DirName(imagePath) == imageSavePath
         && fs' == fs + {imagePath}
  {
    fs' := fs;
    if pages == [] {
      return Failure(NoFirstPage), fs';
    }
    if pages[0].None? {
      return Failure(FirstPageTextUnavailable), fs';
    }
    var parsedPdf := pages[0].value;
    var startWithAuto := GetFirstAlphaFromString(parsedPdf);
    if startWithAuto.None? {
      return Failure(NoAlphabeticContent), fs';
    }
    var saved, calibrationCertificatePath;
    saved, calibrationCertificatePath, fs' := SaveFirstPageToImageAsWritten(fs, imageSavePath, imageName);
    if saved.Failure? {
      return Failure(saved.error), fs';
    }
    result := Success(CalibrationData(parsedPdf, startWithAuto.value, calibrationCertificatePath));
  }

  /** A letter is neither whitespace, nor a line end, nor a slash. */
  lemma LetterIsNameChar(c: char)
    requires IsAlpha(c)
    ensures !IsSpace(c) && c != '\n' && c != Sep
  {
  }

  /**
   * The suggested position makes the first page's file name start with the page's
   * first letter: calibration and split agree.
   */
  lemma CalibratedNameStartsWithLetter(text: string, start: nat)
    requires GetFirstAlphaFromString(text) == Some(start)
    ensures var name := CertificateName(text, start); name != [] && name[0] == text[start]
  {
    LetterIsNameChar(text[start]);
    var line := TrimStringToNewline(text, start);
    assert SliceFrom(text, start)[0] == text[start];
    assert line != [] && line[0] == text[start];
    var stripped := Strip(line);
    assert StripLeading(line) == line;
    assert stripped == StripTrailing(line);
    StripTrailingSpec(line);
    assert stripped != [] && stripped[0] == text[start];
    var underscored := FormatSpaceToUnderscore(stripped);
    FormatSpaceToUnderscoreSpec(stripped);
    assert underscored[0] == text[start];
    assert RemoveChar(underscored, Sep)[0] == text[start];
  }
}
