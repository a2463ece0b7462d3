/**
 * The scenarios of certificates/tests: a three-page document whose first two pages
 * carry the same name, and the calibration of its first page.
 */
module ServiceScenarios {
  import opened Wrappers
  import opened PyText
  import opened PyPath
  import opened FileHelper
  import opened Services

  /** The extractor's text of a page naming Ibrahim, and of one naming Yusuf. */
  const IbrahimPage: string := "\n\n\n \nIbrahim\n"
  const YusufPage: string := "\n\n\n \nYusuf\n"
  const NamePosition: int := 5

  /** A sample page names its certificate on the line that starts at the name position. */
  lemma SamplePageName(page: string, name: string)
    requires page == "\n\n\n \n" + name + "\n"
    requires name != [] && !IsSpace(name[0]) && !IsSpace(name[|name| - 1])
    requires '\n' !in name && ' ' !in name && Sep !in name
    ensures CertificateName(page, NamePosition) == name
  {
    assert SliceFrom(page, NamePosition) == name + "\n";
    assert (name + "\n")[..|name|] == name;
    PartitionHeadAt(name + "\n", '\n', |name|);
    FormatFileNameKeepsName(name);
  }

  lemma IbrahimName()
    ensures CertificateName(IbrahimPage, NamePosition) == "Ibrahim"
  {
    SamplePageName(IbrahimPage, "Ibrahim");
  }

  lemma YusufName()
    ensures CertificateName(YusufPage, NamePosition) == "Yusuf"
  {
    SamplePageName(YusufPage, "Yusuf");
  }

  /** A path spelled inside `dir` is not on a disk with nothing inside `dir`. */
  lemma AbsentUnder(fs: FileSystem, dir: string, tail: string)
    requires EntriesUnder(fs, dir) == {}
    ensures dir + [Sep] + tail !in fs
  {
    var p := dir + [Sep] + tail;
    assert p[..|dir| + 1] == dir + [Sep];
    assert IsUnder(p, dir);
    assert p in fs ==> p in EntriesUnder(fs, dir);
  }

  /**
   * Three files named `a`, `a` and `b` saved one after the other into a directory
   * with nothing in it get `a.pdf`, then `a_1.pdf` for the repeated name, then `b.pdf`.
   */
  lemma RepeatedNameNumbered(fs: FileSystem, dir: string, a: string, b: string, w0: string, w1: string, w2: string)
    requires EntriesUnder(fs, dir) == {}
    requires b != a && b != a + "_1"
    requires IsGeneratedName(fs, JoinFile(dir, a, PdfExtension), dir, a, PdfExtension, w0)
    requires IsGeneratedName(fs + {dir, w0}, JoinFile(dir, a, PdfExtension), dir, a, PdfExtension, w1)
    requires IsGeneratedName(fs + {dir, w0, w1}, JoinFile(dir, b, PdfExtension), dir, b, PdfExtension, w2)
    ensures w0 == dir + [Sep] + a + ".pdf" && w1 == dir + [Sep] + a + "_1.pdf" && w2 == dir + [Sep] + b + ".pdf"
  {
    AbsentUnder(fs, dir, a + ".pdf");
    assert JoinFile(dir, a, PdfExtension) == dir + [Sep] + (a + ".pdf");
    FreeNameKept(fs, dir, a, w0);
    FirstNumberTaken(fs, dir, a, w0, w1);
    ThirdNameFree(fs, dir, a, b, w0, w1);
    FreeNameKept(fs + {dir, w0, w1}, dir, b, w2);
  }

  /** A wanted path that is free is taken as it is. */
  lemma FreeNameKept(disk: FileSystem, dir: string, a: string, w: string)
    requires JoinFile(dir, a, PdfExtension) !in disk
    requires IsGeneratedName(disk, JoinFile(dir, a, PdfExtension), dir, a, PdfExtension, w)
    ensures w == dir + [Sep] + a + ".pdf"
  {
  }

  /** A different name is free after the first two pages. */
  lemma ThirdNameFree(fs: FileSystem, dir: string, a: string, b: string, w0: string, w1: string)
    requires EntriesUnder(fs, dir) == {}
    requires b != a && b != a + "_1"
    requires w0 == dir + [Sep] + a + ".pdf" && w1 == dir + [Sep] + a + "_1.pdf"
    ensures JoinFile(dir, b, PdfExtension) !in fs + {dir, w0, w1}
  {
    var third := JoinFile(dir, b, PdfExtension);
    assert third == dir + [Sep] + (b + ".pdf") == dir + [Sep] + b + ".pdf";
    AbsentUnder(fs, dir, b + ".pdf");
    assert |third| > |dir|;
    DistinctTails(dir, a, b, ".pdf");
    DistinctTails(dir, a + "_1", b, ".pdf");
    assert w1 == dir + [Sep] + (a + "_1") + ".pdf";
  }

  /** The wanted path just taken, the next page of the same name gets number 1. */
  lemma FirstNumberTaken(fs: FileSystem, dir: string, a: string, w0: string, w1: string)
    requires EntriesUnder(fs, dir) == {}
    requires w0 == dir + [Sep] + a + ".pdf"
    requires IsGeneratedName(fs + {dir, w0}, JoinFile(dir, a, PdfExtension), dir, a, PdfExtension, w1)
    ensures w1 == dir + [Sep] + a + "_1.pdf"
  {
    var second := NumberedPath(dir, a, 1, PdfExtension);
    assert NatToString(1) == "1";
    assert second == dir + [Sep] + (a + "_1.pdf");
    AbsentUnder(fs, dir, a + "_1.pdf");
    assert |second| > |w0| > |dir|;
    assert LeastFreeNumber(fs + {dir, w0}, dir, a, PdfExtension, 1);
    assert JoinFile(dir, a, PdfExtension) == w0;
    assert IsGeneratedName(fs + {dir, w0}, JoinFile(dir, a, PdfExtension), dir, a, PdfExtension, second);
    GeneratedNameUnique(fs + {dir, w0}, JoinFile(dir, a, PdfExtension), dir, a, PdfExtension, w1, second);
  }

  lemma DistinctTails(dir: string, s: string, t: string, ext: string)
    requires s != t
    ensures dir + [Sep] + s + ext != dir + [Sep] + t + ext
  {
    if |s| == |t| {
      var i :| 0 <= i < |s| && s[i] != t[i];
      assert (dir + [Sep] + s + ext)[|dir| + 1 + i] == s[i];
      assert (dir + [Sep] + t + ext)[|dir| + 1 + i] == t[i];
    }
  }

  /** Page `k` of the account, with the disk it met spelled out. */
  lemma PageGenerated(fs: FileSystem, dir: string, pages: seq<PageText>, written: seq<string>, k: nat,
                      name: string, disk: FileSystem)
    requires k < |written| <= |pages| && pages[k].Some?
    requires PagePathsGenerated(fs, dir, pages, NamePosition, written)
    requires CertificateName(pages[k].value, NamePosition) == name
    requires StateAfter(fs, dir, written[..k]) == disk
    ensures IsGeneratedName(disk, JoinFile(dir, name, PdfExtension), dir, name, PdfExtension, written[k])
  {
    assert PagePathGenerated(fs, dir, pages, NamePosition, written, k);
  }

  lemma StateAfterTwo(fs: FileSystem, dir: string, w0: string, w1: string)
    ensures StateAfter(fs, dir, [w0]) == fs + {dir, w0}
    ensures StateAfter(fs, dir, [w0, w1]) == fs + {dir, w0, w1}
  {
    assert (set p | p in [w0]) == {w0};
    assert (set p | p in [w0, w1]) == {w0, w1};
  }

  /** What the account of the three written paths says page by page. */
  lemma ThreePagesGenerated(fs: FileSystem, dir: string, pages: seq<PageText>, written: seq<string>,
                            a: string, b: string)
    requires |pages| == |written| == 3 && pages[0] == pages[1] && pages[0].Some? && pages[2].Some?
    requires CertificateName(pages[0].value, NamePosition) == a && CertificateName(pages[2].value, NamePosition) == b
    requires PagePathsGenerated(fs, dir, pages, NamePosition, written)
    ensures IsGeneratedName(fs, JoinFile(dir, a, PdfExtension), dir, a, PdfExtension, written[0])
    ensures IsGeneratedName(fs + {dir, written[0]}, JoinFile(dir, a, PdfExtension), dir, a, PdfExtension, written[1])
    ensures IsGeneratedName(fs + {dir, written[0], written[1]}, JoinFile(dir, b, PdfExtension), dir, b, PdfExtension,
                            written[2])
  {
    assert written[..0] == [];
    PageGenerated(fs, dir, pages, written, 0, a, fs);
    assert written[..1] == [written[0]];
    assert written[..2] == [written[0], written[1]];
    StateAfterTwo(fs, dir, written[0], written[1]);
    PageGenerated(fs, dir, pages, written, 1, a, fs + {dir, written[0]});
    PageGenerated(fs, dir, pages, written, 2, b, fs + {dir, written[0], written[1]});
  }

  /**
   * Three pages whose first two carry name `a` and whose third carries `b`, split into a
   * directory with nothing in it, give `a.pdf`, `a_1.pdf` and `b.pdf`.
   */
  lemma ThreePageNames(fs: FileSystem, dir: string, pages: seq<PageText>, written: seq<string>, a: string, b: string)
    requires EntriesUnder(fs, dir) == {}
    requires |pages| == |written| == 3 && pages[0] == pages[1] && pages[0].Some? && pages[2].Some?
    requires CertificateName(pages[0].value, NamePosition) == a && CertificateName(pages[2].value, NamePosition) == b
    requires b != a && b != a + "_1"
    requires PagePathsGenerated(fs, dir, pages, NamePosition, written)
    ensures written == [dir + [Sep] + a + ".pdf", dir + [Sep] + a + "_1.pdf", dir + [Sep] + b + ".pdf"]
  {
    ThreePagesGenerated(fs, dir, pages, written, a, b);
    RepeatedNameNumbered(fs, dir, a, b, written[0], written[1], written[2]);
  }

  /** The three-page sample gives `Ibrahim.pdf`, `Ibrahim_1.pdf` and `Yusuf.pdf`. */
  lemma SplitSampleNames(fs: FileSystem, dir: string, written: seq<string>)
    requires EntriesUnder(fs, dir) == {}
    requires PagePathsGenerated(fs, dir, [Some(IbrahimPage), Some(IbrahimPage), Some(YusufPage)], NamePosition, written)
    requires |written| == 3
    ensures written == [dir + "/Ibrahim.pdf", dir + "/Ibrahim_1.pdf", dir + "/Yusuf.pdf"]
  {
    IbrahimName();
    YusufName();
    ThreePageNames(fs, dir, [Some(IbrahimPage), Some(IbrahimPage), Some(YusufPage)], written, "Ibrahim", "Yusuf");
    SampleTails(dir);
  }

  lemma SampleTails(dir: string)
    ensures dir + [Sep] + "Ibrahim" + ".pdf" == dir + "/Ibrahim.pdf"
    ensures dir + [Sep] + "Ibrahim" + "_1.pdf" == dir + "/Ibrahim_1.pdf"
    ensures dir + [Sep] + "Yusuf" + ".pdf" == dir + "/Yusuf.pdf"
  {
    SampleTail(dir, "Ibrahim", ".pdf", "/Ibrahim.pdf");
    SampleTail(dir, "Ibrahim", "_1.pdf", "/Ibrahim_1.pdf");
    SampleTail(dir, "Yusuf", ".pdf", "/Yusuf.pdf");
  }

  /** A joined path spelled as the directory followed by one literal tail. */
  lemma SampleTail(dir: string, name: string, ext: string, tail: string)
    requires tail == [Sep] + name + ext
    ensures dir + [Sep] + name + ext == dir + tail
  {
  }

  /** The calibration of the first page suggests the position the split above uses. */
  lemma CalibrationSampleOffset()
    ensures GetFirstAlphaFromString(IbrahimPage) == Some(5)
  {
    assert IbrahimPage[..5] == "\n\n\n \n";
    FirstAlphaAt(IbrahimPage, 5);
  }

  /**
   * The split through the service of three pages whose first two carry name `a` and whose
   * third carries `b`, on any disk with nothing inside the fresh scratch directory.
   */
  method SplitRepeatedName(fs: FileSystem, pages: seq<PageText>, archiveSavePath: string, folderName: string,
                           a: string, b: string)
    returns (archive: string, fs': FileSystem, written: seq<string>)
    requires IsDirPath(archiveSavePath) && IsUuid4Text(folderName)
    requires EntriesUnder(fs, ScratchDir(archiveSavePath, folderName)) == {}
    requires |pages| == 3 && pages[0] == pages[1] && pages[0].Some? && pages[2].Some?
    requires CertificateName(pages[0].value, NamePosition) == a && CertificateName(pages[2].value, NamePosition) == b
    requires b != a && b != a + "_1"
    ensures var dir := ScratchDir(archiveSavePath, folderName);
      written == [dir + [Sep] + a + ".pdf", dir + [Sep] + a + "_1.pdf", dir + [Sep] + b + ".pdf"]
    ensures archive == ScratchDir(archiveSavePath, folderName) + ".zip"
    ensures archive in fs' && ScratchDir(archiveSavePath, folderName) !in fs'
    ensures var dir := ScratchDir(archiveSavePath, folderName);
      EntriesUnder(StateAfter(fs, dir, written), dir) == {written[0], written[1], written[2]}
  {
    assert None !in pages by {
      assert forall k :: 0 <= k < 3 ==> pages[k].Some?;
    }
    var result;
    result, fs', written := SplitCertificates(fs, pages, NamePosition, archiveSavePath, folderName);
    archive := result.value;
    ArchivePath(ScratchDir(archiveSavePath, folderName));
    ThreePageNames(fs, ScratchDir(archiveSavePath, folderName), pages, written, a, b);
    ThreeElements(written);
  }

  lemma ThreeElements(written: seq<string>)
    requires |written| == 3
    ensures (set p | p in written) == {written[0], written[1], written[2]}
  {
  }

  lemma ArchivePath(dir: string)
    ensures dir + "." + ArchiveExtension == dir + ".zip"
  {
    assert "." + ArchiveExtension == ".zip";
  }

  /** The split scenario: the archive is made and the sample pages get the expected paths. */
  method SplitSampleDocument(fs: FileSystem, archiveSavePath: string, folderName: string)
    returns (archive: string, fs': FileSystem, written: seq<string>)
    requires IsDirPath(archiveSavePath) && IsUuid4Text(folderName)
    requires EntriesUnder(fs, ScratchDir(archiveSavePath, folderName)) == {}
    ensures written == [ScratchDir(archiveSavePath, folderName) + "/Ibrahim.pdf",
                        ScratchDir(archiveSavePath, folderName) + "/Ibrahim_1.pdf",
                        ScratchDir(archiveSavePath, folderName) + "/Yusuf.pdf"]
    ensures archive == ScratchDir(archiveSavePath, folderName) + ".zip"
    ensures archive in fs' && ScratchDir(archiveSavePath, folderName) !in fs'
    ensures var dir := ScratchDir(archiveSavePath, folderName);
      EntriesUnder(StateAfter(fs, dir, written), dir) == {written[0], written[1], written[2]}
  {
    IbrahimName();
    YusufName();
    archive, fs', written := SplitRepeatedName(fs, [Some(IbrahimPage), Some(IbrahimPage), Some(YusufPage)],
                                          archiveSavePath, folderName, "Ibrahim", "Yusuf");
    SampleTails(ScratchDir(archiveSavePath, folderName));
  }

  /**
   * The calibration scenario through the service as written, on any disk that already
   * has the image directory: the page's text, position 5 and an image in that directory.
   */
  method CalibrateSampleDocument(fs: FileSystem, imageSavePath: string, imageName: string)
    returns (data: CalibrationData, fs': FileSystem)
    requires IsDirPath(imageSavePath) && IsUuid4Text(imageName)
    requires imageSavePath in fs
    ensures data.parsedPage == IbrahimPage && data.startWithAuto == 5
    ensures DirName(data.imagePath) == imageSavePath && data.imagePath !in fs
    ensures fs' == fs + {data.imagePath}
  {
    var result;
    result, fs' := CalibrateAsWritten(fs, [Some(IbrahimPage)], imageSavePath, imageName);
    CalibrationSampleOffset();
    assert !NoAlpha(IbrahimPage);
    data := result.value;
    FirstAlphaAt(IbrahimPage, data.startWithAuto);
  }

  /**
   * As written, the preview image cannot be saved on a disk without the image
   * directory: the directory made is the PNG's own path.
   */
  method CalibrationImageOnFreshDiskAsWritten(imageSavePath: string, imageName: string)
    returns (result: Result<string, CalibrationError>, imagePath: string)
    requires IsDirPath(imageSavePath) && IsUuid4Text(imageName)
    ensures result == Failure(ImageWriteFailed)
    ensures imagePath == JoinFile(imageSavePath, imageName, ImageExtension)
  {
    var fs';
    result, imagePath, fs' := SaveFirstPageToImageAsWritten({}, imageSavePath, imageName);
  }
}
