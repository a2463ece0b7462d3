# Splitting fiqh certificates: a Dafny model

The service takes one PDF document that holds many certificates, one per page.
It does two jobs:

- **Calibration** (`CalibrationDataService`). It reads the text of the first page. It suggests, as the
  position of the holder's name, the index of the first letter in that text. It renders the page to a
  PNG preview with a fresh name.
- **Split** (`SplitCertificatesService`). It saves every page as its own PDF file in a fresh scratch
  directory. Each file is named after the line of the page's text that starts at the chosen position,
  formatted by `FileHelper.format_file_name`. A name already taken gets `_1`, `_2`, … appended
  (`FileHelper.generate_name`). The scratch directory is then zipped beside itself and removed.

The model covers `FileHelper` (certificates/helpers.py) and the two services (certificates/services.py).
It is built as follows:

- A page is the text the extractor gives for it. `None` stands for an extractor that raised or gave no
  content; slicing Python's `None` raises.
- The disk is the set of paths that exist. Files and directories are not told apart.
- The fresh `uuid4` names and the configured save directories are parameters.
- Each service is a method that returns a `Result` together with the new disk.
- The Python `str` and `os.path` operations the code relies on are written out with Python's own edge
  cases. This covers slices with negative or out-of-range starts, `partition`, the exact whitespace set
  of `strip()`, `replace`, `find`, `str(int)` and POSIX `dirname`.

Files:

- `wrappers.dfy`: `Option` and `Result`.
- `py_text.dfy` (module `PyText`): the `str` builtins, each a function with a lemma stating its meaning.
- `py_path.dfy` (module `PyPath`): `os.path.dirname`, "inside directory", `shutil.rmtree` and what a zip
  of a directory holds.
- `file_helper.dfy` (module `FileHelper`): the helpers. `generate_name` is a method with its probing
  loop. It is proved against `IsGeneratedName`, which says: the wanted path if free, else the least
  free numbered path.
- `services.dfy` (module `Services`):
  - `SplitCertificates`, with its page loop (`SavePages`) and one turn of it (`SavePage`).
  - `Calibrate`, and the preview image as written and corrected.
  - The account `PagePathsGenerated` of which path each page received.
- `service_tests.dfy` (module `ServiceScenarios`): the repository's two service scenarios.
  - The split is proved for every fresh folder name and every disk with nothing inside the scratch directory.
  - Calibration is proved, through the service as written, for every fresh image name and every disk
    that already has the image directory. On a disk without it the service as written fails (see
    "## Findings").

Where the code and the written design disagree, the model follows the code:

- A failed split leaves the pages already written and the scratch directory on disk. The code does no
  cleanup.
- A page whose extractor returns no content fails the split. It does not yield an empty name.
- `name_position` may be any integer. A negative one counts from the end of the text, as Python slicing
  does.
- Sanitising a name is not idempotent (`FileHelper.FormatFileNameNotIdempotent`). Stripping happens before
  spaces and `/` are removed, so a name can come out with new leading or trailing whitespace, and
  sanitising it again changes it.

## Model

| member | source | states |
|---|---|---|
| PyText.PartitionHeadSpec | certificates/helpers.py:10 | `partition('\n')[0]` is a prefix without a newline, and it is all of the text or is followed by a newline |
| PyText.PartitionHeadAt | certificates/helpers.py:10 | the head ends exactly at the first newline |
| PyText.SliceFromSpec | certificates/helpers.py:9 | `s[k:]` is a suffix of `s`, whose length follows Python's clamping for positive, negative and out-of-range `k` |
| PyText.StripSpec | certificates/helpers.py:15 | `strip()` keeps a middle part surrounded only by whitespace, that part neither starts nor ends with whitespace, and text already clean is kept |
| PyText.StripChars | certificates/helpers.py:15 | `strip()` adds no character |
| PyText.ReplaceCharSpec | certificates/helpers.py:23 | `replace(a, b)` keeps the length and changes exactly the positions holding `a` |
| PyText.RemoveCharSpec | certificates/helpers.py:17 | `replace('/', '')` leaves no slash and changes nothing when there was none |
| PyText.RemoveCharCount | certificates/helpers.py:17 | `replace('/', '')` keeps every other character exactly as often as it occurred (multiset) |
| PyText.RemoveCharConcat | certificates/helpers.py:17 | `replace('/', '')` of a concatenation is the concatenation of the results, so the kept characters keep their order |
| PyText.FindSpec | certificates/helpers.py:28 | `find(c)` is -1 exactly when `c` is absent, otherwise the index of its first occurrence |
| PyText.FirstAlphaSpec | certificates/helpers.py:28 | `next(filter(str.isalpha, s))` stops (None) exactly when `s` has no letter, otherwise gives a letter with no letter before it |
| PyText.ParseNatToString | certificates/helpers.py:38 | the decimal text of the file number reads back as that number |
| PyPath.DirNameOfJoin | certificates/services.py:107 | `os.path.dirname(f'{dir}/{tail}')` is `dir` when `tail` holds no separator |
| PyPath.ArchiveThenRemove | certificates/services.py:115-117 | zipping the scratch directory and then removing it splits the disk into three disjoint parts: what `rmtree` leaves, what the archive holds, and the directory itself; nothing inside the directory survives outside the archive |
| FileHelper.TrimStringToNewlineSpec | certificates/helpers.py:7-10 | the trimmed name is the start of `s[trimFrom:]`, holds no newline, stops only at a newline, and is empty past the end of the text |
| FileHelper.FormatSpaceToUnderscoreSpec | certificates/helpers.py:20-23 | every space becomes an underscore, every other character stays in place, no space remains |
| FileHelper.FormatFileNameSpec | certificates/helpers.py:12-18 | a formatted name holds no space and no slash, and is no longer than the input |
| FileHelper.FormatFileNameChars | certificates/helpers.py:12-18 | a formatted name holds only underscores and non-space characters of the input |
| FileHelper.FormatFileNameKeepsName | certificates/helpers.py:12-18 | a name with no surrounding whitespace, no space and no slash is kept unchanged |
| FileHelper.FormatFileNameIdempotent | certificates/helpers.py:12-18 | formatting twice equals formatting once when the plain space is the input's only whitespace |
| FileHelper.FormatFileNameNotIdempotent | certificates/helpers.py:12-18 | in general it is not idempotent: `" /\tx"` formats to `"\tx"`, which formats to `"x"` |
| FileHelper.GetFirstAlphaFromString | certificates/helpers.py:25-28 | the result is absent exactly when the text has no letter; otherwise it is the index of a letter with no letter before it |
| FileHelper.FirstAlphaAt | certificates/helpers.py:25-28 | conversely, any letter with no letter before it is the index reported |
| FileHelper.CandidateNumberOfNumberedPath | certificates/helpers.py:38-41 | a numbered path `save/name_n.ext` reads back as number `n` |
| FileHelper.NumberedPathInjective | certificates/helpers.py:38-41 | different numbers give different numbered paths |
| FileHelper.GenerateName | certificates/helpers.py:30-43 | the result does not exist; it is the wanted path when that is free, else `save/name_n.ext` for the least `n >= 1` that is free |
| FileHelper.GeneratedNameUnique | certificates/helpers.py:30-43 | only one path meets that description, so naming is deterministic |
| FileHelper.GeneratedNameInDir | certificates/helpers.py:30-43 | the generated path lies in the save directory, and `dirname` of it gives that directory back |
| Services.ScratchDir | certificates/services.py:81-82 | for an archive save path that is itself a directory path (not empty, no trailing separator, as `Path` renders the configured `MEDIA_ROOT / 'tmp/certificates/'`), the scratch directory path is one too |
| Services.CertificateNameSpec | certificates/services.py:93-97 | a page's file name holds no space, no slash and no newline, so it is a single path component |
| Services.PageSaved | certificates/services.py:101-112 | saving the next page at its generated path extends the account of written paths page by page |
| Services.PagePathsFresh | certificates/services.py:101-105 | every written path was free just before its page was saved |
| Services.FreshPathsDistinct | certificates/services.py:101-113 | no page overwrites an earlier page or an existing file |
| Services.ArchiveEntries | certificates/services.py:115 | with nothing in the scratch directory beforehand, the archive holds exactly the written pages, one entry per page |
| Services.SavePage | certificates/services.py:90-113 | one loop turn: the page gets the generated path of its formatted name, which was free and lies in the scratch directory; the disk gains exactly that directory and that path; `save_path` becomes that path's directory, which is the scratch directory again |
| Services.PageWrittenStep | certificates/services.py:93-113 | the loop's invariant is kept by one turn: the written paths stay in order, each the name `generate_name` picks for its page, each inside the scratch directory, and the disk stays the start disk plus the directory and those paths |
| Services.SavePages | certificates/services.py:84-113 | pages are saved in order until one has no text, with `save_path` passed from each turn to the next; every written path is the one `generate_name` picks for its page, and the disk is the start disk plus those paths |
| Services.ArchiveSurvives | certificates/services.py:115-117 | the archive `<dir>.zip` is made beside the scratch directory, so `rmtree` keeps it and removes the directory and every page written inside it |
| Services.SplitCertificates | certificates/services.py:78-119 | success exactly when every page has text (and, for zero pages, when the scratch directory exists); on success the result is `<scratch>.zip`, one fresh distinct path per page inside the scratch directory, the archive added and the scratch tree removed (the archive is on disk; the scratch directory and every written page are not), and, when the scratch directory held nothing before, the archive holds exactly the written pages; on a failed page, its index, with the earlier pages left on disk |
| Services.SaveFirstPageToImage | certificates/services.py:51-65 | corrected: the PNG gets the generated free name in the image directory, and the disk gains that directory and the image |
| Services.SaveFirstPageToImageAsWritten | certificates/services.py:51-65 | as written: the write fails exactly when the image directory is missing, because a directory is made at the image path |
| Services.Calibrate | certificates/services.py:32-49 | corrected (uses the corrected image step): fails with a distinct error for no page, no text and no letter (each if and only if); on success returns the first page's text, the index of its first letter, and a fresh image inside the image directory |
| Services.CalibrateAsWritten | certificates/services.py:32-49 | as written: the same three errors and success facts as the corrected form, and in addition the image write fails exactly when the image directory is missing, leaving that directory and a directory at the generated image path |
| Services.CalibratedNameStartsWithLetter | certificates/services.py:42 | splitting at the suggested position names the file starting with the page's first letter |
| ServiceScenarios.RepeatedNameNumbered | certificates/helpers.py:34-43 | in an empty directory, names `a`, `a`, `b`, for `b` other than `a` and `a_1`, are saved as `a.pdf`, `a_1.pdf`, `b.pdf` |
| ServiceScenarios.SplitSampleNames | certificates/tests/test_split_certificates_service.py:20-34 | into a scratch directory with nothing in it, the three sample pages are written as `Ibrahim.pdf`, `Ibrahim_1.pdf`, `Yusuf.pdf` |
| ServiceScenarios.SplitRepeatedName | certificates/services.py:78-119 | through the service, on any disk with nothing inside the scratch directory, three pages named `a`, `a`, `b`, for `b` other than `a` and `a_1`, are written as `a.pdf`, `a_1.pdf`, `b.pdf`; the result is `<scratch>.zip`, that archive is on disk, the scratch directory is gone, and the archive holds exactly those three pages |
| ServiceScenarios.SplitSampleDocument | certificates/tests/test_split_certificates_service.py:18-53 | on any disk with nothing inside the scratch directory, the split of the sample succeeds, returns `<scratch>.zip`, writes those three paths, leaves the archive on disk without the scratch directory, and the archive holds exactly those three pages |
| ServiceScenarios.CalibrationSampleOffset | certificates/tests/test_calibration_data_service.py:18-32 | the first letter of the sample page is at index 5 |
| ServiceScenarios.CalibrateSampleDocument | certificates/tests/test_calibration_data_service.py:16-34 | through the service as written, on any disk that has the image directory, calibrating the sample returns its text, position 5, and a new image in that directory; the disk afterwards is the old disk plus that image |
| ServiceScenarios.CalibrationImageOnFreshDiskAsWritten | certificates/services.py:61-64 | as written, on a disk without the image directory the preview image is never written |

## Left out

- Text extraction (`ParsePdfService`, the Tika client) is left out. The texts of the pages are an input sequence.
- PDF bytes are left out: PyPDF2 page copying, fitz rendering, in-memory buffers. Only the paths written are modelled, not the bytes in them.
- Randomness and configuration are parameters: `uuid4` names, `MEDIA_ROOT`, and the two save directories.
- The zip file's bytes are not modelled. The archive is its path plus the set of paths inside the scratch directory.
- PyText.IsAlpha: covers ASCII and Latin-1 letters, Latin Extended-A and -B, Cyrillic and the basic Arabic letters. It does not cover the rest of Unicode's letter table, which `str.isalpha` consults.
- `Path.mkdir(parents=True)`: only the directory itself is added to the disk, not its missing parents. Files and directories are not distinguished, except where the image path becomes a directory.
- Services.ScratchDir: the archive save path must be non-empty and have no trailing separator. `Path('') / name` gives `name` and `Path('/') / name` gives `/name`; those two joins are not modelled. The configured save path is neither.
- Services.SplitCertificates: zero pages are modelled as an archive failure unless the scratch directory already exists. This follows `make_archive` versions that change into `root_dir`. Versions that create an empty archive instead are not modelled.
- Services.SplitCertificates: the failure branch states the pages left on disk, but not the archive contents. No archive is made then.
- ServiceScenarios.SplitSampleNames: proves the order in which pages are written and the set of archive entries. The order `os.listdir` reports is up to the filesystem and is not modelled.
- `rmtree(ignore_errors=True)` is modelled as always succeeding.
- Services.Calibrate: uses the corrected image step, so it never fails with `ImageWriteFailed`. The code as written does fail on a disk without the image directory; `Services.CalibrateAsWritten` models that behaviour.
- Services.SavePage: writing a page always succeeds. The model does not include operating-system limits on names. A formatted name plus `.pdf` longer than 255 bytes makes `open` raise `ENAMETOOLONG`. In UTF-8 that is about 125 Cyrillic or Arabic characters. A NUL character makes `open` raise `ValueError`. In both cases the model reports success where the code raises.
- Paths are compared as strings. Two names that a case-insensitive or Unicode-normalising filesystem treats as the same file are different paths in the model, so such a collision is not numbered.
- The `exception_logging` decorator only logs and re-raises. Its logging is left out; raised errors become `Failure` values.
- Concurrency is not modelled: two jobs sharing a directory, or the disk changing between `exists` and `open`.
- views.py, models.py, urls.py and admin.py are not part of this model.

## Findings

| source | as written | input that shows it | evidently intended | confidence | as-written member | corrected member |
|---|---|---|---|---|---|---|
| certificates/services.py:61-62 | when `dirname(image_path)` does not exist, `Path(image_path).mkdir(parents=True)` makes a directory at the image path itself, and `pix.writePNG(image_path)` then fails | a fresh installation whose `tmp/calibration_images` directory does not exist yet (the disk `{}`) | make the image's directory, `Path(os.path.dirname(image_path)).mkdir(parents=True, exist_ok=True)`, then write the PNG there | high (not executed) | ServiceScenarios.CalibrationImageOnFreshDiskAsWritten | Services.SaveFirstPageToImage |
