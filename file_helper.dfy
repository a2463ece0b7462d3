/**
 * `FileHelper` (certificates/helpers.py): turning the text of a certificate page
 * into a file name, and choosing a path that does not exist yet.
 */
module FileHelper {
  import opened Wrappers
  import opened PyText
  import opened PyPath

  /** `trim_string_to_newline`: the text from `trimFrom` up to, not including, the first newline. */
  function TrimStringToNewline(s: string, trimFrom: int): string
  {
    PartitionHead(SliceFrom(s, trimFrom), '\n')
  }

  /**
   * The trimmed name is the start of `s[trimFrom:]` that holds no newline, and it
   * stops only at a newline; past the end of the text it is empty.
   */
  lemma TrimStringToNewlineSpec(s: string, trimFrom: int)
    ensures var r := TrimStringToNewline(s, trimFrom);
      && '\n' !in r
      && r <= SliceFrom(s, trimFrom)
      && (r == SliceFrom(s, trimFrom) || SliceFrom(s, trimFrom)[|r|] == '\n')
      && ('\n' !in SliceFrom(s, trimFrom) ==> r == SliceFrom(s, trimFrom))
      && (trimFrom >= |s| ==> r == [])
  {
    var tail := SliceFrom(s, trimFrom);
    PartitionHeadSpec(tail, '\n');
  }

  /** `format_space_to_underscore`: `replace(' ', '_')`. */
  function FormatSpaceToUnderscore(s: string): string
  {
    ReplaceChar(s, ' ', '_')
  }

  /** Every space becomes an underscore, nothing else moves, and no space is left. */
  lemma FormatSpaceToUnderscoreSpec(s: string)
    ensures var r := FormatSpaceToUnderscore(s);
      && |r| == |s|
      && (forall i :: 0 <= i < |s| ==> r[i] == if s[i] == ' ' then '_' else s[i])
      && ' ' !in r
  {
    ReplaceCharSpec(s, ' ', '_');
  }

  /** `format_file_name`: strip the surrounding whitespace, spaces to underscores, drop every slash. */
  function FormatFileName(s: string): string
  {
    RemoveChar(FormatSpaceToUnderscore(Strip(s)), Sep)
  }

  /** A formatted name holds neither a space nor a slash, and is no longer than the input. */
  lemma FormatFileNameSpec(s: string)
    ensures ' ' !in FormatFileName(s) && Sep !in FormatFileName(s)
    ensures |FormatFileName(s)| <= |s|
  {
    var underscored := FormatSpaceToUnderscore(Strip(s));
    StripSpec(s);
    var i :| StrippedAt(s, i, Strip(s));
    FormatSpaceToUnderscoreSpec(Strip(s));
    RemoveCharSpec(underscored, Sep);
    RemoveCharAbsent(underscored, Sep, ' ');
  }

  /** A formatted name is made of underscores and of characters of the input other than the space. */
  lemma FormatFileNameChars(s: string)
    ensures forall c :: c in FormatFileName(s) ==> c == '_' || (c in s && c != ' ')
  {
    var stripped := Strip(s);
    var underscored := FormatSpaceToUnderscore(stripped);
    StripChars(s);
    FormatSpaceToUnderscoreSpec(stripped);
    assert forall c :: c in underscored ==> c == '_' || (c in stripped && c != ' ');
    RemoveCharChars(underscored, Sep);
  }

  /** A character that is neither in the input nor the underscore is not in the formatted name. */
  lemma FormatFileNameAbsent(s: string, c: char)
    requires c !in s && c != '_'
    ensures c !in FormatFileName(s)
  {
    FormatFileNameChars(s);
  }

  /** A name without whitespace and slashes is its own formatted form. */
  lemma FormatFileNameFixesClean(t: string)
    requires forall i :: 0 <= i < |t| ==> !IsSpace(t[i]) && t[i] != Sep
    ensures FormatFileName(t) == t
  {
    StripSpec(t);
    assert Strip(t) == t;
    FormatSpaceToUnderscoreSpec(t);
    assert FormatSpaceToUnderscore(t) == t;
    RemoveCharSpec(t, Sep);
  }

  /** A name that neither starts nor ends with whitespace and holds no space and no slash is kept as it is. */
  lemma FormatFileNameKeepsName(t: string)
    requires t != [] && !IsSpace(t[0]) && !IsSpace(t[|t| - 1])
    requires ' ' !in t && Sep !in t
    ensures FormatFileName(t) == t
  {
    StripSpec(t);
    ReplaceCharAbsent(t, ' ', '_');
    RemoveCharSpec(t, Sep);
  }

  /** Formatting twice changes nothing, as long as the only whitespace in the input is the plain space. */
  lemma FormatFileNameIdempotent(s: string)
    requires forall i :: 0 <= i < |s| && IsSpace(s[i]) ==> s[i] == ' '
    ensures FormatFileName(FormatFileName(s)) == FormatFileName(s)
  {
    FormatFileNameIsClean(s);
    FormatFileNameSpec(s);
    FormatFileNameFixesClean(FormatFileName(s));
  }

  /** When the plain space is the only whitespace in the input, the formatted name holds no whitespace at all. */
  lemma FormatFileNameIsClean(s: string)
    requires forall i :: 0 <= i < |s| && IsSpace(s[i]) ==> s[i] == ' '
    ensures forall i :: 0 <= i < |FormatFileName(s)| ==> !IsSpace(FormatFileName(s)[i])
  {
    var t := FormatFileName(s);
    FormatFileNameChars(s);
    forall i | 0 <= i < |t| ensures !IsSpace(t[i]) {
      CleanChar(s, t[i]);
    }
  }

  lemma CleanChar(s: string, c: char)
    requires forall i :: 0 <= i < |s| && IsSpace(s[i]) ==> s[i] == ' '
    requires c == '_' || (c in s && c != ' ')
    ensures !IsSpace(c)
  {
    if c != '_' {
      var j :| 0 <= j < |s| && s[j] == c;
    }
  }

  /** ... but not in general: a slash can shield a tab from `strip()` until the slash is gone. */
  lemma FormatFileNameNotIdempotent()
    ensures FormatFileName(" /\tx") == "\tx"
    ensures FormatFileName(FormatFileName(" /\tx")) == "x"
  {
    FormatSlashTab();
    FormatTab();
  }

  lemma FormatSlashTab()
    ensures FormatFileName(" /\tx") == "\tx"
  {
    StripSpaceSlashTab();
    assert FormatSpaceToUnderscore("/\tx") == "/\tx" by { assert !IsSpace('/'); }
    RemoveSlashTab();
  }

  lemma StripSpaceSlashTab()
    ensures Strip(" /\tx") == "/\tx"
  {
    assert IsSpace(' ') && !IsSpace('/') && !IsSpace('x');
    assert " /\tx"[1..] == "/\tx";
    assert StripLeading("/\tx") == "/\tx";
  }

  lemma RemoveSlashTab()
    ensures RemoveChar("/\tx", Sep) == "\tx"
  {
    assert "/\tx"[1..] == "\tx";
  }

  lemma FormatTab()
    ensures FormatFileName("\tx") == "x"
  {
    assert IsSpace('\t') && !IsSpace('x');
    assert StripLeading("\tx") == "x" by {
      assert "\tx"[1..] == "x";
      assert StripLeading("x") == "x";
    }
    assert Strip("\tx") == "x";
    assert FormatSpaceToUnderscore("x") == "x";
  }

  /**
   * `get_first_alpha_from_string`: `s.find(next(filter(str.isalpha, s)))`, the index
   * of the first letter; `None` stands for the StopIteration raised when there is none.
   */
  function GetFirstAlphaFromString(s: string): (r: Option<nat>)
    ensures r.None? <==> NoAlpha(s)
    ensures r.Some? ==> r.value < |s| && IsAlpha(s[r.value]) && NoAlpha(s[..r.value])
  {
    FirstAlphaSpec(s);
    match FirstAlpha(s)
    case None => None
    case Some(c) =>
      FindFirstAlpha(s, c);
      Some(Find(s, c))
  }

  /** Conversely, any letter with no letter before it is the one reported. */
  lemma FirstAlphaAt(s: string, i: nat)
    requires i < |s| && IsAlpha(s[i]) && NoAlpha(s[..i])
    ensures GetFirstAlphaFromString(s) == Some(i)
  {
    var r := GetFirstAlphaFromString(s);
    assert !NoAlpha(s) by { assert !IsAlpha(s[i]) ==> false; }
    var j := r.value;
    assert forall k :: 0 <= k < i ==> !IsAlpha(s[k]) by {
      forall k | 0 <= k < i ensures !IsAlpha(s[k]) { assert s[..i][k] == s[k]; }
    }
    assert forall k :: 0 <= k < j ==> !IsAlpha(s[k]) by {
      forall k | 0 <= k < j ensures !IsAlpha(s[k]) { assert s[..j][k] == s[k]; }
    }
    assert j == i;
  }

  /** The first occurrence of the first letter is where that letter was found. */
  lemma FindFirstAlpha(s: string, c: char)
    requires FirstAlpha(s) == Some(c)
    ensures 0 <= Find(s, c) < |s| && IsAlpha(s[Find(s, c)]) && NoAlpha(s[..Find(s, c)])
  {
    FirstAlphaSpec(s);
    var i :| 0 <= i < |s| && s[i] == c && IsAlpha(s[i]) && NoAlpha(s[..i]);
    FindSpec(s, c);
    var k := Find(s, c);
    assert forall j :: 0 <= j < i ==> s[j] != c by {
      forall j | 0 <= j < i ensures s[j] != c { assert s[..i][j] == s[j]; }
    }
    assert forall j :: 0 <= j < k ==> s[j] != c by {
      forall j | 0 <= j < k ensures s[j] != c { assert s[..k][j] == s[j]; }
    }
    assert k == i;
  }

  /** `f'{dir}/{name}.{ext}'`: the un-numbered path a file would like to have. */
  function JoinFile(dir: string, name: string, ext: string): string
  {
    dir + [Sep] + name + "." + ext
  }

  /** `f'{save_path}/{file_name}_{file_number}.{file_extension}'`. */
  function NumberedPath(savePath: string, fileName: string, n: nat, ext: string): string
  {
    savePath + [Sep] + fileName + "_" + NatToString(n) + "." + ext
  }

  /** The number `n` for which `p` is `NumberedPath(savePath, fileName, n, ext)`, if any. */
  function CandidateNumber(savePath: string, fileName: string, ext: string, p: string): Option<nat>
  {
    var prefix := savePath + [Sep] + fileName + "_";
    var suffix := "." + ext;
    if |p| >= |prefix| + |suffix| && p[..|prefix|] == prefix && p[|p| - |suffix|..] == suffix
    then ParseNat(p[|prefix|..|p| - |suffix|])
    else None
  }

  lemma CandidateNumberOfNumberedPath(savePath: string, fileName: string, n: nat, ext: string)
    ensures CandidateNumber(savePath, fileName, ext, NumberedPath(savePath, fileName, n, ext)) == Some(n)
  {
    var prefix := savePath + [Sep] + fileName + "_";
    var suffix := "." + ext;
    var p := NumberedPath(savePath, fileName, n, ext);
    assert p == prefix + NatToString(n) + suffix;
    assert p[..|prefix|] == prefix;
    assert p[|p| - |suffix|..] == suffix;
    assert p[|prefix|..|p| - |suffix|] == NatToString(n);
    ParseNatToString(n);
  }

  /** Different numbers give different candidate paths. */
  lemma NumberedPathInjective(savePath: string, fileName: string, n: nat, m: nat, ext: string)
    requires n != m
    ensures NumberedPath(savePath, fileName, n, ext) != NumberedPath(savePath, fileName, m, ext)
  {
    CandidateNumberOfNumberedPath(savePath, fileName, n, ext);
    CandidateNumberOfNumberedPath(savePath, fileName, m, ext);
  }

  /** The existing paths that are numbered candidates with a number of at least `n`. */
  ghost function NumberedFrom(existing: FileSystem, savePath: string, fileName: string, ext: string, n: nat): FileSystem
  {
    set p | p in existing && CandidateNumber(savePath, fileName, ext, p).Some?
                          && CandidateNumber(savePath, fileName, ext, p).value >= n
  }

  /** `n` is the least number from 1 whose candidate path is free. */
  ghost predicate LeastFreeNumber(existing: FileSystem, savePath: string, fileName: string, ext: string, n: nat)
  {
    && 1 <= n
    && NumberedPath(savePath, fileName, n, ext) !in existing
    && forall k :: 1 <= k < n ==> NumberedPath(savePath, fileName, k, ext) in existing
  }

  /** What `generate_name` may return: the wanted path when it is free, else the least free numbered path. */
  ghost predicate IsGeneratedName(existing: FileSystem, fullPath: string, savePath: string, fileName: string,
                                  ext: string, r: string)
  {
    if fullPath !in existing then r == fullPath
    else exists n :: LeastFreeNumber(existing, savePath, fileName, ext, n) && r == NumberedPath(savePath, fileName, n, ext)
  }

  /** There is only one such path: the naming is deterministic. */
  lemma GeneratedNameUnique(existing: FileSystem, fullPath: string, savePath: string, fileName: string,
                            ext: string, r1: string, r2: string)
    requires IsGeneratedName(existing, fullPath, savePath, fileName, ext, r1)
    requires IsGeneratedName(existing, fullPath, savePath, fileName, ext, r2)
    ensures r1 == r2
  {
    if fullPath in existing {
      var n1: nat :| LeastFreeNumber(existing, savePath, fileName, ext, n1) && r1 == NumberedPath(savePath, fileName, n1, ext);
      var n2: nat :| LeastFreeNumber(existing, savePath, fileName, ext, n2) && r2 == NumberedPath(savePath, fileName, n2, ext);
      assert !(n1 < n2) && !(n2 < n1);
    }
  }

  /**
   * `generate_name`: `fullPath` if nothing exists there, otherwise the first of
   * `savePath/fileName_1.ext`, `savePath/fileName_2.ext`, ... that does not exist.
   */
  method GenerateName(existing: FileSystem, fullPath: string, savePath: string, fileName: string,
                      fileExtension: string := "pdf")
    returns (r: string)
    ensures r !in existing
    ensures fullPath !in existing ==> r == fullPath
    ensures IsGeneratedName(existing, fullPath, savePath, fileName, fileExtension, r)
  {
    if fullPath !in existing {
      return fullPath;
    }
    var fileNumber: nat := 1;
    while NumberedPath(savePath, fileName, fileNumber, fileExtension) in existing
      invariant fileNumber >= 1
      invariant forall k :: 1 <= k < fileNumber ==> NumberedPath(savePath, fileName, k, fileExtension) in existing
      decreases NumberedFrom(existing, savePath, fileName, fileExtension, fileNumber)
    {
      ghost var probed := NumberedPath(savePath, fileName, fileNumber, fileExtension);
      CandidateNumberOfNumberedPath(savePath, fileName, fileNumber, fileExtension);
      assert probed in NumberedFrom(existing, savePath, fileName, fileExtension, fileNumber);
      assert probed !in NumberedFrom(existing, savePath, fileName, fileExtension, fileNumber + 1);
      fileNumber := fileNumber + 1;
    }
    r := NumberedPath(savePath, fileName, fileNumber, fileExtension);
    assert LeastFreeNumber(existing, savePath, fileName, fileExtension, fileNumber);
  }

  /** The generated path is never one that exists. */
  lemma GeneratedNameIsFree(existing: FileSystem, fullPath: string, savePath: string, fileName: string,
                            ext: string, r: string)
    requires IsGeneratedName(existing, fullPath, savePath, fileName, ext, r)
    ensures r !in existing
  {
  }

  /**
   * A generated name for `dir/name.ext` stays in `dir`: `os.path.dirname` gives `dir`
   * back, as long as neither the name nor the extension holds a separator.
   */
  lemma GeneratedNameInDir(existing: FileSystem, dir: string, name: string, ext: string, r: string)
    requires IsDirPath(dir) && Sep !in name && Sep !in ext
    requires IsGeneratedName(existing, JoinFile(dir, name, ext), dir, name, ext, r)
    ensures DirName(r) == dir && IsUnder(r, dir)
  {
    var tail: string;
    if JoinFile(dir, name, ext) !in existing {
      tail := name + "." + ext;
    } else {
      var n: nat :| LeastFreeNumber(existing, dir, name, ext, n) && r == NumberedPath(dir, name, n, ext);
      tail := name + "_" + NatToString(n) + "." + ext;
      assert Sep !in NatToString(n) by { assert !IsDigit(Sep); }
    }
    assert r == dir + [Sep] + tail;
    DirNameOfJoin(dir, tail);
  }
}
