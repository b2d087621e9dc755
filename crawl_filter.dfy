/**
 * The exclusion rules the crawler applies before any file is opened:
 * name validity, the directory, file-name, extension and path-prefix
 * deny-lists, the supported-extension allow-list and the user's glob
 * patterns (`FileIndexer._is_valid_name`, `_should_include_dir`,
 * `_should_include_file`, `_match_pattern`).
 */
module CrawlFilter {
  import opened PyStr
  import opened PyPath
  import Glob

  const SupportedTextExtensions: set<string> := {
    ".txt", ".log", ".md", ".py", ".js", ".ts", ".jsx", ".tsx",
    ".java", ".cpp", ".c", ".h", ".cs", ".json", ".xml", ".html",
    ".css", ".sql", ".sh", ".bat", ".ps1", ".yaml", ".yml"
  }

  const SupportedDocExtensions: set<string> := {
    ".docx", ".doc", ".pptx", ".ppt", ".xlsx", ".xls", ".pdf", ".hwp"
  }

  const ExcludedDirs: set<string> := {
    ".git", "node_modules", "venv", "env", "__pycache__",
    ".vscode", ".idea", "dist", "build", "out", "target",
    ".next", ".nuxt", ".cache", ".temp", ".tmp",
    "vendor", "packages", "bower_components"
  }

  /** Exact (case-sensitive) file names that are never indexed. */
  const ExcludedFiles: set<string> := {
    "desktop.ini", "thumbs.db", "Thumbs.db", "ehthumbs.db",
    ".DS_Store", "Icon\r", ".gitignore", ".gitattributes"
  }

  /** Prefixes of Office lock and temporary files. */
  const OfficeTempPrefixes: seq<string> := ["~$", "~WRL"]

  /** The extension deny-list, one group per kind of binary. */
  const ExcludedExtensions: set<string> :=
    BinaryExtensions + ImageDiskExtensions + ArchiveExtensions + MediaExtensions + PictureExtensions + FontExtensions

  const BinaryExtensions: set<string> := {
    ".exe", ".dll", ".sys", ".bin", ".so", ".dylib", ".a", ".lib",
    ".o", ".obj", ".class", ".pyc", ".pyo", ".pyd"
  }
  const ImageDiskExtensions: set<string> := {".iso", ".img", ".dmg", ".vhd", ".vmdk"}
  const ArchiveExtensions: set<string> := {".zip", ".rar", ".7z", ".tar", ".gz", ".bz2"}
  const MediaExtensions: set<string> := {".mp3", ".mp4", ".avi", ".mkv", ".mov", ".flv"}
  const PictureExtensions: set<string> := {".jpg", ".jpeg", ".png", ".gif", ".bmp", ".ico", ".svg"}
  const FontExtensions: set<string> := {".ttf", ".otf", ".woff", ".woff2", ".eot"}

  /** System locations, compared case-insensitively as prefixes of the full path. */
  const ExcludedPathPrefixes: seq<string> := [
    "C:\\Windows",
    "C:\\Program Files",
    "C:\\Program Files (x86)",
    "C:\\ProgramData",
    "C:\\$Recycle.Bin",
    "C:\\System Volume Information",
    "C:\\Recovery",
    "C:\\pagefile.sys",
    "C:\\hiberfil.sys",
    "C:\\swapfile.sys"
  ]

  /** A name is kept only if it starts with a letter, a digit or a Hangul-range character. */
  predicate IsValidName(name: string) {
    name != [] && (IsAlnum(name[0]) || name[0] as int >= 0xAC00)
  }

  predicate HasExcludedPrefix(path: string) {
    exists i :: 0 <= i < |ExcludedPathPrefixes| && Lower(ExcludedPathPrefixes[i]) <= Lower(path)
  }

  /** `_match_pattern`: the lower-cased path matches the lower-cased glob. */
  predicate MatchesPattern(filepath: string, pattern: string) {
    Glob.Match(Lower(filepath), Lower(pattern))
  }

  predicate MatchesAnyPattern(filepath: string, patterns: seq<string>) {
    exists i :: 0 <= i < |patterns| && MatchesPattern(filepath, patterns[i])
  }

  /** The lower-cased extension is on one of the two allow-lists. */
  predicate IsSupportedExtension(ext: string) {
    ext in SupportedTextExtensions || ext in SupportedDocExtensions
  }

  predicate HasOfficeTempPrefix(filename: string) {
    exists i :: 0 <= i < |OfficeTempPrefixes| && OfficeTempPrefixes[i] <= filename
  }

  /** `_should_include_dir(dirname, dirpath)`, its checks in the order it applies them. */
  predicate ShouldIncludeDir(dirname: string, dirpath: string) {
    if !IsValidName(dirname) then false
    else if Lower(dirname) in ExcludedDirs then false
    else !HasExcludedPrefix(JoinPath(dirpath, dirname))
  }

  /** `_should_include_file(filename, filepath)` under the given custom patterns. */
  predicate ShouldIncludeFile(filename: string, filepath: string, patterns: seq<string>) {
    if !IsValidName(filename) then false
    else if HasOfficeTempPrefix(filename) then false
    else if filename in ExcludedFiles then false
    else
      var ext := Extension(filepath);
      if ext in ExcludedExtensions then false
      else if !IsSupportedExtension(ext) then false
      else if HasExcludedPrefix(filepath) then false
      else !MatchesAnyPattern(filepath, patterns)
  }

  // ---------------------------------------------------------------------
  // What the deny-lists add to one another

  /** The entries of `ExcludedDirs` that a valid name can reach. */
  const ReachableExcludedDirs: set<string> := {
    "node_modules", "venv", "env", "dist", "build", "out", "target",
    "vendor", "packages", "bower_components"
  }

  /**
   * A directory is crawled iff its name is valid, its lower-cased name is
   * not one of the ten deny-listed names that start with a letter, and its
   * joined path has no excluded prefix.  The nine entries of
   * `ExcludedDirs` that start with `.` or `_` are already refused as
   * invalid names.
   */
  lemma IncludeDirReference(dirname: string, dirpath: string)
    ensures ShouldIncludeDir(dirname, dirpath) <==>
      && IsValidName(dirname)
      && Lower(dirname) !in ReachableExcludedDirs
      && !HasExcludedPrefix(JoinPath(dirpath, dirname))
  {
    if IsValidName(dirname) {
      var low := Lower(dirname);
      assert low[0] == LowerChar(dirname[0]);
      assert low[0] != '.' && low[0] != '_';
      assert low in ExcludedDirs <==> low in ReachableExcludedDirs;
    }
  }

  lemma SuffixAt(name: string, i: nat)
    requires 0 < i < |name| - 1 && name[i] == '.'
    requires forall j :: i < j < |name| ==> name[j] != '.'
    ensures Suffix(name) == name[i..]
  {
  }

  /** The extensions of the valid names on the exact-name list. */
  lemma SuffixOfExcludedFile(name: string)
    requires name in ExcludedFiles
    requires IsValidName(name)
    ensures Suffix(name) == ".ini" || Suffix(name) == ".db" || Suffix(name) == []
  {
    ValidExcludedNames(name);
    if name == "desktop.ini" {
      SuffixAt(name, 7);
    } else if name == "Icon\r" {
      NoDotNoSuffix(name);
    } else {
      DbSuffix(name);
    }
  }

  lemma DbSuffix(name: string)
    requires name == "thumbs.db" || name == "Thumbs.db" || name == "ehthumbs.db"
    ensures Suffix(name) == ".db"
  {
    SuffixAt(name, |name| - 3);
  }

  /** The names on the exact-name list that start with a letter or digit. */
  lemma ValidExcludedNames(name: string)
    requires name in ExcludedFiles && IsValidName(name)
    ensures name in {"desktop.ini", "thumbs.db", "Thumbs.db", "ehthumbs.db", "Icon\r"}
  {
  }

  lemma NoDotNoSuffix(name: string)
    requires forall j :: 0 <= j < |name| ==> name[j] != '.'
    ensures Suffix(name) == []
  {
  }

  lemma LowerLowercase(s: string)
    requires forall i :: 0 <= i < |s| ==> !('A' <= s[i] <= 'Z')
    ensures Lower(s) == s
  {
  }

  lemma NotSupported(ext: string)
    requires ext == ".ini" || ext == ".db" || ext == []
    ensures ext !in SupportedTextExtensions && ext !in SupportedDocExtensions
  {
  }

  /** Every valid name on the exact-name list has an unsupported extension. */
  lemma ExcludedFileUnsupported(name: string)
    requires name in ExcludedFiles
    requires IsValidName(name)
    ensures Lower(Suffix(name)) !in SupportedTextExtensions
    ensures Lower(Suffix(name)) !in SupportedDocExtensions
  {
    SuffixOfExcludedFile(name);
    var ext := Suffix(name);
    LowerLowercase(ext);
    NotSupported(ext);
  }

  /**
   * A file is indexed iff its name is valid, its lower-cased extension is
   * a supported one, its path has no excluded prefix and it matches no
   * custom pattern.  The Office temporary prefixes, the exact-name list and
   * the extension deny-list never change the outcome: `~` is not a valid
   * first character, every valid listed name has an unsupported
   * extension, and no excluded extension is supported.
   */
  lemma IncludeFileReference(filename: string, filepath: string, patterns: seq<string>)
    requires PathName(filepath) == filename
    ensures ShouldIncludeFile(filename, filepath, patterns) <==>
      && IsValidName(filename)
      && IsSupportedExtension(Extension(filepath))
      && !HasExcludedPrefix(filepath)
      && !MatchesAnyPattern(filepath, patterns)
  {
    if IsValidName(filename) {
      NoTempPrefix(filename);
      var ext := Extension(filepath);
      if filename in ExcludedFiles {
        ExcludedFileUnsupported(filename);
        assert !IsSupportedExtension(ext);
      }
      if ext in ExcludedExtensions {
        ExcludedExtensionUnsupported(ext);
      }
    }
  }

  lemma NoTempPrefix(filename: string)
    requires IsValidName(filename)
    ensures !HasOfficeTempPrefix(filename)
  {
    assert filename[0] != '~';
    forall i | 0 <= i < |OfficeTempPrefixes|
      ensures !(OfficeTempPrefixes[i] <= filename)
    {
      assert OfficeTempPrefixes[i][0] == '~';
    }
  }

  /** The extension deny-list and the supported lists are disjoint. */
  lemma ExcludedExtensionUnsupported(ext: string)
    requires ext in ExcludedExtensions
    ensures ext !in SupportedTextExtensions && ext !in SupportedDocExtensions
  {
    if ext in BinaryExtensions {
      BinaryUnsupported(ext);
    } else if ext in ImageDiskExtensions {
      ImageDiskUnsupported(ext);
    } else if ext in ArchiveExtensions {
      ArchiveUnsupported(ext);
    } else if ext in MediaExtensions {
      MediaUnsupported(ext);
    } else if ext in PictureExtensions {
      PictureUnsupported(ext);
    } else {
      FontUnsupported(ext);
    }
  }

  // One group of the deny-list at a time keeps each comparison small.

  lemma BinaryUnsupported(ext: string)
    requires ext in BinaryExtensions
    ensures ext !in SupportedTextExtensions && ext !in SupportedDocExtensions
  {
  }

  lemma ImageDiskUnsupported(ext: string)
    requires ext in ImageDiskExtensions
    ensures ext !in SupportedTextExtensions && ext !in SupportedDocExtensions
  {
  }

  lemma ArchiveUnsupported(ext: string)
    requires ext in ArchiveExtensions
    ensures ext !in SupportedTextExtensions && ext !in SupportedDocExtensions
  {
  }

  lemma MediaUnsupported(ext: string)
    requires ext in MediaExtensions
    ensures ext !in SupportedTextExtensions && ext !in SupportedDocExtensions
  {
  }

  lemma PictureUnsupported(ext: string)
    requires ext in PictureExtensions
    ensures ext !in SupportedTextExtensions && ext !in SupportedDocExtensions
  {
  }

  lemma FontUnsupported(ext: string)
    requires ext in FontExtensions
    ensures ext !in SupportedTextExtensions && ext !in SupportedDocExtensions
  {
  }
}
