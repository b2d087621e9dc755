/**
 * Windows path handling as the indexer sees it: `os.path.basename` and
 * `os.path.join` of the `ntpath` flavour, and `pathlib`'s `name` and
 * `suffix`.  Both `\` and `/` separate components.
 */
module PyPath {
  import opened PyStr

  predicate IsSep(c: char) {
    c == '\\' || c == '/'
  }

  /** The string holds no separator. */
  predicate IsPlainName(s: string) {
    forall i :: 0 <= i < |s| ==> !IsSep(s[i])
  }

  /** Where the last component of `p` starts: just after its last separator. */
  function NameStart(p: string): (k: nat)
    ensures k <= |p|
    ensures k > 0 ==> IsSep(p[k - 1])
    ensures forall i :: k <= i < |p| ==> !IsSep(p[i])
  {
    if p == [] || IsSep(p[|p| - 1]) then |p| else NameStart(p[..|p| - 1])
  }

  /** `os.path.basename(p)`: what follows the last separator. */
  function Basename(p: string): string {
    p[NameStart(p)..]
  }

  /** The base name is a separator-free tail of the path, preceded by a separator when shorter. */
  lemma BasenameIsLastName(p: string)
    ensures |Basename(p)| <= |p| && Basename(p) == p[|p| - |Basename(p)|..]
    ensures IsPlainName(Basename(p))
    ensures |Basename(p)| < |p| ==> IsSep(p[|p| - |Basename(p)| - 1])
  {
  }

  /** `os.path.join(dir, name)` for a name that is not itself a path. */
  function JoinPath(dir: string, name: string): string {
    if dir == [] || IsSep(dir[|dir| - 1]) then dir + name else dir + "\\" + name
  }

  lemma {:induction false} NameStartAfterSep(pre: string, name: string)
    requires pre == [] || IsSep(pre[|pre| - 1])
    requires IsPlainName(name)
    ensures NameStart(pre + name) == |pre|
    decreases |name|
  {
    if name == [] {
      assert pre + name == pre;
    } else {
      var init := name[..|name| - 1];
      assert (pre + name)[..|pre + name| - 1] == pre + init;
      NameStartAfterSep(pre, init);
    }
  }

  lemma BasenameAfterSep(pre: string, name: string)
    requires pre == [] || IsSep(pre[|pre| - 1])
    requires IsPlainName(name)
    ensures Basename(pre + name) == name
  {
    NameStartAfterSep(pre, name);
    assert (pre + name)[|pre|..] == name;
  }

  /** The crawler's `basename(join(dirpath, filename))` gives the file name back. */
  lemma BasenameOfJoin(dir: string, name: string)
    requires IsPlainName(name)
    ensures Basename(JoinPath(dir, name)) == name
  {
    if dir == [] || IsSep(dir[|dir| - 1]) {
      BasenameAfterSep(dir, name);
    } else {
      assert JoinPath(dir, name) == (dir + "\\") + name;
      BasenameAfterSep(dir + "\\", name);
    }
  }

  /** `PurePath(p).name`: the last component, trailing separators ignored. */
  function PathName(p: string): string {
    Basename(RStripWhere(p, IsSep))
  }

  lemma PathNameOfJoin(dir: string, name: string)
    requires name != [] && IsPlainName(name)
    ensures PathName(JoinPath(dir, name)) == name
  {
    var p := JoinPath(dir, name);
    assert p[|p| - 1] == name[|name| - 1];
    assert RStripWhere(p, IsSep) == p;
    BasenameOfJoin(dir, name);
  }

  /** `s.rfind('.')`. */
  function LastDot(s: string): (i: int)
    ensures -1 <= i < |s|
    ensures i >= 0 ==> s[i] == '.'
    ensures forall j :: i < j < |s| ==> s[j] != '.'
  {
    if s == [] then -1
    else if s[|s| - 1] == '.' then |s| - 1
    else LastDot(s[..|s| - 1])
  }

  /**
   * `PurePath.suffix` of a name: from its last dot on, provided that dot is
   * neither the first nor the last character; otherwise empty.
   */
  function Suffix(name: string): (ext: string)
    ensures ext == [] || (2 <= |ext| < |name| && ext == name[|name| - |ext|..])
    ensures ext != [] ==> ext[0] == '.' && forall j :: 1 <= j < |ext| ==> ext[j] != '.'
  {
    var i := LastDot(name);
    if 0 < i < |name| - 1 then name[i..] else []
  }

  /** `Path(filepath).suffix.lower()`. */
  function Extension(filepath: string): string {
    Lower(Suffix(PathName(filepath)))
  }
}
