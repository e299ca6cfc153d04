/**
 * Unix paths as strings, with the `PathBuf` operations the core uses:
 * `push`, `set_extension`, `pop`, and the `file_name` / `extension` queries
 * that say what the first two produce.
 */
module Paths {
  import opened Wrappers
  import opened Text

  predicate IsAbsolute(p: string) {
    |p| > 0 && p[0] == '/'
  }

  /**
   * `base.push(p)`: an absolute `p` replaces `base`; otherwise `p` is appended,
   * after a '/' unless `base` is empty or already ends with one.
   */
  function Push(base: string, p: string): string {
    if IsAbsolute(p) then p
    else if base == [] || base[|base| - 1] == '/' then base + p
    else base + "/" + p
  }

  /** A component that `file_name` reports: not empty, no separator, not `.` or `..`. */
  predicate IsNormalComponent(name: string) {
    name != [] && '/' !in name && name != "." && name != ".."
  }

  /** Where the last component of `p` starts, once trailing separators are ignored. */
  function NameStart(p: string): (i: nat)
    ensures i <= |TrimEnd(p, '/')|
  {
    LastIndexOf(TrimEnd(p, '/'), '/') + 1
  }

  /** Everything before the last component. */
  function DirPart(p: string): string {
    TrimEnd(p, '/')[..NameStart(p)]
  }

  /** `p.file_name()`: the last component once trailing separators are ignored. */
  function FileName(p: string): (r: Option<string>)
    ensures r.Some? ==> IsNormalComponent(r.value)
  {
    var name := TrimEnd(p, '/')[NameStart(p)..];
    if name == "" || name == "." || name == ".." then None else Some(name)
  }

  /**
   * Length of the stem of a file name: everything before its last '.', unless
   * that dot is the first character or there is none.
   */
  function StemLength(name: string): (n: nat)
    ensures n <= |name|
  {
    var k := LastIndexOf(name, '.');
    if k <= 0 then |name| else k
  }

  function Stem(name: string): string {
    name[..StemLength(name)]
  }

  /**
   * `p.set_extension(ext)`: the path is cut right after the stem of its file
   * name and "." + `ext` appended (nothing when `ext` is empty); a path without
   * a file name is left as it is.
   */
  function SetExtension(p: string, ext: string): string {
    match FileName(p)
    case None => p
    case Some(name) =>
      TrimEnd(p, '/')[..NameStart(p) + StemLength(name)] + (if ext == "" then "" else "." + ext)
  }

  /** `p.extension()`: what follows the last '.' of the file name, if it has a stem before it. */
  function Extension(p: string): Option<string> {
    match FileName(p)
    case None => None
    case Some(name) =>
      var k := LastIndexOf(name, '.');
      if k <= 0 then None else Some(name[k + 1..])
  }

  /**
   * The parent `p.pop()` truncates to: `None` for the empty path and the root,
   * where `pop` leaves the path unchanged.
   */
  function Parent(p: string): Option<string> {
    var t := TrimEnd(p, '/');
    if t == "" then None
    else
      var i := LastIndexOf(t, '/');
      if i < 0 then Some("")
      else
        var q := TrimEnd(t[..i], '/');
        if q == "" then Some("/") else Some(q)
  }

  /** The path after `p.pop()`. */
  function Pop(p: string): string {
    match Parent(p)
    case None => p
    case Some(q) => q
  }

  /** A relative push keeps the base as a prefix and puts the pushed path at the end. */
  lemma PushRelative(base: string, p: string)
    requires !IsAbsolute(p)
    ensures StartsWith(Push(base, p), base) && EndsWith(Push(base, p), p)
    ensures |Push(base, p)| >= |base| + |p|
  {
  }

  /** Where a path written as `dir` + `name` has its last separator. */
  lemma LastSeparator(dir: string, name: string)
    requires dir == [] || dir[|dir| - 1] == '/'
    requires '/' !in name
    ensures LastIndexOf(dir + name, '/') == |dir| - 1
  {
    LastIndexOfUnique(dir + name, '/', |dir| - 1);
  }

  /** A plain component after a separator (or alone) is the file name. */
  lemma FileNameAfterSeparator(dir: string, name: string)
    requires dir == [] || dir[|dir| - 1] == '/'
    requires IsNormalComponent(name)
    ensures FileName(dir + name) == Some(name)
  {
    var r := dir + name;
    assert r[|r| - 1] == name[|name| - 1];
    assert TrimEnd(r, '/') == r;
    LastSeparator(dir, name);
    assert r[|dir|..] == name;
  }

  /** Pushing a plain file name makes it the file name of the result. */
  lemma PushFileName(base: string, name: string)
    requires IsNormalComponent(name)
    ensures FileName(Push(base, name)) == Some(name)
  {
    var dir := if base == [] || base[|base| - 1] == '/' then base else base + "/";
    assert Push(base, name) == dir + name;
    FileNameAfterSeparator(dir, name);
  }

  /** A file name's stem is not empty. */
  lemma StemNotEmpty(name: string)
    requires IsNormalComponent(name)
    ensures 0 < StemLength(name)
  {
  }

  /** What comes before the last component is empty or ends with a separator. */
  lemma DirPartEndsWithSeparator(p: string)
    ensures DirPart(p) == [] || DirPart(p)[|DirPart(p)| - 1] == '/'
  {
    var t := TrimEnd(p, '/');
    var i := NameStart(p);
    if i > 0 {
      assert DirPart(p)[i - 1] == t[i - 1];
    }
  }

  lemma SetExtensionUnfold(p: string, ext: string)
    requires FileName(p).Some? && ext != []
    ensures SetExtension(p, ext)
            == TrimEnd(p, '/')[..NameStart(p) + StemLength(FileName(p).value)] + ("." + ext)
  {
  }

  /** Cutting `t` at `i + n` and appending `tail` is the part before `i`, then `n` more, then `tail`. */
  lemma CutAndAppend(t: string, i: nat, n: nat, tail: string)
    requires i + n <= |t|
    ensures t[..i + n] + tail == t[..i] + (t[i..][..n] + tail)
  {
    assert t[..i + n] == t[..i] + t[i..][..n];
  }

  /** `set_extension` keeps everything up to the last separator and replaces the file name. */
  lemma SetExtensionShape(p: string, ext: string)
    requires FileName(p).Some? && ext != []
    ensures SetExtension(p, ext) == DirPart(p) + (Stem(FileName(p).value) + "." + ext)
  {
    var t := TrimEnd(p, '/');
    var i := NameStart(p);
    var name := FileName(p).value;
    assert name == t[i..];
    SetExtensionUnfold(p, ext);
    CutAndAppend(t, i, StemLength(name), "." + ext);
  }

  /** `set_extension` on a path written as a directory part and a plain file name. */
  lemma SetExtensionAfterSeparator(dir: string, name: string, ext: string)
    requires dir == [] || dir[|dir| - 1] == '/'
    requires IsNormalComponent(name) && ext != []
    ensures SetExtension(dir + name, ext) == dir + (Stem(name) + "." + ext)
  {
    var r := dir + name;
    FileNameAfterSeparator(dir, name);
    SetExtensionShape(r, ext);
    assert r[|r| - 1] == name[|name| - 1];
    assert TrimEnd(r, '/') == r;
    LastSeparator(dir, name);
    assert DirPart(r) == dir;
  }

  /**
   * `set_extension` with a plain extension: the new file name is the old stem,
   * a dot and the extension, so `extension()` reports exactly that extension.
   */
  lemma SetExtensionResult(p: string, ext: string)
    requires FileName(p).Some?
    requires ext != [] && '.' !in ext && '/' !in ext
    ensures var name := FileName(p).value;
            FileName(SetExtension(p, ext)) == Some(Stem(name) + "." + ext)
    ensures Extension(SetExtension(p, ext)) == Some(ext)
    ensures EndsWith(SetExtension(p, ext), "." + ext)
  {
    var name := FileName(p).value;
    var stem := Stem(name);
    var newName := stem + "." + ext;
    SetExtensionShape(p, ext);
    DirPartEndsWithSeparator(p);
    StemNotEmpty(name);
    assert '/' !in newName by {
      forall j | 0 <= j < |newName| ensures newName[j] != '/' {
        if j < |stem| { assert newName[j] == name[j]; }
        else if j > |stem| { assert newName[j] == ext[j - |stem| - 1]; }
      }
    }
    var dir := DirPart(p);
    FileNameAfterSeparator(dir, newName);
    LastIndexOfUnique(newName, '.', |stem|);
    assert newName[|stem| + 1..] == ext;
    var r := dir + newName;
    assert r[|r| - |"." + ext|..] == "." + ext;
  }

  /**
   * Popping a pushed file name returns the directory it was pushed onto, for
   * a directory written without a trailing separator (or the root itself).
   */
  lemma PopPush(dir: string, name: string)
    requires name != [] && '/' !in name
    requires dir == [] || dir == "/" || dir[|dir| - 1] != '/'
    ensures Pop(Push(dir, name)) == dir
  {
    var r := Push(dir, name);
    assert r[|r| - 1] == name[|name| - 1];
    assert TrimEnd(r, '/') == r;
    if dir == [] {
      LastSeparator([], name);
    } else if dir == "/" {
      LastSeparator("/", name);
      assert r[..0] == [];
    } else {
      LastSeparator(dir + "/", name);
      assert r[..|dir|] == dir;
    }
  }
}
