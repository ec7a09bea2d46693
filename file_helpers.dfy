/**
 * File-name helpers: `File.expand`, `File.withNameAndExtension` and the
 * checked `File.renameTo(nameOnly, extension)` with its three failure reasons.
 *
 * A file is a name under an optional parent directory; `extension` and
 * `nameWithoutExtension` follow the Kotlin standard library
 * (`substringAfterLast('.', "")` and `substringBeforeLast(".")` of the name).
 */
module FileHelpers {
  import opened Wrappers

  /** A `java.io.File`: its name, under its parent directory when it has one. */
  datatype File = File(parent: Option<File>, name: string)

  /** `File(parent, child)`. */
  function Child(parent: File, child: string): (r: File)
    ensures r.name == child && Ancestor(r, 1) == Some(parent)
  {
    File(Some(parent), child)
  }

  /** `File.expand(vararg paths)`: `paths.fold(this, ::File)`, one level per segment. */
  function Expand(f: File, paths: seq<string>): (r: File)
    ensures paths == [] ==> r == f
    ensures paths != [] ==> r.name == paths[|paths| - 1]
  {
    if paths == [] then f else Child(Expand(f, paths[..|paths| - 1]), paths[|paths| - 1])
  }

  /** Expanding by `a + b` is expanding by `a`, then by `b`. */
  lemma {:induction false} ExpandAppend(f: File, a: seq<string>, b: seq<string>)
    ensures Expand(f, a + b) == Expand(Expand(f, a), b)
  {
    if b != [] {
      assert (a + b)[..|a + b| - 1] == a + b[..|b| - 1];
      ExpandAppend(f, a, b[..|b| - 1]);
    } else {
      assert a + b == a;
    }
  }

  /** The ancestor `k` levels up, if there is one. */
  function Ancestor(f: File, k: nat): Option<File> {
    if k == 0 then Some(f)
    else match f.parent
      case None => None
      case Some(p) => Ancestor(p, k - 1)
  }

  /** The receiver of `expand` is the ancestor as many levels up as there were segments. */
  lemma {:induction false} ExpandAncestor(f: File, paths: seq<string>)
    ensures Ancestor(Expand(f, paths), |paths|) == Some(f)
  {
    if paths != [] {
      ExpandAncestor(f, paths[..|paths| - 1]);
    }
  }

  predicate NoDot(s: string) {
    forall i :: 0 <= i < |s| ==> s[i] != '.'
  }

  /** The index of the last `'.'` in `s`, or `None` when there is none. */
  function LastDot(s: string): (r: Option<nat>)
    ensures r.None? <==> NoDot(s)
    ensures r.Some? ==> r.value < |s| && s[r.value] == '.' && NoDot(s[r.value + 1..])
  {
    if s == [] then None
    else if s[|s| - 1] == '.' then Some(|s| - 1)
    else
      var r := LastDot(s[..|s| - 1]);
      assert r.Some? ==> s[r.value + 1..] == s[..|s| - 1][r.value + 1..] + [s[|s| - 1]];
      r
  }

  /** `File.extension`: the part of the name after its last dot, or `""`. */
  function Extension(name: string): (ext: string)
    ensures NoDot(ext)
  {
    match LastDot(name)
    case None => ""
    case Some(i) => name[i + 1..]
  }

  /** `File.nameWithoutExtension`: the part of the name before its last dot, or the whole name. */
  function NameWithoutExtension(name: string): (r: string)
    ensures LastDot(name).None? ==> r == name
    ensures LastDot(name).Some? ==> name == r + "." + Extension(name)
  {
    match LastDot(name)
    case None => name
    case Some(i) =>
      assert name == name[..i] + [name[i]] + name[i + 1..];
      name[..i]
  }

  /** A name with a dot splits into its base, the dot and its extension. */
  lemma SplitName(name: string)
    ensures LastDot(name).Some? ==> name == NameWithoutExtension(name) + "." + Extension(name)
    ensures LastDot(name).None? ==> name == NameWithoutExtension(name) && Extension(name) == ""
  {
    if LastDot(name).Some? {
      var i := LastDot(name).value;
      assert name == name[..i] + [name[i]] + name[i + 1..];
    }
  }

  /** `ext` without one leading dot. */
  function BareExtension(ext: string): string {
    if ext != [] && ext[0] == '.' then ext[1..] else ext
  }

  /**
   * The file name `withNameAndExtension` builds: `name`, then, unless `ext` is
   * empty, one dot (the one `ext` starts with, or an added one) and the rest of `ext`.
   */
  function NewFileName(name: string, ext: string): (s: string)
    ensures ext == [] ==> s == name
    ensures ext != [] ==> s == name + "." + BareExtension(ext)
  {
    if ext == [] then name
    else if ext[0] != '.' then name + "." + ext
    else
      assert ext == "." + ext[1..];
      name + ext
  }

  /** The condition under which `withNameAndExtension` returns the receiver itself. */
  predicate Unchanged(f: File, name: string, ext: string) {
    name == NameWithoutExtension(f.name) && (ext == Extension(f.name) || ext == "." + Extension(f.name))
  }

  /** `File.withNameAndExtension(name, ext)`. */
  function WithNameAndExtension(f: File, name: string, ext: string): (r: File)
    ensures r.parent == f.parent
    ensures Unchanged(f, name, ext) ==> r == f
    ensures !Unchanged(f, name, ext) ==> r.name == NewFileName(name, ext)
  {
    if Unchanged(f, name, ext) then f else File(f.parent, NewFileName(name, ext))
  }

  /** Applying `withNameAndExtension` twice with the same arguments changes nothing more. */
  lemma WithNameAndExtensionIdempotent(f: File, name: string, ext: string)
    ensures WithNameAndExtension(WithNameAndExtension(f, name, ext), name, ext)
         == WithNameAndExtension(f, name, ext)
  {
  }

  /** A dot with no dot after it is the last dot. */
  lemma {:induction false} LastDotAt(s: string, k: nat)
    requires k < |s| && s[k] == '.' && NoDot(s[k + 1..])
    ensures LastDot(s) == Some(k)
  {
    if k < |s| - 1 {
      assert s[|s| - 1] == s[k + 1..][|s| - 2 - k];
      assert s[..|s| - 1][k + 1..] == s[k + 1..][..|s| - 2 - k];
      LastDotAt(s[..|s| - 1], k);
    }
  }

  lemma NameWithoutExtensionOfDotted(base: string, bare: string)
    requires NoDot(bare)
    ensures NameWithoutExtension(base + "." + bare) == base
    ensures Extension(base + "." + bare) == bare
  {
    var s := base + "." + bare;
    assert s[|base| + 1..] == bare;
    LastDotAt(s, |base|);
    assert s[..|base|] == base;
  }

  /**
   * The new name reads back as asked: its `nameWithoutExtension` is `name` and its
   * `extension` is `ext` without its leading dot, when neither part brings dots of
   * its own that would move the split.
   */
  lemma WithNameAndExtensionReadBack(f: File, name: string, ext: string)
    requires NoDot(BareExtension(ext))
    requires ext == [] ==> NoDot(name)
    ensures NameWithoutExtension(WithNameAndExtension(f, name, ext).name) == name
    ensures Extension(WithNameAndExtension(f, name, ext).name) == BareExtension(ext)
  {
    if Unchanged(f, name, ext) {
      SplitName(f.name);
    } else if ext == [] {
      assert LastDot(name).None?;
    } else {
      NameWithoutExtensionOfDotted(name, BareExtension(ext));
    }
  }

  /**
   * When `withNameAndExtension` returns the receiver, the receiver already has the
   * name it would have built, except in two cases: a name ending in a dot asked
   * for with an empty extension (`"a."` with `("a", "")`), and a name without a
   * dot asked for with the extension `"."` (`"a"` with `("a", ".")`).
   */
  lemma UnchangedMatchesRebuild(f: File, name: string, ext: string)
    requires Unchanged(f, name, ext)
    ensures NewFileName(name, ext) == f.name
        <==> !(ext == "" && LastDot(f.name).Some?) && !(ext == "." && LastDot(f.name).None?)
  {
    SplitName(f.name);
    if ext == "" && LastDot(f.name).Some? {
      assert |NewFileName(name, ext)| < |f.name|;
    } else if ext == "." && LastDot(f.name).None? {
      assert |NewFileName(name, ext)| > |f.name|;
    } else if ext != [] {
      assert BareExtension(ext) == Extension(f.name);
    }
  }

  /** `FileRenameFailedException.Reason`. */
  datatype Reason = SOURCE_DOES_NOT_EXISTS | DEST_ALREADY_EXISTS | PLATFORM_FAILURE

  /** `FileRenameFailedException(reason, src, dest)`. */
  datatype FileRenameFailed = FileRenameFailed(reason: Reason, src: File, dest: File)

  /**
   * What `renameTo(nameOnly, extension)` returns or throws, given the files that
   * exist and whether the platform's `File.renameTo` reports success. The checks
   * run in a fixed order: the source must exist, then the destination must not,
   * then the platform must succeed.
   */
  function RenameOutcome(existing: set<File>, src: File, nameOnly: string, extension: string,
                         platformRenames: bool): (r: Result<File, FileRenameFailed>)
    ensures var dest := WithNameAndExtension(src, nameOnly, extension);
      && (r.Success? ==> r.value == dest)
      && (r.Failure? ==> r.error.src == src && r.error.dest == dest)
      && (r.Failure? && r.error.reason == SOURCE_DOES_NOT_EXISTS <==> src !in existing)
      && (r.Failure? && r.error.reason == DEST_ALREADY_EXISTS <==> src in existing && dest in existing)
      && (r.Failure? && r.error.reason == PLATFORM_FAILURE <==>
            src in existing && dest !in existing && !platformRenames)
      && (r.Success? <==> src in existing && dest !in existing && platformRenames)
  {
    var dest := WithNameAndExtension(src, nameOnly, extension);
    if src !in existing then Failure(FileRenameFailed(SOURCE_DOES_NOT_EXISTS, src, dest))
    else if dest in existing then Failure(FileRenameFailed(DEST_ALREADY_EXISTS, src, dest))
    else if !platformRenames then Failure(FileRenameFailed(PLATFORM_FAILURE, src, dest))
    else Success(dest)
  }

  /** Renaming an existing file to its own name and extension always fails: the destination is the source. */
  lemma RenameToOwnNameFails(existing: set<File>, src: File, withDot: bool, platformRenames: bool)
    requires src in existing
    ensures var ext := if withDot then "." + Extension(src.name) else Extension(src.name);
      RenameOutcome(existing, src, NameWithoutExtension(src.name), ext, platformRenames)
        == Failure(FileRenameFailed(DEST_ALREADY_EXISTS, src, src))
  {
  }

  /** The set of existing files, which `renameTo` consults and changes. */
  class FileSystem {
    var existing: set<File>

    constructor (existing: set<File>)
      ensures this.existing == existing
    {
      this.existing := existing;
    }

    /**
     * `File.renameTo(nameOnly, extension)`. `platformRenames` is what the
     * platform's `File.renameTo(dest)` reports; it is consulted only when both
     * checks before it pass. Only a successful rename changes the files.
     */
    method RenameTo(src: File, nameOnly: string, extension: string, platformRenames: bool)
      returns (r: Result<File, FileRenameFailed>)
      modifies this
      ensures r == RenameOutcome(old(existing), src, nameOnly, extension, platformRenames)
      ensures r.Success? ==> existing == old(existing) - {src} + {r.value}
      ensures r.Failure? ==> existing == old(existing)
    {
      var dest := WithNameAndExtension(src, nameOnly, extension);
      if src !in existing {
        return Failure(FileRenameFailed(SOURCE_DOES_NOT_EXISTS, src, dest));
      }
      if dest in existing {
        return Failure(FileRenameFailed(DEST_ALREADY_EXISTS, src, dest));
      }
      if !platformRenames {
        return Failure(FileRenameFailed(PLATFORM_FAILURE, src, dest));
      }
      existing := existing - {src} + {dest};
      r := Success(dest);
    }
  }

  /** A successful rename moves the file: the source is gone, the destination exists, nothing else changes count. */
  lemma RenameMovesOneFile(existing: set<File>, src: File, nameOnly: string, extension: string)
    requires RenameOutcome(existing, src, nameOnly, extension, true).Success?
    ensures var dest := RenameOutcome(existing, src, nameOnly, extension, true).value;
      var after := existing - {src} + {dest};
      && src != dest && src !in after && dest in after
      && |after| == |existing|
      && forall g :: g != src && g != dest ==> (g in after <==> g in existing)
  {
    var dest := RenameOutcome(existing, src, nameOnly, extension, true).value;
    var rest := existing - {src};
    assert existing == rest + {src};
    assert |rest| == |existing| - 1;
    assert dest !in rest;
  }
}
