/** The list of files to process (Program.cs:33-39, 178-195): the `./` prefix strip and the
    exclusion of files by base name. */
module Selection {

  /** `Path.DirectorySeparatorChar` and `Path.AltDirectorySeparatorChar` on Windows (on Unix both
      are `/`). `StripDotPrefix` and `FileName` use it. */
  predicate IsSeparator(c: char) {
    c == '\\' || c == '/'
  }

  /** Line 34: a path `Directory.GetFiles(".", ...)` returned starts with `.` and a separator. */
  predicate HasDotPrefix(path: string) {
    |path| >= 2 && path[0] == '.' && IsSeparator(path[1])
  }

  /** Line 34: drops a leading `./` or `.\`. */
  function StripDotPrefix(path: string): (r: string)
    ensures HasDotPrefix(path) ==> path == path[..2] + r
    ensures !HasDotPrefix(path) ==> r == path
    ensures r != path <==> HasDotPrefix(path)
  {
    if HasDotPrefix(path) then path[2..] else path
  }

  /** `Path.GetFileName`: the text after the last separator, or the whole path if there is
      none. */
  function FileName(path: string): (r: string)
    ensures |r| <= |path|
    ensures forall i | 0 <= i < |r| :: !IsSeparator(r[i])
    ensures |r| < |path| ==> IsSeparator(path[|path| - |r| - 1])
  {
    if path == [] || IsSeparator(path[|path| - 1]) then []
    else FileName(path[..|path| - 1]) + [path[|path| - 1]]
  }

  /** The base name is the tail of the path. */
  lemma {:induction false} FileNameIsSuffix(path: string)
    ensures FileName(path) == path[|path| - |FileName(path)|..]
  {
    if path != [] && !IsSeparator(path[|path| - 1]) {
      var init := path[..|path| - 1];
      FileNameIsSuffix(init);
      assert path[|path| - |FileName(path)|..] == init[|init| - |FileName(init)|..] + [path[|path| - 1]];
    }
  }

  /** The files `ExcludeFiles` keeps: those whose base name is not excluded, in their order. */
  function Kept(files: seq<string>, excludeFiles: seq<string>): (r: seq<string>)
    ensures |r| <= |files|
  {
    if files == [] then []
    else
      var init := Kept(files[..|files| - 1], excludeFiles);
      var last := files[|files| - 1];
      if FileName(last) in excludeFiles then init else init + [last]
  }

  /** A file is kept exactly when it is one of `files` and its base name is not excluded. */
  lemma {:induction false} KeptMembers(files: seq<string>, excludeFiles: seq<string>, f: string)
    ensures f in Kept(files, excludeFiles) <==> f in files && FileName(f) !in excludeFiles
  {
    if files != [] {
      var init := files[..|files| - 1];
      KeptMembers(init, excludeFiles, f);
      assert files == init + [files[|files| - 1]];
    }
  }

  /** With no exclusions every file is kept. */
  lemma {:induction false} KeptAllWhenNothingExcluded(files: seq<string>)
    ensures Kept(files, []) == files
  {
    if files != [] {
      var init, last := files[..|files| - 1], files[|files| - 1];
      KeptAllWhenNothingExcluded(init);
      assert Kept(files, []) == init + [last];
      assert init + [last] == files;
    }
  }

  /** `Kept` never reorders: what it keeps of `a + b` is what it keeps of `a` followed by what
      it keeps of `b`. */
  lemma {:induction false} KeptDistributes(a: seq<string>, b: seq<string>, excludeFiles: seq<string>)
    ensures Kept(a + b, excludeFiles) == Kept(a, excludeFiles) + Kept(b, excludeFiles)
    decreases |b|
  {
    if b == [] {
      assert a + b == a;
    } else {
      var b' := b[..|b| - 1];
      var last := b[|b| - 1];
      assert (a + b)[..|a + b| - 1] == a + b';
      assert (a + b)[|a + b| - 1] == last;
      KeptDistributes(a, b', excludeFiles);
      var ka, kb := Kept(a, excludeFiles), Kept(b', excludeFiles);
      if FileName(last) !in excludeFiles {
        assert (ka + kb) + [last] == ka + (kb + [last]);
      }
    }
  }

  /** Program.cs `ExcludeFiles`. */
  method ExcludeFiles(files: seq<string>, excludeFiles: seq<string>) returns (kept: seq<string>)
    ensures kept == Kept(files, excludeFiles)
  {
    kept := [];
    for i := 0 to |files|
      invariant kept == Kept(files[..i], excludeFiles)
    {
      assert files[..i + 1][..i] == files[..i];
      if FileName(files[i]) !in excludeFiles {
        kept := kept + [files[i]];
      }
    }
    assert files[..|files|] == files;
  }
}
