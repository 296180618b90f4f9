/**
 * Service discovery and the module name (main.go:64-81, 159-171), from the text the
 * `find` command prints and the text of `go.mod` onwards.
 */
module Discovery {
  import opened Wrappers
  import opened Types
  import opened GoStrings

  /** The non-empty lines of `lines`, in order. */
  function NonEmpty(lines: seq<string>): seq<string>
    decreases |lines|
  {
    if |lines| == 0 then []
    else
      var last := lines[|lines| - 1];
      NonEmpty(lines[..|lines| - 1]) + (if last != "" then [last] else [])
  }

  /** NonEmpty drops exactly the empty lines and keeps the order of the others. */
  lemma {:induction false} NonEmptySpec(lines: seq<string>)
    ensures |NonEmpty(lines)| <= |lines|
    ensures forall x :: x in NonEmpty(lines) <==> x in lines && x != ""
    decreases |lines|
  {
    if |lines| > 0 {
      var init := lines[..|lines| - 1];
      NonEmptySpec(init);
      assert lines == init + [lines[|lines| - 1]];
    }
  }

  /** Lines that are all non-empty are kept as they are. */
  lemma {:induction false} NonEmptyKeepsAll(lines: seq<string>)
    requires forall k :: 0 <= k < |lines| ==> lines[k] != ""
    ensures NonEmpty(lines) == lines
    decreases |lines|
  {
    if |lines| > 0 {
      var init := lines[..|lines| - 1];
      NonEmptyKeepsAll(init);
      assert lines == init + [lines[|lines| - 1]];
    }
  }

  /** A trailing empty line is dropped. */
  lemma NonEmptyDropsEmpty(lines: seq<string>)
    ensures NonEmpty(lines + [""]) == NonEmpty(lines)
  {
    assert (lines + [""])[..|lines|] == lines;
  }

  /** The service a Buildfile path names: its directory, without the leading `repoPath/`. */
  function ServiceDir(buildfile: string, repoPath: string): (svc: string)
    ensures HasPrefix(Dir(buildfile), repoPath + "/") ==> Dir(buildfile) == repoPath + "/" + svc
    ensures !HasPrefix(Dir(buildfile), repoPath + "/") ==> svc == Dir(buildfile)
  {
    TrimPrefix(Dir(buildfile), repoPath + "/")
  }

  /** The services collected from `lines` by the loop of main.go:74-79, in line order. */
  function ServicesOf(lines: seq<string>, repoPath: string): seq<string>
    decreases |lines|
  {
    if |lines| == 0 then []
    else
      var last := lines[|lines| - 1];
      ServicesOf(lines[..|lines| - 1], repoPath) + (if last != "" then [ServiceDir(last, repoPath)] else [])
  }

  /** The collected services are the directories of the non-empty lines, one each, in order. */
  lemma {:induction false} ServicesOfSpec(lines: seq<string>, repoPath: string)
    ensures |ServicesOf(lines, repoPath)| == |NonEmpty(lines)|
    ensures forall k :: 0 <= k < |ServicesOf(lines, repoPath)| ==>
              ServicesOf(lines, repoPath)[k] == ServiceDir(NonEmpty(lines)[k], repoPath)
    decreases |lines|
  {
    if |lines| > 0 {
      ServicesOfSpec(lines[..|lines| - 1], repoPath);
    }
  }

  /**
   * findServices after `find` has printed `out`: one service per non-empty line of the
   * output, in output order, each the line's directory relative to the repository.
   */
  method FindServices(out: string, repoPath: string) returns (services: seq<string>)
    ensures |services| == |NonEmpty(Split(out, '\n'))|
    ensures forall k :: 0 <= k < |services| ==>
              services[k] == ServiceDir(NonEmpty(Split(out, '\n'))[k], repoPath)
  {
    var buildfiles := Split(out, '\n');
    services := [];
    var i := 0;
    while i < |buildfiles|
      invariant 0 <= i <= |buildfiles|
      invariant services == ServicesOf(buildfiles[..i], repoPath)
    {
      var buildfile := buildfiles[i];
      assert buildfiles[..i + 1][..i] == buildfiles[..i];
      if buildfile != "" {
        services := services + [ServiceDir(buildfile, repoPath)];
      }
      i := i + 1;
    }
    assert buildfiles[..i] == buildfiles;
    ServicesOfSpec(buildfiles, repoPath);
  }

  /** What `find` prints for a list of paths: each one followed by a newline. */
  function FindOutput(paths: seq<string>): string
    decreases |paths|
  {
    if |paths| == 0 then "" else paths[0] + "\n" + FindOutput(paths[1..])
  }

  /** find's output is the found paths joined by newlines, with one more newline at the end. */
  lemma {:induction false} FindOutputJoin(paths: seq<string>)
    ensures FindOutput(paths) == Join(paths + [""], '\n')
    decreases |paths|
  {
    if |paths| > 0 {
      FindOutputJoin(paths[1..]);
      assert (paths + [""])[1..] == paths[1..] + [""];
    }
  }

  /** Splitting find's output at newlines gives the paths back, and one empty last piece. */
  lemma SplitFindOutput(paths: seq<string>)
    requires forall k :: 0 <= k < |paths| ==> '\n' !in paths[k]
    ensures Split(FindOutput(paths), '\n') == paths + [""]
  {
    FindOutputJoin(paths);
    forall k | 0 <= k < |paths + [""]| ensures '\n' !in (paths + [""])[k] {
      if k < |paths| { assert (paths + [""])[k] == paths[k]; }
    }
    SplitJoin(paths + [""], '\n');
  }

  /** The lines findServices reads from find's output are exactly the paths found, in order. */
  lemma FindOutputLines(paths: seq<string>)
    requires forall k :: 0 <= k < |paths| ==> paths[k] != "" && '\n' !in paths[k]
    ensures NonEmpty(Split(FindOutput(paths), '\n')) == paths
  {
    SplitFindOutput(paths);
    NonEmptyDropsEmpty(paths);
    NonEmptyKeepsAll(paths);
  }

  /**
   * A Buildfile at `repoPath/svc/<file>` names the service `svc`, which may hold '/' itself.
   * `svc` is a clean relative path, as `find` prints it: neither empty nor starting or ending in '/'.
   */
  lemma ServiceDirOfBuildfile(repoPath: string, svc: string, file: string)
    requires svc != "" && svc[0] != '/' && svc[|svc| - 1] != '/'
    requires '/' !in file
    ensures ServiceDir(repoPath + "/" + svc + "/" + file, repoPath) == svc
  {
    var dir := repoPath + "/" + svc;
    DirOfChild(dir, file);
    assert HasPrefix(dir, repoPath + "/");
  }

  /** A Buildfile at the repository root names the repository path itself: nothing is trimmed. */
  lemma ServiceDirOfRootBuildfile(repoPath: string, file: string)
    requires repoPath != "" && '/' !in file
    ensures ServiceDir(repoPath + "/" + file, repoPath) == repoPath
  {
    DirOfChild(repoPath, file);
    assert !HasPrefix(repoPath, repoPath + "/");
  }

  /**
   * readModuleName after `go.mod` has been read as `contents`: the first line, without
   * one leading `module `; a file without any newline is invalid.
   */
  function ReadModuleName(contents: string): (r: Result<string, Error>)
    ensures r.Success? <==> '\n' in contents
    ensures r.Failure? ==> r.error == InvalidGoMod
    ensures r.Success? ==> '\n' !in r.value && |r.value| < |contents|
  {
    var cut := CutAt(contents, '\n');
    if !cut.found then Failure(InvalidGoMod)
    else Success(TrimPrefix(cut.before, "module "))
  }

  /** The module name is taken from the first line alone, whatever follows it. */
  lemma ReadModuleNameFirstLine(line: string, rest: string)
    requires '\n' !in line
    ensures ReadModuleName(line + "\n" + rest) == Success(TrimPrefix(line, "module "))
  {
    var contents := line + "\n" + rest;
    assert contents == line + ['\n'] + rest;
    IndexOfAfter(line, '\n', rest);
    assert contents[..|line|] == line;
  }

  /** A `module <name>` first line gives `<name>`; a second `module ` is not removed. */
  lemma ReadModuleNameOfDirective(name: string, rest: string)
    requires '\n' !in name
    ensures ReadModuleName("module " + name + "\n" + rest) == Success(name)
  {
    ReadModuleNameFirstLine("module " + name, rest);
    assert HasPrefix("module " + name, "module ");
  }

  /** A first line that is not a `module ` directive is returned unchanged as the name. */
  lemma ReadModuleNameWithoutDirective(line: string, rest: string)
    requires '\n' !in line && !HasPrefix(line, "module ")
    ensures ReadModuleName(line + "\n" + rest) == Success(line)
  {
    ReadModuleNameFirstLine(line, rest);
  }
}
