/**
 * The import classifier (main.go:125-157): which quoted import literals of a file
 * name the generated gRPC package of another service of the same module, and which
 * `group/name` service each of them names.
 */
module Imports {
  import opened Wrappers
  import opened Types
  import opened GoStrings

  /**
   * importHasPrefix: the literal, quote included, starts with `"` and then `prefix`.
   * A literal prefix test with no segment boundary after `prefix`.
   */
  function ImportHasPrefix(lit: string, prefix: string): (r: bool)
    ensures r <==> |prefix| < |lit| && lit[0] == '"' && lit[1..|prefix| + 1] == prefix
  {
    HasPrefix(lit, "\"" + prefix)
  }

  /**
   * importHasSuffix: the literal ends with `suffix` and then the closing `"`.
   * A literal suffix test, not a test on the last path segment.
   */
  function ImportHasSuffix(lit: string, suffix: string): (r: bool)
    ensures r <==> |suffix| < |lit| && lit[|lit| - 1] == '"' && lit[|lit| - 1 - |suffix|..|lit| - 1] == suffix
  {
    assert (suffix + "\"")[..|suffix|] == suffix;
    HasSuffix(lit, suffix + "\"")
  }

  /** The body of the loop at main.go:134-145 for one import literal. */
  function ClassifyImport(lit: string, modName: string): (r: Option<string>)
  {
    if ImportHasPrefix(lit, modName) then
      var split := Split(lit, '/');
      if ImportHasSuffix(lit, "proto") then
        if |split| > 3 then Some(split[|split| - 3] + "/" + split[|split| - 2]) else None
      else None
    else None
  }

  /** The zero or one service name one literal contributes. */
  function Found(o: Option<string>): seq<string>
  {
    match o
    case Some(x) => [x]
    case None => []
  }

  /** The service names a file's import literals yield, in import order. */
  function GrpcImports(imports: seq<string>, modName: string): (r: seq<string>)
    ensures |r| <= |imports|
    decreases |imports|
  {
    if |imports| == 0 then []
    else Found(ClassifyImport(imports[0], modName)) + GrpcImports(imports[1..], modName)
  }

  /** The literals from position `i` on yield the `i`-th literal's name, then the rest's. */
  lemma GrpcImportsFrom(imports: seq<string>, i: nat, modName: string)
    requires i < |imports|
    ensures GrpcImports(imports[i..], modName) ==
            Found(ClassifyImport(imports[i], modName)) + GrpcImports(imports[i + 1..], modName)
  {
    assert imports[i..][0] == imports[i];
    assert imports[i..][1..] == imports[i + 1..];
  }

  /**
   * checkGrpcImports: a file that does not parse is an error; otherwise every import
   * literal is classified, in order, and never causes an error itself.
   */
  method CheckGrpcImports(file: ParseOutcome, modName: string) returns (r: Result<seq<string>, Error>)
    ensures r.Failure? <==> file.Unparsable?
    ensures file.Unparsable? ==> r == Failure(ParseError(file.path))
    ensures file.Parsed? ==> r == Success(GrpcImports(file.imports, modName))
  {
    if file.Unparsable? {
      return Failure(ParseError(file.path));
    }
    var astImports := file.imports;
    var imports: seq<string> := [];
    var i := 0;
    while i < |astImports|
      invariant 0 <= i <= |astImports|
      invariant GrpcImports(astImports, modName) == imports + GrpcImports(astImports[i..], modName)
    {
      GrpcImportsFrom(astImports, i, modName);
      imports := imports + Found(ClassifyImport(astImports[i], modName));
      i := i + 1;
    }
    assert astImports[i..] == [];
    assert GrpcImports(astImports, modName) == imports;
    return Success(imports);
  }

  /**
   * Classification seen through the segments of the literal: an internal literal
   * ending in `proto"` with more than three '/'-separated segments names the pair of
   * its third- and second-to-last segments; every other literal names nothing.
   */
  lemma ClassifySegments(parts: seq<string>, modName: string)
    requires |parts| >= 1
    requires forall k :: 0 <= k < |parts| ==> '/' !in parts[k]
    ensures var lit := Join(parts, '/');
      ClassifyImport(lit, modName) ==
        if ImportHasPrefix(lit, modName) && ImportHasSuffix(lit, "proto") && |parts| > 3
        then Some(parts[|parts| - 3] + "/" + parts[|parts| - 2])
        else None
  {
    SplitJoin(parts, '/');
  }

  /** Joining three pieces. */
  lemma JoinThree(a: string, b: string, c: string)
    ensures Join([a, b, c], '/') == a + "/" + b + "/" + c
  {
    assert [a, b, c][1..] == [b, c];
    assert [b, c][1..] == [c];
    assert Join([b, c], '/') == b + "/" + c;
    assert Join([a, b, c], '/') == a + "/" + (b + "/" + c);
    assert a + "/" + (b + "/" + c) == a + "/" + b + "/" + c;
  }

  /** Three more '/'-free pieces after '/'-free pieces leave every piece '/'-free. */
  lemma SlashFreeAppend(front: seq<string>, group: string, name: string, last: string)
    requires forall k :: 0 <= k < |front| ==> '/' !in front[k]
    requires '/' !in group && '/' !in name && '/' !in last
    ensures forall k :: 0 <= k < |front + [group, name, last]| ==> '/' !in (front + [group, name, last])[k]
  {
    var parts := front + [group, name, last];
    forall k | 0 <= k < |parts| ensures '/' !in parts[k] {
      if k < |front| { assert parts[k] == front[k]; }
    }
  }

  /** Joining the pieces of `first` and then three more pieces. */
  lemma JoinServiceLiteral(front: seq<string>, first: string, group: string, name: string, last: string)
    requires |front| >= 1 && Join(front, '/') == first
    ensures Join(front + [group, name, last], '/') == first + "/" + group + "/" + name + "/" + last
  {
    assert Join(front + [group], '/') == first + "/" + group by {
      JoinAppend(front, [group], '/');
    }
    assert Join(front + [group, name], '/') == first + "/" + group + "/" + name by {
      assert front + [group] + [name] == front + [group, name];
      JoinAppend(front + [group], [name], '/');
    }
    assert front + [group, name] + [last] == front + [group, name, last];
    JoinAppend(front + [group, name], [last], '/');
  }

  /** The '/'-separated segments of `"<head>/<group>/<name>/<tail>proto"`. */
  lemma ServiceLiteralSegments(head: string, group: string, name: string, tail: string) returns (parts: seq<string>)
    requires '/' !in group && '/' !in name && '/' !in tail
    ensures |parts| > 3 && parts[|parts| - 3] == group && parts[|parts| - 2] == name
    ensures forall k :: 0 <= k < |parts| ==> '/' !in parts[k]
    ensures Join(parts, '/') == "\"" + head + "/" + group + "/" + name + "/" + tail + "proto\""
  {
    var first := "\"" + head;
    var last := tail + "proto\"";
    var front := Pieces(first, '/');
    assert '/' !in last by {
      assert last == tail + "proto\"";
    }
    SlashFreeAppend(front, group, name, last);
    JoinServiceLiteral(front, first, group, name, last);
    parts := front + [group, name, last];
  }

  /**
   * The literal of a service's generated package, `"<head>/<group>/<name>/<tail>proto"`,
   * names `group/name` whenever `head` merely starts with the module name and the last
   * segment merely ends in `proto`: `"<module>foo/..."` and `.../myproto"` are accepted too.
   */
  lemma ClassifyServiceImport(modName: string, head: string, group: string, name: string, tail: string)
    requires modName <= head
    requires '/' !in group && '/' !in name && '/' !in tail
    ensures ClassifyImport("\"" + head + "/" + group + "/" + name + "/" + tail + "proto\"", modName)
            == Some(group + "/" + name)
  {
    var lit := "\"" + head + "/" + group + "/" + name + "/" + tail + "proto\"";
    var parts := ServiceLiteralSegments(head, group, name, tail);
    assert lit[1..|modName| + 1] == head[..|modName|] == modName;
    assert ImportHasPrefix(lit, modName);
    assert lit[|lit| - 6..|lit| - 1] == "proto";
    assert ImportHasSuffix(lit, "proto");
    ClassifySegments(parts, modName);
  }

  /** An internal `proto` literal with only three segments (`"<module>/<x>/proto"`) is skipped without error. */
  lemma ClassifyShortImport(modName: string, x: string)
    requires '/' !in modName && '/' !in x
    ensures ClassifyImport("\"" + modName + "/" + x + "/proto\"", modName) == None
  {
    var parts := ["\"" + modName, x, "proto\""];
    JoinThree(parts[0], x, parts[2]);
    assert "/proto\"" == "/" + "proto\"";
    assert Join(parts, '/') == "\"" + modName + "/" + x + "/proto\"";
    assert '/' !in parts[0] && '/' !in parts[2];
    ClassifySegments(parts, modName);
  }

  /**
   * The segment count of main.go:138 includes the module path's own segments: under a
   * module `<host>/<last>`, the three-segment package `"<host>/<last>/<x>/proto"` is
   * counted as four segments and names the service `<last>/<x>`.
   */
  lemma ClassifyNestedModuleImport(host: string, last: string, x: string)
    requires '/' !in host && '/' !in last && '/' !in x
    ensures ClassifyImport("\"" + host + "/" + last + "/" + x + "/proto\"", host + "/" + last) == Some(last + "/" + x)
  {
    var modName := host + "/" + last;
    var lit := "\"" + modName + "/" + x + "/proto\"";
    var parts := ["\"" + host, last, x, "proto\""];
    assert Join(parts, '/') == "\"" + host + "/" + (last + "/" + x + "/" + "proto\"") by {
      JoinThree(last, x, "proto\"");
      assert parts[1..] == [last, x, "proto\""];
    }
    assert "/proto\"" == "/" + "proto\"";
    assert lit == "\"" + host + "/" + last + "/" + x + "/proto\"";
    assert Join(parts, '/') == lit;
    assert parts[|parts| - 3] == last && parts[|parts| - 2] == x;
    assert lit[1..|modName| + 1] == modName;
    assert ImportHasPrefix(lit, modName);
    assert lit[|lit| - 6..|lit| - 1] == "proto";
    assert ImportHasSuffix(lit, "proto");
    assert '/' !in parts[0] && '/' !in parts[3];
    ClassifySegments(parts, modName);
  }

  /** A versioned package under a `proto` directory, `".../proto/v1"`, fails the suffix test and names nothing. */
  lemma ClassifyVersionedProto(modName: string, path: string)
    ensures ClassifyImport("\"" + modName + path + "/proto/v1\"", modName) == None
  {
    var lit := "\"" + modName + path + "/proto/v1\"";
    assert lit[|lit| - 2] == '1';
    assert !ImportHasSuffix(lit, "proto");
  }

  /** Literals outside the module, or not ending in `proto"`, never name a service. */
  lemma ClassifyNeedsBothChecks(lit: string, modName: string)
    ensures ClassifyImport(lit, modName).Some? ==> ImportHasPrefix(lit, modName) && ImportHasSuffix(lit, "proto")
    ensures ClassifyImport(lit, modName).Some? ==> |Split(lit, '/')| > 3
  {
  }

  /** The classification of a concatenation is the concatenation of the classifications: order is kept. */
  lemma {:induction false} GrpcImportsAppend(a: seq<string>, b: seq<string>, modName: string)
    ensures GrpcImports(a + b, modName) == GrpcImports(a, modName) + GrpcImports(b, modName)
    decreases |a|
  {
    if |a| == 0 {
      assert a + b == b;
    } else {
      var found := Found(ClassifyImport(a[0], modName));
      assert (a + b)[0] == a[0];
      assert (a + b)[1..] == a[1..] + b;
      GrpcImportsAppend(a[1..], b, modName);
      assert GrpcImports(a + b, modName) == found + (GrpcImports(a[1..], modName) + GrpcImports(b, modName));
    }
  }

  /** A name is in a file's result exactly when some import literal of the file classifies to it. */
  lemma {:induction false} GrpcImportsMember(imports: seq<string>, modName: string, x: string)
    ensures x in GrpcImports(imports, modName) <==>
            exists k :: 0 <= k < |imports| && ClassifyImport(imports[k], modName) == Some(x)
    decreases |imports|
  {
    if |imports| > 0 {
      GrpcImportsMember(imports[1..], modName, x);
      if exists k :: 0 <= k < |imports| && ClassifyImport(imports[k], modName) == Some(x) {
        var k :| 0 <= k < |imports| && ClassifyImport(imports[k], modName) == Some(x);
        if k > 0 {
          assert imports[1..][k - 1] == imports[k];
        }
      }
      if x in GrpcImports(imports[1..], modName) {
        var k :| 0 <= k < |imports[1..]| && ClassifyImport(imports[1..][k], modName) == Some(x);
        assert imports[k + 1] == imports[1..][k];
      }
    }
  }
}
