/**
 * Per-service accumulation and edge assembly (main.go:83-123): for every service,
 * the distinct gRPC targets its `.go` files import, other than itself, become
 * `Dependency{svc, target}` edges.
 */
module Analysis {
  import opened Wrappers
  import opened Types
  import opened Imports

  /** No element occurs twice. */
  predicate NoDuplicates<T(==)>(s: seq<T>)
  {
    forall i, j :: 0 <= i < j < |s| ==> s[i] != s[j]
  }

  /** contains: a linear scan for `str`. */
  method Contains(strs: seq<string>, str: string) returns (found: bool)
    ensures found <==> str in strs
  {
    var i := 0;
    while i < |strs|
      invariant 0 <= i <= |strs|
      invariant str !in strs[..i]
    {
      if strs[i] == str {
        return true;
      }
      assert strs[..i + 1] == strs[..i] + [strs[i]];
      i := i + 1;
    }
    assert strs[..i] == strs;
    return false;
  }

  /** One step of main.go:97-101: keep `imp` unless it is the service itself or already kept. */
  function Admit(acc: seq<string>, svc: string, imp: string): seq<string>
  {
    if imp != svc && imp !in acc then acc + [imp] else acc
  }

  /** The accumulation of main.go:97-101 over a list of found names, starting from `acc`. */
  function Accumulate(acc: seq<string>, svc: string, found: seq<string>): seq<string>
    decreases |found|
  {
    if |found| == 0 then acc
    else Accumulate(Admit(acc, svc, found[0]), svc, found[1..])
  }

  /**
   * The invariant of main.go:97-101: the accumulator only grows at its end, holds exactly
   * the names it started with and the found names other than `svc`, and stays free of
   * `svc` and of duplicates.
   */
  lemma {:induction false} AccumulateInvariant(acc: seq<string>, svc: string, found: seq<string>)
    ensures acc <= Accumulate(acc, svc, found)
    ensures forall x :: x in Accumulate(acc, svc, found) <==> x in acc || (x in found && x != svc)
    ensures svc !in acc && NoDuplicates(acc) ==>
            svc !in Accumulate(acc, svc, found) && NoDuplicates(Accumulate(acc, svc, found))
    decreases |found|
  {
    if |found| > 0 {
      assert forall x :: x in found <==> x == found[0] || x in found[1..] by {
        assert found == [found[0]] + found[1..];
      }
      AccumulateInvariant(Admit(acc, svc, found[0]), svc, found[1..]);
    }
  }

  /**
   * Reference definition of "distinct, in order of first occurrence": the elements of
   * `xs` not in `seen`, each kept at its first occurrence only.
   */
  function KeepFirst(xs: seq<string>, seen: set<string>): seq<string>
    decreases |xs|
  {
    if |xs| == 0 then []
    else if xs[0] in seen then KeepFirst(xs[1..], seen)
    else [xs[0]] + KeepFirst(xs[1..], seen + {xs[0]})
  }

  /** KeepFirst keeps every element of `xs` outside `seen`, nothing else, and none twice. */
  lemma {:induction false} KeepFirstSpec(xs: seq<string>, seen: set<string>)
    ensures NoDuplicates(KeepFirst(xs, seen))
    ensures forall x :: x in KeepFirst(xs, seen) <==> x in xs && x !in seen
    decreases |xs|
  {
    if |xs| > 0 {
      assert forall x :: x in xs <==> x == xs[0] || x in xs[1..] by {
        assert xs == [xs[0]] + xs[1..];
      }
      if xs[0] in seen {
        KeepFirstSpec(xs[1..], seen);
      } else {
        KeepFirstSpec(xs[1..], seen + {xs[0]});
      }
    }
  }

  /**
   * The Contains-based accumulation keeps exactly the first occurrences of the new names:
   * those not yet accumulated and other than the service itself.
   */
  lemma {:induction false} AccumulateKeepsFirst(acc: seq<string>, svc: string, found: seq<string>, seen: set<string>)
    requires forall y :: y in seen <==> y in acc || y == svc
    ensures Accumulate(acc, svc, found) == acc + KeepFirst(found, seen)
    decreases |found|
  {
    if |found| == 0 {
      assert acc + [] == acc;
    } else {
      var x := found[0];
      if x == svc || x in acc {
        assert Accumulate(acc, svc, found) == Accumulate(acc, svc, found[1..]);
        assert KeepFirst(found, seen) == KeepFirst(found[1..], seen);
        AccumulateKeepsFirst(acc, svc, found[1..], seen);
      } else {
        var tail := KeepFirst(found[1..], seen + {x});
        assert Accumulate(acc, svc, found) == Accumulate(acc + [x], svc, found[1..]);
        assert KeepFirst(found, seen) == [x] + tail;
        assert forall y :: y in seen + {x} <==> y in acc + [x] || y == svc;
        AccumulateKeepsFirst(acc + [x], svc, found[1..], seen + {x});
        assert acc + [x] + tail == acc + ([x] + tail);
      }
    }
  }

  /** Accumulating over two lists in a row is accumulating over their concatenation. */
  lemma {:induction false} AccumulateAppend(acc: seq<string>, svc: string, a: seq<string>, b: seq<string>)
    ensures Accumulate(acc, svc, a + b) == Accumulate(Accumulate(acc, svc, a), svc, b)
    decreases |a|
  {
    if |a| == 0 {
      assert a + b == b;
    } else {
      assert (a + b)[0] == a[0];
      assert (a + b)[1..] == a[1..] + b;
      AccumulateAppend(Admit(acc, svc, a[0]), svc, a[1..], b);
    }
  }

  /** Every file parsed. */
  predicate AllParsed(files: seq<ParseOutcome>)
  {
    forall k :: 0 <= k < |files| ==> files[k].Parsed?
  }

  /** The position of the first unparsable file, or `|files|` when every file parses. */
  function FirstUnparsable(files: seq<ParseOutcome>): (k: nat)
    ensures k <= |files| && AllParsed(files[..k])
    ensures k < |files| <==> !AllParsed(files)
    ensures k < |files| ==> files[k].Unparsable?
    decreases |files|
  {
    if |files| == 0 || files[0].Unparsable? then 0
    else
      var k := 1 + FirstUnparsable(files[1..]);
      assert forall j :: 0 < j < |files| ==> files[j] == files[1..][j - 1];
      k
  }

  /** The classified imports of all parsed files, file after file, in walk order. */
  function Classified(modName: string, files: seq<ParseOutcome>): seq<string>
    decreases |files|
  {
    if |files| == 0 then []
    else
      (match files[0]
       case Parsed(imports) => GrpcImports(imports, modName)
       case Unparsable(_) => [])
      + Classified(modName, files[1..])
  }

  /**
   * The WalkDir callback of main.go:90-104 over the service's `.go` files, in walk order,
   * with `acc` holding the names accumulated so far; the first unparsable file aborts.
   */
  function ResolveFrom(acc: seq<string>, modName: string, svc: string, files: seq<ParseOutcome>): (r: Result<seq<string>, Error>)
    ensures r.Success? <==> AllParsed(files)
    decreases |files|
  {
    if |files| == 0 then Success(acc)
    else
      match files[0]
      case Unparsable(path) => Failure(ParseError(path))
      case Parsed(imports) =>
        var r := ResolveFrom(Accumulate(acc, svc, GrpcImports(imports, modName)), modName, svc, files[1..]);
        assert AllParsed(files) <==> AllParsed(files[1..]) by {
          if AllParsed(files[1..]) {
            forall k | 0 < k < |files| ensures files[k].Parsed? { assert files[k] == files[1..][k - 1]; }
          }
        }
        r
  }

  /** The `grpcImports` list of one service, or the error that aborted its walk. */
  function Resolve(modName: string, svc: string, files: seq<ParseOutcome>): Result<seq<string>, Error>
  {
    ResolveFrom([], modName, svc, files)
  }

  /** On success, resolving from `acc` is accumulating all classified imports onto `acc`. */
  lemma {:induction false} ResolveFromAccumulates(acc: seq<string>, modName: string, svc: string, files: seq<ParseOutcome>)
    requires AllParsed(files)
    ensures ResolveFrom(acc, modName, svc, files) == Success(Accumulate(acc, svc, Classified(modName, files)))
    decreases |files|
  {
    if |files| > 0 {
      var found := GrpcImports(files[0].imports, modName);
      assert AllParsed(files[1..]) by {
        forall k | 0 <= k < |files[1..]| ensures files[1..][k].Parsed? { assert files[1..][k] == files[k + 1]; }
      }
      ResolveFromAccumulates(Accumulate(acc, svc, found), modName, svc, files[1..]);
      AccumulateAppend(acc, svc, found, Classified(modName, files[1..]));
    }
  }

  /** A walk whose files parse up to an unparsable one fails with that file's parse error. */
  lemma {:induction false} ResolveFromFailure(acc: seq<string>, modName: string, svc: string,
                                              files: seq<ParseOutcome>, k: nat)
    requires k < |files| && AllParsed(files[..k]) && files[k].Unparsable?
    ensures ResolveFrom(acc, modName, svc, files) == Failure(ParseError(files[k].path))
    decreases k
  {
    if k > 0 {
      assert files[0] == files[..k][0];
      assert files[1..][k - 1] == files[k];
      var front := files[1..][..k - 1];
      assert AllParsed(front) by {
        forall j | 0 <= j < |front| ensures front[j].Parsed? { assert front[j] == files[..k][j + 1]; }
      }
      ResolveFromFailure(Accumulate(acc, svc, GrpcImports(files[0].imports, modName)), modName, svc, files[1..], k - 1);
    }
  }

  /**
   * The list a service accumulates: defined exactly when every file parses, and then the
   * distinct classified imports of its files other than the service itself, in order of
   * first occurrence. Otherwise the walk fails with the parse error of the first
   * unparsable file.
   */
  lemma ResolveSpec(modName: string, svc: string, files: seq<ParseOutcome>)
    ensures Resolve(modName, svc, files).Success? <==> AllParsed(files)
    ensures !AllParsed(files) ==>
              Resolve(modName, svc, files) == Failure(ParseError(files[FirstUnparsable(files)].path))
    ensures Resolve(modName, svc, files).Success? ==>
      var targets := Resolve(modName, svc, files).value;
      && targets == KeepFirst(Classified(modName, files), {svc})
      && NoDuplicates(targets)
      && svc !in targets
      && forall x :: x in targets <==> x in Classified(modName, files) && x != svc
  {
    if AllParsed(files) {
      ResolveFromAccumulates([], modName, svc, files);
      AccumulateKeepsFirst([], svc, Classified(modName, files), {svc});
      KeepFirstSpec(Classified(modName, files), {svc});
    } else {
      ResolveFromFailure([], modName, svc, files, FirstUnparsable(files));
    }
  }

  /** The edges `svc -> t` for the targets `t`, in target order (main.go:109-111). */
  function Edges(svc: string, targets: seq<string>): (r: seq<Dependency>)
    ensures |r| == |targets|
    decreases |targets|
  {
    if |targets| == 0 then [] else [Dependency(svc, targets[0])] + Edges(svc, targets[1..])
  }

  /** The k-th edge goes from the service to the k-th target. */
  lemma {:induction false} EdgesSpec(svc: string, targets: seq<string>)
    ensures forall k :: 0 <= k < |targets| ==> Edges(svc, targets)[k] == Dependency(svc, targets[k])
    decreases |targets|
  {
    if |targets| > 0 {
      EdgesSpec(svc, targets[1..]);
      forall k | 0 < k < |targets| ensures Edges(svc, targets)[k] == Dependency(svc, targets[k]) {
        assert Edges(svc, targets)[k] == Edges(svc, targets[1..])[k - 1];
        assert targets[1..][k - 1] == targets[k];
      }
    }
  }

  /**
   * analyzeGrpc after `deps` have been emitted for the services already done, with
   * `resolve` giving each service's walk result: the remaining services in order, each
   * contributing its edges, the first error aborting.
   */
  function AnalyzeFrom(deps: seq<Dependency>, svcs: seq<string>, resolve: string -> Result<seq<string>, Error>)
    : Result<seq<Dependency>, Error>
    decreases |svcs|
  {
    if |svcs| == 0 then Success(deps)
    else
      match resolve(svcs[0])
      case Failure(e) => Failure(e)
      case Success(targets) => AnalyzeFrom(deps + Edges(svcs[0], targets), svcs[1..], resolve)
  }

  /** The walk result of every service. */
  function ResolverOf(modName: string, walk: string -> seq<ParseOutcome>): string -> Result<seq<string>, Error>
  {
    svc => Resolve(modName, svc, walk(svc))
  }

  /** The result of analyzeGrpc. */
  function Analyze(modName: string, svcs: seq<string>, walk: string -> seq<ParseOutcome>): Result<seq<Dependency>, Error>
  {
    AnalyzeFrom([], svcs, ResolverOf(modName, walk))
  }

  /** The target list of every service, as the reference definition gives it. */
  function TargetsOf(modName: string, walk: string -> seq<ParseOutcome>): string -> seq<string>
  {
    svc => KeepFirst(Classified(modName, walk(svc)), {svc})
  }

  /** The edges of all services, grouped by service in the order of `svcs`. */
  function AllEdges(svcs: seq<string>, targets: string -> seq<string>): seq<Dependency>
    decreases |svcs|
  {
    if |svcs| == 0 then []
    else Edges(svcs[0], targets(svcs[0])) + AllEdges(svcs[1..], targets)
  }

  /** Every service's walk succeeded. */
  predicate AllResolved(svcs: seq<string>, resolve: string -> Result<seq<string>, Error>)
  {
    forall i :: 0 <= i < |svcs| ==> resolve(svcs[i]).Success?
  }

  /** Every file of every service parsed. */
  predicate AllServicesParsed(svcs: seq<string>, walk: string -> seq<ParseOutcome>)
  {
    forall i :: 0 <= i < |svcs| ==> AllParsed(walk(svcs[i]))
  }

  /** The position of the first service with an unparsable file, or `|svcs|` when there is none. */
  function FirstUnparsedService(svcs: seq<string>, walk: string -> seq<ParseOutcome>): (i: nat)
    ensures i <= |svcs| && AllServicesParsed(svcs[..i], walk)
    ensures i < |svcs| <==> !AllServicesParsed(svcs, walk)
    ensures i < |svcs| ==> !AllParsed(walk(svcs[i]))
    decreases |svcs|
  {
    if |svcs| == 0 || !AllParsed(walk(svcs[0])) then 0
    else
      var i := 1 + FirstUnparsedService(svcs[1..], walk);
      assert forall j :: 0 < j < |svcs| ==> svcs[j] == svcs[1..][j - 1];
      i
  }

  /**
   * The service loop of analyzeGrpc, for any walk results: it fails exactly when some
   * service's walk fails, and otherwise appends the edges of every service in order.
   */
  lemma {:induction false} AnalyzeFromSpec(deps: seq<Dependency>, svcs: seq<string>,
                                           resolve: string -> Result<seq<string>, Error>, targets: string -> seq<string>)
    requires forall svc :: resolve(svc).Success? ==> resolve(svc).value == targets(svc)
    ensures AnalyzeFrom(deps, svcs, resolve).Success? <==> AllResolved(svcs, resolve)
    ensures AnalyzeFrom(deps, svcs, resolve).Success? ==>
            AnalyzeFrom(deps, svcs, resolve).value == deps + AllEdges(svcs, targets)
    decreases |svcs|
  {
    if |svcs| == 0 {
      assert deps + [] == deps;
    } else {
      var svc := svcs[0];
      assert AllResolved(svcs, resolve) <==> resolve(svc).Success? && AllResolved(svcs[1..], resolve) by {
        if resolve(svc).Success? && AllResolved(svcs[1..], resolve) {
          forall i | 0 < i < |svcs| ensures resolve(svcs[i]).Success? { assert svcs[i] == svcs[1..][i - 1]; }
        }
      }
      if resolve(svc).Success? {
        var e := Edges(svc, targets(svc));
        AnalyzeFromSpec(deps + e, svcs[1..], resolve, targets);
        var rest := AllEdges(svcs[1..], targets);
        assert deps + e + rest == deps + (e + rest);
      }
    }
  }

  /** When the services before one succeed and that one fails, the service loop fails with its error. */
  lemma {:induction false} AnalyzeFromFailure(deps: seq<Dependency>, svcs: seq<string>,
                                              resolve: string -> Result<seq<string>, Error>, i: nat)
    requires i < |svcs| && AllResolved(svcs[..i], resolve) && resolve(svcs[i]).Failure?
    ensures AnalyzeFrom(deps, svcs, resolve) == Failure(resolve(svcs[i]).error)
    decreases i
  {
    if i > 0 {
      assert svcs[0] == svcs[..i][0];
      assert svcs[1..][i - 1] == svcs[i];
      var front := svcs[1..][..i - 1];
      assert AllResolved(front, resolve) by {
        forall j | 0 <= j < |front| ensures resolve(front[j]).Success? { assert front[j] == svcs[..i][j + 1]; }
      }
      AnalyzeFromFailure(deps + Edges(svcs[0], resolve(svcs[0]).value), svcs[1..], resolve, i - 1);
    }
  }

  /** Every service's walk succeeds iff its files all parse, and then yields its reference targets. */
  lemma ResolverSpec(modName: string, walk: string -> seq<ParseOutcome>)
    ensures forall svc :: ResolverOf(modName, walk)(svc).Success? <==> AllParsed(walk(svc))
    ensures forall svc :: ResolverOf(modName, walk)(svc).Success? ==>
              ResolverOf(modName, walk)(svc).value == TargetsOf(modName, walk)(svc)
  {
    forall svc
      ensures ResolverOf(modName, walk)(svc).Success? <==> AllParsed(walk(svc))
      ensures ResolverOf(modName, walk)(svc).Success? ==>
                ResolverOf(modName, walk)(svc).value == TargetsOf(modName, walk)(svc)
    {
      ResolveSpec(modName, svc, walk(svc));
    }
  }

  /**
   * analyzeGrpc fails exactly when some file of some service does not parse, and then with
   * the parse error of the first unparsable file of the first such service; otherwise it
   * returns the edges of every service, grouped in service order.
   */
  lemma AnalyzeSpec(modName: string, svcs: seq<string>, walk: string -> seq<ParseOutcome>)
    ensures Analyze(modName, svcs, walk).Success? <==> AllServicesParsed(svcs, walk)
    ensures Analyze(modName, svcs, walk).Success? ==>
            Analyze(modName, svcs, walk).value == AllEdges(svcs, TargetsOf(modName, walk))
    ensures !AllServicesParsed(svcs, walk) ==>
              var files := walk(svcs[FirstUnparsedService(svcs, walk)]);
              Analyze(modName, svcs, walk) == Failure(ParseError(files[FirstUnparsable(files)].path))
  {
    AnalyzeOutcome(modName, svcs, walk);
    if !AllServicesParsed(svcs, walk) {
      AnalyzeFailure(modName, svcs, walk);
    }
  }

  /** analyzeGrpc succeeds iff every file parses, and then returns the edges grouped in service order. */
  lemma AnalyzeOutcome(modName: string, svcs: seq<string>, walk: string -> seq<ParseOutcome>)
    ensures Analyze(modName, svcs, walk).Success? <==> AllServicesParsed(svcs, walk)
    ensures Analyze(modName, svcs, walk).Success? ==>
            Analyze(modName, svcs, walk).value == AllEdges(svcs, TargetsOf(modName, walk))
  {
    var resolve, targets := ResolverOf(modName, walk), TargetsOf(modName, walk);
    assert forall svc :: resolve(svc).Success? ==> resolve(svc).value == targets(svc) by {
      ResolverSpec(modName, walk);
    }
    AnalyzeFromSpec([], svcs, resolve, targets);
    assert AllResolved(svcs, resolve) <==> AllServicesParsed(svcs, walk) by {
      ResolverSpec(modName, walk);
    }
    assert [] + AllEdges(svcs, targets) == AllEdges(svcs, targets);
  }

  /** The error of a failed analysis is the first parse error, in service order, then walk order. */
  lemma AnalyzeFailure(modName: string, svcs: seq<string>, walk: string -> seq<ParseOutcome>)
    requires !AllServicesParsed(svcs, walk)
    ensures var files := walk(svcs[FirstUnparsedService(svcs, walk)]);
            Analyze(modName, svcs, walk) == Failure(ParseError(files[FirstUnparsable(files)].path))
  {
    var resolve := ResolverOf(modName, walk);
    var i := FirstUnparsedService(svcs, walk);
    ResolverSpec(modName, walk);
    var front := svcs[..i];
    assert AllResolved(front, resolve) by {
      forall j | 0 <= j < |front| ensures resolve(front[j]).Success? { assert AllParsed(walk(front[j])); }
    }
    ResolveSpec(modName, svcs[i], walk(svcs[i]));
    AnalyzeFromFailure([], svcs, resolve, i);
  }

  /** Every edge leaves a listed service towards one of that service's targets. */
  lemma {:induction false} AllEdgesSourced(svcs: seq<string>, targets: string -> seq<string>)
    ensures forall d :: d in AllEdges(svcs, targets) ==> d.from in svcs && d.to in targets(d.from)
    decreases |svcs|
  {
    if |svcs| > 0 {
      AllEdgesSourced(svcs[1..], targets);
      var e := Edges(svcs[0], targets(svcs[0]));
      EdgesSpec(svcs[0], targets(svcs[0]));
      forall d | d in AllEdges(svcs, targets) ensures d.from in svcs && d.to in targets(d.from) {
        if d in e {
          var k :| 0 <= k < |e| && e[k] == d;
        } else {
          assert d in AllEdges(svcs[1..], targets);
          assert svcs == [svcs[0]] + svcs[1..];
        }
      }
    }
  }

  /** With distinct services, each with distinct targets, no (from, to) pair occurs twice. */
  lemma {:induction false} AllEdgesDistinct(svcs: seq<string>, targets: string -> seq<string>)
    requires NoDuplicates(svcs)
    requires forall i :: 0 <= i < |svcs| ==> NoDuplicates(targets(svcs[i]))
    ensures NoDuplicates(AllEdges(svcs, targets))
    decreases |svcs|
  {
    if |svcs| > 0 {
      var svc := svcs[0];
      var rest := AllEdges(svcs[1..], targets);
      var e := Edges(svc, targets(svc));
      EdgesSpec(svc, targets(svc));
      assert NoDuplicates(svcs[1..]) by {
        forall i, j | 0 <= i < j < |svcs[1..]| ensures svcs[1..][i] != svcs[1..][j] {
          assert svcs[1..][i] == svcs[i + 1] && svcs[1..][j] == svcs[j + 1];
        }
      }
      assert forall i :: 0 <= i < |svcs[1..]| ==> NoDuplicates(targets(svcs[1..][i])) by {
        forall i | 0 <= i < |svcs[1..]| ensures NoDuplicates(targets(svcs[1..][i])) {
          assert svcs[1..][i] == svcs[i + 1];
        }
      }
      assert NoDuplicates(targets(svcs[0]));
      AllEdgesDistinct(svcs[1..], targets);
      AllEdgesSourced(svcs[1..], targets);
      assert svc !in svcs[1..];
      var all := e + rest;
      forall i, j | 0 <= i < j < |all| ensures all[i] != all[j] {
        if j < |e| {
          assert all[i] == e[i] && all[j] == e[j];
        } else if i < |e| {
          assert all[i].from == svc;
          assert all[j] == rest[j - |e|];
          assert all[j] in rest;
        } else {
          assert all[i] == rest[i - |e|] && all[j] == rest[j - |e|];
        }
      }
    }
  }

  /**
   * The edges analyzeGrpc returns: never a self edge, always from a listed service to a
   * name that one of its files imports, and, for distinct services, no pair twice.
   */
  lemma AnalyzeEdges(modName: string, svcs: seq<string>, walk: string -> seq<ParseOutcome>)
    ensures Analyze(modName, svcs, walk).Success? ==>
      forall d :: d in Analyze(modName, svcs, walk).value ==>
        && d.from in svcs
        && d.from != d.to
        && d.to in Classified(modName, walk(d.from))
    ensures Analyze(modName, svcs, walk).Success? && NoDuplicates(svcs) ==>
      NoDuplicates(Analyze(modName, svcs, walk).value)
  {
    AnalyzeSpec(modName, svcs, walk);
    var targets := TargetsOf(modName, walk);
    AllEdgesSourced(svcs, targets);
    forall svc {:trigger targets(svc)}
      ensures NoDuplicates(targets(svc))
      ensures forall x :: x in targets(svc) <==> x in Classified(modName, walk(svc)) && x != svc
    {
      KeepFirstSpec(Classified(modName, walk(svc)), {svc});
    }
    if NoDuplicates(svcs) {
      AllEdgesDistinct(svcs, targets);
    }
  }

  /**
   * The loop of main.go:97-101: append each found name that is neither the service nor
   * already present. The list only grows at its end, gains exactly the new names, and
   * stays free of the service and of duplicates.
   */
  method AddImports(grpcImports: seq<string>, svc: string, found: seq<string>) returns (acc: seq<string>)
    ensures acc == Accumulate(grpcImports, svc, found)
    ensures grpcImports <= acc
    ensures forall x :: x in acc <==> x in grpcImports || (x in found && x != svc)
    ensures svc !in grpcImports && NoDuplicates(grpcImports) ==> svc !in acc && NoDuplicates(acc)
  {
    acc := grpcImports;
    var k := 0;
    while k < |found|
      invariant 0 <= k <= |found|
      invariant Accumulate(grpcImports, svc, found) == Accumulate(acc, svc, found[k..])
    {
      assert found[k..][0] == found[k] && found[k..][1..] == found[k + 1..];
      var present := Contains(acc, found[k]);
      if found[k] != svc && !present {
        acc := acc + [found[k]];
      }
      k := k + 1;
    }
    assert found[k..] == [];
    AccumulateInvariant(grpcImports, svc, found);
  }

  /**
   * The WalkDir walk of main.go:88-107 over a service's `.go` files in walk order: every
   * parsed file's gRPC imports are folded in; the first unparsable file aborts the walk.
   * It fails exactly when some file does not parse, and otherwise returns the distinct
   * classified imports other than the service, in order of first occurrence.
   */
  method WalkService(modName: string, svc: string, files: seq<ParseOutcome>) returns (r: Result<seq<string>, Error>)
    ensures r == Resolve(modName, svc, files)
    ensures r.Success? <==> AllParsed(files)
    ensures r.Success? ==> r.value == KeepFirst(Classified(modName, files), {svc})
    ensures !AllParsed(files) ==> r == Failure(ParseError(files[FirstUnparsable(files)].path))
  {
    var grpcImports: seq<string> := [];
    var j := 0;
    while j < |files|
      invariant 0 <= j <= |files|
      invariant Resolve(modName, svc, files) == ResolveFrom(grpcImports, modName, svc, files[j..])
    {
      assert files[j..][0] == files[j] && files[j..][1..] == files[j + 1..];
      var fileGrpcImports := CheckGrpcImports(files[j], modName);
      if fileGrpcImports.Failure? {
        assert !AllParsed(files);
        ResolveFromFailure([], modName, svc, files, FirstUnparsable(files));
        return Failure(fileGrpcImports.error);
      }
      grpcImports := AddImports(grpcImports, svc, fileGrpcImports.value);
      j := j + 1;
    }
    assert files[j..] == [];
    assert grpcImports == KeepFirst(Classified(modName, files), {svc}) by {
      ResolveSpec(modName, svc, files);
    }
    return Success(grpcImports);
  }

  /** The loop of main.go:109-111: one edge from the service to each target, appended in order. */
  method AppendEdges(deps: seq<Dependency>, svc: string, targets: seq<string>) returns (r: seq<Dependency>)
    ensures r == deps + Edges(svc, targets)
  {
    r := deps;
    var k := 0;
    while k < |targets|
      invariant 0 <= k <= |targets|
      invariant deps + Edges(svc, targets) == r + Edges(svc, targets[k..])
    {
      assert targets[k..][0] == targets[k] && targets[k..][1..] == targets[k + 1..];
      r := r + [Dependency(svc, targets[k])];
      k := k + 1;
    }
    assert targets[k..] == [];
    assert r + [] == r;
  }

  /**
   * analyzeGrpc: for each service in order, walk its files into `grpcImports`, then append
   * one edge per accumulated name; the first unparsable file aborts the call with its
   * parse error.
   */
  method AnalyzeGrpc(modName: string, svcs: seq<string>, walk: string -> seq<ParseOutcome>)
    returns (r: Result<seq<Dependency>, Error>)
    ensures r == Analyze(modName, svcs, walk)
    ensures !AllServicesParsed(svcs, walk) ==>
              var files := walk(svcs[FirstUnparsedService(svcs, walk)]);
              r == Failure(ParseError(files[FirstUnparsable(files)].path))
  {
    AnalyzeSpec(modName, svcs, walk);
    var grpcDependencies: seq<Dependency> := [];
    var i := 0;
    while i < |svcs|
      invariant 0 <= i <= |svcs|
      invariant Analyze(modName, svcs, walk) == AnalyzeFrom(grpcDependencies, svcs[i..], ResolverOf(modName, walk))
    {
      var svc := svcs[i];
      assert svcs[i..][0] == svc && svcs[i..][1..] == svcs[i + 1..];
      var grpcImports := WalkService(modName, svc, walk(svc));
      if grpcImports.Failure? {
        return Failure(grpcImports.error);
      }
      grpcDependencies := AppendEdges(grpcDependencies, svc, grpcImports.value);
      i := i + 1;
    }
    assert svcs[i..] == [];
    r := Success(grpcDependencies);
  }
}
