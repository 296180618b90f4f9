/**
 * The pieces of Go's `strings` and `path` packages that the core relies on, for
 * a single-character separator. Go strings are byte strings; here a string is a
 * sequence of characters, which is the same thing for the separators used ('/' and '\n').
 */
module GoStrings {

  /** The first position of `c` in `s` at or after `from`, or -1. */
  function IndexFrom(s: string, c: char, from: nat): (i: int)
    requires from <= |s|
    ensures i == -1 || from <= i < |s|
    ensures i == -1 <==> forall k :: from <= k < |s| ==> s[k] != c
    ensures 0 <= i ==> s[i] == c && forall k :: from <= k < i ==> s[k] != c
    decreases |s| - from
  {
    if from == |s| then -1
    else if s[from] == c then from
    else IndexFrom(s, c, from + 1)
  }

  /** `strings.IndexByte`: the first position of `c` in `s`, or -1. */
  function IndexOf(s: string, c: char): (i: int)
    ensures -1 <= i < |s|
    ensures i == -1 <==> c !in s
    ensures 0 <= i ==> s[i] == c && c !in s[..i]
  {
    IndexFrom(s, c, 0)
  }

  /** The last position of `c` in `s` before `upto`, or -1. */
  function LastIndexBefore(s: string, c: char, upto: nat): (i: int)
    requires upto <= |s|
    ensures -1 <= i < upto
    ensures i == -1 <==> forall k :: 0 <= k < upto ==> s[k] != c
    ensures 0 <= i ==> s[i] == c && forall k :: i < k < upto ==> s[k] != c
  {
    if upto == 0 then -1
    else if s[upto - 1] == c then upto - 1
    else LastIndexBefore(s, c, upto - 1)
  }

  /** The last position of `c` in `s`, or -1. */
  function LastIndexOf(s: string, c: char): (i: int)
    ensures -1 <= i < |s|
    ensures i == -1 <==> c !in s
    ensures 0 <= i ==> s[i] == c && c !in s[i + 1..]
  {
    LastIndexBefore(s, c, |s|)
  }

  /** The first occurrence of `c` in `a + [c] + b` is the one just after `a`, when `a` has none. */
  lemma IndexOfAfter(a: string, c: char, b: string)
    requires c !in a
    ensures IndexOf(a + [c] + b, c) == |a|
  {
    var s := a + [c] + b;
    var i := IndexOf(s, c);
    assert s[|a|] == c;
    assert s[..|a|] == a;
  }

  /** `strings.HasPrefix`. */
  predicate HasPrefix(s: string, prefix: string)
  {
    prefix <= s
  }

  /** `strings.HasSuffix`. */
  predicate HasSuffix(s: string, suffix: string)
  {
    |suffix| <= |s| && s[|s| - |suffix|..] == suffix
  }

  /** `strings.TrimPrefix`: `s` without one leading `prefix`, or `s` itself. */
  function TrimPrefix(s: string, prefix: string): (r: string)
    ensures HasPrefix(s, prefix) ==> s == prefix + r
    ensures !HasPrefix(s, prefix) ==> r == s
    ensures |r| <= |s|
  {
    if HasPrefix(s, prefix) then s[|prefix|..] else s
  }

  /** The three results of `strings.Cut`. */
  datatype Cut = Cut(before: string, after: string, found: bool)

  /** `strings.Cut(s, sep)` for a one-character separator. */
  function CutAt(s: string, sep: char): (r: Cut)
    ensures r.found <==> sep in s
    ensures r.found ==> s == r.before + [sep] + r.after && sep !in r.before
    ensures !r.found ==> r.before == s && r.after == ""
  {
    var i := IndexOf(s, sep);
    if i < 0 then Cut(s, "", false)
    else
      assert s == s[..i] + [sep] + s[i + 1..];
      Cut(s[..i], s[i + 1..], true)
  }

  /** `strings.Join(parts, string(sep))`; Split never returns an empty slice, so neither is joined. */
  function Join(parts: seq<string>, sep: char): string
    requires |parts| >= 1
  {
    if |parts| == 1 then parts[0] else parts[0] + [sep] + Join(parts[1..], sep)
  }

  /** `strings.Split(s, string(sep))`: the pieces of `s` between the separators. */
  function Split(s: string, sep: char): (parts: seq<string>)
    ensures |parts| >= 1
    decreases |s|
  {
    var i := IndexOf(s, sep);
    if i < 0 then [s] else [s[..i]] + Split(s[i + 1..], sep)
  }

  /** No piece of a split holds the separator, and joining the pieces gives the string back. */
  lemma {:induction false} SplitSpec(s: string, sep: char)
    ensures forall k :: 0 <= k < |Split(s, sep)| ==> sep !in Split(s, sep)[k]
    ensures Join(Split(s, sep), sep) == s
    decreases |s|
  {
    var i := IndexOf(s, sep);
    if i >= 0 {
      var rest := Split(s[i + 1..], sep);
      SplitSpec(s[i + 1..], sep);
      assert ([s[..i]] + rest)[1..] == rest;
      assert s == s[..i] + [sep] + s[i + 1..];
    }
  }

  /** Every string is the join of some separator-free pieces: those Split returns. */
  lemma Pieces(s: string, sep: char) returns (parts: seq<string>)
    ensures |parts| >= 1
    ensures forall k :: 0 <= k < |parts| ==> sep !in parts[k]
    ensures Join(parts, sep) == s
  {
    parts := Split(s, sep);
    SplitSpec(s, sep);
  }

  /** Joining two non-empty lists of pieces puts one separator between them. */
  lemma {:induction false} JoinAppend(p: seq<string>, q: seq<string>, sep: char)
    requires |p| >= 1 && |q| >= 1
    ensures Join(p + q, sep) == Join(p, sep) + [sep] + Join(q, sep)
    decreases |p|
  {
    if |p| == 1 {
      assert (p + q)[1..] == q;
    } else {
      assert (p + q)[1..] == p[1..] + q;
      JoinAppend(p[1..], q, sep);
    }
  }

  /** Splitting at the first separator: the piece before it, then the pieces of the rest. */
  lemma SplitAt(a: string, sep: char, b: string)
    requires sep !in a
    ensures Split(a + [sep] + b, sep) == [a] + Split(b, sep)
  {
    var s := a + [sep] + b;
    IndexOfAfter(a, sep, b);
    assert s[..|a|] == a;
    assert s[|a| + 1..] == b;
  }

  /** Splitting a join of several pieces peels off the first piece. */
  lemma SplitJoinStep(parts: seq<string>, sep: char)
    requires |parts| > 1 && sep !in parts[0]
    ensures Split(Join(parts, sep), sep) == [parts[0]] + Split(Join(parts[1..], sep), sep)
  {
    var rest := Join(parts[1..], sep);
    assert Join(parts, sep) == parts[0] + [sep] + rest;
    SplitAt(parts[0], sep, rest);
  }

  /** No piece holds the separator. */
  predicate SeparatorFree(parts: seq<string>, sep: char)
  {
    forall k :: 0 <= k < |parts| ==> sep !in parts[k]
  }

  /** The pieces after the first are separator-free too. */
  lemma SeparatorFreeTail(parts: seq<string>, sep: char)
    requires |parts| >= 1 && SeparatorFree(parts, sep)
    ensures sep !in parts[0] && SeparatorFree(parts[1..], sep)
  {
    forall k | 0 <= k < |parts[1..]| ensures sep !in parts[1..][k] { assert parts[1..][k] == parts[k + 1]; }
  }

  /** Round trip: splitting what was joined gives back the pieces, when no piece holds the separator. */
  lemma {:induction false} SplitJoin(parts: seq<string>, sep: char)
    requires |parts| >= 1 && SeparatorFree(parts, sep)
    ensures Split(Join(parts, sep), sep) == parts
    decreases |parts|
  {
    SeparatorFreeTail(parts, sep);
    if |parts| > 1 {
      SplitJoinStep(parts, sep);
      SplitJoin(parts[1..], sep);
      assert parts == [parts[0]] + parts[1..];
    }
  }

  /**
   * `path.Dir` on a clean slash-separated path: everything before the last '/',
   * "/" when the only '/' is the leading one, "." when there is no '/'.
   */
  function Dir(p: string): (d: string)
    ensures '/' !in p ==> d == "."
    ensures '/' in p ==>
              || (d == "/" && p[0] == '/' && '/' !in p[1..])
              || (d != "" && exists name :: p == d + "/" + name && '/' !in name)
  {
    var i := LastIndexOf(p, '/');
    if i < 0 then "."
    else if i == 0 then
      assert p == "/" + p[1..];
      "/"
    else
      assert p == p[..i] + "/" + p[i + 1..];
      p[..i]
  }

  /** The parent of `d/name` is `d`, for a non-empty `d` and a last segment `name`. */
  lemma DirOfChild(d: string, name: string)
    requires d != "" && '/' !in name
    ensures Dir(d + "/" + name) == d
  {
    var p := d + "/" + name;
    var i := LastIndexOf(p, '/');
    assert p[|d|] == '/';
    assert p[|d| + 1..] == name;
    assert p[..|d|] == d;
  }
}
