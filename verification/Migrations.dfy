/** upMigrationPaths and migrationVersion of testutils/db_setup.go. */
module Migrations {
  import opened Wrappers

  const TWO_TO_THE_64 := 0x1_0000_0000_0000_0000

  datatype MigrationError =
    | NoMigrations
    | NoNumericPrefix(path: string)
    | SharedVersion(other: string, path: string, version: nat)

  // ------------------------------------------------------------ the version

  function IndexOf(s: string, c: char): (n: nat)
    ensures n <= |s|
    ensures n < |s| ==> s[n] == c
    ensures c !in s[..n]
  {
    if s == "" || s[0] == c then 0
    else
      var n := 1 + IndexOf(s[1..], c);
      assert s[..n] == [s[0]] + s[1..][..n - 1];
      n
  }

  function LastSlash(s: string): (n: nat)
    ensures n <= |s|
    ensures n > 0 ==> s[n - 1] == '/'
    ensures '/' !in s[n..]
  {
    if s == "" then 0
    else if s[|s| - 1] == '/' then |s|
    else
      var n := LastSlash(s[..|s| - 1]);
      assert s[n..] == s[..|s| - 1][n..] + [s[|s| - 1]];
      n
  }

  function TrimSlashes(s: string): string {
    if s != "" && s[|s| - 1] == '/' then TrimSlashes(s[..|s| - 1]) else s
  }

  /** filepath.Base. */
  function Base(path: string): string {
    if path == "" then "."
    else
      var p := TrimSlashes(path);
      if p == "" then "/" else p[LastSlash(p)..]
  }

  predicate IsDigit(c: char) {
    '0' <= c <= '9'
  }

  /** The number a string of decimal digits denotes. */
  function DecimalValue(digits: string): nat
    requires forall i | 0 <= i < |digits| :: IsDigit(digits[i])
  {
    if digits == "" then 0
    else
      assert IsDigit(digits[|digits| - 1]);
      DecimalValue(digits[..|digits| - 1]) * 10 + (digits[|digits| - 1] as int - '0' as int)
  }

  /** strconv.ParseUint(s, 10, 64). */
  function ParseUint64(s: string): Option<nat> {
    if s == "" || (exists i | 0 <= i < |s| :: !IsDigit(s[i])) then None
    else if DecimalValue(s) >= TWO_TO_THE_64 then None
    else Some(DecimalValue(s))
  }

  /** The digits before the first underscore of the file name; None when they do not parse. */
  function Version(path: string): Option<nat> {
    var base := Base(path);
    ParseUint64(base[..IndexOf(base, '_')])
  }

  // ----------------------------------------------------------- the ordering

  /** Strictly increasing versions. */
  ghost predicate Ascending(versions: seq<nat>) {
    forall i, j | 0 <= i < j < |versions| :: versions[i] < versions[j]
  }

  /** slices.Sorted over the keys of a map: strictly ascending and complete. */
  method SortedKeys(keys: set<nat>) returns (sorted: seq<nat>)
    ensures Ascending(sorted)
    ensures forall k :: k in keys <==> k in sorted
  {
    sorted := [];
    var rest := keys;
    while rest != {}
      invariant rest <= keys
      invariant Ascending(sorted)
      invariant forall k :: k in keys - rest <==> k in sorted
      decreases |rest|
    {
      var k :| k in rest;
      var at := 0;
      while at < |sorted| && sorted[at] < k
        invariant at <= |sorted|
        invariant forall i | 0 <= i < at :: sorted[i] < k
      {
        at := at + 1;
      }
      assert k !in sorted;
      InsertKeepsAscending(sorted, at, k);
      sorted := sorted[..at] + [k] + sorted[at..];
      rest := rest - {k};
    }
  }

  lemma InsertKeepsAscending(sorted: seq<nat>, at: nat, k: nat)
    requires Ascending(sorted) && at <= |sorted| && k !in sorted
    requires forall i | 0 <= i < at :: sorted[i] < k
    requires at < |sorted| ==> k <= sorted[at]
    ensures Ascending(sorted[..at] + [k] + sorted[at..])
    ensures forall x :: x in sorted[..at] + [k] + sorted[at..] <==> x in sorted || x == k
  {
    assert sorted == sorted[..at] + sorted[at..];
    if at < |sorted| {
      assert sorted[at] in sorted;
    }
  }

  /** The first path at which the loop stops. */
  ghost predicate StopsAt(paths: seq<string>, k: nat) {
    && k < |paths|
    && (Version(paths[k]).None? || exists j | 0 <= j < k :: Version(paths[j]) == Version(paths[k]))
    && (forall j | 0 <= j < k :: Version(paths[j]).Some?)
    && (forall i, j | 0 <= i < j < k :: Version(paths[i]) != Version(paths[j]))
  }

  /** What the error says about the path at which the loop stops. */
  ghost predicate IsReason(e: MigrationError, paths: seq<string>, k: nat)
    requires k < |paths|
  {
    if Version(paths[k]).None? then e == NoNumericPrefix(paths[k])
    else exists j | 0 <= j < k ::
           Version(paths[j]) == Version(paths[k]) && e == SharedVersion(paths[j], paths[k], Version(paths[k]).value)
  }

  /** All versions parse and no two are equal. */
  ghost predicate Orderable(paths: seq<string>) {
    && (forall j | 0 <= j < |paths| :: Version(paths[j]).Some?)
    && (forall i, j | 0 <= i < j < |paths| :: Version(paths[i]) != Version(paths[j]))
  }

  /** The paths in the order of their versions. */
  ghost predicate IsOrdering(ordered: seq<string>, paths: seq<string>) {
    && |ordered| == |paths|
    && multiset(ordered) == multiset(paths)
    && (forall i | 0 <= i < |ordered| :: Version(ordered[i]).Some?)
    && (forall i, j | 0 <= i < j < |ordered| :: Version(ordered[i]).value < Version(ordered[j]).value)
  }

  /** Files by version, as the loop fills the map. */
  ghost predicate Indexes(byVersion: map<nat, string>, paths: seq<string>) {
    && (forall v :: v in byVersion ==> byVersion[v] in paths && Version(byVersion[v]) == Some(v))
    && (forall j | 0 <= j < |paths| :: Version(paths[j]).Some? && Version(paths[j]).value in byVersion && byVersion[Version(paths[j]).value] == paths[j])
  }

  method UpMigrationPaths(paths: seq<string>) returns (r: Result<seq<string>, MigrationError>)
    ensures r.Success? <==> paths != [] && Orderable(paths)
    ensures r.Success? ==> IsOrdering(r.value, paths)
    ensures r.Failure? && paths == [] ==> r.error == NoMigrations
    ensures r.Failure? && paths != [] ==> exists k: nat :: StopsAt(paths, k) && IsReason(r.error, paths, k)
  {
    hide Version;
    if paths == [] {
      return Failure(NoMigrations);
    }
    var byVersion: map<nat, string> := map[];
    for k := 0 to |paths|
      invariant Orderable(paths[..k])
      invariant Indexes(byVersion, paths[..k])
    {
      assert forall j | 0 <= j < k :: paths[..k][j] == paths[j] == paths[..k + 1][j];
      assert paths[..k + 1][k] == paths[k];
      var version := Version(paths[k]);
      if version.None? {
        assert StopsAt(paths, k);
        return Failure(NoNumericPrefix(paths[k]));
      }
      if version.value in byVersion {
        var other := byVersion[version.value];
        var j: nat :| j < k && paths[j] == other;
        assert Version(paths[j]) == Version(paths[k]);
        assert StopsAt(paths, k);
        return Failure(SharedVersion(other, paths[k], version.value));
      }
      byVersion := byVersion[version.value := paths[k]];
    }
    assert paths[..|paths|] == paths;
    var ordered := OrderByVersion(byVersion, paths);
    return Success(ordered);
  }

  /** The second loop: the paths in the order of the sorted versions. */
  method OrderByVersion(byVersion: map<nat, string>, ghost paths: seq<string>) returns (ordered: seq<string>)
    requires Indexes(byVersion, paths) && Orderable(paths)
    ensures IsOrdering(ordered, paths)
  {
    hide Version;
    var versions := SortedKeys(byVersion.Keys);
    ordered := [];
    for i := 0 to |versions|
      invariant |ordered| == i
      invariant forall j | 0 <= j < i :: ordered[j] == byVersion[versions[j]]
    {
      ordered := ordered + [byVersion[versions[i]]];
    }
    OrderedIsPermutation(byVersion, paths, versions, ordered);
  }

  lemma OrderedIsPermutation(byVersion: map<nat, string>, paths: seq<string>, versions: seq<nat>, ordered: seq<string>)
    requires Indexes(byVersion, paths) && Orderable(paths)
    requires Ascending(versions) && forall v :: v in byVersion <==> v in versions
    requires |ordered| == |versions| && forall j | 0 <= j < |ordered| :: versions[j] in byVersion && ordered[j] == byVersion[versions[j]]
    ensures IsOrdering(ordered, paths)
  {
    hide Version;
    forall path
      ensures path in ordered <==> path in paths
    {
      if path in paths {
        var j :| 0 <= j < |paths| && paths[j] == path;
        var v := Version(path).value;
        assert v in versions;
        var i :| 0 <= i < |versions| && versions[i] == v;
        assert ordered[i] == path;
      }
    }
    assert forall i, j | 0 <= i < j < |ordered| :: ordered[i] != ordered[j] by {
      assert forall i | 0 <= i < |ordered| :: Version(ordered[i]) == Some(versions[i]);
    }
    assert forall i, j | 0 <= i < j < |paths| :: paths[i] != paths[j];
    SameElements(ordered, paths);
  }

  lemma {:induction false} DistinctCounts(a: seq<string>, x: string)
    requires forall i, j | 0 <= i < j < |a| :: a[i] != a[j]
    ensures multiset(a)[x] == if x in a then 1 else 0
  {
    if a != [] {
      DistinctCounts(a[1..], x);
      assert a == [a[0]] + a[1..];
    }
  }

  lemma SameElements(a: seq<string>, b: seq<string>)
    requires forall x :: x in a <==> x in b
    requires forall i, j | 0 <= i < j < |a| :: a[i] != a[j]
    requires forall i, j | 0 <= i < j < |b| :: b[i] != b[j]
    ensures multiset(a) == multiset(b) && |a| == |b|
  {
    forall x
      ensures multiset(a)[x] == multiset(b)[x]
    {
      DistinctCounts(a, x);
      DistinctCounts(b, x);
    }
    assert multiset(a) == multiset(b);
    assert |a| == |multiset(a)| == |multiset(b)| == |b|;
  }

  /** The order is the only one. */
  lemma {:induction false} OrderingIsUnique(a: seq<string>, b: seq<string>, paths: seq<string>)
    requires IsOrdering(a, paths) && IsOrdering(b, paths)
    ensures a == b
  {
    hide Version;
    forall i | 0 <= i < |a|
      ensures a[i] == b[i]
    {
      OrderedPrefix(a, b, i);
    }
  }

  /** Two ascending arrangements of the same paths agree place by place. */
  lemma {:induction false} OrderedPrefix(a: seq<string>, b: seq<string>, n: nat)
    requires multiset(a) == multiset(b) && n < |a| == |b|
    requires forall i | 0 <= i < |a| :: Version(a[i]).Some? && Version(b[i]).Some?
    requires forall i, j | 0 <= i < j < |a| :: Version(a[i]).value < Version(a[j]).value && Version(b[i]).value < Version(b[j]).value
    ensures a[n] == b[n]
  {
    hide Version;
    forall m | 0 <= m < n
      ensures a[m] == b[m]
    {
      OrderedPrefix(a, b, m);
    }
    assert a[n] in multiset(b) && b[n] in multiset(a);
    var j :| 0 <= j < |b| && b[j] == a[n];
    var i :| 0 <= i < |a| && a[i] == b[n];
  }

  // ------------------------------------------------------- about the parse

  /** Leading zeros do not make a version different. */
  lemma {:induction false} LeadingZero(digits: string)
    requires forall i | 0 <= i < |digits| :: IsDigit(digits[i])
    ensures DecimalValue("0" + digits) == DecimalValue(digits)
    decreases |digits|
  {
    var s := "0" + digits;
    if digits == "" {
      assert s[..0] == "";
    } else {
      LeadingZero(digits[..|digits| - 1]);
      assert s[..|s| - 1] == "0" + digits[..|digits| - 1];
    }
  }

  /** 001_a and 1_b share a version, so they cannot be ordered. */
  lemma PaddedVersionsClash(digits: string, a: string, b: string)
    requires ParseUint64(digits).Some?
    requires '/' !in a && '/' !in b
    ensures Version("0" + digits + "_" + a) == Version(digits + "_" + b)
  {
    VersionOfName("0" + digits, a);
    VersionOfName(digits, b);
    LeadingZero(digits);
  }

  lemma {:induction false} IndexOfIs(s: string, c: char, n: nat)
    requires n < |s| && s[n] == c && c !in s[..n]
    ensures IndexOf(s, c) == n
  {
    if n > 0 {
      assert s[0] == s[..n][0];
      assert s[1..][..n - 1] == s[..n][1..];
      IndexOfIs(s[1..], c, n - 1);
    }
  }

  lemma {:induction false} NoSlashIn(s: string)
    requires '/' !in s
    ensures LastSlash(s) == 0 && TrimSlashes(s) == s
  {
    if s != "" {
      assert s[|s| - 1] in s;
      NoSlashIn(s[..|s| - 1]);
    }
  }

  lemma VersionOfName(prefix: string, rest: string)
    requires prefix != "" && (forall i | 0 <= i < |prefix| :: IsDigit(prefix[i])) && '/' !in rest
    ensures Version(prefix + "_" + rest) == ParseUint64(prefix)
  {
    hide ParseUint64;
    var name := prefix + "_" + rest;
    NoSlashIn(name);
    assert Base(name) == name;
    assert name[..|prefix|] == prefix;
    IndexOfIs(name, '_', |prefix|);
  }

  // ------------------------------------------------------ what a version is

  /** The digit for a number below ten. */
  function Digit(k: nat): char
    requires k < 10
  {
    "0123456789"[k]
  }

  lemma DigitIs(k: nat)
    requires k < 10
    ensures IsDigit(Digit(k)) && Digit(k) as int - '0' as int == k
  {
  }

  lemma IsDigitIff(c: char)
    ensures IsDigit(c) <==> exists k: nat :: k < 10 && c == Digit(k)
  {
    if IsDigit(c) {
      DigitIs(c as int - '0' as int);
    }
  }

  /** Positional notation: one more digit makes it ten times as much, plus the digit. */
  lemma DecimalAppend(digits: string, k: nat)
    requires k < 10 && forall i | 0 <= i < |digits| :: IsDigit(digits[i])
    ensures DecimalValue("") == 0
    ensures IsDigit(Digit(k)) && DecimalValue(digits + [Digit(k)]) == 10 * DecimalValue(digits) + k
  {
    DigitIs(k);
    assert (digits + [Digit(k)])[..|digits|] == digits;
  }

  /** A parse succeeds exactly on the decimal digits of a number of 64 bits. */
  lemma ParseIff(s: string, v: nat)
    ensures ParseUint64(s) == Some(v) <==>
            && s != "" && (forall i | 0 <= i < |s| :: IsDigit(s[i]))
            && DecimalValue(s) == v && v < 18446744073709551616
  {
  }

  /** A number in decimal digits. */
  function Format(n: nat): (s: string)
    ensures s != "" && forall i | 0 <= i < |s| :: IsDigit(s[i])
  {
    DigitIs(n % 10);
    if n < 10 then [Digit(n)] else Format(n / 10) + [Digit(n % 10)]
  }

  lemma {:induction false} FormatValue(n: nat)
    ensures DecimalValue(Format(n)) == n
  {
    if n < 10 {
      DecimalAppend("", n);
      assert "" + [Digit(n)] == [Digit(n)];
    } else {
      FormatValue(n / 10);
      DecimalAppend(Format(n / 10), n % 10);
    }
  }

  /** Every number below 2 to the 64 is the version its decimal digits spell, in any directory; any larger one is no version. */
  lemma VersionOfNumber(dir: string, n: nat, rest: string)
    requires '/' !in rest
    ensures Version(dir + "/" + Format(n) + "_" + rest) == if n < 18446744073709551616 then Some(n) else None
  {
    FormatValue(n);
    DigitsOnly(Format(n));
    hide Format, IsDigit;
    VersionOfPath(dir, Format(n), rest);
  }

  lemma DigitsOnly(s: string)
    requires forall i | 0 <= i < |s| :: IsDigit(s[i])
    ensures '/' !in s && '_' !in s
  {
  }

  /** The version is what stands before the first underscore of the file name. */
  lemma VersionOfPath(dir: string, prefix: string, rest: string)
    requires '/' !in prefix && '_' !in prefix && '/' !in rest
    ensures Version(dir + "/" + prefix + "_" + rest) == ParseUint64(prefix)
  {
    hide ParseUint64;
    var name := prefix + "_" + rest;
    assert dir + "/" + prefix + "_" + rest == dir + "/" + name;
    BaseOfPath(dir, name);
    assert name[..|prefix|] == prefix;
    IndexOfIs(name, '_', |prefix|);
  }

  /** Without an underscore it is the whole file name. */
  lemma VersionWithoutUnderscore(dir: string, name: string)
    requires name != "" && '/' !in name && '_' !in name
    ensures Version(dir + "/" + name) == ParseUint64(name)
  {
    hide ParseUint64;
    BaseOfPath(dir, name);
    assert name[..|name|] == name;
  }

  lemma BaseOfPath(dir: string, name: string)
    requires name != "" && '/' !in name
    ensures Base(dir + "/" + name) == name
  {
    var path := dir + "/" + name;
    assert path[|path| - 1] == name[|name| - 1] && name[|name| - 1] in name;
    LastSlashIs(path, |dir| + 1);
    assert path[|dir| + 1..] == name;
  }

  lemma {:induction false} LastSlashIs(s: string, n: nat)
    requires 0 < n <= |s| && s[n - 1] == '/' && '/' !in s[n..]
    ensures LastSlash(s) == n
  {
    if n < |s| {
      assert s[n..][|s| - 1 - n] == s[|s| - 1];
      assert s[..|s| - 1][n..] == s[n..][..|s| - 1 - n];
      LastSlashIs(s[..|s| - 1], n);
    }
  }
}
