/** sanitizeZipPath of utils/export.go. */
module ZipPath {
  import opened Wrappers
  import opened PathCleaning

  datatype ZipPathError = InvalidZipPath(path: string)

  /** strings.ReplaceAll(p, "\\", "/"). */
  function SlashesOnly(p: string): (q: string)
    ensures |q| == |p|
    ensures forall i | 0 <= i < |p| :: q[i] == if p[i] == '\\' then '/' else p[i]
  {
    seq(|p|, i requires 0 <= i < |p| => if p[i] == '\\' then '/' else p[i])
  }

  predicate DriveLike(p: string) {
    |p| >= 2 && p[1] == ':'
  }

  function SanitizeZipPath(p: string): Result<string, ZipPathError> {
    var cleaned := Clean(SlashesOnly(p));
    if cleaned == "." || IsRooted(cleaned) || ".." <= cleaned || DriveLike(cleaned) then Failure(InvalidZipPath(p))
    else Success(cleaned)
  }

  /** The segments a path cleans to, once its backslashes are slashes. */
  function Target(p: string): seq<string> {
    Walk(false, [], Split(SlashesOnly(p)))
  }

  /**
   * A path is accepted exactly when it is relative, never climbs above its start on the way,
   * names something, and what it names starts neither with `..` nor like a drive letter.
   */
  lemma AcceptedIff(p: string)
    ensures SanitizeZipPath(p).Success? <==>
            && !("/" <= SlashesOnly(p))
            && !Escapes(Split(SlashesOnly(p)))
            && Target(p) != []
            && !(".." <= Target(p)[0])
            && !(|Join(Target(p))| >= 2 && Join(Target(p))[1] == ':')
    ensures SanitizeZipPath(p).Failure? ==> SanitizeZipPath(p).error == InvalidZipPath(p)
    ensures SanitizeZipPath(p).Success? ==> SanitizeZipPath(p).value == Join(Target(p)) && AllNamed(Target(p)) && NoSlash(Target(p))
  {
    var q := SlashesOnly(p);
    var segs := Split(q);
    SplitHasNoSlash(q);
    EscapesIff(segs);
    hide Split, Walk, Escapes, Join;
    if IsRooted(q) {
      assert IsRooted(Clean(q));
    } else {
      var stack := Target(p);
      var parents := WalkIsClean(false, [], 0, segs);
      JoinFacts(stack, parents);
    }
  }

  /**
   * The same, told by the rules of path.Clean alone: `q` is what they leave of the path, applied in any order.
   * A relative path is accepted under the name of `q` unless `q` is nothing, starts with `..`, or looks like a drive.
   */
  lemma AcceptedByRules(p: string, q: seq<string>, n: nat)
    requires Reduces(false, Split(SlashesOnly(p)), q, n) && Irreducible(false, q)
    ensures SanitizeZipPath(p) ==
            if "/" <= SlashesOnly(p) || q == [] || ".." <= q[0] || (|Join(q)| >= 2 && Join(q)[1] == ':')
            then Failure(InvalidZipPath(p)) else Success(Join(q))
  {
    CleaningFollowsRules(false, Split(SlashesOnly(p)), q);
    hide Reduces, Irreducible, Split, Walk;
    if IsRooted(SlashesOnly(p)) {
      AcceptedIff(p);
    } else {
      var parents := CleanTarget(p);
      JoinFacts(q, parents);
      CleanIs(SlashesOnly(p));
      hide Clean, IsClean, Join;
      assert Clean(SlashesOnly(p)) == if q == [] then "." else Join(q);
    }
  }

  lemma CleanTarget(p: string) returns (parents: nat)
    ensures IsClean(Target(p), parents)
  {
    SplitHasNoSlash(SlashesOnly(p));
    parents := WalkIsClean(false, [], 0, Split(SlashesOnly(p)));
  }

  /** Both paths are refused, or both are accepted under the same name. */
  predicate SameEntry(p: string, q: string) {
    match (SanitizeZipPath(p), SanitizeZipPath(q))
    case (Success(r), Success(t)) => r == t
    case (Failure(_), Failure(_)) => true
    case (_, _) => false
  }

  /** Going into a directory and back out again leaves no trace in the entry's name. */
  lemma DetourIsIgnored(a: string, seg: string, b: string)
    requires a != "" && Named(seg) && '/' !in seg && '\\' !in seg
    ensures SameEntry(a + "/" + seg + "/../" + b, a + "/" + b)
    ensures SameEntry(a + "/" + seg + "/..", a)
  {
    SlashesOnlyStays(seg);
    assert SlashesOnly(a + "/" + seg + "/../" + b) == SlashesOnly(a) + "/" + seg + "/../" + SlashesOnly(b);
    assert SlashesOnly(a + "/" + b) == SlashesOnly(a) + "/" + SlashesOnly(b);
    assert SlashesOnly(a + "/" + seg + "/..") == SlashesOnly(a) + "/" + seg + "/..";
    UpAndDown(SlashesOnly(a), seg, SlashesOnly(b));
    hide Clean, Named;
  }

  lemma JoinFacts(stack: seq<string>, parents: nat)
    requires IsClean(stack, parents)
    ensures !IsRooted(Join(stack)) && Join(stack) != "."
    ensures Join(stack) == "" <==> stack == []
    ensures stack != [] ==> (".." <= Join(stack) <==> ".." <= stack[0])
  {
    if stack != [] {
      assert parents == 0 ==> stack[parents..][0] == stack[0];
      assert stack[0] != "" && stack[0] != ".";
      if |stack| > 1 {
        var j := Join(stack);
        assert j == stack[0] + "/" + Join(stack[1..]);
        assert j[|stack[0]|] == '/';
        assert j[0] == stack[0][0] != '/' by {
          assert '/' !in stack[0];
        }
      } else {
        assert '/' !in stack[0];
      }
    }
  }

  // ------------------------------------------------------- what acceptance means

  predicate Lacks(c: char, segs: seq<string>) {
    forall i | 0 <= i < |segs| :: c !in segs[i]
  }

  lemma {:induction false} SplitLacks(c: char, s: string)
    requires c !in s
    ensures Lacks(c, Split(s))
  {
    if s != "" {
      assert s[0] in s;
      assert forall x | x in s[1..] :: x in s;
      SplitLacks(c, s[1..]);
    }
  }

  lemma {:induction false} WalkLacks(c: char, stack: seq<string>, segs: seq<string>)
    requires c != '.' && Lacks(c, stack) && Lacks(c, segs)
    ensures Lacks(c, Walk(false, stack, segs))
    decreases |segs|
  {
    if segs != [] {
      WalkLacks(c, Step(false, stack, segs[0]), segs[1..]);
    }
  }

  lemma {:induction false} JoinLacks(c: char, segs: seq<string>)
    requires c != '/' && Lacks(c, segs)
    ensures c !in Join(segs)
  {
    if |segs| > 1 {
      JoinLacks(c, segs[1..]);
    }
  }

  lemma {:induction false} JoinSum(a: seq<string>, b: seq<string>)
    requires a != [] && b != []
    ensures Join(a + b) == Join(a) + "/" + Join(b)
    decreases |a|
  {
    assert (a + b)[1..] == a[1..] + b;
    if |a| == 1 {
      assert a[1..] + b == b;
    } else {
      JoinSum(a[1..], b);
      assert a[0] + "/" + (Join(a[1..]) + "/" + Join(b)) == a[0] + "/" + Join(a[1..]) + "/" + Join(b);
    }
  }

  /**
   * An accepted result is relative, made of named segments only and free of backslashes,
   * and sanitizing it again returns it unchanged.
   */
  lemma AcceptedIsNormal(p: string, r: string)
    requires SanitizeZipPath(p) == Success(r)
    ensures !("/" <= r) && '\\' !in r
    ensures Split(r) == Target(p) && AllNamed(Split(r))
    ensures forall seg | seg in Split(r) :: seg != "" && seg != "." && seg != ".."
    ensures SanitizeZipPath(r) == Success(r)
  {
    AcceptedIff(p);
    var t := Target(p);
    TargetLacksBackslash(p);
    hide SanitizeZipPath, Target;
    SplitJoin(t);
    CleanNamed(t);
    NamedIsRelative(t);
    SlashesOnlyStays(r);
    NormalIsAccepted(r, t);
  }

  lemma TargetLacksBackslash(p: string)
    ensures '\\' !in Join(Target(p))
  {
    var q := SlashesOnly(p);
    SplitLacks('\\', q);
    WalkLacks('\\', [], Split(q));
    JoinLacks('\\', Target(p));
  }

  /** A name that cleaning leaves as it is is accepted. */
  lemma NormalIsAccepted(r: string, t: seq<string>)
    requires r == Join(t) && t != [] && AllNamed(t) && NoSlash(t) && !(".." <= t[0]) && !DriveLike(r)
    requires SlashesOnly(r) == r && Clean(r) == r
    ensures SanitizeZipPath(r) == Success(r)
  {
    hide Clean;
    assert t[0..] == t;
    JoinFacts(t, 0);
  }

  /** A plain file name is accepted as it is. */
  lemma PlainNameIsAccepted(name: string)
    requires name != "" && name != "." && !(".." <= name) && !DriveLike(name)
    requires '/' !in name && '\\' !in name
    ensures SanitizeZipPath(name) == Success(name)
  {
    assert Join([name]) == name;
    CleanNamed([name]);
    assert name[0] in name;
    hide Clean, Join;
    SlashesOnlyStays(name);
  }

  lemma SlashesOnlyStays(s: string)
    requires '\\' !in s
    ensures SlashesOnly(s) == s
  {
    assert forall i | 0 <= i < |s| :: s[i] in s;
  }

  lemma WalkNamed(rooted: bool, stack: seq<string>, segs: seq<string>)
    requires AllNamed(segs)
    ensures Walk(rooted, stack, segs) == stack + segs
  {
    WalkWithoutParents(rooted, stack, segs);
    KeptOfNamed(segs);
  }

  /** path.Join of a directory and a name: an empty directory is left out. */
  function Resolve(root: string, name: string): string {
    if root == "" && name == "" then "" else Clean(if root == "" then name else root + "/" + name)
  }

  /** A name directly under a cleaned directory. */
  function Below(dir: string, name: string): string {
    if dir == "." then name else if dir == "/" then "/" + name else dir + "/" + name
  }

  /** Extracting an accepted path under any directory, absolute or relative, yields a path below that directory. */
  lemma StaysInside(p: string, r: string, root: string)
    requires SanitizeZipPath(p) == Success(r)
    ensures Resolve(root, r) == Below(Clean(root), r)
  {
    AcceptedIsNormal(p, r);
    AcceptedIff(p);
    hide SanitizeZipPath, Target, Clean;
    JoinSplit(r);
    SplitHasNoSlash(r);
    if root == "" {
      CleanNamed(Split(r));
      CleanEmpty();
    } else {
      CleanBelow(root, Split(r));
    }
  }

  /** What cleaning gives, told by the segments that are left. */
  lemma CleanIs(p: string)
    ensures var left := Walk(IsRooted(p), [], Split(p));
            && Clean(p) == (if IsRooted(p) then "/" + Join(left) else if left == [] then "." else Join(left))
            && (Join(left) == "" <==> left == [])
            && Join(left) != "."
            && !IsRooted(Join(left))
  {
    SplitHasNoSlash(p);
    var parents := WalkIsClean(IsRooted(p), [], 0, Split(p));
    hide Walk, Split;
    JoinFacts(Walk(IsRooted(p), [], Split(p)), parents);
  }

  lemma CleanEmpty()
    ensures Clean("") == "."
  {
  }

  lemma CleanNamed(segs: seq<string>)
    requires segs != [] && AllNamed(segs) && NoSlash(segs)
    ensures Clean(Join(segs)) == Join(segs)
  {
    SplitJoin(segs);
    WalkNamed(false, [], segs);
    assert [] + segs == segs;
    CleanIs(Join(segs));
    hide Clean, Walk, Split;
    NamedIsRelative(segs);
  }

  lemma NamedIsRelative(segs: seq<string>)
    requires segs != [] && AllNamed(segs) && NoSlash(segs)
    ensures Join(segs) != "" && !IsRooted(Join(segs))
  {
    assert segs[0..] == segs;
    JoinFacts(segs, 0);
  }

  lemma CleanBelow(root: string, segs: seq<string>)
    requires root != "" && segs != [] && AllNamed(segs) && NoSlash(segs)
    ensures Clean(root + "/" + Join(segs)) == Below(Clean(root), Join(segs))
  {
    var name, rooted := Join(segs), IsRooted(root);
    var dir := Walk(rooted, [], Split(root));
    assert IsRooted(root + "/" + name) == rooted;
    SplitJoin(segs);
    SplitSum(root, name);
    WalkSum(rooted, [], Split(root), segs);
    WalkNamed(rooted, dir, segs);
    CleanIs(root);
    CleanIs(root + "/" + name);
    hide Clean, Walk, Split, IsRooted;
    JoinBelow(rooted, dir, segs);
  }

  lemma JoinBelow(rooted: bool, dir: seq<string>, segs: seq<string>)
    requires segs != [] && (Join(dir) == "" <==> dir == []) && Join(dir) != "." && !IsRooted(Join(dir))
    ensures var parent := if rooted then "/" + Join(dir) else if dir == [] then "." else Join(dir);
            (if rooted then "/" else "") + Join(dir + segs) == Below(parent, Join(segs))
  {
    if dir == [] {
      assert dir + segs == segs;
      assert "/" + Join(dir) == "/";
    } else {
      JoinSum(dir, segs);
      hide Join;
      var d, n := Join(dir), Join(segs);
      assert "/" + d != "/" && "/" + d != "." by {
        assert |"/" + d| > 1;
      }
      assert d != "/" by {
        assert d[0] != '/';
      }
      assert "/" + (d + "/" + n) == "/" + d + "/" + n;
    }
  }
}
