/**
 * Lexical path cleaning as Go's `path` package documents it (compare
 * "remove_dot_segments", section 5.2.4 of RFC 3986), on a stack of segments.
 */
module PathCleaning {

  // ------------------------------------------------------ splitting at "/"

  /** strings.Split(s, "/"). */
  function Split(s: string): (segs: seq<string>)
    ensures segs != []
  {
    if s == "" then [""]
    else if s[0] == '/' then [""] + Split(s[1..])
    else
      var r := Split(s[1..]);
      [[s[0]] + r[0]] + r[1..]
  }

  /** strings.Join(segs, "/"). */
  function Join(segs: seq<string>): string {
    if segs == [] then "" else if |segs| == 1 then segs[0] else segs[0] + "/" + Join(segs[1..])
  }

  predicate NoSlash(segs: seq<string>) {
    forall i | 0 <= i < |segs| :: '/' !in segs[i]
  }

  lemma {:induction false} SplitHasNoSlash(s: string)
    ensures NoSlash(Split(s))
  {
    if s != "" {
      SplitHasNoSlash(s[1..]);
    }
  }

  lemma JoinWithChar(c: char, segs: seq<string>)
    requires segs != []
    ensures Join([[c] + segs[0]] + segs[1..]) == [c] + Join(segs)
  {
    var longer := [[c] + segs[0]] + segs[1..];
    assert longer[1..] == segs[1..];
    if |segs| > 1 {
      assert [c] + (segs[0] + "/" + Join(segs[1..])) == [c] + segs[0] + "/" + Join(segs[1..]);
    }
  }

  lemma JoinAfterEmpty(segs: seq<string>)
    requires segs != []
    ensures Join([""] + segs) == "/" + Join(segs)
  {
    assert ([""] + segs)[1..] == segs;
  }

  lemma {:induction false} JoinSplit(s: string)
    ensures Join(Split(s)) == s
  {
    if s != "" {
      JoinSplit(s[1..]);
      var r := Split(s[1..]);
      JoinWithChar(s[0], r);
      JoinAfterEmpty(r);
      hide Join;
      assert s == [s[0]] + s[1..];
    }
  }

  lemma {:induction false} SplitOne(s: string)
    requires '/' !in s
    ensures Split(s) == [s]
  {
    if s != "" {
      assert s[0] in s;
      SplitOne(s[1..]);
      assert s == [s[0]] + s[1..];
    }
  }

  lemma {:induction false} SplitSum(a: string, b: string)
    ensures Split(a + "/" + b) == Split(a) + Split(b)
    decreases |a|
  {
    var s := a + "/" + b;
    if a == "" {
      assert s[1..] == b;
    } else {
      assert s[1..] == a[1..] + "/" + b;
      SplitSum(a[1..], b);
    }
  }

  lemma {:induction false} SplitJoin(segs: seq<string>)
    requires segs != [] && NoSlash(segs)
    ensures Split(Join(segs)) == segs
  {
    SplitOne(segs[0]);
    if |segs| > 1 {
      SplitJoin(segs[1..]);
      SplitSum(segs[0], Join(segs[1..]));
    }
  }

  // --------------------------------------------------------------- cleaning

  /** A segment that names something: neither empty nor a dot segment. */
  predicate Named(seg: string) {
    seg != "" && seg != "." && seg != ".."
  }

  predicate AllNamed(segs: seq<string>) {
    forall i | 0 <= i < |segs| :: Named(segs[i])
  }

  /** One segment of a path applied to the cleaned segments before it. */
  function Step(rooted: bool, stack: seq<string>, seg: string): seq<string> {
    if seg == "" || seg == "." then stack
    else if seg != ".." then stack + [seg]
    else if stack != [] && stack[|stack| - 1] != ".." then stack[..|stack| - 1]
    else if rooted then stack
    else stack + [".."]
  }

  function Walk(rooted: bool, stack: seq<string>, segs: seq<string>): seq<string>
    decreases |segs|
  {
    if segs == [] then stack else Walk(rooted, Step(rooted, stack, segs[0]), segs[1..])
  }

  predicate IsRooted(p: string) {
    p != "" && p[0] == '/'
  }

  /** path.Clean. */
  function Clean(p: string): string {
    var body := (if IsRooted(p) then "/" else "") + Join(Walk(IsRooted(p), [], Split(p)));
    if body == "" then "." else body
  }

  lemma {:induction false} WalkSum(rooted: bool, stack: seq<string>, a: seq<string>, b: seq<string>)
    ensures Walk(rooted, stack, a + b) == Walk(rooted, Walk(rooted, stack, a), b)
    decreases |a|
  {
    if a == [] {
      assert a + b == b;
    } else {
      assert (a + b)[1..] == a[1..] + b;
      WalkSum(rooted, Step(rooted, stack, a[0]), a[1..], b);
    }
  }

  /** The segments that cleaning keeps when none of them is `..`. */
  function Kept(segs: seq<string>): seq<string> {
    if segs == [] then []
    else (if segs[0] == "" || segs[0] == "." then [] else [segs[0]]) + Kept(segs[1..])
  }

  /** Without a `..` segment nothing is popped: the kept segments land on top of the stack. */
  lemma {:induction false} WalkWithoutParents(rooted: bool, stack: seq<string>, segs: seq<string>)
    requires ".." !in segs
    ensures Walk(rooted, stack, segs) == stack + Kept(segs)
    decreases |segs|
  {
    if segs != [] {
      assert segs[0] in segs;
      assert forall x | x in segs[1..] :: x in segs;
      var kept := Kept(segs[1..]);
      WalkWithoutParents(rooted, Step(rooted, stack, segs[0]), segs[1..]);
      assert stack + [segs[0]] + kept == stack + ([segs[0]] + kept);
      assert [] + kept == kept;
    } else {
      assert stack + [] == stack;
    }
  }

  lemma {:induction false} KeptIsNamed(segs: seq<string>)
    requires ".." !in segs
    ensures AllNamed(Kept(segs))
    ensures forall x | x in Kept(segs) :: x in segs
  {
    if segs != [] {
      assert segs[0] in segs;
      assert forall x | x in segs[1..] :: x in segs;
      KeptIsNamed(segs[1..]);
    }
  }

  lemma {:induction false} KeptOfNamed(segs: seq<string>)
    requires AllNamed(segs)
    ensures Kept(segs) == segs
  {
    if segs != [] {
      KeptOfNamed(segs[1..]);
      assert segs == [segs[0]] + segs[1..];
    }
  }

  lemma {:induction false} KeptSum(a: seq<string>, b: seq<string>)
    ensures Kept(a + b) == Kept(a) + Kept(b)
    decreases |a|
  {
    if a == [] {
      assert a + b == b;
    } else {
      assert (a + b)[1..] == a[1..] + b;
      KeptSum(a[1..], b);
    }
  }

  /** Leading parents, then named segments. */
  ghost predicate IsClean(stack: seq<string>, parents: nat) {
    && parents <= |stack|
    && (forall i | 0 <= i < parents :: stack[i] == "..")
    && AllNamed(stack[parents..])
    && NoSlash(stack)
  }

  lemma StepIsClean(rooted: bool, stack: seq<string>, parents: nat, seg: string) returns (parents': nat)
    requires IsClean(stack, parents) && '/' !in seg && (rooted ==> parents == 0)
    ensures IsClean(Step(rooted, stack, seg), parents') && (rooted ==> parents' == 0)
    ensures parents <= parents'
  {
    parents' := parents;
    var stack' := Step(rooted, stack, seg);
    if parents < |stack| {
      assert stack[parents..][|stack| - 1 - parents] == stack[|stack| - 1];
      assert |stack'| < |stack| ==> stack'[parents..] == stack[parents..][..|stack| - 1 - parents];
    }
    if seg == ".." && !(stack != [] && stack[|stack| - 1] != "..") && !rooted {
      parents' := parents + 1;
    }
    if Named(seg) {
      assert stack'[parents..] == stack[parents..] + [seg];
    }
  }

  lemma {:induction false} WalkIsClean(rooted: bool, stack: seq<string>, parents: nat, segs: seq<string>) returns (parents': nat)
    requires IsClean(stack, parents) && NoSlash(segs) && (rooted ==> parents == 0)
    ensures IsClean(Walk(rooted, stack, segs), parents') && (rooted ==> parents' == 0)
    ensures parents <= parents'
    decreases |segs|
  {
    parents' := parents;
    if segs != [] {
      parents' := StepIsClean(rooted, stack, parents, segs[0]);
      parents' := WalkIsClean(rooted, Step(rooted, stack, segs[0]), parents', segs[1..]);
    }
  }

  /** A rooted path cleans to named segments only. */
  lemma RootedWalk(segs: seq<string>)
    requires NoSlash(segs)
    ensures AllNamed(Walk(true, [], segs)) && NoSlash(Walk(true, [], segs))
  {
    var parents := WalkIsClean(true, [], 0, segs);
    var stack := Walk(true, [], segs);
    assert stack[0..] == stack;
  }

  // ------------------------------------------ when a relative path escapes

  /** Directory levels a run of segments goes down, minus the levels it goes up. */
  function Depth(segs: seq<string>): int {
    if segs == [] then 0
    else
      var last := segs[|segs| - 1];
      Depth(segs[..|segs| - 1]) + if last == ".." then -1 else if Named(last) then 1 else 0
  }

  /** At some point the path is above where it started. */
  ghost predicate Escapes(segs: seq<string>) {
    exists k | 0 <= k <= |segs| :: Depth(segs[..k]) < 0
  }

  lemma EscapesStep(init: seq<string>, last: string)
    ensures Escapes(init + [last]) <==> Escapes(init) || Depth(init + [last]) < 0
  {
    var segs := init + [last];
    assert segs[..|segs|] == segs;
    assert forall k | 0 <= k <= |init| :: segs[..k] == init[..k];
  }

  /** What the walk of a relative path says about escaping. */
  ghost predicate Tracks(segs: seq<string>, stack: seq<string>) {
    && (Escapes(segs) <==> stack != [] && stack[0] == "..")
    && (!Escapes(segs) ==> |stack| == Depth(segs) && AllNamed(stack))
  }

  lemma StepTracks(init: seq<string>, stack: seq<string>, last: string)
    requires Tracks(init, stack) && '/' !in last
    requires forall i | 0 < i < |stack| :: stack[i] == ".." ==> stack[i - 1] == ".."
    ensures Tracks(init + [last], Step(false, stack, last))
  {
    EscapesStep(init, last);
    assert (init + [last])[..|init|] == init;
    var stack' := Step(false, stack, last);
    if Escapes(init) {
      assert stack'[0] == "..";
    }
  }

  /** A relative path cleans to one that starts with `..` exactly when it escapes. */
  lemma {:induction false} EscapesIff(segs: seq<string>)
    requires NoSlash(segs)
    ensures Tracks(segs, Walk(false, [], segs))
  {
    if segs != [] {
      hide Tracks, Step;
      var n := |segs| - 1;
      var init, last := segs[..n], segs[n];
      EscapesIff(init);
      assert segs == init + [last];
      WalkSum(false, [], init, [last]);
      var stack := Walk(false, [], init);
      var parents := WalkIsClean(false, [], 0, init);
      forall i | parents <= i < |stack|
        ensures Named(stack[i])
      {
        assert stack[parents..][i - parents] == stack[i];
      }
      StepTracks(init, stack, last);
    }
  }

  // --------------------------------------------- cleaning by rules, in any order

  /**
   * One of the rules path.Clean documents, applied once: drop an empty or `.` segment, drop a `..` together
   * with the name before it, drop a `..` that begins a rooted path.
   */
  ghost predicate RewritesAt(rooted: bool, p: seq<string>, i: nat, q: seq<string>) {
    && i < |p|
    && (|| ((p[i] == "" || p[i] == ".") && q == p[..i] + p[i + 1..])
        || (i + 1 < |p| && p[i] != "" && p[i] != "." && p[i] != ".." && p[i + 1] == ".." && q == p[..i] + p[i + 2..])
        || (rooted && i == 0 && p[0] == ".." && q == p[1..]))
  }

  /** No rule applies any more. */
  ghost predicate Irreducible(rooted: bool, p: seq<string>) {
    forall i: nat, q: seq<string> :: !RewritesAt(rooted, p, i, q)
  }

  /** `q` is what `n` applications of the rules make of `p`, at places of one's choice. */
  ghost predicate Reduces(rooted: bool, p: seq<string>, q: seq<string>, n: nat) {
    if n == 0 then p == q
    else exists i: nat, r: seq<string> :: RewritesAt(rooted, p, i, r) && Reduces(rooted, r, q, n - 1)
  }

  /** A name followed by `..` leaves no trace. */
  lemma Cancellation(rooted: bool, xs: seq<string>, seg: string, ys: seq<string>)
    requires Named(seg)
    ensures Walk(rooted, [], xs + [seg, ".."] + ys) == Walk(rooted, [], xs + ys)
  {
    var stack := Walk(rooted, [], xs);
    assert xs + [seg, ".."] + ys == xs + ([seg, ".."] + ys);
    WalkSum(rooted, [], xs, [seg, ".."] + ys);
    WalkSum(rooted, [], xs, ys);
    WalkMore(rooted, stack, seg, [".."] + ys);
    WalkMore(rooted, stack + [seg], "..", ys);
    assert [seg, ".."] + ys == [seg] + ([".."] + ys);
    assert (stack + [seg])[..|stack|] == stack;
    hide Walk;
  }

  lemma WalkMore(rooted: bool, stack: seq<string>, seg: string, segs: seq<string>)
    ensures Walk(rooted, stack, [seg] + segs) == Walk(rooted, Step(rooted, stack, seg), segs)
  {
    assert ([seg] + segs)[1..] == segs;
  }

  /** Dropping a segment that cleaning skips changes nothing. */
  lemma SkippedSegment(rooted: bool, xs: seq<string>, seg: string, ys: seq<string>)
    requires Step(rooted, Walk(rooted, [], xs), seg) == Walk(rooted, [], xs)
    ensures Walk(rooted, [], xs + [seg] + ys) == Walk(rooted, [], xs + ys)
  {
    assert xs + [seg] + ys == xs + ([seg] + ys);
    WalkSum(rooted, [], xs, [seg] + ys);
    WalkSum(rooted, [], xs, ys);
    WalkMore(rooted, Walk(rooted, [], xs), seg, ys);
    hide Walk;
  }

  lemma Around(p: seq<string>, i: nat)
    requires i < |p|
    ensures p == p[..i] + [p[i]] + p[i + 1..]
    ensures i + 1 < |p| ==> p == p[..i] + [p[i], p[i + 1]] + p[i + 2..]
  {
  }

  lemma RewriteKeepsWalk(rooted: bool, p: seq<string>, i: nat, q: seq<string>)
    requires RewritesAt(rooted, p, i, q)
    ensures Walk(rooted, [], p) == Walk(rooted, [], q) && |q| < |p|
  {
    Around(p, i);
    if p[i] == "" || p[i] == "." {
      SkippedSegment(rooted, p[..i], p[i], p[i + 1..]);
      hide Walk;
    } else if p[i] == ".." {
      assert Walk(rooted, [], p[..0]) == [];
      SkippedSegment(rooted, p[..0], "..", p[1..]);
      hide Walk;
      assert p[..0] + p[1..] == p[1..];
    } else {
      hide Walk;
      Cancellation(rooted, p[..i], p[i], p[i + 2..]);
    }
  }

  /** What cannot be reduced is clean: the walk returns it as it is. */
  lemma {:induction false} IrreducibleStays(rooted: bool, p: seq<string>, n: nat)
    requires Irreducible(rooted, p) && n <= |p|
    ensures Walk(rooted, [], p[..n]) == p[..n]
  {
    if n > 0 {
      IrreducibleStays(rooted, p, n - 1);
      var seg := p[n - 1];
      assert p[..n] == p[..n - 1] + [seg];
      WalkSum(rooted, [], p[..n - 1], [seg]);
      WalkMore(rooted, p[..n - 1], seg, []);
      assert [seg] + [] == [seg];
      hide Walk, Irreducible;
      IrreducibleSegment(rooted, p, n - 1);
    }
  }

  lemma IrreducibleSegment(rooted: bool, p: seq<string>, i: nat)
    requires Irreducible(rooted, p) && i < |p|
    ensures Step(rooted, p[..i], p[i]) == p[..i] + [p[i]]
    ensures Walk(rooted, p[..i] + [p[i]], []) == p[..i] + [p[i]]
  {
    ParentsComeFirst(rooted, p, i);
    assert !RewritesAt(rooted, p, i, p[..i] + p[i + 1..]);
    if i > 0 {
      assert p[..i][i - 1] == p[i - 1];
    }
  }

  /** In an irreducible path a `..` follows nothing but other ones, and a rooted one holds none. */
  lemma {:induction false} ParentsComeFirst(rooted: bool, p: seq<string>, i: nat)
    requires Irreducible(rooted, p) && i < |p|
    ensures p[i] == ".." ==> !rooted && (i > 0 ==> p[i - 1] == "..")
  {
    if i == 0 {
      assert !RewritesAt(rooted, p, 0, p[1..]);
    } else {
      var j: nat := i - 1;
      ParentsComeFirst(rooted, p, j);
      assert !RewritesAt(rooted, p, j, p[..j] + p[j + 1..]);
      assert !RewritesAt(rooted, p, j, p[..j] + p[j + 2..]);
    }
  }

  /** However the rules are applied, the walk stays what it was. */
  lemma {:induction false} ReducesKeepsWalk(rooted: bool, p: seq<string>, q: seq<string>, n: nat)
    requires Reduces(rooted, p, q, n)
    ensures Walk(rooted, [], p) == Walk(rooted, [], q)
  {
    if n > 0 {
      var i: nat, r: seq<string> :| RewritesAt(rooted, p, i, r) && Reduces(rooted, r, q, n - 1);
      hide Walk, RewritesAt, Reduces, Step;
      RewriteKeepsWalk(rooted, p, i, r);
      ReducesKeepsWalk(rooted, r, q, n - 1);
    }
  }

  /** The rules do come to an end. */
  lemma {:induction false} SomeReduction(rooted: bool, p: seq<string>) returns (q: seq<string>, n: nat)
    ensures Reduces(rooted, p, q, n) && Irreducible(rooted, q)
    decreases |p|
  {
    hide RewritesAt, Walk;
    q, n := p, 0;
    if i: nat, r: seq<string> :| RewritesAt(rooted, p, i, r) {
      RewriteKeepsWalk(rooted, p, i, r);
      q, n := SomeReduction(rooted, r);
      n := n + 1;
    }
  }

  /** Cleaning is what the rules leave, in whatever order they are applied, once none applies any more. */
  lemma CleaningFollowsRules(rooted: bool, p: seq<string>, q: seq<string>)
    ensures (Irreducible(rooted, q) && exists n: nat :: Reduces(rooted, p, q, n)) <==> q == Walk(rooted, [], p)
  {
    hide Irreducible, Reduces, Walk;
    if Irreducible(rooted, q) {
      if n: nat :| Reduces(rooted, p, q, n) {
        ReducesKeepsWalk(rooted, p, q, n);
        IrreducibleStays(rooted, q, |q|);
        assert q[..|q|] == q;
      }
    }
    var r, m := SomeReduction(rooted, p);
    ReducesKeepsWalk(rooted, p, r, m);
    IrreducibleStays(rooted, r, |r|);
    assert r[..|r|] == r;
    if q == Walk(rooted, [], p) {
      assert Reduces(rooted, p, q, m);
    }
  }

  lemma SplitDetour(a: string, seg: string)
    requires '/' !in seg
    ensures Split(a + "/" + seg + "/..") == Split(a) + [seg, ".."]
  {
    SplitOne(seg);
    SplitOne("..");
    hide Split;
    SplitSum(a + "/" + seg, "..");
    SplitSum(a, seg);
    assert a + "/" + seg + "/" + ".." == a + "/" + seg + "/..";
    assert Split(a) + [seg] + [".."] == Split(a) + [seg, ".."];
  }

  /** Going into a directory and back out again is the same as not going there. */
  lemma UpAndDown(a: string, seg: string, b: string)
    requires a != "" && Named(seg) && '/' !in seg
    ensures Clean(a + "/" + seg + "/../" + b) == Clean(a + "/" + b)
    ensures Clean(a + "/" + seg + "/..") == Clean(a)
  {
    var dotted, rooted := a + "/" + seg + "/..", IsRooted(a);
    assert dotted + "/" + b == a + "/" + seg + "/../" + b;
    assert IsRooted(a + "/" + b) == IsRooted(dotted) == IsRooted(dotted + "/" + b) == rooted;
    hide Split, Walk, IsRooted, Named;
    SplitDetour(a, seg);
    SplitSum(dotted, b);
    SplitSum(a, b);
    Cancellation(rooted, Split(a), seg, Split(b));
    Cancellation(rooted, Split(a), seg, []);
    assert Split(a) + [seg, ".."] + [] == Split(a) + [seg, ".."] && Split(a) + [] == Split(a);
  }
}
