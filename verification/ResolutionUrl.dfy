/**
 * buildURL of resolution.go: which targets a resolution may name, and where the
 * request it builds can go.
 */
module ResolutionUrl {
  import opened Wrappers
  import opened PathCleaning
  import opened PercentCoding

  /** The parts of url.Parse's answer that are looked at. `escapedPath` is EscapedPath(). */
  datatype ParsedUrl = ParsedUrl(scheme: string, host: string, hasUser: bool, escapedPath: string)

  datatype BuildError = Unparsable | BadScheme | NoHost | EmbedsCredentials | Traversal(path: string)

  const COURSE_PHASE := "course_phase"

  /** validateResolutionTarget; `parsed` is None when url.Parse fails. */
  function ValidateTarget(parsed: Option<ParsedUrl>): Result<ParsedUrl, BuildError> {
    match parsed
    case None => Failure(Unparsable)
    case Some(u) =>
      if u.scheme != "http" && u.scheme != "https" then Failure(BadScheme)
      else if u.host == "" then Failure(NoHost)
      else if u.hasUser then Failure(EmbedsCredentials)
      else Success(u)
  }

  predicate HasTraversalSegment(path: string) {
    match Decode(path)
    case None => true
    case Some(decoded) => ".." in Split(decoded)
  }

  function TrimLeft(s: string): string {
    if s != "" && s[0] == '/' then TrimLeft(s[1..]) else s
  }

  function TrimRight(s: string): string {
    if s != "" && s[|s| - 1] == '/' then TrimRight(s[..|s| - 1]) else s
  }

  /** strings.Trim(endpointPath, "/"). */
  function GetEndpointPath(endpointPath: string): string {
    TrimRight(TrimLeft(endpointPath))
  }

  /** What path.Join cleans: the elements from the first non-empty one on, one slash between them. */
  function Joined(buf: string, elems: seq<string>): string
    decreases |elems|
  {
    if elems == [] then buf
    else Joined(if buf != "" then buf + "/" + elems[0] else elems[0], elems[1..])
  }

  function PathJoin(elems: seq<string>): string {
    var p := Joined("", elems);
    if p == "" then "" else Clean(p)
  }

  predicate EndsWithSlash(s: string) {
    s != "" && s[|s| - 1] == '/'
  }

  /** URL.JoinPath, up to the path it hands to setPath. */
  function JoinPath(base: string, elems: seq<string>): string
    requires elems != []
  {
    var rooted := IsRooted(base);
    var joined := PathJoin([if rooted then base else "/" + base] + elems);
    var p := if rooted || joined == "" then joined else joined[1..];
    if EndsWithSlash(elems[|elems| - 1]) && !EndsWithSlash(p) then p + "/" else p
  }

  function FirstTraversal(paths: seq<string>): Option<string> {
    if paths == [] then None
    else if HasTraversalSegment(paths[0]) then Some(paths[0])
    else FirstTraversal(paths[1..])
  }

  function AllPaths(id: string, endpointPath: string, extraPaths: seq<string>): seq<string> {
    [COURSE_PHASE, id, GetEndpointPath(endpointPath)] + extraPaths
  }

  /** buildURL; the result is the joined path, still escaped. */
  function BuildUrl(parsed: Option<ParsedUrl>, id: string, endpointPath: string, extraPaths: seq<string>): Result<string, BuildError> {
    match ValidateTarget(parsed)
    case Failure(e) => Failure(e)
    case Success(base) =>
      var paths := AllPaths(id, endpointPath, extraPaths);
      match FirstTraversal(paths)
      case Some(path) => Failure(Traversal(path))
      case None => Success(JoinPath(base.escapedPath, paths))
  }

  // ----------------------------------------- segments before and after decoding

  function Glue(a: Option<string>, b: Option<string>): Option<string> {
    match (a, b)
    case (Some(x), Some(y)) => Some(x + "/" + y)
    case (_, _) => None
  }

  lemma PrefixedGlue(c: char, a: Option<string>, b: Option<string>)
    ensures Glue(Prefixed(c, a), b) == Prefixed(c, Glue(a, b))
  {
    if a.Some? && b.Some? {
      assert [c] + (a.value + "/" + b.value) == [c] + a.value + "/" + b.value;
    }
  }

  /** No escape sequence spans a `/`, so decoding goes part by part. */
  lemma {:induction false} DecodeSum(a: string, b: string)
    ensures Decode(a + "/" + b) == Glue(Decode(a), Decode(b))
    decreases |a|
  {
    var s := a + "/" + b;
    if a == "" {
      assert s[1..] == b;
      assert Decode(s) == Prefixed('/', Decode(b));
      if Decode(b).Some? {
        assert "" + "/" + Decode(b).value == ['/'] + Decode(b).value;
      }
    } else if a[0] != '%' {
      assert s[1..] == a[1..] + "/" + b;
      DecodeSum(a[1..], b);
      PrefixedGlue(a[0], Decode(a[1..]), Decode(b));
    } else if |a| < 3 {
      assert s[|a|] == '/';
      assert Decode(s).None?;
    } else {
      assert s[3..] == a[3..] + "/" + b;
      DecodeSum(a[3..], b);
      if HexValue(a[1]).Some? && HexValue(a[2]).Some? {
        PrefixedGlue((HexValue(a[1]).value * 16 + HexValue(a[2]).value) as char, Decode(a[3..]), Decode(b));
      }
    }
  }

  /** The segments of a path whose raw segments are decoded one by one and then split again. */
  function DecodedSegments(segs: seq<string>): Option<seq<string>> {
    if segs == [] then Some([])
    else
      match (Decode(segs[0]), DecodedSegments(segs[1..]))
      case (Some(d), Some(rest)) => Some(Split(d) + rest)
      case (_, _) => None
  }

  /** Splitting a decoded path gives the segments its raw segments decode to. */
  lemma {:induction false} DecodeJoin(segs: seq<string>)
    requires segs != []
    ensures Decode(Join(segs)).Some? <==> DecodedSegments(segs).Some?
    ensures Decode(Join(segs)).Some? ==> Split(Decode(Join(segs)).value) == DecodedSegments(segs).value
  {
    if |segs| == 1 {
      assert DecodedSegments(segs[1..]) == Some([]);
      if Decode(segs[0]).Some? {
        assert Split(Decode(segs[0]).value) + [] == Split(Decode(segs[0]).value);
      }
    } else {
      DecodeJoin(segs[1..]);
      DecodeSum(segs[0], Join(segs[1..]));
      if Decode(segs[0]).Some? && Decode(Join(segs[1..])).Some? {
        SplitSum(Decode(segs[0]).value, Decode(Join(segs[1..])).value);
      }
    }
  }

  /** A segment that is harmless before and after decoding. */
  predicate Harmless(seg: string) {
    Decode(seg).Some? && ".." !in Split(Decode(seg).value)
  }

  predicate AllHarmless(segs: seq<string>) {
    forall i | 0 <= i < |segs| :: Harmless(segs[i])
  }

  lemma {:induction false} DecodedHarmless(segs: seq<string>)
    ensures AllHarmless(segs) <==> DecodedSegments(segs).Some? && ".." !in DecodedSegments(segs).value
  {
    if segs != [] {
      DecodedHarmless(segs[1..]);
      assert AllHarmless(segs) <==> Harmless(segs[0]) && AllHarmless(segs[1..]);
    }
  }

  /** The decoded check passes exactly when every raw segment is harmless. */
  lemma TraversalIff(path: string)
    ensures !HasTraversalSegment(path) <==> AllHarmless(Split(path))
  {
    JoinSplit(path);
    DecodeJoin(Split(path));
    DecodedHarmless(Split(path));
  }

  /** A raw `..` segment survives decoding, so the decoded check catches it. */
  lemma RawParentIsCaught(path: string)
    requires ".." in Split(path)
    ensures HasTraversalSegment(path)
  {
    TraversalIff(path);
    DotsDecode();
    var i :| 0 <= i < |Split(path)| && Split(path)[i] == "..";
    assert !Harmless(Split(path)[i]);
  }

  lemma {:induction false} PlainDecodes(s: string)
    requires '%' !in s
    ensures Decode(s) == Some(s)
  {
    if s != "" {
      assert s[0] in s;
      PlainDecodes(s[1..]);
      assert s == [s[0]] + s[1..];
    }
  }

  lemma DotsDecode()
    ensures Decode("..") == Some("..") && Split("..") == [".."]
  {
    PlainDecodes("..");
    SplitOne("..");
  }

  lemma HarmlessHasNoParent(segs: seq<string>)
    requires AllHarmless(segs)
    ensures ".." !in segs
  {
    DotsDecode();
  }

  // --------------------------------------------------------- the joined path

  /** The segments that the elements of a path contribute. */
  function Contributed(paths: seq<string>): seq<string> {
    if paths == [] then [] else Kept(Split(paths[0])) + Contributed(paths[1..])
  }

  lemma {:induction false} JoinedWalk(buf: string, elems: seq<string>)
    requires IsRooted(buf)
    requires forall i | 0 <= i < |elems| :: ".." !in Split(elems[i])
    ensures IsRooted(Joined(buf, elems))
    ensures Walk(true, [], Split(Joined(buf, elems))) == Walk(true, [], Split(buf)) + Contributed(elems)
    decreases |elems|
  {
    hide Split, Walk, Kept;
    var w := Walk(true, [], Split(buf));
    if elems == [] {
      assert w + [] == w;
    } else {
      var buf' := buf + "/" + elems[0];
      JoinedWalk(buf', elems[1..]);
      SplitSum(buf, elems[0]);
      WalkSum(true, [], Split(buf), Split(elems[0]));
      WalkWithoutParents(true, w, Split(elems[0]));
      assert w + Kept(Split(elems[0])) + Contributed(elems[1..]) == w + (Kept(Split(elems[0])) + Contributed(elems[1..]));
    }
  }

  lemma {:induction false} ContributedIsHarmless(paths: seq<string>)
    requires forall i | 0 <= i < |paths| :: !HasTraversalSegment(paths[i])
    ensures forall i | 0 <= i < |paths| :: ".." !in Split(paths[i])
    ensures AllNamed(Contributed(paths)) && AllHarmless(Contributed(paths)) && NoSlash(Contributed(paths))
  {
    if paths != [] {
      var segs := Split(paths[0]);
      ContributedIsHarmless(paths[1..]);
      TraversalIff(paths[0]);
      HarmlessHasNoParent(segs);
      KeptIsNamed(segs);
      SplitHasNoSlash(paths[0]);
      forall i | 0 <= i < |Kept(segs)|
        ensures Harmless(Kept(segs)[i]) && '/' !in Kept(segs)[i]
      {
        assert Kept(segs)[i] in segs;
      }
    }
  }

  lemma {:induction false} FirstTraversalNone(paths: seq<string>)
    ensures FirstTraversal(paths).None? <==> forall i | 0 <= i < |paths| :: !HasTraversalSegment(paths[i])
  {
    if paths != [] {
      FirstTraversalNone(paths[1..]);
      assert paths == [paths[0]] + paths[1..];
      hide HasTraversalSegment;
    }
  }

  /** A slash at either end adds an empty segment only. */
  lemma EdgeSlash(s: string)
    ensures Kept(Split("/" + s)) == Kept(Split(s)) == Kept(Split(s + "/"))
    ensures AllHarmless(Split("/" + s)) == AllHarmless(Split(s)) == AllHarmless(Split(s + "/"))
  {
    assert ("/" + s)[1..] == s;
    assert s + "/" == s + "/" + "";
    SplitSum(s, "");
    KeptSum(Split(s), [""]);
    assert Kept([""]) == [];
    assert Kept(Split(s)) + [] == Kept(Split(s));
    PlainDecodes("");
    assert Harmless("");
    HarmlessSum([""], Split(s));
    HarmlessSum(Split(s), [""]);
  }

  lemma HarmlessSum(a: seq<string>, b: seq<string>)
    ensures AllHarmless(a + b) <==> AllHarmless(a) && AllHarmless(b)
  {
    hide Harmless;
    var s := a + b;
    assert forall i | 0 <= i < |a| :: s[i] == a[i];
    assert forall i | 0 <= i < |b| :: s[|a| + i] == b[i];
  }

  lemma {:induction false} TrimLeftKeeps(s: string)
    ensures Kept(Split(TrimLeft(s))) == Kept(Split(s))
    ensures AllHarmless(Split(TrimLeft(s))) == AllHarmless(Split(s))
  {
    hide Split, Kept, AllHarmless;
    if s != "" && s[0] == '/' {
      TrimLeftKeeps(s[1..]);
      assert s == "/" + s[1..];
      EdgeSlash(s[1..]);
    }
  }

  lemma {:induction false} TrimRightKeeps(s: string)
    ensures Kept(Split(TrimRight(s))) == Kept(Split(s))
    ensures AllHarmless(Split(TrimRight(s))) == AllHarmless(Split(s))
  {
    if s != "" && s[|s| - 1] == '/' {
      hide Split, Kept, AllHarmless;
      var t := s[..|s| - 1];
      TrimRightKeeps(t);
      assert s == t + "/";
      EdgeSlash(t);
    }
  }

  /** Trimming the slashes of the endpoint path changes neither its segments nor the verdict on it. */
  lemma TrimKeeps(endpointPath: string)
    ensures Kept(Split(GetEndpointPath(endpointPath))) == Kept(Split(endpointPath))
    ensures HasTraversalSegment(GetEndpointPath(endpointPath)) == HasTraversalSegment(endpointPath)
  {
    TrimLeftKeeps(endpointPath);
    TrimRightKeeps(TrimLeft(endpointPath));
    TraversalIff(endpointPath);
    TraversalIff(GetEndpointPath(endpointPath));
  }

  /** The text of a UUID. */
  predicate IsUuidText(id: string) {
    |id| == 36 && forall i | 0 <= i < |id| :: id[i] == '-' || '0' <= id[i] <= '9' || 'a' <= id[i] <= 'f'
  }

  /** A segment without `%` and `/` passes the check and stays as it is. */
  lemma PlainSegment(seg: string)
    requires Named(seg) && '%' !in seg && '/' !in seg
    ensures Kept(Split(seg)) == [seg] && !HasTraversalSegment(seg)
  {
    SplitOne(seg);
    PlainDecodes(seg);
    KeptOfNamed([seg]);
  }

  lemma FixedSegments(id: string)
    requires IsUuidText(id)
    ensures Kept(Split(COURSE_PHASE)) == [COURSE_PHASE] && !HasTraversalSegment(COURSE_PHASE)
    ensures Kept(Split(id)) == [id] && !HasTraversalSegment(id)
  {
    UuidIsPlain(id);
    hide *;
    CoursePhaseIsPlain();
    PlainSegment(COURSE_PHASE);
    PlainSegment(id);
  }

  lemma CoursePhaseIsPlain()
    ensures Named(COURSE_PHASE) && '%' !in COURSE_PHASE && '/' !in COURSE_PHASE
  {
  }

  lemma UuidIsPlain(id: string)
    requires IsUuidText(id)
    ensures Named(id) && '%' !in id && '/' !in id
  {
  }

  /**
   * buildURL accepts exactly the http and https targets with a host and without credentials whose
   * endpoint and extra paths decode to paths without `..`.
   */
  lemma AcceptedIff(parsed: Option<ParsedUrl>, id: string, endpointPath: string, extraPaths: seq<string>)
    requires IsUuidText(id)
    ensures BuildUrl(parsed, id, endpointPath, extraPaths).Success? <==>
            && parsed.Some? && parsed.value.scheme in {"http", "https"} && parsed.value.host != "" && !parsed.value.hasUser
            && !HasTraversalSegment(endpointPath)
            && (forall i | 0 <= i < |extraPaths| :: !HasTraversalSegment(extraPaths[i]))
  {
    hide HasTraversalSegment, JoinPath, Split, Kept, FirstTraversal;
    FixedSegments(id);
    TrimKeeps(endpointPath);
    var e := GetEndpointPath(endpointPath);
    AllPathsShape(id, endpointPath, extraPaths);
    FirstTraversalMore(COURSE_PHASE, [id] + ([e] + extraPaths));
    FirstTraversalMore(id, [e] + extraPaths);
    FirstTraversalMore(e, extraPaths);
    FirstTraversalNone(extraPaths);
    hide GetEndpointPath, AllPaths, IsUuidText;
  }

  lemma FirstTraversalMore(path: string, paths: seq<string>)
    ensures FirstTraversal([path] + paths).None? <==> !HasTraversalSegment(path) && FirstTraversal(paths).None?
  {
    hide HasTraversalSegment;
    assert ([path] + paths)[1..] == paths;
  }

  /** The segments added below the base. */
  function Added(id: string, endpointPath: string, extraPaths: seq<string>): seq<string> {
    [COURSE_PHASE, id] + Kept(Split(endpointPath)) + Contributed(extraPaths)
  }

  function BaseSegments(escapedPath: string): seq<string> {
    Walk(true, [], Split(if IsRooted(escapedPath) then escapedPath else "/" + escapedPath))
  }

  lemma ContributedIsAdded(id: string, endpointPath: string, extraPaths: seq<string>)
    requires IsUuidText(id)
    ensures Contributed(AllPaths(id, endpointPath, extraPaths)) == Added(id, endpointPath, extraPaths)
  {
    hide Kept, Split, GetEndpointPath, Contributed, HasTraversalSegment;
    FixedSegments(id);
    TrimKeeps(endpointPath);
    hide *;
    var e := GetEndpointPath(endpointPath);
    AllPathsShape(id, endpointPath, extraPaths);
    AddedShape(id, endpointPath, extraPaths);
    ContributedMore(COURSE_PHASE, [id] + ([e] + extraPaths));
    ContributedMore(id, [e] + extraPaths);
    ContributedMore(e, extraPaths);
  }

  lemma AllPathsShape(id: string, endpointPath: string, extraPaths: seq<string>)
    ensures AllPaths(id, endpointPath, extraPaths) == [COURSE_PHASE] + ([id] + ([GetEndpointPath(endpointPath)] + extraPaths))
  {
    hide GetEndpointPath;
  }

  lemma AddedShape(id: string, endpointPath: string, extraPaths: seq<string>)
    ensures Added(id, endpointPath, extraPaths) == [COURSE_PHASE] + ([id] + (Kept(Split(endpointPath)) + Contributed(extraPaths)))
  {
    hide Kept, Split, Contributed;
    Regroup(Kept(Split(endpointPath)), Contributed(extraPaths), id);
  }

  lemma ContributedMore(path: string, paths: seq<string>)
    ensures Contributed([path] + paths) == Kept(Split(path)) + Contributed(paths)
  {
    hide Kept, Split;
    assert ([path] + paths)[1..] == paths;
  }

  lemma Regroup(a: seq<string>, b: seq<string>, id: string)
    ensures [COURSE_PHASE] + ([id] + (a + b)) == [COURSE_PHASE, id] + a + b
  {
  }

  lemma ConfinedPath(parsed: Option<ParsedUrl>, id: string, endpointPath: string, extraPaths: seq<string>)
    requires IsUuidText(id)
    requires BuildUrl(parsed, id, endpointPath, extraPaths).Success?
    ensures
      var base := parsed.value.escapedPath;
      var added := Added(id, endpointPath, extraPaths);
      && AllNamed(BaseSegments(base)) && AllNamed(added)
      && Decode(Join(added)).Some? && ".." !in Split(Decode(Join(added)).value)
      && BuildUrl(parsed, id, endpointPath, extraPaths).value ==
         (if IsRooted(base) then "/" else "") + Join(BaseSegments(base) + added)
         + (if extraPaths != [] && EndsWithSlash(extraPaths[|extraPaths| - 1]) then "/" else "")
  {
    var base := parsed.value.escapedPath;
    var paths := AllPaths(id, endpointPath, extraPaths);
    var added := Added(id, endpointPath, extraPaths);
    FirstTraversalNone(paths);
    ContributedIsHarmless(paths);
    ContributedIsAdded(id, endpointPath, extraPaths);
    DecodeJoin(added);
    DecodedHarmless(added);
    LastElement(id, endpointPath, extraPaths);
    JoinedPath(base, paths);
  }

  lemma NoDotsIn(a: seq<string>, b: seq<string>)
    requires AllNamed(a) && AllNamed(b)
    ensures forall seg | seg in a + b :: seg != "" && seg != "." && seg != ".."
  {
  }

  lemma SlashesLiterally(s: string)
    ensures EndsWithSlash(s) <==> s != "" && s[|s| - 1] == '/'
    ensures IsRooted(s) <==> "/" <= s
  {
  }

  lemma AddedLiterally(id: string, endpointPath: string, extraPaths: seq<string>)
    ensures Added(id, endpointPath, extraPaths) == ["course_phase", id] + Kept(Split(endpointPath)) + Contributed(extraPaths)
  {
    hide Kept, Split, Contributed;
  }

  /**
   * Confinement: an accepted request goes to the cleaned base followed by `course_phase`, the phase
   * id and the non-empty, non-dot segments of the endpoint and extra paths. None of these segments
   * is `..`, nor are they when the receiver decodes the path before splitting it.
   */
  lemma Confinement(parsed: Option<ParsedUrl>, id: string, endpointPath: string, extraPaths: seq<string>)
    requires IsUuidText(id)
    requires BuildUrl(parsed, id, endpointPath, extraPaths).Success?
    ensures
      var base := parsed.value.escapedPath;
      var added := ["course_phase", id] + Kept(Split(endpointPath)) + Contributed(extraPaths);
      var trailing := extraPaths != [] && extraPaths[|extraPaths| - 1] != ""
                      && extraPaths[|extraPaths| - 1][|extraPaths[|extraPaths| - 1]| - 1] == '/';
      && AllNamed(BaseSegments(base)) && AllNamed(added)
      && (forall seg | seg in BaseSegments(base) + added :: seg != "" && seg != "." && seg != "..")
      && Decode(Join(added)).Some? && ".." !in Split(Decode(Join(added)).value)
      && BuildUrl(parsed, id, endpointPath, extraPaths).value ==
         (if "/" <= base then "/" else "") + Join(BaseSegments(base) + added) + (if trailing then "/" else "")
  {
    assert parsed.Some?;
    hide *;
    ConfinedPath(parsed, id, endpointPath, extraPaths);
    AddedLiterally(id, endpointPath, extraPaths);
    SlashesLiterally(parsed.value.escapedPath);
    if extraPaths != [] {
      SlashesLiterally(extraPaths[|extraPaths| - 1]);
    }
    NoDotsIn(BaseSegments(parsed.value.escapedPath), Added(id, endpointPath, extraPaths));
  }

  lemma {:induction false} TrimmedEnd(s: string)
    ensures !EndsWithSlash(TrimRight(s))
  {
    if s != "" && s[|s| - 1] == '/' {
      TrimmedEnd(s[..|s| - 1]);
    }
  }

  lemma LastElement(id: string, endpointPath: string, extraPaths: seq<string>)
    ensures var paths := AllPaths(id, endpointPath, extraPaths);
            EndsWithSlash(paths[|paths| - 1]) == (extraPaths != [] && EndsWithSlash(extraPaths[|extraPaths| - 1]))
  {
    TrimmedEnd(TrimLeft(endpointPath));
  }

  lemma {:induction false} NamedJoinEnd(segs: seq<string>)
    requires segs != [] && AllNamed(segs) && NoSlash(segs)
    ensures Join(segs) != "" && !EndsWithSlash(Join(segs))
  {
    if |segs| > 1 {
      NamedJoinEnd(segs[1..]);
    }
  }

  lemma JoinedPath(base: string, paths: seq<string>)
    requires paths != [] && Contributed(paths) != []
    requires AllNamed(Contributed(paths)) && NoSlash(Contributed(paths))
    requires forall i | 0 <= i < |paths| :: ".." !in Split(paths[i])
    ensures AllNamed(BaseSegments(base))
    ensures JoinPath(base, paths) ==
            (if IsRooted(base) then "/" else "") + Join(BaseSegments(base) + Contributed(paths))
            + (if EndsWithSlash(paths[|paths| - 1]) then "/" else "")
  {
    hide Split, Walk, PathJoin, Contributed, Join;
    var start := if IsRooted(base) then base else "/" + base;
    var segs := BaseSegments(base) + Contributed(paths);
    SplitHasNoSlash(start);
    RootedWalk(Split(start));
    PathJoinRooted(start, paths);
    NamedJoinEnd(segs);
    LeadingSlash(Join(segs));
    hide AllNamed, NoSlash, EndsWithSlash;
  }

  lemma LeadingSlash(j: string)
    requires j != ""
    ensures ("/" + j)[1..] == j && "" + j == j && EndsWithSlash("/" + j) == EndsWithSlash(j)
  {
  }

  lemma PathJoinRooted(start: string, paths: seq<string>)
    requires IsRooted(start)
    requires forall i | 0 <= i < |paths| :: ".." !in Split(paths[i])
    ensures PathJoin([start] + paths) == "/" + Join(Walk(true, [], Split(start)) + Contributed(paths))
  {
    assert Joined("", [start] + paths) == Joined(start, paths) by {
      assert ([start] + paths)[1..] == paths;
    }
    JoinedWalk(start, paths);
    hide Split, Walk, Joined, Contributed, Join;
  }

  // ------------------------------------------------ parents in disguise

  /** A dot, plain or escaped. */
  predicate IsDot(s: string) {
    s == "." || s == "%2e" || s == "%2E"
  }

  /** Nothing, or text that ends with a slash, plain or escaped. */
  predicate EndsAtSlash(a: string) {
    || a == ""
    || a[|a| - 1..] == "/"
    || (|a| >= 3 && (a[|a| - 3..] == "%2f" || a[|a| - 3..] == "%2F"))
  }

  /** Nothing, or text that begins with a slash, plain or escaped. */
  predicate BeginsAtSlash(b: string) {
    b == "" || "/" <= b || "%2f" <= b || "%2F" <= b
  }

  function Both(a: Option<string>, b: Option<string>): Option<string> {
    match (a, b)
    case (Some(x), Some(y)) => Some(x + y)
    case (_, _) => None
  }

  /** Text that does not begin with a hex digit is decoded on its own. */
  lemma {:induction false} DecodeConcat(a: string, b: string)
    requires b != "" ==> HexValue(b[0]).None?
    ensures Decode(a + b) == Both(Decode(a), Decode(b))
    decreases |a|
  {
    var s := a + b;
    if a == "" {
      assert s == b;
      BothEmpty(Decode(b));
    } else if a[0] != '%' {
      assert s[1..] == a[1..] + b;
      DecodeConcat(a[1..], b);
      BothPrefixed(a[0], Decode(a[1..]), Decode(b));
    } else if |a| < 3 {
      if |s| >= 3 {
        assert s[|a|] == b[0];
      }
    } else {
      assert s[3..] == a[3..] + b;
      DecodeConcat(a[3..], b);
      if HexValue(a[1]).Some? && HexValue(a[2]).Some? {
        BothPrefixed((HexValue(a[1]).value * 16 + HexValue(a[2]).value) as char, Decode(a[3..]), Decode(b));
      }
    }
  }

  lemma BothEmpty(b: Option<string>)
    ensures Both(Decode(""), b) == b
  {
    if b.Some? {
      assert "" + b.value == b.value;
    }
  }

  lemma BothPrefixed(c: char, a: Option<string>, b: Option<string>)
    ensures Both(Prefixed(c, a), b) == Prefixed(c, Both(a, b))
  {
    if a.Some? && b.Some? {
      assert [c] + (a.value + b.value) == [c] + a.value + b.value;
    }
  }

  lemma DotDecodes(d: string)
    requires IsDot(d)
    ensures Decode(d) == Some(".") && HexValue(d[0]).None?
  {
    PlainDecodes(".");
    DecodeByte(0x2E, '2', 'e', "");
    DecodeByte(0x2E, '2', 'E', "");
    assert "%2e" == ['%', '2', 'e'] && "%2E" == ['%', '2', 'E'];
    hide Decode;
  }

  lemma SlashDecodes(s: string)
    requires s == "/" || s == "%2f" || s == "%2F"
    ensures Decode(s) == Some("/") && HexValue(s[0]).None?
  {
    PlainDecodes("/");
    DecodeByte(0x2F, '2', 'f', "");
    DecodeByte(0x2F, '2', 'F', "");
    assert "%2f" == ['%', '2', 'f'] && "%2F" == ['%', '2', 'F'];
    hide Decode;
  }

  /** What stands before a parent segment decodes to nothing, or to text that ends with a slash. */
  lemma BeforeParent(a: string)
    requires EndsAtSlash(a) && Decode(a).Some?
    ensures var x := Decode(a).value; x != "" ==> x == x[..|x| - 1] + "/"
  {
    EmptyIsEmpty();
    if a != "" {
      var n := if a[|a| - 1..] == "/" then |a| - 1 else |a| - 3;
      assert a[n..] == "/" || a[n..] == "%2f" || a[n..] == "%2F";
      hide *;
      SlashDecodes(a[n..]);
      DecodeConcat(a[..n], a[n..]);
      assert a == a[..n] + a[n..];
      EndsIn(Decode(a), Decode(a[..n]));
    }
  }

  lemma EndsIn(d: Option<string>, front: Option<string>)
    requires d == Both(front, Some("/")) && d.Some?
    ensures d.value != "" && d.value == d.value[..|d.value| - 1] + "/"
  {
    assert d.value == front.value + "/";
  }

  /** What stands after it decodes to nothing, or to text that begins with a slash. */
  lemma AfterParent(b: string)
    requires BeginsAtSlash(b) && Decode(b).Some?
    ensures b != "" ==> HexValue(b[0]).None?
    ensures var y := Decode(b).value; y != "" ==> y == "/" + y[1..]
  {
    if b != "" && b[0] == '%' {
      DecodeByte(0x2F, '2', b[2], b[3..]);
      assert b == ['%', '2', b[2]] + b[3..];
    }
  }

  lemma EmptyIsEmpty()
    ensures Decode("") == Some("")
  {
  }

  lemma ParentFirst(y: string)
    requires y != "" ==> y == "/" + y[1..]
    ensures ".." in Split(".." + y)
  {
    SplitOne("..");
    hide Split;
    if y != "" {
      SplitSum("..", y[1..]);
      assert ".." + y == ".." + "/" + y[1..];
      assert ([".."] + Split(y[1..]))[0] == "..";
    } else {
      assert ".." + y == "..";
      assert [".."][0] == "..";
    }
  }

  lemma Concatenation(a: string, b: string, c: string)
    ensures a + b + c == a + (b + c)
  {
  }

  lemma ParentAfterSlash(front: string, y: string)
    requires y != "" ==> y == "/" + y[1..]
    ensures ".." in Split(front + "/" + ".." + y)
  {
    ParentFirst(y);
    hide Split;
    SplitSum(front, ".." + y);
    Concatenation(front + "/", "..", y);
  }

  lemma ParentBetween(x: string, y: string)
    requires x != "" ==> x == x[..|x| - 1] + "/"
    requires y != "" ==> y == "/" + y[1..]
    ensures ".." in Split(x + ".." + y)
  {
    hide Split;
    if x != "" {
      ParentAfterSlash(x[..|x| - 1], y);
    } else {
      ParentFirst(y);
      assert x + ".." == "..";
    }
  }

  /**
   * A path that somewhere between slashes holds two dots is refused, however the dots and the slashes are
   * written, and whatever stands around them.
   */
  lemma DisguisedParentIsCaught(a: string, d: string, e: string, b: string)
    requires EndsAtSlash(a) && IsDot(d) && IsDot(e) && BeginsAtSlash(b)
    ensures HasTraversalSegment(a + d + e + b)
  {
    DotDecodes(d);
    DotDecodes(e);
    DecodeConcat(a, d);
    DecodeConcat(a + d, e);
    SlashStart(b);
    DecodeConcat(a + d + e, b);
    if Decode(a).Some? && Decode(b).Some? {
      BeforeParent(a);
      AfterParent(b);
      var x, y := Decode(a).value, Decode(b).value;
      hide Decode, IsDot, EndsAtSlash, BeginsAtSlash;
      assert x + "." + "." == x + "..";
      ParentBetween(x, y);
    }
  }

  lemma SlashStart(b: string)
    requires BeginsAtSlash(b)
    ensures b != "" ==> HexValue(b[0]).None?
  {
  }

  /** Why a target is refused: the first of these reasons that applies. */
  lemma RejectedBecause(parsed: Option<ParsedUrl>, id: string, endpointPath: string, extraPaths: seq<string>)
    requires IsUuidText(id)
    ensures var r := BuildUrl(parsed, id, endpointPath, extraPaths);
            if parsed.None? then r == Failure(Unparsable)
            else if parsed.value.scheme !in {"http", "https"} then r == Failure(BadScheme)
            else if parsed.value.host == "" then r == Failure(NoHost)
            else if parsed.value.hasUser then r == Failure(EmbedsCredentials)
            else if HasTraversalSegment(endpointPath) then r == Failure(Traversal(GetEndpointPath(endpointPath)))
            else forall i | 0 <= i < |extraPaths| && HasTraversalSegment(extraPaths[i])
                            && (forall j | 0 <= j < i :: !HasTraversalSegment(extraPaths[j])) :: r == Failure(Traversal(extraPaths[i]))
  {
    hide HasTraversalSegment, JoinPath, Split, Kept;
    FixedSegments(id);
    TrimKeeps(endpointPath);
    AllPathsShape(id, endpointPath, extraPaths);
    hide AllPaths, GetEndpointPath, IsUuidText;
    var e := GetEndpointPath(endpointPath);
    FirstTraversalSkips(COURSE_PHASE, [id] + ([e] + extraPaths));
    FirstTraversalSkips(id, [e] + extraPaths);
    FirstTraversalSkips(e, extraPaths);
    forall i | 0 <= i < |extraPaths| && HasTraversalSegment(extraPaths[i]) && (forall j | 0 <= j < i :: !HasTraversalSegment(extraPaths[j]))
      ensures FirstTraversal(extraPaths) == Some(extraPaths[i])
    {
      FirstTraversalIs(extraPaths, i);
    }
    hide FirstTraversal;
  }

  lemma FirstTraversalSkips(path: string, paths: seq<string>)
    ensures FirstTraversal([path] + paths) == if HasTraversalSegment(path) then Some(path) else FirstTraversal(paths)
  {
    hide HasTraversalSegment;
    assert ([path] + paths)[1..] == paths;
  }

  lemma {:induction false} FirstTraversalIs(paths: seq<string>, i: nat)
    requires i < |paths| && HasTraversalSegment(paths[i]) && forall j | 0 <= j < i :: !HasTraversalSegment(paths[j])
    ensures FirstTraversal(paths) == Some(paths[i])
  {
    hide HasTraversalSegment;
    if i > 0 {
      FirstTraversalIs(paths[1..], i - 1);
    }
  }
}
