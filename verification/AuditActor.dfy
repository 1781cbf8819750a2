/** defaultActorExtractor and primaryRole of audit/context.go; maps are iterated in any order. */
module AuditActor {
  import opened Wrappers
  import opened AuditEvent
  import opened RequestContext
  import Login

  const COURSE_ROLES := [COURSE_LECTURER, COURSE_EDITOR, COURSE_STUDENT]

  // -------------------------------------------------------- string order

  /** Go's `<` on strings. */
  predicate Less(a: string, b: string) {
    if b == "" then false
    else if a == "" then true
    else if a[0] != b[0] then a[0] < b[0]
    else Less(a[1..], b[1..])
  }

  lemma {:induction false} LessIsTotal(a: string, b: string)
    ensures Less(a, b) || a == b || Less(b, a)
    ensures !(Less(a, b) && Less(b, a)) && !Less(a, a)
    decreases |a|
  {
    if a != "" {
      LessIsTotal(a[1..], a[1..]);
      if b != "" {
        LessIsTotal(a[1..], b[1..]);
        assert a == [a[0]] + a[1..] && b == [b[0]] + b[1..];
      }
    }
  }

  lemma {:induction false} LessIsTransitive(a: string, b: string, c: string)
    requires Less(a, b) && Less(b, c)
    ensures Less(a, c)
    decreases |a|
  {
    if a != "" && a[0] == b[0] == c[0] {
      LessIsTransitive(a[1..], b[1..], c[1..]);
    }
  }

  /** The strings agree up to `k`, and there `a` ends or has the smaller byte. */
  ghost predicate ComesFirstAt(a: string, b: string, k: nat) {
    k <= |a| && k < |b| && a[..k] == b[..k] && (k == |a| || a[k] < b[k])
  }

  lemma ComesFirstLater(a: string, b: string, k: nat)
    requires a != "" && b != "" && a[0] == b[0]
    ensures ComesFirstAt(a, b, k + 1) <==> ComesFirstAt(a[1..], b[1..], k)
    ensures !ComesFirstAt(a, b, 0)
  {
    if k < |a| && k < |b| {
      assert a[..k + 1] == [a[0]] + a[1..][..k] && b[..k + 1] == [b[0]] + b[1..][..k];
      assert a[1..][..k] == a[..k + 1][1..] && b[1..][..k] == b[..k + 1][1..];
    }
  }

  lemma ComesFirstAtOnce(a: string, b: string, k: nat)
    requires a == "" || b == "" || a[0] != b[0]
    ensures ComesFirstAt(a, b, k) <==> k == 0 && b != "" && (a == "" || a[0] < b[0])
  {
    if 0 < k <= |a| && k < |b| {
      assert a[..k][0] == a[0] && b[..k][0] == b[0];
    }
  }

  /** The order is that of dictionaries: the first difference decides, and a prefix comes first. */
  lemma {:induction false} LessIs(a: string, b: string)
    ensures Less(a, b) <==> exists k: nat :: ComesFirstAt(a, b, k)
    decreases |b|
  {
    hide ComesFirstAt;
    if a != "" && b != "" && a[0] == b[0] {
      LessIs(a[1..], b[1..]);
      if k: nat :| ComesFirstAt(a[1..], b[1..], k) {
        ComesFirstLater(a, b, k);
      }
      if k: nat :| ComesFirstAt(a, b, k) {
        ComesFirstLater(a, b, if k > 0 then k - 1 else 0);
      }
    } else {
      forall k: nat
        ensures ComesFirstAt(a, b, k) <==> k == 0 && b != "" && (a == "" || a[0] < b[0])
      {
        ComesFirstAtOnce(a, b, k);
      }
      assert Less(a, b) <==> ComesFirstAt(a, b, 0);
    }
  }

  ghost predicate IsLeast(r: string, keys: set<string>) {
    r in keys && forall k | k in keys :: !Less(k, r)
  }

  lemma LeastIsUnique(r: string, t: string, keys: set<string>)
    requires IsLeast(r, keys) && IsLeast(t, keys)
    ensures r == t
  {
    LessIsTotal(r, t);
  }

  // -------------------------------------------------------- the fallback loop

  /** One turn of the loop that keeps the smallest role seen. */
  function Turn(fallback: string, role: string): string {
    if fallback == "" || Less(role, fallback) then role else fallback
  }

  /** The loop over the roles in a given order. */
  function Fallback(fallback: string, order: seq<string>): string
    decreases |order|
  {
    if order == [] then fallback else Fallback(Turn(fallback, order[0]), order[1..])
  }

  /** An order in which the map's keys may be visited. */
  ghost predicate IsOrder(order: seq<string>, keys: set<string>) {
    && (forall k :: k in keys <==> k in order)
    && (forall i, j | 0 <= i < j < |order| :: order[i] != order[j])
  }

  lemma {:induction false} FallbackIsLeast(fallback: string, order: seq<string>)
    requires "" !in order
    ensures Fallback(fallback, order) == "" <==> fallback == "" && order == []
    ensures Fallback(fallback, order) != "" ==>
              IsLeast(Fallback(fallback, order), (set k | k in order) + if fallback == "" then {} else {fallback})
    decreases |order|
  {
    var keys := set k | k in order;
    if order == [] {
      LessIsTotal(fallback, fallback);
    } else {
      var next := Turn(fallback, order[0]);
      var rest := set k | k in order[1..];
      assert order[0] in order;
      assert keys == rest + {order[0]};
      FallbackIsLeast(next, order[1..]);
      var r := Fallback(next, order[1..]);
      LessIsTotal(order[0], fallback);
      LessIsTotal(order[0], order[0]);
      assert !Less(next, r);
      if fallback != "" && next == fallback && Less(order[0], r) {
        Skipped(fallback, order[0], r);
      }
      if fallback != "" && next == order[0] && Less(fallback, r) {
        LessIsTransitive(order[0], fallback, r);
      }
    }
  }

  /** A role that is not below the kept one is not below anything at or under it either. */
  lemma Skipped(kept: string, role: string, r: string)
    requires !Less(role, kept) && Less(role, r)
    ensures Less(kept, r) || kept == role
  {
    LessIsTotal(role, kept);
    if Less(kept, role) {
      LessIsTransitive(kept, role, r);
    }
  }

  lemma {:induction false} FallbackAppend(fallback: string, order: seq<string>, role: string)
    ensures Fallback(fallback, order + [role]) == Turn(Fallback(fallback, order), role)
    decreases |order|
  {
    if order == [] {
      assert ([] + [role])[1..] == [];
      assert [] + [role] == [role];
      assert Fallback(Turn(fallback, role), []) == Turn(fallback, role);
    } else {
      assert (order + [role])[1..] == order[1..] + [role];
      FallbackAppend(Turn(fallback, order[0]), order[1..], role);
    }
  }

  lemma SomeOrder(keys: set<string>) returns (order: seq<string>)
    ensures IsOrder(order, keys)
    decreases keys
  {
    if keys == {} {
      order := [];
    } else {
      var k :| k in keys;
      var rest := SomeOrder(keys - {k});
      order := [k] + rest;
    }
  }

  /** With role names that are not empty, every order of iteration gives the least of them. */
  lemma FallbackOfNamed(order: seq<string>, keys: set<string>)
    requires IsOrder(order, keys) && "" !in keys
    ensures if keys == {} then Fallback("", order) == "" else IsLeast(Fallback("", order), keys)
  {
    FallbackIsLeast("", order);
    assert keys == (set k | k in order);
    if keys != {} {
      var k :| k in keys;
      assert order != [];
    }
  }

  lemma {:induction false} FallbackOfEmpty(order: seq<string>)
    requires forall i | 0 <= i < |order| :: order[i] == ""
    ensures Fallback("", order) == ""
  {
    if order != [] {
      FallbackOfEmpty(order[1..]);
    }
  }

  /** Every order of iteration gives the same fallback role. */
  ghost predicate FallbackStable(keys: set<string>) {
    forall o, p | IsOrder(o, keys) && IsOrder(p, keys) :: Fallback("", o) == Fallback("", p)
  }

  lemma NamedIsStable(keys: set<string>)
    requires "" !in keys
    ensures FallbackStable(keys)
  {
    hide Fallback;
    forall o, p | IsOrder(o, keys) && IsOrder(p, keys)
      ensures Fallback("", o) == Fallback("", p)
    {
      FallbackOfNamed(o, keys);
      FallbackOfNamed(p, keys);
      if keys != {} {
        LeastIsUnique(Fallback("", o), Fallback("", p), keys);
      }
    }
  }

  lemma EmptyAloneIsStable()
    ensures FallbackStable({""})
  {
    hide Fallback;
    forall o | IsOrder(o, {""})
      ensures Fallback("", o) == ""
    {
      forall i | 0 <= i < |o|
        ensures o[i] == ""
      {
        assert o[i] in o;
      }
      FallbackOfEmpty(o);
    }
  }

  /** With an empty role name and others, it matters whether the empty one comes first or last. */
  lemma EmptyAmongOthers(keys: set<string>, rest: seq<string>)
    requires "" in keys && keys != {""} && IsOrder(rest, keys - {""})
    ensures IsOrder([""] + rest, keys) && IsOrder(rest + [""], keys)
    ensures Fallback("", [""] + rest) != "" && Fallback("", rest + [""]) == ""
  {
    hide FallbackStable;
    assert rest != [] by {
      var k :| k in keys && k != "";
      assert k in rest;
    }
    FallbackAppend("", rest, "");
    FallbackIsLeast("", rest);
    EmptyFirst(rest);
  }

  lemma EmptyFirst(rest: seq<string>)
    ensures Fallback("", [""] + rest) == Fallback("", rest)
  {
    assert ([""] + rest)[1..] == rest;
  }

  /** The fallback role does not depend on the order of iteration exactly when no role name is empty, or it is the only one. */
  lemma OrderIndependentIff(keys: set<string>)
    ensures FallbackStable(keys) <==> "" !in keys || keys == {""}
  {
    hide Fallback, IsOrder;
    if "" !in keys {
      NamedIsStable(keys);
    } else if keys == {""} {
      EmptyAloneIsStable();
    } else {
      var rest := SomeOrder(keys - {""});
      EmptyAmongOthers(keys, rest);
    }
  }

  // ------------------------------------------------------------ primaryRole

  predicate HasSuffix(s: string, suffix: string) {
    |suffix| <= |s| && s[|s| - |suffix|..] == suffix
  }

  predicate Holds(roles: map<string, bool>, role: string) {
    role in roles && roles[role]
  }

  /** Some role of the user ends in the course role. */
  predicate HasCourseRole(keys: set<string>, courseRole: string) {
    exists k :: k in keys && HasSuffix(k, courseRole)
  }

  /** primaryRole, where the last loop visits the roles in the given order. */
  function PrimaryIn(roles: map<string, bool>, order: seq<string>): string {
    if Holds(roles, PROMPT_ADMIN) then PROMPT_ADMIN
    else if Holds(roles, PROMPT_LECTURER) then PROMPT_LECTURER
    else if HasCourseRole(roles.Keys, COURSE_LECTURER) then COURSE_LECTURER
    else if HasCourseRole(roles.Keys, COURSE_EDITOR) then COURSE_EDITOR
    else if HasCourseRole(roles.Keys, COURSE_STUDENT) then COURSE_STUDENT
    else Fallback("", order)
  }

  /** A known role settles the answer. */
  predicate Decided(roles: map<string, bool>) {
    || Holds(roles, PROMPT_ADMIN)
    || Holds(roles, PROMPT_LECTURER)
    || HasCourseRole(roles.Keys, COURSE_LECTURER)
    || HasCourseRole(roles.Keys, COURSE_EDITOR)
    || HasCourseRole(roles.Keys, COURSE_STUDENT)
  }

  /** Some role of the user is a course's role of this kind: a course prefix, possibly empty, and the kind. */
  ghost predicate HasKind(keys: set<string>, kind: string) {
    exists prefix: string :: Prefixed(prefix, kind) in keys
  }

  function Prefixed(prefix: string, kind: string): string {
    prefix + kind
  }

  lemma HasKindIff(keys: set<string>, kind: string)
    ensures HasCourseRole(keys, kind) <==> HasKind(keys, kind)
  {
    if k :| k in keys && HasSuffix(k, kind) {
      var prefix := k[..|k| - |kind|];
      assert k == Prefixed(prefix, kind);
    }
    if prefix: string :| Prefixed(prefix, kind) in keys {
      assert HasSuffix(Prefixed(prefix, kind), kind);
    }
  }

  /** The role an entry is filed under: the platform roles first, then the kinds of course roles, then the least role. */
  ghost predicate IsPrimary(r: string, roles: map<string, bool>) {
    if "PROMPT_Admin" in roles && roles["PROMPT_Admin"] then r == "PROMPT_Admin"
    else if "PROMPT_Lecturer" in roles && roles["PROMPT_Lecturer"] then r == "PROMPT_Lecturer"
    else if HasKind(roles.Keys, "Lecturer") then r == "Lecturer"
    else if HasKind(roles.Keys, "Editor") then r == "Editor"
    else if HasKind(roles.Keys, "Student") then r == "Student"
    else if roles == map[] then r == ""
    else IsLeast(r, roles.Keys)
  }

  /** Where a known role settles it, or no role name is empty, the answer is the primary role. */
  lemma PrimaryInIsPrimary(roles: map<string, bool>, order: seq<string>)
    requires IsOrder(order, roles.Keys) && (Decided(roles) || "" !in roles)
    ensures IsPrimary(PrimaryIn(roles, order), roles)
  {
    HasKindIff(roles.Keys, COURSE_LECTURER);
    HasKindIff(roles.Keys, COURSE_EDITOR);
    HasKindIff(roles.Keys, COURSE_STUDENT);
    hide HasCourseRole, HasKind, IsLeast, IsOrder, Fallback;
    if !Decided(roles) {
      FallbackOfNamed(order, roles.Keys);
      assert roles == map[] <==> roles.Keys == {};
    }
  }

  method AnyHasSuffix(keys: set<string>, courseRole: string) returns (found: bool)
    ensures found <==> HasCourseRole(keys, courseRole)
  {
    var rest := keys;
    while rest != {}
      invariant rest <= keys
      invariant forall k | k in keys - rest :: !HasSuffix(k, courseRole)
      decreases |rest|
    {
      var k :| k in rest;
      if HasSuffix(k, courseRole) {
        return true;
      }
      rest := rest - {k};
    }
    return false;
  }

  /** The loop over the roles in whatever order the map yields them. */
  method LeastRole(keys: set<string>) returns (fallback: string, ghost order: seq<string>)
    ensures IsOrder(order, keys) && fallback == Fallback("", order)
    ensures "" !in keys ==> if keys == {} then fallback == "" else IsLeast(fallback, keys)
  {
    fallback, order := "", [];
    var rest := keys;
    while rest != {}
      invariant rest <= keys
      invariant IsOrder(order, keys - rest)
      invariant fallback == Fallback("", order)
      decreases |rest|
    {
      var role :| role in rest;
      FallbackAppend("", order, role);
      if fallback == "" || Less(role, fallback) {
        fallback := role;
      }
      order := order + [role];
      rest := rest - {role};
    }
    assert keys - {} == keys;
    if "" !in keys {
      FallbackOfNamed(order, keys);
    }
  }

  method PrimaryRole(roles: map<string, bool>) returns (r: string, ghost order: seq<string>)
    ensures IsOrder(order, roles.Keys)
    ensures r == PrimaryIn(roles, order)
    ensures Decided(roles) || "" !in roles ==> IsPrimary(r, roles)
  {
    order := SomeOrder(roles.Keys);
    forall o | IsOrder(o, roles.Keys) && (Decided(roles) || "" !in roles)
      ensures IsPrimary(PrimaryIn(roles, o), roles)
    {
      PrimaryInIsPrimary(roles, o);
    }
    hide Fallback, IsOrder, HasCourseRole, IsPrimary;
    if Holds(roles, PROMPT_ADMIN) {
      return PROMPT_ADMIN, order;
    }
    if Holds(roles, PROMPT_LECTURER) {
      return PROMPT_LECTURER, order;
    }
    for i := 0 to |COURSE_ROLES|
      invariant IsOrder(order, roles.Keys)
      invariant forall j | 0 <= j < i :: !HasCourseRole(roles.Keys, COURSE_ROLES[j])
    {
      assert i == 0 ==> COURSE_ROLES[i] == COURSE_LECTURER;
      assert i > 0 ==> !HasCourseRole(roles.Keys, COURSE_ROLES[0]);
      assert i > 1 ==> !HasCourseRole(roles.Keys, COURSE_ROLES[1]);
      var found := AnyHasSuffix(roles.Keys, COURSE_ROLES[i]);
      if found {
        return COURSE_ROLES[i], order;
      }
    }
    assert COURSE_ROLES[0] == COURSE_LECTURER && COURSE_ROLES[1] == COURSE_EDITOR && COURSE_ROLES[2] == COURSE_STUDENT;
    r, order := LeastRole(roles.Keys);
  }

  /** There is one such role, so entries of one user are always filed alike. */
  lemma PrimaryIsUnique(r: string, t: string, roles: map<string, bool>)
    requires IsPrimary(r, roles) && IsPrimary(t, roles)
    ensures r == t
  {
    if IsLeast(r, roles.Keys) && IsLeast(t, roles.Keys) {
      LeastIsUnique(r, t, roles.Keys);
    }
  }

  /** Every order of iteration gives the same primary role. */
  ghost predicate PrimaryStable(roles: map<string, bool>) {
    forall o, p | IsOrder(o, roles.Keys) && IsOrder(p, roles.Keys) :: PrimaryIn(roles, o) == PrimaryIn(roles, p)
  }

  /**
   * The primary role does not depend on the order of iteration exactly when a known role settles it,
   * no role name is empty, or the empty one is the only one.
   */
  lemma PrimaryOrderIndependentIff(roles: map<string, bool>)
    ensures PrimaryStable(roles) <==> Decided(roles) || "" !in roles || roles.Keys == {""}
  {
    hide Fallback, IsOrder, HasCourseRole, Holds;
    OrderIndependentIff(roles.Keys);
    if Decided(roles) {
      assert PrimaryStable(roles);
    } else {
      forall o
        ensures PrimaryIn(roles, o) == Fallback("", o)
      {
      }
      assert PrimaryStable(roles) <==> FallbackStable(roles.Keys);
    }
  }

  /** A user with an unknown role and one without a name is filed under either, as the map happens to be iterated. */
  lemma PrimaryDependsOnOrder()
    ensures var roles := map["" := true, "guest" := true];
            && IsOrder(["", "guest"], roles.Keys) && PrimaryIn(roles, ["", "guest"]) == "guest"
            && IsOrder(["guest", ""], roles.Keys) && PrimaryIn(roles, ["guest", ""]) == ""
  {
    var roles := map["" := true, "guest" := true];
    assert roles.Keys == {"", "guest"};
    assert "guest"[|"guest"| - 7 + 2..] == "guest";
    assert !Decided(roles) by {
      forall k | k in roles
        ensures !HasSuffix(k, COURSE_LECTURER) && !HasSuffix(k, COURSE_EDITOR) && !HasSuffix(k, COURSE_STUDENT)
      {
        assert |k| <= 5;
      }
    }
    assert ["", "guest"][1..] == ["guest"] && ["guest", ""][1..] == [""];
    assert Fallback("", ["", "guest"]) == Fallback("", ["guest"]) == "guest" by {
      assert ["guest"][1..] == [];
    }
    assert Fallback("guest", [""]) == "" by {
      assert [""][1..] == [];
    }
  }

  // -------------------------------------------------- defaultActorExtractor

  predicate Ascending(s: seq<string>) {
    forall i, j | 0 <= i < j < |s| :: Less(s[i], s[j])
  }

  function Insert(role: string, sorted: seq<string>): seq<string> {
    if sorted == [] || Less(role, sorted[0]) then [role] + sorted else [sorted[0]] + Insert(role, sorted[1..])
  }

  /** sort.Strings. */
  function SortStrings(s: seq<string>): seq<string> {
    if s == [] then [] else Insert(s[0], SortStrings(s[1..]))
  }

  lemma {:induction false} InsertSorts(role: string, sorted: seq<string>)
    requires Ascending(sorted) && role !in sorted
    ensures Ascending(Insert(role, sorted))
    ensures forall x :: x in Insert(role, sorted) <==> x == role || x in sorted
  {
    if sorted != [] {
      LessIsTotal(role, sorted[0]);
      if Less(role, sorted[0]) {
        forall j | 0 <= j < |sorted|
          ensures Less(role, sorted[j])
        {
          if j > 0 {
            LessIsTransitive(role, sorted[0], sorted[j]);
          }
        }
      } else {
        InsertSorts(role, sorted[1..]);
        var tail := Insert(role, sorted[1..]);
        forall j | 0 <= j < |tail|
          ensures Less(sorted[0], tail[j])
        {
          assert tail[j] in tail;
          assert tail[j] == role || exists i | 1 <= i < |sorted| :: sorted[i] == tail[j];
        }
      }
    }
  }

  /** The role names, each once and in ascending order, whatever order the map yields them in. */
  lemma {:induction false} RolesAreSorted(order: seq<string>, keys: set<string>)
    requires IsOrder(order, keys)
    ensures Ascending(SortStrings(order))
    ensures forall x :: x in SortStrings(order) <==> x in keys
  {
    if order != [] {
      assert order[0] in order;
      assert order == [order[0]] + order[1..];
      RolesAreSorted(order[1..], keys - {order[0]});
      InsertSorts(order[0], SortStrings(order[1..]));
    }
  }

  lemma {:induction false} AscendingIsUnique(s: seq<string>, t: seq<string>)
    requires Ascending(s) && Ascending(t)
    requires forall x :: x in s <==> x in t
    ensures s == t
  {
    if t != [] {
      assert t[0] in t;
      assert s != [];
    }
    if s != [] {
      assert s[0] in s && s[0] in t && t[0] in t && t[0] in s;
      HeadIsLeast(s, t[0]);
      HeadIsLeast(t, s[0]);
      LessIsTotal(s[0], t[0]);
      LessIsTotal(s[0], s[0]);
      forall x
        ensures x in s[1..] <==> x in s && x != s[0]
        ensures x in t[1..] <==> x in t && x != t[0]
      {
        LessIsTotal(x, x);
        assert s == [s[0]] + s[1..] && t == [t[0]] + t[1..];
      }
      AscendingIsUnique(s[1..], t[1..]);
      assert s == [s[0]] + s[1..] && t == [t[0]] + t[1..];
    }
  }

  lemma HeadIsLeast(s: seq<string>, x: string)
    requires Ascending(s) && x in s
    ensures x == s[0] || Less(s[0], x)
  {
    var i :| 0 <= i < |s| && s[i] == x;
  }

  /** The actor of a token user; the two loops over the roles visit them in `keys` and in `order`. */
  function DefaultActor(user: Option<TokenUser>, keys: seq<string>, order: seq<string>): Option<Actor> {
    if user.None? || user.value.id == "" then None
    else
      var u := user.value;
      Some(Actor(u.id, Login.TrimSpace(u.firstName + " " + u.lastName), u.email, PrimaryIn(u.roles, order), SortStrings(keys)))
  }

  method DefaultActorExtractor(user: Option<TokenUser>) returns (actor: Option<Actor>, ghost keys: seq<string>, ghost order: seq<string>)
    ensures user.Some? ==> IsOrder(keys, user.value.roles.Keys) && IsOrder(order, user.value.roles.Keys)
    ensures actor == DefaultActor(user, keys, order)
    ensures actor.None? <==> user.None? || user.value.id == ""
    ensures actor.Some? ==>
              && actor.value.id == user.value.id && actor.value.email == user.value.email
              && actor.value.name == Login.TrimSpace(user.value.firstName + " " + user.value.lastName)
              && Ascending(actor.value.roles) && (forall x :: x in actor.value.roles <==> x in user.value.roles)
              && ("" !in user.value.roles ==> IsPrimary(actor.value.role, user.value.roles))
  {
    hide PrimaryIn, SortStrings, Ascending, IsPrimary;
    keys, order := [], [];
    if user.None? {
      return None, keys, order;
    }
    var u := user.value;
    if u.id == "" {
      keys := SomeOrder(u.roles.Keys);
      return None, keys, keys;
    }
    var roles, rest := [], u.roles.Keys;
    while rest != {}
      invariant rest <= u.roles.Keys
      invariant IsOrder(roles, u.roles.Keys - rest)
      decreases |rest|
    {
      var role :| role in rest;
      roles := roles + [role];
      rest := rest - {role};
    }
    assert u.roles.Keys - {} == u.roles.Keys;
    var primary;
    primary, order := PrimaryRole(u.roles);
    keys := roles;
    RolesAreSorted(roles, u.roles.Keys);
    actor := Some(Actor(u.id, Login.TrimSpace(u.firstName + " " + u.lastName), u.email, primary, SortStrings(roles)));
  }

  /** Two looks at the same token user give the same actor, for every order of iteration, exactly when the primary role is stable. */
  lemma ActorIsStableIff(user: TokenUser)
    ensures (forall k, l, o, p | IsOrder(k, user.roles.Keys) && IsOrder(l, user.roles.Keys) && IsOrder(o, user.roles.Keys) && IsOrder(p, user.roles.Keys) ::
              DefaultActor(Some(user), k, o) == DefaultActor(Some(user), l, p))
            <==> user.id == "" || Decided(user.roles) || "" !in user.roles || user.roles.Keys == {""}
  {
    hide PrimaryIn, SortStrings, IsOrder, Decided;
    var keys := user.roles.Keys;
    PrimaryOrderIndependentIff(user.roles);
    forall k, l | IsOrder(k, keys) && IsOrder(l, keys)
      ensures SortStrings(k) == SortStrings(l)
    {
      RolesAreSorted(k, keys);
      RolesAreSorted(l, keys);
      AscendingIsUnique(SortStrings(k), SortStrings(l));
    }
    forall k, l, o, p | IsOrder(k, keys) && IsOrder(l, keys) && IsOrder(o, keys) && IsOrder(p, keys)
      ensures DefaultActor(Some(user), k, o) == DefaultActor(Some(user), l, p) <==> user.id == "" || PrimaryIn(user.roles, o) == PrimaryIn(user.roles, p)
    {
    }
  }
}
