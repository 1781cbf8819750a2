/**
 * The canonical tutor table of tutorscope/resolver.go, the writes that keep its
 * indexes, and the lookup ResolveTutorTeam runs on it.
 */
module TutorTable {
  import opened Wrappers
  import opened Login
  import opened RequestContext

  /** A row; a NULL login is None. */
  datatype Row = Row(phase: Uuid, participation: Uuid, login: Option<string>, team: Uuid)

  /** Rows in no particular order. */
  type Table = seq<Row>

  datatype TutorReply = Team(team: Uuid) | NotATutor | NoRows | LookupFailed

  // ---------------------------------------------------------------- the query

  predicate Selected(row: Row, phase: Uuid, param: Option<string>) {
    row.phase == phase && param.Some? && row.login == param
  }

  /** The teams of `SELECT team_id ... WHERE course_phase_id = $1 AND university_login = $2`; NULL matches no row. */
  function SelectTeams(table: Table, phase: Uuid, param: Option<string>): seq<Uuid> {
    if table == [] then []
    else (if Selected(table[0], phase, param) then [table[0].team] else []) + SelectTeams(table[1..], phase, param)
  }

  predicate PhaseHasTutors(table: Table, phase: Uuid) {
    exists i | 0 <= i < |table| :: table[i].phase == phase
  }

  /** A scalar subquery fails on more than one row. */
  function ResolveTutorTeam(lower: LowerCasing, table: Table, phase: Uuid, universityLogin: string): TutorReply {
    var login := Normalize(lower, universityLogin);
    var teams := SelectTeams(table, phase, if login != "" then Some(login) else None);
    if |teams| > 1 then LookupFailed
    else if |teams| == 1 then Team(teams[0])
    else if PhaseHasTutors(table, phase) then NotATutor
    else NoRows
  }

  // ----------------------------------------------------------- the table's life

  /** How a service stores a login: normalized, NULL instead of the empty string. */
  function StoredLogin(lower: LowerCasing, universityLogin: string): Option<string> {
    var login := Normalize(lower, universityLogin);
    if login == "" then None else Some(login)
  }

  datatype Write =
    | Insert(phase: Uuid, participation: Uuid, universityLogin: string, team: Uuid)
    | ChangeLogin(phase: Uuid, participation: Uuid, universityLogin: string)
    | ChangeTeam(phase: Uuid, participation: Uuid, team: Uuid)
    | Delete(phase: Uuid, participation: Uuid)

  /** Two rows clash on the primary key or on the partial unique index. */
  predicate Clash(a: Row, b: Row) {
    a.phase == b.phase && (a.participation == b.participation || (a.login.Some? && a.login == b.login))
  }

  /** No two rows clash. */
  ghost predicate Unique(table: Table) {
    forall i, j | 0 <= i < j < |table| :: !Clash(table[i], table[j])
  }

  predicate LoginStored(lower: LowerCasing, row: Row) {
    row.login.Some? ==> row.login.value != "" && Normalize(lower, row.login.value) == row.login.value
  }

  ghost predicate Valid(lower: LowerCasing, table: Table) {
    Unique(table) && forall i | 0 <= i < |table| :: LoginStored(lower, table[i])
  }

  function Changed(lower: LowerCasing, row: Row, w: Write): Row {
    if (w.ChangeLogin? || w.ChangeTeam?) && row.phase == w.phase && row.participation == w.participation then
      if w.ChangeLogin? then row.(login := StoredLogin(lower, w.universityLogin)) else row.(team := w.team)
    else row
  }

  function ChangeAll(lower: LowerCasing, table: Table, w: Write): Table {
    if table == [] then [] else [Changed(lower, table[0], w)] + ChangeAll(lower, table[1..], w)
  }

  function Remove(table: Table, phase: Uuid, participation: Uuid): Table {
    if table == [] then []
    else (if table[0].phase == phase && table[0].participation == participation then [] else [table[0]])
         + Remove(table[1..], phase, participation)
  }

  /** One statement; where it would violate an index it fails and leaves the table as it was. */
  ghost function Apply(lower: LowerCasing, table: Table, w: Write): Table {
    match w
    case Insert(phase, participation, universityLogin, team) =>
      var next := table + [Row(phase, participation, StoredLogin(lower, universityLogin), team)];
      if Unique(next) then next else table
    case ChangeLogin(_, _, _) =>
      var next := ChangeAll(lower, table, w);
      if Unique(next) then next else table
    case ChangeTeam(_, _, _) => ChangeAll(lower, table, w)
    case Delete(phase, participation) => Remove(table, phase, participation)
  }

  ghost function ApplyAll(lower: LowerCasing, table: Table, writes: seq<Write>): Table
    decreases |writes|
  {
    if writes == [] then table else ApplyAll(lower, Apply(lower, table, writes[0]), writes[1..])
  }

  lemma StoredLoginIsStored(lower: LowerCasing, universityLogin: string, row: Row)
    requires row.login == StoredLogin(lower, universityLogin)
    ensures LoginStored(lower, row)
  {
    NormalizeIdempotent(lower, universityLogin);
  }

  lemma {:induction false} ChangeAllAt(lower: LowerCasing, table: Table, w: Write)
    ensures |ChangeAll(lower, table, w)| == |table|
    ensures forall i | 0 <= i < |table| :: ChangeAll(lower, table, w)[i] == Changed(lower, table[i], w)
  {
    if table != [] {
      ChangeAllAt(lower, table[1..], w);
    }
  }

  lemma {:induction false} RemoveKeeps(table: Table, phase: Uuid, participation: Uuid)
    ensures forall row | row in Remove(table, phase, participation) :: row in table
    ensures Unique(table) ==> Unique(Remove(table, phase, participation))
  {
    if table != [] {
      RemoveKeeps(table[1..], phase, participation);
      var rest := Remove(table[1..], phase, participation);
      if Unique(table) {
        forall i | 0 <= i < |rest|
          ensures !Clash(table[0], rest[i])
        {
          assert rest[i] in table[1..];
          var j :| 0 <= j < |table[1..]| && table[1..][j] == rest[i];
          assert table[j + 1] == rest[i];
        }
      }
    }
  }

  lemma InsertKeepsValid(lower: LowerCasing, table: Table, w: Write)
    requires Valid(lower, table) && w.Insert?
    ensures Valid(lower, Apply(lower, table, w))
  {
    var row := Row(w.phase, w.participation, StoredLogin(lower, w.universityLogin), w.team);
    StoredLoginIsStored(lower, w.universityLogin, row);
    hide Unique, LoginStored, StoredLogin;
    assert forall i | 0 <= i < |table + [row]| :: (table + [row])[i] == if i < |table| then table[i] else row;
  }

  lemma ChangeLoginKeepsValid(lower: LowerCasing, table: Table, w: Write)
    requires Valid(lower, table) && w.ChangeLogin?
    ensures Valid(lower, Apply(lower, table, w))
  {
    ChangeAllAt(lower, table, w);
    hide Unique, LoginStored, StoredLogin, ChangeAll;
    forall i | 0 <= i < |table|
      ensures LoginStored(lower, Changed(lower, table[i], w))
    {
      StoredLoginIsStored(lower, w.universityLogin, table[i].(login := StoredLogin(lower, w.universityLogin)));
    }
  }

  lemma ChangeTeamKeepsValid(lower: LowerCasing, table: Table, w: Write)
    requires Valid(lower, table) && w.ChangeTeam?
    ensures Valid(lower, Apply(lower, table, w))
  {
    ChangeAllAt(lower, table, w);
    hide Normalize, ChangeAll;
    var next := ChangeAll(lower, table, w);
    assert forall i, j | 0 <= i < j < |table| :: Clash(next[i], next[j]) == Clash(table[i], table[j]);
  }

  lemma DeleteKeepsValid(lower: LowerCasing, table: Table, w: Write)
    requires Valid(lower, table) && w.Delete?
    ensures Valid(lower, Apply(lower, table, w))
  {
    RemoveKeeps(table, w.phase, w.participation);
    hide Unique, LoginStored, Remove;
    var rest := Remove(table, w.phase, w.participation);
    forall i | 0 <= i < |rest|
      ensures LoginStored(lower, rest[i])
    {
      assert rest[i] in table;
      var j :| 0 <= j < |table| && table[j] == rest[i];
    }
  }

  lemma ApplyKeepsValid(lower: LowerCasing, table: Table, w: Write)
    requires Valid(lower, table)
    ensures Valid(lower, Apply(lower, table, w))
  {
    hide Valid, Apply;
    match w {
      case Insert(_, _, _, _) => InsertKeepsValid(lower, table, w);
      case ChangeLogin(_, _, _) => ChangeLoginKeepsValid(lower, table, w);
      case ChangeTeam(_, _, _) => ChangeTeamKeepsValid(lower, table, w);
      case Delete(_, _) => DeleteKeepsValid(lower, table, w);
    }
  }

  /** Every table a run of such writes can reach has its indexes intact and its logins in stored form. */
  lemma {:induction false} ReachableIsValid(lower: LowerCasing, table: Table, writes: seq<Write>)
    requires Valid(lower, table)
    ensures Valid(lower, ApplyAll(lower, table, writes))
    decreases |writes|
  {
    if writes != [] {
      ApplyKeepsValid(lower, table, writes[0]);
      ReachableIsValid(lower, Apply(lower, table, writes[0]), writes[1..]);
    }
  }

  // ------------------------------------------------------------ the refinement

  /** The rows of a phase that hold a login. */
  ghost predicate Holds(table: Table, i: nat, phase: Uuid, login: string) {
    i < |table| && table[i].phase == phase && table[i].login == Some(login)
  }

  lemma {:induction false} SelectTeamsHolds(table: Table, phase: Uuid, param: Option<string>)
    ensures SelectTeams(table, phase, param) == [] <==> forall i | 0 <= i < |table| :: !Selected(table[i], phase, param)
    ensures forall i | 0 <= i < |table| && Selected(table[i], phase, param) :: table[i].team in SelectTeams(table, phase, param)
  {
    if table != [] {
      SelectTeamsHolds(table[1..], phase, param);
      assert forall i | 1 <= i < |table| :: table[i] == table[1..][i - 1];
      assert forall i | 0 <= i < |table[1..]| :: table[1..][i] == table[i + 1];
    }
  }

  lemma {:induction false} SelectTeamsCount(table: Table, phase: Uuid, param: Option<string>)
    ensures |SelectTeams(table, phase, param)| > 1 <==>
            exists i, j | 0 <= i < j < |table| :: Selected(table[i], phase, param) && Selected(table[j], phase, param)
  {
    hide Selected;
    if table != [] {
      var rest := table[1..];
      SelectTeamsCount(rest, phase, param);
      SelectTeamsHolds(rest, phase, param);
      assert forall i | 1 <= i < |table| :: table[i] == rest[i - 1];
      if i, j :| 0 <= i < j < |rest| && Selected(rest[i], phase, param) && Selected(rest[j], phase, param) {
        assert Selected(table[i + 1], phase, param) && Selected(table[j + 1], phase, param);
      }
      if j :| 0 <= j < |rest| && Selected(rest[j], phase, param) && Selected(table[0], phase, param) {
        assert Selected(table[0], phase, param) && Selected(table[j + 1], phase, param);
      }
    }
  }

  /** On any table: the lookup fails exactly when the phase stores the normalized login twice. */
  lemma LookupFailsIff(lower: LowerCasing, table: Table, phase: Uuid, universityLogin: string)
    ensures ResolveTutorTeam(lower, table, phase, universityLogin) == LookupFailed <==>
            && Normalize(lower, universityLogin) != ""
            && exists i: nat, j: nat :: i < j
                 && Holds(table, i, phase, Normalize(lower, universityLogin)) && Holds(table, j, phase, Normalize(lower, universityLogin))
  {
    var login := Normalize(lower, universityLogin);
    hide Normalize;
    var param := if login != "" then Some(login) else None;
    SelectTeamsCount(table, phase, param);
    if i: nat, j: nat :| i < j && Holds(table, i, phase, login) && Holds(table, j, phase, login) && login != "" {
      assert Selected(table[i], phase, param) && Selected(table[j], phase, param);
    }
    if i, j :| 0 <= i < j < |table| && Selected(table[i], phase, param) && Selected(table[j], phase, param) {
      assert Holds(table, i, phase, login) && Holds(table, j, phase, login);
    }
  }

  /** On any table: an empty login is nobody's, even where a row stores the empty string. */
  lemma EmptyLoginIsNoTutor(lower: LowerCasing, table: Table, phase: Uuid, universityLogin: string)
    requires Normalize(lower, universityLogin) == ""
    ensures ResolveTutorTeam(lower, table, phase, universityLogin) == if PhaseHasTutors(table, phase) then NotATutor else NoRows
  {
    hide Normalize;
    SelectTeamsHolds(table, phase, None);
  }

  /**
   * On every reachable table the lookup returns the team of the one row of the phase that holds the
   * normalized login, and otherwise tells a phase with tutors from one without; it never fails.
   */
  lemma LookupRefinement(lower: LowerCasing, table: Table, phase: Uuid, universityLogin: string)
    requires Valid(lower, table)
    ensures var reply := ResolveTutorTeam(lower, table, phase, universityLogin);
            && (forall team :: reply == Team(team) <==>
                  exists i: nat :: Holds(table, i, phase, Normalize(lower, universityLogin)) && table[i].team == team)
            && (reply == NoRows <==> forall row | row in table :: row.phase != phase)
            && (reply == NotATutor <==>
                  && (exists row :: row in table && row.phase == phase)
                  && forall row | row in table && row.phase == phase :: row.login != Some(Normalize(lower, universityLogin)))
            && reply != LookupFailed
  {
    var login := Normalize(lower, universityLogin);
    hide Normalize;
    var param := if login != "" then Some(login) else None;
    SelectTeamsCount(table, phase, param);
    SelectTeamsHolds(table, phase, param);
    var teams := SelectTeams(table, phase, param);
    assert |teams| <= 1 by {
      forall i, j | 0 <= i < j < |table| && Selected(table[i], phase, param)
        ensures !Selected(table[j], phase, param)
      {
        assert !Clash(table[i], table[j]);
      }
    }
    forall i: nat | Holds(table, i, phase, login)
      ensures Selected(table[i], phase, param) && teams == [table[i].team]
    {
      assert LoginStored(lower, table[i]);
      assert table[i].team in teams;
    }
    assert teams == [] ==> forall i: nat :: !Holds(table, i, phase, login);
    if teams != [] {
      var i :| 0 <= i < |table| && Selected(table[i], phase, param);
      assert Holds(table, i, phase, login);
    }
  }

  /** The second normalization, after the middleware's own, changes nothing. */
  lemma NormalizedTwice(lower: LowerCasing, table: Table, phase: Uuid, universityLogin: string)
    ensures ResolveTutorTeam(lower, table, phase, Normalize(lower, universityLogin)) == ResolveTutorTeam(lower, table, phase, universityLogin)
  {
    NormalizeIdempotent(lower, universityLogin);
  }

  // ------------------------------------------------------ what a write does

  /** An insert goes through exactly when neither its key nor its login is taken in the phase; then it adds its row, and else it changes nothing. */
  lemma InsertEffect(lower: LowerCasing, table: Table, phase: Uuid, participation: Uuid, universityLogin: string, team: Uuid)
    requires Unique(table)
    ensures
      var login := Normalize(lower, universityLogin);
      var free := forall row | row in table && row.phase == phase ::
                    row.participation != participation && (login == "" || row.login != Some(login));
      Apply(lower, table, Insert(phase, participation, universityLogin, team)) ==
      if free then table + [Row(phase, participation, if login == "" then None else Some(login), team)] else table
  {
    hide Normalize;
    var row := Row(phase, participation, StoredLogin(lower, universityLogin), team);
    UniqueWith(table, row);
    assert forall i | 0 <= i < |table| :: table[i] in table;
  }

  lemma UniqueWith(table: Table, row: Row)
    requires Unique(table)
    ensures Unique(table + [row]) <==> forall i | 0 <= i < |table| :: !Clash(table[i], row)
  {
    var next := table + [row];
    assert forall i | 0 <= i < |table| :: next[i] == table[i];
    assert next[|table|] == row;
    hide Clash;
    if Unique(next) {
      assert forall i | 0 <= i < |table| :: !Clash(next[i], next[|table|]);
    }
  }

  /** A new team reaches exactly the row of its key. */
  lemma ChangeTeamEffect(lower: LowerCasing, table: Table, phase: Uuid, participation: Uuid, team: Uuid)
    ensures
      var next := Apply(lower, table, ChangeTeam(phase, participation, team));
      && |next| == |table|
      && forall i | 0 <= i < |table| ::
           next[i] == if table[i].phase == phase && table[i].participation == participation
                      then Row(phase, participation, table[i].login, team) else table[i]
  {
    ChangeAllAt(lower, table, ChangeTeam(phase, participation, team));
    hide ChangeAll, Normalize;
  }

  /** A new login reaches exactly the row of its key, unless another row of the phase holds it; then nothing changes. */
  lemma ChangeLoginEffect(lower: LowerCasing, table: Table, phase: Uuid, participation: Uuid, universityLogin: string)
    requires Unique(table)
    ensures
      var login := Normalize(lower, universityLogin);
      var next := Apply(lower, table, ChangeLogin(phase, participation, universityLogin));
      var taken := login != "" && (exists i | 0 <= i < |table| :: table[i].phase == phase && table[i].participation == participation)
                   && (exists i | 0 <= i < |table| :: table[i].phase == phase && table[i].participation != participation && table[i].login == Some(login));
      if taken then next == table
      else
        && |next| == |table|
        && forall i | 0 <= i < |table| ::
             next[i] == if table[i].phase == phase && table[i].participation == participation
                        then Row(phase, participation, if login == "" then None else Some(login), table[i].team) else table[i]
  {
    var w := ChangeLogin(phase, participation, universityLogin);
    ChangeAllAt(lower, table, w);
    hide Normalize, ChangeAll;
    var login, next := Normalize(lower, universityLogin), ChangeAll(lower, table, w);
    if i, j :| 0 <= i < |table| && 0 <= j < |table| && login != ""
               && table[i].phase == phase && table[i].participation == participation
               && table[j].phase == phase && table[j].participation != participation && table[j].login == Some(login) {
      assert Clash(next[i], next[j]) && Clash(next[j], next[i]);
      assert !Unique(next);
    } else {
      forall i, j | 0 <= i < j < |table|
        ensures !Clash(next[i], next[j])
      {
        assert !Clash(table[i], table[j]);
      }
    }
  }

  /** A delete takes out exactly the row of its key, and leaves every other row as often as it was. */
  lemma {:induction false} DeleteEffect(lower: LowerCasing, table: Table, phase: Uuid, participation: Uuid)
    ensures forall row :: multiset(Apply(lower, table, Delete(phase, participation)))[row] ==
                          if row.phase == phase && row.participation == participation then 0 else multiset(table)[row]
  {
    if table != [] {
      DeleteEffect(lower, table[1..], phase, participation);
      assert table == [table[0]] + table[1..];
      hide Normalize;
    }
  }

  /** Once a tutor is stored under a login, that login resolves to the tutor's team. */
  lemma InsertedTutorResolves(lower: LowerCasing, table: Table, phase: Uuid, participation: Uuid, universityLogin: string, team: Uuid)
    requires Valid(lower, table) && Normalize(lower, universityLogin) != ""
    requires forall row | row in table && row.phase == phase ::
               row.participation != participation && row.login != Some(Normalize(lower, universityLogin))
    ensures var next := Apply(lower, table, Insert(phase, participation, universityLogin, team));
            ResolveTutorTeam(lower, next, phase, universityLogin) == Team(team)
  {
    var w := Insert(phase, participation, universityLogin, team);
    InsertEffect(lower, table, phase, participation, universityLogin, team);
    ApplyKeepsValid(lower, table, w);
    hide Normalize, ResolveTutorTeam, Valid;
    var next := Apply(lower, table, w);
    assert next[|table|].team == team && Holds(next, |table|, phase, Normalize(lower, universityLogin));
    LookupRefinement(lower, next, phase, universityLogin);
  }
}
