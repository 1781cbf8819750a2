/**
 * Runs of guarded statements over a phase's team allocations, as the contract in
 * tutorscope/authorize.go writes them: every statement is one atomic step.
 */
module AllocationRuns {
  import opened Wrappers
  import opened RequestContext
  import opened TutorAccess

  /** A participation in a phase. */
  datatype Key = Key(participation: Uuid, phase: Uuid)

  type Allocations = map<Key, Uuid>

  datatype Kind = Update | Upsert

  /** One write attempt of a handler: the caller's access, the statement, and the team it moves the participant to. */
  datatype Attempt = Attempt(access: Access, kind: Kind, key: Key, target: Uuid)

  /** `team_id = COALESCE(guard, team_id)`. */
  predicate GuardMatches(guard: Option<Uuid>, team: Uuid) {
    team == match guard
            case None => team
            case Some(expected) => expected
  }

  /** The statement alone, with the guard folded into its WHERE clause. */
  function Execute(table: Allocations, kind: Kind, key: Key, target: Uuid, guard: Option<Uuid>): Allocations {
    if key in table then
      if GuardMatches(guard, table[key]) then table[key := target] else table
    else if kind == Upsert then table[key := target]
    else table
  }

  /** The documented use: check the target with AllowsTeam, then run the statement under Guard. */
  function Apply(table: Allocations, a: Attempt): Allocations {
    if !a.access.AllowsTeam(a.target) then table
    else Execute(table, a.kind, a.key, a.target, a.access.Guard())
  }

  /** Any interleaving of the callers' attempts. */
  function Run(table: Allocations, attempts: seq<Attempt>): Allocations
    decreases |attempts|
  {
    if attempts == [] then table else Run(Apply(table, attempts[0]), attempts[1..])
  }

  function At(table: Allocations, key: Key): Option<Uuid> {
    if key in table then Some(table[key]) else None
  }

  /** What one attempt may do to one row: nothing, or move it to the target within the caller's scope. */
  ghost predicate InScope(before: Option<Uuid>, after: Option<Uuid>, a: Attempt, key: Key) {
    || after == before
    || (&& a.key == key && after == Some(a.target) && a.access.AllowsTeam(a.target)
        && (if before.Some? then a.access.AllowsTeam(before.value) else a.kind == Upsert))
  }

  /** The guard lets through the teams the access allows; without a grant it still lets the nil team through. */
  lemma GuardMatchesScope(a: Access, team: Uuid)
    ensures GuardMatches(a.Guard(), team) <==> a.AllowsTeam(team) || (!a.granted && team == NIL_UUID)
  {
  }

  /** Attempts without a grant change nothing, whatever teams the rows carry. */
  lemma UngrantedChangesNothing(table: Allocations, a: Attempt)
    requires !a.access.granted
    ensures Apply(table, a) == table
  {
  }

  lemma StepInScope(table: Allocations, a: Attempt, key: Key)
    ensures InScope(At(table, key), At(Apply(table, a), key), a, key)
  {
    if !a.access.granted {
      UngrantedChangesNothing(table, a);
    } else if a.key in table {
      GuardMatchesScope(a.access, table[a.key]);
    }
    hide Access.Guard, Access.AllowsTeam, GuardMatches;
  }

  /** The attempt is allowed to write its target, and there is a row for it: one in a team the access allows, or a new one of an upsert. */
  predicate Lands(table: Allocations, a: Attempt) {
    && a.access.AllowsTeam(a.target)
    && if a.key in table then a.access.AllowsTeam(table[a.key]) else a.kind == Upsert
  }

  /** The exact effect of an attempt: where it lands, its row is in the target team; every other row stays as it is. */
  lemma EffectOf(table: Allocations, a: Attempt, key: Key)
    ensures At(Apply(table, a), key) == if key == a.key && Lands(table, a) then Some(a.target) else At(table, key)
  {
    if a.key in table {
      GuardMatchesScope(a.access, table[a.key]);
    }
    if a.access.AllowsTeam(a.target) {
      AllowedIsGranted(a.access, a.target);
    }
    hide Access.Guard, Access.AllowsTeam, GuardMatches;
  }

  lemma AllowedIsGranted(a: Access, team: Uuid)
    requires a.AllowsTeam(team)
    ensures a.granted
  {
  }

  /** The last attempt on the row that landed, in the run from `table`. */
  ghost predicate LastLanding(table: Allocations, attempts: seq<Attempt>, key: Key, k: nat) {
    && LandsAt(table, attempts, key, k)
    && forall j | k < j < |attempts| :: !LandsAt(table, attempts, key, j)
  }

  ghost predicate LandsAt(table: Allocations, attempts: seq<Attempt>, key: Key, k: nat) {
    k < |attempts| && attempts[k].key == key && Lands(Run(table, attempts[..k]), attempts[k])
  }

  /** The last attempt on a row that lands decides its team; a row on which none lands stays as it was. */
  lemma {:induction false} LastLandingDecides(table: Allocations, attempts: seq<Attempt>, key: Key)
    ensures forall k: nat | LastLanding(table, attempts, key, k) :: At(Run(table, attempts), key) == Some(attempts[k].target)
    ensures (forall k: nat :: !LandsAt(table, attempts, key, k)) ==> At(Run(table, attempts), key) == At(table, key)
    ensures (exists k: nat :: LastLanding(table, attempts, key, k)) || forall k: nat :: !LandsAt(table, attempts, key, k)
  {
    hide Lands, Apply, Run;
    if attempts == [] {
      RunNothing(table);
    } else {
      var n := |attempts| - 1;
      var init, last := attempts[..n], attempts[n];
      LastLandingDecides(table, init, key);
      assert attempts == init + [last];
      RunMore(table, init, last);
      EffectOf(Run(table, init), last, key);
      forall k: nat
        ensures LandsAt(table, init, key, k) <==> LandsAt(table, attempts, key, k) && k < n
      {
        if k < n {
          assert init[..k] == attempts[..k];
        }
      }
      if LandsAt(table, attempts, key, n) {
        assert LastLanding(table, attempts, key, n);
      } else if k: nat :| LastLanding(table, init, key, k) {
        assert LastLanding(table, attempts, key, k);
      }
      forall k: nat | LastLanding(table, attempts, key, k)
        ensures At(Run(table, attempts), key) == Some(attempts[k].target)
      {
        if k < n {
          assert LastLanding(table, init, key, k);
        }
      }
    }
  }

  lemma RunNothing(table: Allocations)
    ensures Run(table, []) == table
  {
  }

  /** The attempt of a run that brought a row to what it is at the end, if any did. */
  ghost predicate Responsible(attempts: seq<Attempt>, k: nat, key: Key, team: Uuid) {
    k < |attempts| && attempts[k].key == key && attempts[k].target == team && attempts[k].access.AllowsTeam(team)
  }

  /** Every row that changes over a run was last written by an attempt whose access allows its final team. */
  lemma {:induction false} ChangeHasResponsible(table: Allocations, attempts: seq<Attempt>, key: Key)
    requires At(Run(table, attempts), key) != At(table, key)
    ensures key in Run(table, attempts)
    ensures exists k: nat :: Responsible(attempts, k, key, Run(table, attempts)[key])
    decreases |attempts|
  {
    var a := attempts[0];
    var next := Apply(table, a);
    StepInScope(table, a, key);
    if At(Run(next, attempts[1..]), key) == At(next, key) {
      assert Responsible(attempts, 0, key, Run(table, attempts)[key]);
    } else {
      ChangeHasResponsible(next, attempts[1..], key);
      var k: nat :| Responsible(attempts[1..], k, key, Run(table, attempts)[key]);
      assert Responsible(attempts, k + 1, key, Run(table, attempts)[key]);
    }
  }

  /** An allocated row that leaves its team was moved by somebody allowed to write that team. */
  lemma {:induction false} LeavingNeedsScope(table: Allocations, attempts: seq<Attempt>, key: Key)
    requires key in table
    ensures key in Run(table, attempts)
    ensures Run(table, attempts)[key] != table[key] ==>
            exists k | 0 <= k < |attempts| :: attempts[k].key == key && attempts[k].access.AllowsTeam(table[key]) && attempts[k].target != table[key]
    decreases |attempts|
  {
    if attempts != [] {
      var a := attempts[0];
      var next := Apply(table, a);
      StepInScope(table, a, key);
      LeavingNeedsScope(next, attempts[1..], key);
      if Run(table, attempts)[key] != table[key] && next[key] == table[key] {
        var k :| 0 <= k < |attempts[1..]| && attempts[1..][k].key == key
                 && attempts[1..][k].access.AllowsTeam(table[key]) && attempts[1..][k].target != table[key];
        assert attempts[k + 1] == attempts[1..][k];
      }
    }
  }

  /** Nobody in the run is unrestricted. */
  ghost predicate NoneUnrestricted(attempts: seq<Attempt>) {
    forall k | 0 <= k < |attempts| :: !attempts[k].access.Unrestricted()
  }

  /**
   * Team isolation: in any interleaving of confined (or ungranted) callers no allocated row ever changes
   * its team, and a row that appears is in the team of a confined caller who picked it up unallocated.
   */
  lemma {:induction false} TeamIsolation(table: Allocations, attempts: seq<Attempt>, key: Key)
    requires NoneUnrestricted(attempts)
    ensures key in table ==> At(Run(table, attempts), key) == At(table, key)
    ensures key !in table && key in Run(table, attempts) ==>
            exists k | 0 <= k < |attempts| ::
              attempts[k].key == key && attempts[k].kind == Upsert && attempts[k].access.ConfinedTo(Run(table, attempts)[key])
    decreases |attempts|
  {
    if attempts != [] {
      var a := attempts[0];
      StepInScope(table, a, key);
      TeamIsolation(Apply(table, a), attempts[1..], key);
      if key !in table && key in Run(table, attempts) {
        if key in Apply(table, a) {
          assert attempts[0].access.ConfinedTo(Run(table, attempts)[key]);
        } else {
          var k :| 0 <= k < |attempts[1..]| && attempts[1..][k].key == key && attempts[1..][k].kind == Upsert
                   && attempts[1..][k].access.ConfinedTo(Run(table, attempts)[key]);
          assert attempts[k + 1] == attempts[1..][k];
        }
      }
    }
  }

  /**
   * What one confined caller can do in a run with anybody else: at each of its steps a row stays as it is,
   * or an unallocated participant enters the caller's own team.
   */
  lemma ConfinedStep(table: Allocations, others: seq<Attempt>, a: Attempt, team: Uuid, key: Key)
    requires a.access.ConfinedTo(team)
    ensures var before := Run(table, others);
            var after := Run(table, others + [a]);
            || At(after, key) == At(before, key)
            || (key == a.key && a.kind == Upsert && key !in before && At(after, key) == Some(team))
  {
    RunMore(table, others, a);
    StepInScope(Run(table, others), a, key);
  }

  lemma {:induction false} RunMore(table: Allocations, attempts: seq<Attempt>, a: Attempt)
    ensures Run(table, attempts + [a]) == Apply(Run(table, attempts), a)
    decreases |attempts|
  {
    if attempts == [] {
      assert [a][1..] == [];
      assert [] + [a] == [a];
      assert Run(Apply(table, a), []) == Apply(table, a);
    } else {
      assert (attempts + [a])[1..] == attempts[1..] + [a];
      RunMore(Apply(table, attempts[0]), attempts[1..], a);
    }
  }

  // ------------------------------------------------------- without the grant

  ghost predicate NoNilTeam(table: Allocations) {
    forall key | key in table :: table[key] != NIL_UUID
  }

  /**
   * The guard alone, without the AllowsTeam check: an ungranted statement to another team changes nothing
   * exactly when it does not insert, given that no row carries the nil team.
   */
  lemma UngrantedGuardAloneIff(table: Allocations, a: Attempt)
    requires !a.access.granted && NoNilTeam(table)
    ensures Execute(table, a.kind, a.key, a.target, a.access.Guard()) == table <==> a.kind == Update || a.key in table
  {
    if a.key in table {
      GuardMatchesScope(a.access, table[a.key]);
    } else if a.kind == Upsert {
      assert a.key in Execute(table, a.kind, a.key, a.target, a.access.Guard());
    }
    hide GuardMatches;
  }

  /** The same for a confined caller: the guard alone keeps it out of other teams' rows, the check keeps it from placing rows there. */
  lemma ConfinedGuardAlone(table: Allocations, a: Attempt, team: Uuid, key: Key)
    requires a.access.ConfinedTo(team)
    ensures var after := Execute(table, a.kind, a.key, a.target, a.access.Guard());
            At(after, key) != At(table, key) <==>
            && key == a.key && At(table, key) != Some(a.target)
            && (if key in table then table[key] == team else a.kind == Upsert)
  {
  }

  /** Team isolation for whole requests: the accesses are the ones AuthorizeWrite hands out. */
  lemma {:induction false} RequestsAreIsolated(table: Allocations, requests: seq<Request>, attempts: seq<Attempt>, key: Key)
    requires |requests| == |attempts|
    requires forall k | 0 <= k < |attempts| :: attempts[k].access == AuthorizeWrite(requests[k]).access
    requires key in table && At(Run(table, attempts), key) != At(table, key)
    ensures exists k | 0 <= k < |requests| ::
              && requests[k].tokenUser.Some?
              && (|| requests[k].tokenUser.value.Has(PROMPT_ADMIN)
                  || requests[k].tokenUser.value.isLecturer)
  {
    if NoneUnrestricted(attempts) {
      TeamIsolation(table, attempts, key);
    }
  }
}
