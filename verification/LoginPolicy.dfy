/**
 "Some login method stays usable." Settings updates change one half of this, provider
 updates and deletions the other; they coordinate only through the locked policy row.
 Provider creation takes no lock at all.
 */
module LoginPolicy {
  import opened Common

  datatype Provider = Provider(
    issuer: string, clientId: string, config: string, enabled: bool, deleted: bool, updatedAt: int)

  /** The fields an administrator submits. */
  datatype Fields = Fields(issuer: string, clientId: string, config: string, enabled: bool)

  type Providers = map<string, Provider>

  predicate Offered(p: Provider) { p.enabled && !p.deleted }

  /** `validateProviders` on the enabled providers: some exist and every one of them passes. */
  ghost predicate Available(ps: Providers, valid: Provider -> bool) {
    && (exists id :: id in ps && Offered(ps[id]))
    && (forall id :: id in ps && Offered(ps[id]) ==> valid(ps[id]))
  }

  /** What `ValidateStartup` accepts. */
  ghost predicate StartsUp(local: bool, ps: Providers, valid: Provider -> bool) { local || Available(ps, valid) }

  /** Somebody can log in: locally, or through an enabled provider that works. */
  ghost predicate SomeMethodUsable(local: bool, ps: Providers, valid: Provider -> bool) {
    local || exists id :: id in ps && Offered(ps[id]) && valid(ps[id])
  }

  /** Both properties in the rows' fields; only providers that are enabled and not deleted count. */
  lemma MethodsMean(local: bool, ps: Providers, valid: Provider -> bool)
    ensures StartsUp(local, ps, valid) <==>
            local || ((exists id :: id in ps && ps[id].enabled && !ps[id].deleted)
                      && forall id :: id in ps && ps[id].enabled && !ps[id].deleted ==> valid(ps[id]))
    ensures SomeMethodUsable(local, ps, valid) <==>
            local || exists id :: id in ps && ps[id].enabled && !ps[id].deleted && valid(ps[id])
  {
    if exists id :: id in ps && ps[id].enabled && !ps[id].deleted {
      var id :| id in ps && ps[id].enabled && !ps[id].deleted;
      assert Offered(ps[id]);
    }
  }

  // ---------------------------------------------------------------- statements

  datatype Change = Update(id: string, fields: Fields, expected: int) | Delete(id: string, expected: int)

  /** The changed row, or nothing when the conditional statement, or the binding check before it, refuses. */
  function Changed(ps: Providers, bound: set<string>, c: Change, now: int): Option<Provider> {
    if c.id !in ps || ps[c.id].deleted || ps[c.id].updatedAt != c.expected then None
    else
      match c
      case Update(id, f, _) =>
        if (f.issuer != ps[id].issuer || f.clientId != ps[id].clientId) && id in bound then None
        else Some(Provider(f.issuer, f.clientId, f.config, f.enabled, false, now))
      case Delete(id, _) => Some(ps[id].(enabled := false, deleted := true, updatedAt := now))
  }

  /** Only the version named changes, and a provider somebody logs in with keeps its issuer and client. */
  lemma ChangedMeans(ps: Providers, bound: set<string>, c: Change, now: int)
    ensures var r := Changed(ps, bound, c, now);
            var current := c.id in ps && !ps[c.id].deleted && ps[c.id].updatedAt == c.expected;
            && (c.Delete? ==> (r.Some? <==> current))
            && (c.Update? ==>
                  (r.Some? <==>
                    current && (c.id !in bound ||
                                (c.fields.issuer == ps[c.id].issuer && c.fields.clientId == ps[c.id].clientId))))
            && (r.Some? && c.Update? ==>
                  && r.value.issuer == c.fields.issuer && r.value.clientId == c.fields.clientId
                  && r.value.config == c.fields.config && r.value.enabled == c.fields.enabled
                  && !r.value.deleted && r.value.updatedAt == now)
            && (r.Some? && c.Delete? ==>
                  && r.value.issuer == ps[c.id].issuer && r.value.clientId == ps[c.id].clientId
                  && r.value.config == ps[c.id].config && !r.value.enabled
                  && r.value.deleted && r.value.updatedAt == now)
  {
  }

  // ---------------------------------------------------------------- the protocol

  datatype Progress =
    | SettingsBegun(enableLocal: bool, expected: int)
    | SettingsLocked(enableLocal: bool, expected: int)
    | SettingsChecked(enableLocal: bool)
    | ChangeBegun(change: Change)
    | ChangeLocked(change: Change, localSeen: bool)
    | ChangeWritten(id: string, row: Provider, localSeen: bool)
    | ChangeChecked(id: string, row: Provider)
    | Inserted(id: string, row: Provider)

  datatype State = State(
    local: bool, revision: int, providers: Providers, bound: set<string>, owner: Option<nat>, txs: map<nat, Progress>)

  datatype Action =
    | BeginSettings(tx: nat, enableLocal: bool, expected: int)
    | BeginChange(tx: nat, change: Change)
    | LockPolicy(tx: nat)
    | CheckSettings(tx: nat)
    | Write(tx: nat, now: int)
    | CheckChange(tx: nat)
    | Insert(tx: nat, id: string, row: Provider)
    | Commit(tx: nat, now: int)
    | Rollback(tx: nat)
    | Bind(id: string)

  function Ended(s: State, tx: nat): State {
    s.(txs := s.txs - {tx}, owner := if s.owner == Some(tx) then None else s.owner)
  }

  ghost function Step(s: State, a: Action, valid: Provider -> bool): Option<State> {
    match a
    case BeginSettings(tx, enableLocal, expected) =>
      if tx !in s.txs then Some(s.(txs := s.txs[tx := SettingsBegun(enableLocal, expected)])) else None
    case BeginChange(tx, change) =>
      if tx !in s.txs then Some(s.(txs := s.txs[tx := ChangeBegun(change)])) else None
    case LockPolicy(tx) =>
      if tx !in s.txs || s.owner.Some? then None
      else (match s.txs[tx]
            case SettingsBegun(e, x) => Some(s.(txs := s.txs[tx := SettingsLocked(e, x)], owner := Some(tx)))
            case ChangeBegun(c) => Some(s.(txs := s.txs[tx := ChangeLocked(c, s.local)], owner := Some(tx)))
            case _ => None)
    case CheckSettings(tx) =>
      if tx in s.txs && s.txs[tx].SettingsLocked? && s.txs[tx].expected == s.revision
         && (!s.txs[tx].enableLocal ==> Available(s.providers, valid))
      then Some(s.(txs := s.txs[tx := SettingsChecked(s.txs[tx].enableLocal)])) else None
    case Write(tx, now) =>
      if tx in s.txs && s.txs[tx].ChangeLocked? && Changed(s.providers, s.bound, s.txs[tx].change, now).Some?
      then var row := Changed(s.providers, s.bound, s.txs[tx].change, now).value;
           Some(s.(txs := s.txs[tx := ChangeWritten(s.txs[tx].change.id, row, s.txs[tx].localSeen)]))
      else None
    case CheckChange(tx) =>
      // The provider list is read after the write, inside the same transaction.
      if tx in s.txs && s.txs[tx].ChangeWritten?
         && (!s.txs[tx].localSeen ==> Available(s.providers[s.txs[tx].id := s.txs[tx].row], valid))
      then Some(s.(txs := s.txs[tx := ChangeChecked(s.txs[tx].id, s.txs[tx].row)])) else None
    case Insert(tx, id, row) =>
      if tx !in s.txs && id !in s.providers && !row.deleted
      then Some(s.(txs := s.txs[tx := Inserted(id, row)])) else None
    case Commit(tx, now) =>
      if tx !in s.txs then None
      else (match s.txs[tx]
            case SettingsChecked(enableLocal) =>
              Some(Ended(s.(local := enableLocal, revision := if now > s.revision then now else s.revision + 1), tx))
            case ChangeChecked(id, row) => Some(Ended(s.(providers := s.providers[id := row]), tx))
            case Inserted(id, row) =>
              if id !in s.providers then Some(Ended(s.(providers := s.providers[id := row]), tx)) else None
            case _ => None)
    case Rollback(tx) => if tx in s.txs then Some(Ended(s, tx)) else None
    case Bind(id) => Some(s.(bound := s.bound + {id}))
  }

  /** What a commit makes public: the setting under a newer revision, or one provider row, and nothing else. */
  lemma CommitMeans(s: State, tx: nat, now: int, valid: Provider -> bool)
    ensures Step(s, Commit(tx, now), valid).Some? ==>
              var n, t := Step(s, Commit(tx, now), valid).value, s.txs[tx];
              && tx in s.txs && n.bound == s.bound && n.txs == s.txs - {tx}
              && (t.SettingsChecked? ==>
                    && n.local == t.enableLocal && n.providers == s.providers
                    && n.revision > s.revision && n.revision >= now
                    && (n.revision == now || n.revision == s.revision + 1))
              && (!t.SettingsChecked? ==>
                    && (t.ChangeChecked? || t.Inserted?) && n.local == s.local && n.revision == s.revision
                    && n.providers == s.providers[t.id := t.row] && (t.Inserted? ==> t.id !in s.providers))
  {
  }

  /** Nothing becomes public before a commit. */
  lemma OnlyCommitsShow(s: State, a: Action, valid: Provider -> bool)
    ensures Step(s, a, valid).Some? && !a.Commit? ==>
              var n := Step(s, a, valid).value;
              n.local == s.local && n.revision == s.revision && n.providers == s.providers
  {
  }

  /** The checks that let a transaction go on: the expected revision, and a provider for want of local login. */
  lemma ChecksMean(s: State, a: Action, valid: Provider -> bool)
    ensures a.CheckSettings? && a.tx in s.txs && s.txs[a.tx].SettingsLocked? ==>
              (Step(s, a, valid).Some? <==>
                s.txs[a.tx].expected == s.revision
                && (s.txs[a.tx].enableLocal || Available(s.providers, valid)))
    ensures a.CheckChange? && a.tx in s.txs && s.txs[a.tx].ChangeWritten? ==>
              var t := s.txs[a.tx];
              (Step(s, a, valid).Some? <==> t.localSeen || Available(s.providers[t.id := t.row], valid))
  {
  }

  /** Creation needs a new id and a row that is not deleted; a transaction ends at most once. */
  lemma BoundariesMean(s: State, tx: nat, id: string, row: Provider, valid: Provider -> bool)
    ensures Step(s, Insert(tx, id, row), valid) ==
            if tx in s.txs || id in s.providers || row.deleted then None
            else Some(s.(txs := s.txs[tx := Inserted(id, row)]))
    ensures Step(s, Rollback(tx), valid).Some? <==> tx in s.txs
    ensures tx in s.txs ==>
              Step(s, Rollback(tx), valid) ==
              Some(s.(txs := s.txs - {tx}, owner := if s.owner == Some(tx) then None else s.owner))
    ensures Step(s, Bind(id), valid) == Some(s.(bound := s.bound + {id}))
  {
  }

  ghost function Run(s: State, acts: seq<Action>, valid: Provider -> bool): Option<State>
    decreases |acts|
  {
    if acts == [] then Some(s)
    else
      var n := Step(s, acts[0], valid);
      if n.None? then None else Run(n.value, acts[1..], valid)
  }

  // ---------------------------------------------------------------- invariant

  /** The two properties kept: startup would accept the state, or just some method is usable. */
  ghost predicate Good(strict: bool, local: bool, ps: Providers, valid: Provider -> bool) {
    if strict then StartsUp(local, ps, valid) else SomeMethodUsable(local, ps, valid)
  }

  /** What the owner of the policy row has established; everyone else has decided nothing yet. */
  ghost predicate Consistent(s: State, strict: bool, valid: Provider -> bool) {
    && Good(strict, s.local, s.providers, valid)
    && (s.owner.Some? ==> s.owner.value in s.txs)
    && (forall tx :: tx in s.txs && s.owner != Some(tx) ==>
          s.txs[tx].SettingsBegun? || s.txs[tx].ChangeBegun? || s.txs[tx].Inserted?)
    && (forall tx :: tx in s.txs && s.txs[tx].Inserted? && strict && Offered(s.txs[tx].row) ==> valid(s.txs[tx].row))
    && (s.owner.Some? ==>
          match s.txs[s.owner.value]
          case SettingsLocked(_, _) => true
          case SettingsChecked(enableLocal) => Good(strict, enableLocal, s.providers, valid)
          case ChangeLocked(c, localSeen) => localSeen == s.local
          case ChangeWritten(id, row, localSeen) => localSeen == s.local && id in s.providers
          case ChangeChecked(id, row) => id in s.providers && Good(strict, s.local, s.providers[id := row], valid)
          case _ => false)
  }

  /** Creation needs no lock because adding a provider never takes a usable method away. */
  lemma CreationIsHarmless(strict: bool, local: bool, ps: Providers, id: string, row: Provider, valid: Provider -> bool)
    requires Good(strict, local, ps, valid) && id !in ps && (strict && Offered(row) ==> valid(row))
    ensures Good(strict, local, ps[id := row], valid)
  {
    if !local {
      var w :| w in ps && Offered(ps[w]) && (!strict ==> valid(ps[w]));
      assert ps[id := row][w] == ps[w];
    }
  }

  /** What the availability check establishes. */
  lemma AvailabilityIsEnough(strict: bool, local: bool, ps: Providers, valid: Provider -> bool)
    requires local || Available(ps, valid)
    ensures Good(strict, local, ps, valid)
  {
  }

  lemma InsertCommitKeeps(s: State, tx: nat, now: int, strict: bool, valid: Provider -> bool)
    requires Consistent(s, strict, valid) && tx in s.txs && s.txs[tx].Inserted? && Step(s, Commit(tx, now), valid).Some?
    ensures Consistent(Step(s, Commit(tx, now), valid).value, strict, valid)
  {
    var id, row := s.txs[tx].id, s.txs[tx].row;
    CreationIsHarmless(strict, s.local, s.providers, id, row, valid);
    if s.owner.Some? {
      match s.txs[s.owner.value] {
        case SettingsChecked(enableLocal) => CreationIsHarmless(strict, enableLocal, s.providers, id, row, valid);
        case ChangeChecked(other, new_) =>
          CreationIsHarmless(strict, s.local, s.providers[other := new_], id, row, valid);
          assert s.providers[other := new_][id := row] == s.providers[id := row][other := new_];
        case _ =>
      }
    }
  }

  lemma CheckKeeps(s: State, a: Action, strict: bool, valid: Provider -> bool)
    requires Consistent(s, strict, valid) && Step(s, a, valid).Some? && (a.CheckSettings? || a.CheckChange?)
    ensures Consistent(Step(s, a, valid).value, strict, valid)
  {
    if a.CheckSettings? {
      AvailabilityIsEnough(strict, s.txs[a.tx].enableLocal, s.providers, valid);
    } else if s.owner == Some(a.tx) {
      AvailabilityIsEnough(strict, s.local, s.providers[s.txs[a.tx].id := s.txs[a.tx].row], valid);
    }
  }

  lemma OwnerCommitKeeps(s: State, tx: nat, now: int, strict: bool, valid: Provider -> bool)
    requires Consistent(s, strict, valid) && tx in s.txs && !s.txs[tx].Inserted?
             && Step(s, Commit(tx, now), valid).Some?
    ensures Consistent(Step(s, Commit(tx, now), valid).value, strict, valid)
  {
  }

  lemma OtherStepKeeps(s: State, a: Action, strict: bool, valid: Provider -> bool)
    requires Consistent(s, strict, valid) && Step(s, a, valid).Some?
    requires !a.CheckSettings? && !a.CheckChange? && !a.Commit?
    requires strict && a.Insert? && Offered(a.row) ==> valid(a.row)
    ensures Consistent(Step(s, a, valid).value, strict, valid)
  {
  }

  lemma StepKeepsConsistent(s: State, a: Action, strict: bool, valid: Provider -> bool)
    requires Consistent(s, strict, valid) && Step(s, a, valid).Some?
    requires strict && a.Insert? && Offered(a.row) ==> valid(a.row)
    ensures Consistent(Step(s, a, valid).value, strict, valid)
  {
    match a {
      case CheckSettings(_) => CheckKeeps(s, a, strict, valid);
      case CheckChange(_) => CheckKeeps(s, a, strict, valid);
      case Commit(tx, now) =>
        if s.txs[tx].Inserted? { InsertCommitKeeps(s, tx, now, strict, valid); }
        else { OwnerCommitKeeps(s, tx, now, strict, valid); }
      case _ => OtherStepKeeps(s, a, strict, valid);
    }
  }

  lemma {:induction false} RunKeepsConsistent(s: State, acts: seq<Action>, strict: bool, valid: Provider -> bool)
    requires Consistent(s, strict, valid) && Run(s, acts, valid).Some?
    requires strict ==> forall i :: 0 <= i < |acts| && acts[i].Insert? && Offered(acts[i].row) ==> valid(acts[i].row)
    ensures Consistent(Run(s, acts, valid).value, strict, valid)
    decreases |acts|
  {
    if acts != [] {
      StepKeepsConsistent(s, acts[0], strict, valid);
      RunKeepsConsistent(Step(s, acts[0], valid).value, acts[1..], strict, valid);
    }
  }

  function Start(local: bool, ps: Providers, revision: int): State { State(local, revision, ps, {}, None, map[]) }

  /** From any usable configuration, every committed state keeps some login method usable. */
  lemma SomeMethodAlwaysUsable(local: bool, ps: Providers, revision: int, acts: seq<Action>, valid: Provider -> bool)
    requires SomeMethodUsable(local, ps, valid) && Run(Start(local, ps, revision), acts, valid).Some?
    ensures var s := Run(Start(local, ps, revision), acts, valid).value; SomeMethodUsable(s.local, s.providers, valid)
  {
    RunKeepsConsistent(Start(local, ps, revision), acts, false, valid);
  }

  /** If creation only stores providers that work, every committed state would also pass the startup check. */
  lemma StartupAlwaysAccepts(local: bool, ps: Providers, revision: int, acts: seq<Action>, valid: Provider -> bool)
    requires StartsUp(local, ps, valid) && Run(Start(local, ps, revision), acts, valid).Some?
    requires forall i :: 0 <= i < |acts| && acts[i].Insert? && Offered(acts[i].row) ==> valid(acts[i].row)
    ensures var s := Run(Start(local, ps, revision), acts, valid).value; StartsUp(s.local, s.providers, valid)
  {
    RunKeepsConsistent(Start(local, ps, revision), acts, true, valid);
  }

  // ---------------------------------------------------------------- one change under the policy lock

  datatype Reply = Refused | RuntimeUnavailable | Stored(row: Provider)

  /** What a change leaves behind: the row as written, when the statement applies and the policy allows the result. */
  ghost predicate ChangeEffect(local: bool, bound: set<string>, before: Providers, after: Providers, c: Change,
                               now: int, stored: bool, valid: Provider -> bool)
  {
    var row := Changed(before, bound, c, now);
    && (stored <==> row.Some? && (local || Available(before[c.id := row.value], valid)))
    && after == if stored then before[c.id := row.value] else before
  }

  function ChangeSteps(tx: nat, c: Change, now: int): seq<Action> {
    [BeginChange(tx, c), LockPolicy(tx), Write(tx, now), CheckChange(tx), Commit(tx, now)]
  }

  /** A change is stored exactly when its transaction of the protocol can commit, and both leave the same rows. */
  lemma ChangeIsARun(s: State, tx: nat, c: Change, now: int, after: Providers, stored: bool, valid: Provider -> bool)
    requires tx !in s.txs && s.owner.None?
    requires ChangeEffect(s.local, s.bound, s.providers, after, c, now, stored, valid)
    ensures Run(s, ChangeSteps(tx, c, now), valid) == if stored then Some(s.(providers := after)) else None
  {
    var acts := ChangeSteps(tx, c, now);
    var s1 := Step(s, acts[0], valid).value;
    var s2 := Step(s1, acts[1], valid).value;
    assert acts[1..][1..] == acts[2..] && acts[2..][1..] == acts[3..] && acts[3..][1..] == acts[4..];
    assert Run(s, acts, valid) == Run(s1, acts[1..], valid) == Run(s2, acts[2..], valid);
    if Changed(s.providers, s.bound, c, now).Some? {
      var s3 := Step(s2, acts[2], valid).value;
      assert Run(s2, acts[2..], valid) == Run(s3, acts[3..], valid);
      if stored {
        var s4 := Step(s3, acts[3], valid).value;
        assert Run(s3, acts[3..], valid) == Run(s4, acts[4..], valid);
        assert acts[4..] == [Commit(tx, now)] && s4.txs - {tx} == s.txs;
        assert Run(s4, [Commit(tx, now)], valid) == Step(s4, Commit(tx, now), valid);
      }
    }
  }

  class ProviderStore {
    var local: bool
    var providers: Providers
    var bound: set<string>

    /** Reads the enabled rows one by one: there must be some, and all must pass. */
    method RequireAvailableProvider(valid: Provider -> bool) returns (ok: bool)
      ensures ok <==> Available(providers, valid)
    {
      var rest, enabled := providers.Keys, 0;
      ok := true;
      while rest != {}
        invariant rest <= providers.Keys
        invariant enabled > 0 <==> exists id :: id in providers && id !in rest && Offered(providers[id])
        invariant ok <==> forall id :: id in providers && id !in rest && Offered(providers[id]) ==> valid(providers[id])
        decreases rest
      {
        var id :| id in rest;
        rest := rest - {id};
        if Offered(providers[id]) {
          enabled := enabled + 1;
          ok := ok && valid(providers[id]);
        }
      }
      ok := ok && enabled > 0;
    }

    /** Updates or deletes one provider; the check reads the rows as written, and a failed check restores them. */
    method ChangeProvider(c: Change, now: int, valid: Provider -> bool) returns (r: Reply)
      modifies this`providers
      ensures ChangeEffect(local, bound, old(providers), providers, c, now, r.Stored?, valid)
      ensures r.Refused? <==> Changed(old(providers), bound, c, now).None?
      ensures r.Stored? ==> r.row == Changed(old(providers), bound, c, now).value
                            && providers == old(providers)[c.id := r.row]
      ensures !r.Stored? ==> providers == old(providers)
      ensures !r.Refused? ==>
                (r.Stored? <==>
                 local || Available(old(providers)[c.id := Changed(old(providers), bound, c, now).value], valid))
    {
      var localEnabled := local;
      var row := Changed(providers, bound, c, now);
      if row.None? { return Refused; }
      var committed := providers;
      providers := providers[c.id := row.value];
      if !localEnabled {
        var available := RequireAvailableProvider(valid);
        if !available {
          providers := committed;
          return RuntimeUnavailable;
        }
      }
      return Stored(row.value);
    }
  }
}
