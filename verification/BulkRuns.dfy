/** Bulk creations of many actors and keys, retried and interleaved statement by statement. */
module BulkRuns {
  import opened Common
  import opened BulkCreate

  /** A bulk creation that holds its actor's row; `made` are the slugs it has inserted so far. */
  datatype Tx = Tx(key: Key, targets: seq<string>, made: seq<string>, attempts: nat)

  /** What a committed request asked for, and the slugs it got. */
  datatype Batch = Batch(targets: seq<string>, made: seq<string>)

  /** `hash` is the content digest; `history` remembers the committed batches, which the store itself does not. */
  datatype Sys = Sys(
    hash: seq<string> -> nat, links: Links, receipts: map<Key, Receipt>,
    running: map<nat, Tx>, history: map<Key, Batch>)

  datatype Action =
    | Begin(tx: nat, key: Key, targets: seq<string>, allowed: bool, domainAvailable: bool)
    | Insert(tx: nat, slug: string)
    | Finish(tx: nat)
    | GiveUp(tx: nat)
    | Abort(tx: nat)
    | CreateSingle(slug: string, target: string)

  datatype Outcome = Nothing | Reply(key: Key, reply: BulkCreate.Reply)

  predicate ActorFree(s: Sys, actor: nat) { forall t :: t in s.running ==> s.running[t].key.actor != actor }

  /** Another transaction has inserted the slug and not ended: an insert of it has to wait. */
  predicate Pending(s: Sys, t: nat, slug: string) {
    exists u :: u in s.running && u != t && slug in s.running[u].made
  }

  predicate PendingAnywhere(s: Sys, slug: string) { exists u :: u in s.running && slug in s.running[u].made }

  predicate MayInsert(s: Sys, t: nat, slug: string) {
    && t in s.running && |s.running[t].made| < |s.running[t].targets|
    && s.running[t].attempts < MAX_SLUG_ATTEMPTS && !Pending(s, t, slug)
  }

  predicate MayFinish(s: Sys, t: nat) { t in s.running && |s.running[t].made| == |s.running[t].targets| }

  /** The answer of a request that ends at its receipt check. */
  function Early(s: Sys, key: Key, targets: seq<string>, allowed: bool,
                 domainAvailable: bool): Option<BulkCreate.Reply> {
    if !allowed then Some(Denied)
    else if key in s.receipts
    then Some(if s.receipts[key].digest == s.hash(targets) then Replayed(s.receipts[key].count) else Conflict)
    else if !domainAvailable then Some(DomainUnavailable)
    else None
  }

  function Step(s: Sys, a: Action): (Sys, Outcome) {
    match a
    case Begin(t, key, targets, allowed, available) =>
      if t in s.running || !ActorFree(s, key.actor) then (s, Nothing)
      else
        var early := Early(s, key, targets, allowed, available);
        if early.Some? then (s, Reply(key, early.value))
        else (s.(running := s.running[t := Tx(key, targets, [], 0)]), Nothing)
    case Insert(t, slug) =>
      if !MayInsert(s, t, slug) then (s, Nothing)
      else
        var tx := s.running[t];
        if Reserved(slug) || slug in s.links || slug in tx.made
        then (s.(running := s.running[t := tx.(attempts := tx.attempts + 1)]), Nothing)
        else (s.(running := s.running[t := tx.(made := tx.made + [slug], attempts := 0)]), Nothing)
    case Finish(t) =>
      if !MayFinish(s, t) then (s, Nothing)
      else
        var tx := s.running[t];
        (s.(links := AddLinks(s.links, tx.key, tx.targets, tx.made),
            receipts := s.receipts[tx.key := Receipt(s.hash(tx.targets), |tx.targets|)],
            running := s.running - {t},
            history := s.history[tx.key := Batch(tx.targets, tx.made)]),
         Reply(tx.key, Created(|tx.targets|)))
    case GiveUp(t) =>
      if t !in s.running || s.running[t].attempts < MAX_SLUG_ATTEMPTS then (s, Nothing)
      else (s.(running := s.running - {t}), Reply(s.running[t].key, SlugConflict))
    case Abort(t) => (s.(running := s.running - {t}), Nothing)
    case CreateSingle(slug, target) =>
      if Reserved(slug) || slug in s.links || PendingAnywhere(s, slug) then (s, Nothing)
      else (s.(links := s.links[slug := Link(None, target)]), Nothing)
  }

  /** A slug is tried at most eight times; one that is reserved, stored or drawn already counts as a try. */
  lemma InsertMeans(s: Sys, t: nat, slug: string)
    ensures t in s.running && |s.running[t].made| < |s.running[t].targets| && s.running[t].attempts < 8
            && (forall u :: u in s.running && u != t ==> slug !in s.running[u].made) ==>
              var tx, n := s.running[t], Step(s, Insert(t, slug)).0;
              n == s.(running := s.running[t :=
                if slug in s.links || slug in tx.made || Reserved(slug) then tx.(attempts := tx.attempts + 1)
                else tx.(made := tx.made + [slug], attempts := 0)])
    ensures t in s.running && s.running[t].attempts >= 8 ==> Step(s, Insert(t, slug)) == (s, Nothing)
    ensures (Step(s, GiveUp(t)).1 != Nothing) <==> t in s.running && s.running[t].attempts >= 8
    ensures t in s.running && s.running[t].attempts >= 8 ==>
              Step(s, GiveUp(t)) == (s.(running := s.running - {t}), Reply(s.running[t].key, SlugConflict))
  {
  }

  function Run(s: Sys, actions: seq<Action>): Sys
    decreases |actions|
  {
    if actions == [] then s else Run(Step(s, actions[0]).0, actions[1..])
  }

  // ---------------------------------------------------------------- invariant

  predicate OwnedBy(links: Links, slug: string, key: Key) { slug in links && links[slug].origin == Some(key) }

  /** The links of `key` are exactly one per URL, in the order of `targets`. */
  predicate Owns(links: Links, key: Key, targets: seq<string>, made: seq<string>) {
    && |made| == |targets| && Distinct(made)
    && (forall i :: 0 <= i < |made| ==> made[i] in links && links[made[i]] == Link(Some(key), targets[i]))
    && forall slug :: slug in links && OwnedBy(links, slug, key) ==> slug in made
  }

  /**
   No receipt and no link; or one link per URL of the committed batch, in order, and the receipt of
   just that batch.
   */
  predicate Settled(s: Sys, key: Key) {
    if key in s.receipts
    then
      && key in s.history
      && var batch := s.history[key];
         Owns(s.links, key, batch.targets, batch.made)
         && s.receipts[key] == Receipt(s.hash(batch.targets), |batch.targets|)
    else key !in s.history && forall slug :: slug in s.links ==> !OwnedBy(s.links, slug, key)
  }

  predicate TxValid(s: Sys, t: nat)
    requires t in s.running
  {
    var tx := s.running[t];
    && tx.key !in s.receipts && |tx.made| <= |tx.targets| && Distinct(tx.made)
    && forall i :: 0 <= i < |tx.made| ==> tx.made[i] !in s.links && !Reserved(tx.made[i])
  }

  predicate Apart(s: Sys, t: nat, u: nat)
    requires t in s.running && u in s.running
  {
    s.running[t].key.actor != s.running[u].key.actor
    && forall slug :: slug in s.running[t].made ==> slug !in s.running[u].made
  }

  ghost predicate TxsValid(s: Sys) {
    && (forall t :: t in s.running ==> TxValid(s, t))
    && forall t, u :: t in s.running && u in s.running && t != u ==> Apart(s, t, u)
  }

  ghost predicate Inv(s: Sys) {
    && (forall key :: Settled(s, key))
    && (forall slug :: slug in s.links ==> !Reserved(slug))
    && TxsValid(s)
  }

  // ---------------------------------------------------------------- preservation

  /** Steps inside a transaction leave the committed rows alone. */
  ghost predicate SameBooks(s: Sys, n: Sys) {
    n.links == s.links && n.receipts == s.receipts && n.history == s.history && n.hash == s.hash
  }

  lemma SettledStays(s: Sys, n: Sys)
    requires SameBooks(s, n) && forall key :: Settled(s, key)
    ensures forall key :: Settled(n, key)
  {
    forall key ensures Settled(n, key) { assert Settled(s, key); }
  }

  lemma InsertKeepsTxs(s: Sys, t: nat, slug: string)
    requires TxsValid(s)
    ensures TxsValid(Step(s, Insert(t, slug)).0)
  {
    var after := Step(s, Insert(t, slug)).0;
    if MayInsert(s, t, slug) {
      forall u | u in after.running ensures TxValid(after, u) { assert TxValid(s, u); }
      forall u, v | u in after.running && v in after.running && u != v ensures Apart(after, u, v) {
        assert Apart(s, u, v);
      }
    }
  }

  lemma InsertKeeps(s: Sys, t: nat, slug: string)
    requires Inv(s)
    ensures Inv(Step(s, Insert(t, slug)).0)
  {
    InsertKeepsTxs(s, t, slug);
    SettledStays(s, Step(s, Insert(t, slug)).0);
  }

  /** A commit gives its key the links it made and their receipt, and leaves every other link as it was. */
  lemma FinishWritesItsBatch(s: Sys, t: nat)
    requires Inv(s) && MayFinish(s, t)
    ensures var after, tx := Step(s, Finish(t)).0, s.running[t];
            && Owns(after.links, tx.key, tx.targets, tx.made)
            && after.receipts == s.receipts[tx.key := Receipt(s.hash(tx.targets), |tx.targets|)]
            && after.history == s.history[tx.key := Batch(tx.targets, tx.made)]
            && (forall slug :: slug in s.links ==> slug in after.links && after.links[slug] == s.links[slug])
            && forall slug :: slug in after.links && slug !in s.links ==> OwnedBy(after.links, slug, tx.key)
  {
    var tx := s.running[t];
    assert TxValid(s, t) && Settled(s, tx.key);
    AddMeans(s.links, tx.key, tx.targets, tx.made);
  }

  lemma FinishSettles(s: Sys, t: nat, key: Key)
    requires Inv(s) && MayFinish(s, t)
    ensures Settled(Step(s, Finish(t)).0, key)
  {
    FinishWritesItsBatch(s, t);
    assert Settled(s, key);
    var after := Step(s, Finish(t)).0;
    if key != s.running[t].key && key in s.receipts {
      assert Owns(after.links, key, s.history[key].targets, s.history[key].made);
    }
  }

  lemma FinishKeepsTxs(s: Sys, t: nat)
    requires Inv(s) && MayFinish(s, t)
    ensures TxsValid(Step(s, Finish(t)).0)
  {
    var tx := s.running[t];
    var after := Step(s, Finish(t)).0;
    assert TxValid(s, t);
    AddMeans(s.links, tx.key, tx.targets, tx.made);
    forall u | u in after.running ensures TxValid(after, u) {
      assert TxValid(s, u) && Apart(s, u, t);
      forall i | 0 <= i < |s.running[u].made| ensures s.running[u].made[i] !in after.links {
        assert s.running[u].made[i] in s.running[u].made;
      }
    }
    forall u, v | u in after.running && v in after.running && u != v ensures Apart(after, u, v) {
      assert Apart(s, u, v);
    }
  }

  lemma FinishKeeps(s: Sys, t: nat)
    requires Inv(s)
    ensures Inv(Step(s, Finish(t)).0)
  {
    var after := Step(s, Finish(t)).0;
    if MayFinish(s, t) {
      var tx := s.running[t];
      assert TxValid(s, t);
      AddMeans(s.links, tx.key, tx.targets, tx.made);
      forall key ensures Settled(after, key) { FinishSettles(s, t, key); }
      forall slug | slug in after.links ensures !Reserved(slug) {
        if slug !in s.links { assert slug in tx.made; }
      }
      FinishKeepsTxs(s, t);
    }
  }

  lemma SingleKeeps(s: Sys, slug: string, target: string)
    requires Inv(s)
    ensures Inv(Step(s, CreateSingle(slug, target)).0)
  {
    var after := Step(s, CreateSingle(slug, target)).0;
    if after != s {
      forall key ensures Settled(after, key) {
        assert Settled(s, key);
        if key in s.receipts { assert Owns(after.links, key, s.history[key].targets, s.history[key].made); }
      }
      forall t | t in after.running ensures TxValid(after, t) {
        assert TxValid(s, t);
        assert slug !in s.running[t].made;
      }
      forall t, u | t in after.running && u in after.running && t != u ensures Apart(after, t, u) {
        assert Apart(s, t, u);
      }
    }
  }

  lemma BoundaryKeeps(s: Sys, a: Action)
    requires Inv(s) && (a.Begin? || a.GiveUp? || a.Abort?)
    ensures Inv(Step(s, a).0)
  {
    var after := Step(s, a).0;
    SettledStays(s, after);
    forall u | u in after.running ensures TxValid(after, u) {
      if u in s.running { assert TxValid(s, u); }
    }
    forall u, v | u in after.running && v in after.running && u != v ensures Apart(after, u, v) {
      if u in s.running && v in s.running { assert Apart(s, u, v); }
    }
  }

  lemma StepKeeps(s: Sys, a: Action)
    requires Inv(s)
    ensures Inv(Step(s, a).0)
  {
    match a
    case Begin(_, _, _, _, _) => BoundaryKeeps(s, a);
    case Insert(t, slug) => InsertKeeps(s, t, slug);
    case Finish(t) => FinishKeeps(s, t);
    case GiveUp(_) => BoundaryKeeps(s, a);
    case Abort(_) => BoundaryKeeps(s, a);
    case CreateSingle(slug, target) => SingleKeeps(s, slug, target);
  }

  lemma {:induction false} RunKeepsInv(s: Sys, actions: seq<Action>)
    requires Inv(s)
    ensures Inv(Run(s, actions))
    decreases |actions|
  {
    if actions != [] {
      StepKeeps(s, actions[0]);
      RunKeepsInv(Step(s, actions[0]).0, actions[1..]);
    }
  }

  /** A store that has never seen a bulk request. */
  predicate Untouched(links: Links) { forall slug :: slug in links ==> links[slug].origin.None? && !Reserved(slug) }

  function Start(hash: seq<string> -> nat, links: Links): Sys { Sys(hash, links, map[], map[], map[]) }

  /** A commit of `key` in this run is that of a batch some request of the run asked for. */
  ghost predicate Requested(actions: seq<Action>, key: Key, targets: seq<string>) {
    exists i :: 0 <= i < |actions| && actions[i].Begin? && actions[i].key == key && actions[i].targets == targets
  }

  lemma RequestedLater(a: Action, rest: seq<Action>, key: Key, targets: seq<string>)
    requires Requested(rest, key, targets)
    ensures Requested([a] + rest, key, targets)
  {
    var i :| 0 <= i < |rest| && rest[i].Begin? && rest[i].key == key && rest[i].targets == targets;
    assert ([a] + rest)[i + 1] == rest[i];
  }

  predicate Underway(s: Sys, key: Key, targets: seq<string>) {
    exists t :: t in s.running && s.running[t].key == key && s.running[t].targets == targets
  }

  lemma CommitComesFromUnderway(s: Sys, a: Action, key: Key)
    requires key in Step(s, a).0.history && key !in s.history
    ensures Underway(s, key, Step(s, a).0.history[key].targets)
  {
    assert a.Finish? && MayFinish(s, a.tx);
  }

  lemma UnderwayComesFromBegin(s: Sys, a: Action, key: Key, targets: seq<string>)
    requires Underway(Step(s, a).0, key, targets)
    ensures Underway(s, key, targets) || (a.Begin? && a.key == key && a.targets == targets)
  {
    var n := Step(s, a).0;
    var t :| t in n.running && n.running[t].key == key && n.running[t].targets == targets;
  }

  lemma {:induction false} CommitsWereRequested(s: Sys, actions: seq<Action>, key: Key)
    requires Inv(s) && key in Run(s, actions).history && key !in s.history
    ensures var targets := Run(s, actions).history[key].targets;
            Requested(actions, key, targets) || Underway(s, key, targets)
    decreases |actions|
  {
    if actions != [] {
      var a, rest := actions[0], actions[1..];
      var n := Step(s, a).0;
      var targets := Run(s, actions).history[key].targets;
      assert actions == [a] + rest;
      StepKeeps(s, a);
      if key in n.history {
        assert Settled(n, key);
        ReceiptIsFinal(n, rest, key);
        CommitComesFromUnderway(s, a, key);
      } else {
        CommitsWereRequested(n, rest, key);
        if Requested(rest, key, targets) { RequestedLater(a, rest, key, targets); }
        else { UnderwayComesFromBegin(s, a, key, targets); }
      }
    }
  }

  /**
   Exactly once: over every run of tries, races, rollbacks and other creations, a key without a receipt
   owns no link; a key with one owns exactly one link per URL of a batch it requested, in order, and the
   receipt holds that batch's digest and count. No link has a reserved slug.
   */
  lemma ExactlyOnce(hash: seq<string> -> nat, links: Links, actions: seq<Action>, key: Key)
    requires Untouched(links)
    ensures var s := Run(Start(hash, links), actions);
            && (forall slug :: slug in s.links ==> !Reserved(slug))
            && (key !in s.receipts ==> forall slug :: slug in s.links ==> !OwnedBy(s.links, slug, key))
            && (key in s.receipts ==>
                  && key in s.history && Requested(actions, key, s.history[key].targets)
                  && Owns(s.links, key, s.history[key].targets, s.history[key].made)
                  && s.receipts[key] == Receipt(s.hash(s.history[key].targets), |s.history[key].targets|))
  {
    var start := Start(hash, links);
    RunKeepsInv(start, actions);
    var s := Run(start, actions);
    assert Settled(s, key);
    if key in s.receipts { CommitsWereRequested(start, actions, key); }
  }

  lemma {:induction false} HashIsFixed(s: Sys, actions: seq<Action>)
    ensures Run(s, actions).hash == s.hash
    decreases |actions|
  {
    if actions != [] { HashIsFixed(Step(s, actions[0]).0, actions[1..]); }
  }

  // ---------------------------------------------------------------- replies

  lemma StepKeepsSettledKey(s: Sys, a: Action, key: Key)
    requires Inv(s) && key in s.receipts
    ensures var after := Step(s, a).0;
            && key in after.receipts && after.receipts[key] == s.receipts[key]
            && key in s.history && key in after.history && after.history[key] == s.history[key]
            && forall slug :: OwnedBy(after.links, slug, key) <==> OwnedBy(s.links, slug, key)
  {
    assert Settled(s, key);
    if a.Finish? && MayFinish(s, a.tx) {
      var tx := s.running[a.tx];
      assert TxValid(s, a.tx);
      AddMeans(s.links, tx.key, tx.targets, tx.made);
    }
  }

  /** Once a key has its receipt, neither the receipt nor the key's links ever change. */
  lemma {:induction false} ReceiptIsFinal(s: Sys, actions: seq<Action>, key: Key)
    requires Inv(s) && key in s.receipts
    ensures var end := Run(s, actions);
            && key in end.receipts && end.receipts[key] == s.receipts[key]
            && key in s.history && key in end.history && end.history[key] == s.history[key]
            && forall slug :: OwnedBy(end.links, slug, key) <==> OwnedBy(s.links, slug, key)
    decreases |actions|
  {
    assert Settled(s, key);
    if actions != [] {
      StepKeeps(s, actions[0]);
      StepKeepsSettledKey(s, actions[0], key);
      ReceiptIsFinal(Step(s, actions[0]).0, actions[1..], key);
    }
  }

  predicate Success(o: Outcome, key: Key) { o.Reply? && o.key == key && (o.reply.Created? || o.reply.Replayed?) }

  lemma SuccessMeans(o: Outcome, key: Key)
    ensures Success(o, key) <==>
            exists count :: o == Reply(key, BulkCreate.Created(count)) || o == Reply(key, BulkCreate.Replayed(count))
  {
    if Success(o, key) {
      assert o == Reply(key, if o.reply.Created? then BulkCreate.Created(o.reply.count)
                             else BulkCreate.Replayed(o.reply.count));
    }
  }

  /** A success reply means the receipt is there, and reports its count. */
  lemma SuccessReportsTheReceipt(s: Sys, a: Action, key: Key)
    requires Inv(s) && Success(Step(s, a).1, key)
    ensures key in Step(s, a).0.receipts && Step(s, a).1.reply.count == Step(s, a).0.receipts[key].count
  {
  }

  /** All success replies of one key agree, however many tries and other requests lie between. */
  lemma SuccessesAgree(s: Sys, first: Action, between: seq<Action>, second: Action, key: Key)
    requires Inv(s) && Success(Step(s, first).1, key)
    requires Success(Step(Run(Step(s, first).0, between), second).1, key)
    ensures Step(Run(Step(s, first).0, between), second).1.reply.count == Step(s, first).1.reply.count
    ensures Step(Run(Step(s, first).0, between), second).1.reply.Replayed?
  {
    StepKeeps(s, first);
    SuccessReportsTheReceipt(s, first, key);
    var s1 := Step(s, first).0;
    ReceiptIsFinal(s1, between, key);
    RunKeepsInv(s1, between);
    var s2 := Run(s1, between);
    SuccessReportsTheReceipt(s2, second, key);
    StepKeeps(s2, second);
    StepKeepsSettledKey(s2, second, key);
    forall t | t in s2.running ensures s2.running[t].key != key { assert TxValid(s2, t); }
  }

  /** After a commit, a request with other content, as its digest shows it, is refused and writes nothing. */
  lemma OtherContentNeverWrites(s: Sys, actions: seq<Action>, t: nat, key: Key, targets: seq<string>, available: bool)
    requires Inv(s) && key in s.receipts && s.receipts[key].digest != s.hash(targets)
    requires var end := Run(s, actions); t !in end.running && ActorFree(end, key.actor)
    ensures Step(Run(s, actions), Begin(t, key, targets, true, available)) == (Run(s, actions), Reply(key, Conflict))
  {
    HashIsFixed(s, actions);
    ReceiptIsFinal(s, actions, key);
  }

  // ---------------------------------------------------------------- one undisturbed call

  /** The steps from candidate `attempt` of URL `n` on: to the commit, or to the end when candidates run out. */
  function Inserts(t: nat, taken: set<string>, slugs: nat -> nat -> string, n: nat, attempt: nat,
                   count: nat): seq<Action>
    requires n <= count
    decreases count - n, MAX_SLUG_ATTEMPTS - attempt
  {
    if n == count then [Finish(t)]
    else if attempt >= MAX_SLUG_ATTEMPTS then [GiveUp(t)]
    else
      var slug := slugs(n)(attempt);
      [Insert(t, slug)]
      + if Reserved(slug) || slug in taken then Inserts(t, taken, slugs, n, attempt + 1, count)
        else Inserts(t, taken + {slug}, slugs, n + 1, 0, count)
  }

  /** The slugs picked from there on. */
  function PickFrom(taken: set<string>, slugs: nat -> nat -> string, n: nat, attempt: nat, count: nat)
    : Option<seq<string>>
    requires n <= count
  {
    if n == count then Some([])
    else
      var slug := Pick(taken, slugs(n), attempt);
      if slug.None? then None
      else
        var rest := PickAll(taken + {slug.value}, slugs, n + 1, count);
        if rest.None? then None else Some([slug.value] + rest.value)
  }

  /** The answers a run gives, in order. */
  function Answers(s: Sys, actions: seq<Action>): seq<Outcome>
    decreases |actions|
  {
    if actions == [] then []
    else
      var (n, o) := Step(s, actions[0]);
      (if o == Nothing then [] else [o]) + Answers(n, actions[1..])
  }

  /** The state after a call that made these slugs, or gave up, when no transaction is left under way. */
  function Ended(s: Sys, key: Key, targets: seq<string>, made: Option<seq<string>>): Sys
    requires made.Some? ==> |made.value| == |targets|
  {
    if made.None? then s.(running := map[])
    else
      s.(running := map[], links := AddLinks(s.links, key, targets, made.value),
         receipts := s.receipts[key := Receipt(s.hash(targets), |targets|)],
         history := s.history[key := Batch(targets, made.value)])
  }

  /** These steps end the call with just this result. */
  ghost predicate EndsWith(s: Sys, acts: seq<Action>, key: Key, targets: seq<string>, made: Option<seq<string>>) {
    && (made.Some? ==> |made.value| == |targets|)
    && Run(s, acts) == Ended(s, key, targets, made)
    && Answers(s, acts) == [Reply(key, if made.None? then SlugConflict else Created(|targets|))]
  }

  /** A step that answers nothing and moves only the running transaction. */
  lemma SilentStep(s: Sys, a: Action, running: map<nat, Tx>, rest: seq<Action>, key: Key, targets: seq<string>,
                   made: Option<seq<string>>)
    requires Step(s, a) == (s.(running := running), Nothing)
    requires EndsWith(s.(running := running), rest, key, targets, made)
    ensures EndsWith(s, [a] + rest, key, targets, made)
  {
    assert ([a] + rest)[1..] == rest;
  }

  function Taken(s: Sys, tx: Tx): set<string> { s.links.Keys + Elements(tx.made) }

  /** An insert by the only transaction under way. */
  function AfterInsert(s: Sys, tx: Tx, slug: string): Tx {
    if Reserved(slug) || slug in Taken(s, tx) then tx.(attempts := tx.attempts + 1)
    else tx.(made := tx.made + [slug], attempts := 0)
  }

  lemma InsertAlone(s: Sys, t: nat, tx: Tx, slug: string)
    requires s.running == map[t := tx] && |tx.made| < |tx.targets| && tx.attempts < MAX_SLUG_ATTEMPTS
    ensures Step(s, Insert(t, slug)) == (s.(running := map[t := AfterInsert(s, tx, slug)]), Nothing)
  {
    assert s.running[t := AfterInsert(s, tx, slug)] == map[t := AfterInsert(s, tx, slug)];
  }

  lemma EndAlone(s: Sys, t: nat, tx: Tx)
    requires s.running == map[t := tx]
    ensures |tx.made| == |tx.targets| ==> EndsWith(s, [Finish(t)], tx.key, tx.targets, Some(tx.made))
    ensures tx.attempts == MAX_SLUG_ATTEMPTS ==> EndsWith(s, [GiveUp(t)], tx.key, tx.targets, None)
  {
    assert s.running - {t} == map[];
    assert [Finish(t)][1..] == [] && [GiveUp(t)][1..] == [];
  }

  function Appended(made: seq<string>, rest: Option<seq<string>>): Option<seq<string>> {
    if rest.None? then None else Some(made + rest.value)
  }

  lemma AppendedNext(made: seq<string>, slug: string, rest: Option<seq<string>>)
    ensures Appended(made + [slug], rest) == Appended(made, if rest.None? then None else Some([slug] + rest.value))
  {
    if rest.Some? { assert (made + [slug]) + rest.value == made + ([slug] + rest.value); }
  }

  /** What an insert makes of the slugs still to be picked. */
  lemma PickNext(s: Sys, tx: Tx, s1: Sys, slugs: nat -> nat -> string)
    requires |tx.made| < |tx.targets| && tx.attempts < MAX_SLUG_ATTEMPTS && s1.links == s.links
    ensures var n, count, next := |tx.made|, |tx.targets|, AfterInsert(s, tx, slugs(|tx.made|)(tx.attempts));
            Appended(tx.made, PickFrom(Taken(s, tx), slugs, n, tx.attempts, count))
            == Appended(next.made, PickFrom(Taken(s1, next), slugs, |next.made|, next.attempts, count))
  {
    var n, count, slug := |tx.made|, |tx.targets|, slugs(|tx.made|)(tx.attempts);
    var next := AfterInsert(s, tx, slug);
    if !Reserved(slug) && slug !in Taken(s, tx) {
      assert Taken(s1, next) == Taken(s, tx) + {slug};
      AppendedNext(tx.made, slug, PickAll(Taken(s1, next), slugs, n + 1, count));
    }
  }

  lemma InsertsNext(s: Sys, t: nat, tx: Tx, s1: Sys, slugs: nat -> nat -> string)
    requires |tx.made| < |tx.targets| && tx.attempts < MAX_SLUG_ATTEMPTS && s1.links == s.links
    ensures var n, count, slug := |tx.made|, |tx.targets|, slugs(|tx.made|)(tx.attempts);
            var next := AfterInsert(s, tx, slug);
            Inserts(t, Taken(s, tx), slugs, n, tx.attempts, count)
            == [Insert(t, slug)] + Inserts(t, Taken(s1, next), slugs, |next.made|, next.attempts, count)
  {
    var slug := slugs(|tx.made|)(tx.attempts);
    if !Reserved(slug) && slug !in Taken(s, tx) {
      assert Taken(s1, AfterInsert(s, tx, slug)) == Taken(s, tx) + {slug};
    }
  }

  /** A call's inserts and its end, undisturbed. */
  lemma {:induction false} InsertsRun(s: Sys, t: nat, tx: Tx, slugs: nat -> nat -> string)
    requires s.running == map[t := tx] && |tx.made| <= |tx.targets| && tx.attempts <= MAX_SLUG_ATTEMPTS
    ensures var n, count, taken := |tx.made|, |tx.targets|, Taken(s, tx);
            EndsWith(s, Inserts(t, taken, slugs, n, tx.attempts, count), tx.key, tx.targets,
                     Appended(tx.made, PickFrom(taken, slugs, n, tx.attempts, count)))
    decreases |tx.targets| - |tx.made|, MAX_SLUG_ATTEMPTS - tx.attempts
  {
    if |tx.made| == |tx.targets| || tx.attempts == MAX_SLUG_ATTEMPTS {
      EndAlone(s, t, tx);
      assert tx.made + [] == tx.made;
    } else {
      var slug := slugs(|tx.made|)(tx.attempts);
      var next := AfterInsert(s, tx, slug);
      var s1 := s.(running := map[t := next]);
      InsertAlone(s, t, tx, slug);
      InsertsRun(s1, t, next, slugs);
      PickNext(s, tx, s1, slugs);
      InsertsNext(s, t, tx, s1, slugs);
      SilentStep(s, Insert(t, slug), s1.running,
                 Inserts(t, Taken(s1, next), slugs, |next.made|, next.attempts, |tx.targets|), tx.key, tx.targets,
                 Appended(next.made, PickFrom(Taken(s1, next), slugs, |next.made|, next.attempts, |tx.targets|)));
    }
  }

  function BatchSteps(s: Sys, t: nat, key: Key, targets: seq<string>, allowed: bool, available: bool,
                      slugs: nat -> nat -> string): seq<Action>
  {
    [Begin(t, key, targets, allowed, available)]
    + if Early(s, key, targets, allowed, available).Some? then []
      else Inserts(t, s.links.Keys, slugs, 0, 0, |targets|)
  }

  /** One undisturbed call is a run of the protocol: it gives the same single answer and leaves the same rows. */
  lemma BatchIsARun(s: Sys, t: nat, key: Key, targets: seq<string>, allowed: bool, available: bool,
                    slugs: nat -> nat -> string)
    requires s.running == map[]
    ensures var reply := BatchReply(s.links, s.receipts, key, s.hash(targets), targets, allowed, available, slugs);
            var picked := PickAll(s.links.Keys, slugs, 0, |targets|);
            var acts := BatchSteps(s, t, key, targets, allowed, available, slugs);
            && Answers(s, acts) == [Reply(key, reply)]
            && (reply.Created? ==> picked.Some? && |picked.value| == |targets|)
            && Run(s, acts) == if reply.Created? then Ended(s, key, targets, picked) else s
  {
    var begin := Begin(t, key, targets, allowed, available);
    if Early(s, key, targets, allowed, available).Some? {
      assert [begin] + [] == [begin] && [begin][1..] == [];
    } else {
      var tx := Tx(key, targets, [], 0);
      var s1 := s.(running := map[t := tx]);
      assert s.running[t := tx] == map[t := tx];
      assert Step(s, begin) == (s1, Nothing);
      assert Taken(s1, tx) == s.links.Keys;
      InsertsRun(s1, t, tx, slugs);
      var picked := PickAll(s.links.Keys, slugs, 0, |targets|);
      assert PickFrom(s.links.Keys, slugs, 0, 0, |targets|) == picked;
      assert Appended([], picked) == picked by { if picked.Some? { assert [] + picked.value == picked.value; } }
      SilentStep(s, begin, s1.running, Inserts(t, s.links.Keys, slugs, 0, 0, |targets|), key, targets, picked);
    }
  }
}
