/**
 Bulk link creation: an idempotency receipt per actor and request key, random slugs with a
 bounded number of attempts, and the actor's row locked from the receipt check to the commit.
 The digest of a batch is the parameter `digest`; nothing depends on it being injective.
 */
module BulkCreate {
  import opened Common

  const MAX_SLUG_ATTEMPTS: nat := 8

  const RESERVED: set<string> := {
    "api", "assets", "icons", "setup", "login", "profile", "console", "link", "links", "analytics", "admin", "go"}

  datatype Key = Key(actor: nat, request: nat)

  /** `origin` is the bulk request that created the link, `createdFor` the URL it was created with. */
  datatype Link = Link(origin: Option<Key>, createdFor: string)

  datatype Receipt = Receipt(digest: nat, count: nat)

  type Links = map<string, Link>

  // ---------------------------------------------------------------- the request

  datatype Error = InvalidInput | InvalidTargetURL

  predicate TargetShape(targets: seq<string>, i: nat)
    requires i < |targets|
  {
    && 1 <= |targets[i]| <= 2048 && targets[i] !in targets[..i]
    && forall j :: 0 <= j < |targets[i]| ==> 0x21 <= targets[i][j] as int <= 0x7e
  }

  predicate GoodTarget(valid: string -> bool, targets: seq<string>, i: nat)
    requires i < |targets|
  {
    TargetShape(targets, i) && valid(targets[i])
  }

  predicate GoodBatch(valid: string -> bool, targets: seq<string>) {
    1 <= |targets| <= 20 && forall i :: 0 <= i < |targets| ==> GoodTarget(valid, targets, i)
  }

  lemma GoodBatchIsDistinct(valid: string -> bool, targets: seq<string>)
    requires GoodBatch(valid, targets)
    ensures Distinct(targets)
  {
    forall i, j | 0 <= i < j < |targets| ensures targets[i] != targets[j] {
      assert GoodTarget(valid, targets, j) && targets[i] in targets[..j];
    }
  }

  /** One to twenty different targets of up to 2048 visible ASCII characters, each a valid URL. */
  lemma GoodBatchMeans(valid: string -> bool, targets: seq<string>)
    ensures GoodBatch(valid, targets) <==>
            && 1 <= |targets| <= 20
            && (forall i, j :: 0 <= i < j < |targets| ==> targets[i] != targets[j])
            && forall i :: 0 <= i < |targets| ==>
                 && 1 <= |targets[i]| <= 2048 && valid(targets[i])
                 && forall k :: 0 <= k < |targets[i]| ==> '!' <= targets[i][k] <= '~'
  {
    if GoodBatch(valid, targets) {
      GoodBatchIsDistinct(valid, targets);
      forall i | 0 <= i < |targets|
        ensures 1 <= |targets[i]| <= 2048 && valid(targets[i])
        ensures forall k :: 0 <= k < |targets[i]| ==> '!' <= targets[i][k] <= '~'
      {
        assert GoodTarget(valid, targets, i);
      }
    }
  }

  /** `valid` stands for the URL check itself; the first bad target decides the error. */
  method NormalizeBulkCreate(valid: string -> bool, canonicalId: bool, targets: seq<string>)
    returns (error: Option<Error>)
    ensures error.None? <==> canonicalId && GoodBatch(valid, targets)
    ensures error.None? ==> Distinct(targets)
    ensures error == Some(InvalidTargetURL) <==>
            && canonicalId && 1 <= |targets| <= 20
            && exists i :: 0 <= i < |targets| && TargetShape(targets, i) && !GoodTarget(valid, targets, i)
                           && forall j :: 0 <= j < i ==> GoodTarget(valid, targets, j)
  {
    if !canonicalId || |targets| < 1 || |targets| > 20 { return Some(InvalidInput); }
    var seen: set<string> := {};
    for i := 0 to |targets|
      invariant forall j :: 0 <= j < i ==> GoodTarget(valid, targets, j)
      invariant forall t :: t in seen <==> t in targets[..i]
    {
      var target := targets[i];
      assert targets[..i + 1] == targets[..i] + [target];
      if |target| < 1 || |target| > 2048 || target in seen {
        assert !TargetShape(targets, i) && !GoodTarget(valid, targets, i);
        return Some(InvalidInput);
      }
      for j := 0 to |target|
        invariant forall k :: 0 <= k < j ==> 0x21 <= target[k] as int <= 0x7e
      {
        if (target[j] as int) < 0x21 || target[j] as int > 0x7e {
          assert !GoodTarget(valid, targets, i);
          return Some(InvalidInput);
        }
      }
      if !valid(target) {
        assert TargetShape(targets, i) && !GoodTarget(valid, targets, i);
        return Some(InvalidTargetURL);
      }
      seen := seen + {target};
    }
    GoodBatchIsDistinct(valid, targets);
    return None;
  }

  // ---------------------------------------------------------------- one call

  predicate Reserved(slug: string) { Lower(slug) in RESERVED }

  /** The first path segments the site itself uses, in any spelling of their letters. */
  lemma ReservedMeans(slug: string)
    ensures Reserved(slug) <==>
            Lower(slug) in ["api", "assets", "icons", "setup", "login", "profile", "console", "link", "links",
                            "analytics", "admin", "go"]
  {
  }

  /** The first attempt from `attempt` on whose slug is neither reserved nor taken. */
  function Pick(taken: set<string>, slugs: nat -> string, attempt: nat): Option<string>
    decreases MAX_SLUG_ATTEMPTS - attempt
  {
    if attempt >= MAX_SLUG_ATTEMPTS then None
    else if Reserved(slugs(attempt)) || slugs(attempt) in taken then Pick(taken, slugs, attempt + 1)
    else Some(slugs(attempt))
  }

  /** One slug per target from `n` on, each avoiding those before it; None when attempts run out. */
  function PickAll(taken: set<string>, slugs: nat -> nat -> string, n: nat, count: nat): Option<seq<string>>
    requires n <= count
    decreases count - n
  {
    if n == count then Some([])
    else
      var slug := Pick(taken, slugs(n), 0);
      if slug.None? then None
      else
        var rest := PickAll(taken + {slug.value}, slugs, n + 1, count);
        if rest.None? then None else Some([slug.value] + rest.value)
  }

  predicate Usable(taken: set<string>, slug: string) { slug !in taken && !Reserved(slug) }

  /** Eight candidates are drawn at most, and the first usable one is taken. */
  lemma PickMeans(taken: set<string>, slugs: nat -> string)
    ensures Pick(taken, slugs, 0) == None <==> forall a: nat :: a < 8 ==> !Usable(taken, slugs(a))
    ensures forall s :: Pick(taken, slugs, 0) == Some(s) <==>
              exists a: nat :: a < 8 && s == slugs(a) && Usable(taken, slugs(a))
                && forall b: nat :: b < a ==> !Usable(taken, slugs(b))
  {
    FirstUsable(taken, slugs, 0);
  }

  lemma {:induction false} FirstUsable(taken: set<string>, slugs: nat -> string, attempt: nat)
    requires attempt <= 8
    ensures var r := Pick(taken, slugs, attempt);
            && (r.None? ==> forall a: nat :: attempt <= a < 8 ==> !Usable(taken, slugs(a)))
            && (r.Some? ==> exists a: nat :: attempt <= a < 8 && r.value == slugs(a) && Usable(taken, slugs(a))
                              && forall b: nat :: attempt <= b < a ==> !Usable(taken, slugs(b)))
    decreases 8 - attempt
  {
    if attempt < 8 && !Usable(taken, slugs(attempt)) { FirstUsable(taken, slugs, attempt + 1); }
  }

  /** Each target in turn takes its first candidate that neither was taken before nor by an earlier target. */
  lemma {:induction false} PickAllMeans(taken: set<string>, slugs: nat -> nat -> string, n: nat, count: nat, i: nat)
    requires n <= count && PickAll(taken, slugs, n, count).Some? && i < count - n
    ensures var made := PickAll(taken, slugs, n, count).value;
            && |made| == count - n && Pick(taken + Elements(made[..i]), slugs(n + i), 0) == Some(made[i])
    decreases count - n
  {
    PickedAreFresh(taken, slugs, n, count);
    var made := PickAll(taken, slugs, n, count).value;
    var first := Pick(taken, slugs(n), 0).value;
    if i == 0 {
      assert taken + Elements(made[..0]) == taken;
    } else {
      PickAllMeans(taken + {first}, slugs, n + 1, count, i - 1);
      var rest := PickAll(taken + {first}, slugs, n + 1, count).value;
      assert made[..i] == [first] + rest[..i - 1];
      assert taken + Elements(made[..i]) == (taken + {first}) + Elements(rest[..i - 1]);
    }
  }

  /** Picked slugs are fresh, distinct and unreserved. */
  lemma {:induction false} PickedAreFresh(taken: set<string>, slugs: nat -> nat -> string, n: nat, count: nat)
    requires n <= count && PickAll(taken, slugs, n, count).Some?
    ensures var made := PickAll(taken, slugs, n, count).value;
            && |made| == count - n
            && (forall i :: 0 <= i < |made| ==> made[i] !in taken && !Reserved(made[i]))
            && Distinct(made)
    decreases count - n
  {
    if n < count {
      PickIsFree(taken, slugs(n), 0);
      PickedAreFresh(taken + {Pick(taken, slugs(n), 0).value}, slugs, n + 1, count);
    }
  }

  lemma {:induction false} PickIsFree(taken: set<string>, slugs: nat -> string, attempt: nat)
    requires Pick(taken, slugs, attempt).Some?
    ensures var s := Pick(taken, slugs, attempt).value;
            s !in taken && !Reserved(s) && exists a :: attempt <= a < MAX_SLUG_ATTEMPTS && s == slugs(a)
    decreases MAX_SLUG_ATTEMPTS - attempt
  {
    if Reserved(slugs(attempt)) || slugs(attempt) in taken { PickIsFree(taken, slugs, attempt + 1); }
  }

  function AddLinks(links: Links, key: Key, targets: seq<string>, made: seq<string>): Links
    requires |made| <= |targets|
  {
    if made == [] then links
    else
      var n := |made| - 1;
      AddLinks(links, key, targets, made[..n])[made[n] := Link(Some(key), targets[n])]
  }

  /** Every target has its link under its own slug, and every other link is the identical one. */
  predicate LinksAdded(before: Links, after: Links, key: Key, targets: seq<string>, made: seq<string>) {
    && |made| <= |targets| && after.Keys == before.Keys + Elements(made)
    && (forall i :: 0 <= i < |made| ==> after[made[i]] == Link(Some(key), targets[i]))
    && (forall s :: s in before && s !in made ==> after[s] == before[s])
  }

  lemma {:induction false} AddMeans(links: Links, key: Key, targets: seq<string>, made: seq<string>)
    requires |made| <= |targets| && Distinct(made)
    ensures LinksAdded(links, AddLinks(links, key, targets, made), key, targets, made)
  {
    if made != [] {
      var n := |made| - 1;
      AddMeans(links, key, targets, made[..n]);
      assert made == made[..n] + [made[n]];
      assert Elements(made) == Elements(made[..n]) + {made[n]};
      var after := AddLinks(links, key, targets, made);
      forall i | 0 <= i < |made| ensures after[made[i]] == Link(Some(key), targets[i]) {
        if i < n { assert made[..n][i] == made[i]; }
      }
    }
  }

  datatype Reply =
    | Denied | Conflict | DomainUnavailable | SlugConflict
    | Replayed(count: nat)
    | Created(count: nat)

  ghost predicate Continues(whole: Option<seq<string>>, done: seq<string>, rest: Option<seq<string>>) {
    whole == if rest.None? then None else Some(done + rest.value)
  }

  lemma ContinuesWith(whole: Option<seq<string>>, done: seq<string>, next: string, rest: Option<seq<string>>)
    requires Continues(whole, done, if rest.None? then None else Some([next] + rest.value))
    ensures Continues(whole, done + [next], rest)
  {
    if rest.Some? { assert done + ([next] + rest.value) == (done + [next]) + rest.value; }
  }

  /** The answer of one undisturbed call; `slugs` are the candidates it would draw. */
  function BatchReply(links: Links, receipts: map<Key, Receipt>, key: Key, digest: nat, targets: seq<string>,
                      allowed: bool, domainAvailable: bool, slugs: nat -> nat -> string): Reply {
    if !allowed then Denied
    else if key in receipts
    then if receipts[key].digest == digest then Replayed(receipts[key].count) else Conflict
    else if !domainAvailable then DomainUnavailable
    else if PickAll(links.Keys, slugs, 0, |targets|).None? then SlugConflict
    else Created(|targets|)
  }

  /** A stored receipt answers before anything else is looked at, with its own count or not at all. */
  lemma BatchReplyMeans(links: Links, receipts: map<Key, Receipt>, key: Key, digest: nat, targets: seq<string>,
                        allowed: bool, domainAvailable: bool, slugs: nat -> nat -> string)
    ensures var reply := BatchReply(links, receipts, key, digest, targets, allowed, domainAvailable, slugs);
            var unseen := allowed && key !in receipts;
            && (reply == Denied <==> !allowed)
            && (reply == Conflict <==> allowed && key in receipts && receipts[key].digest != digest)
            && (reply.Replayed? <==> allowed && key in receipts && receipts[key].digest == digest)
            && (reply.Replayed? ==> reply.count == receipts[key].count)
            && (reply == DomainUnavailable <==> unseen && !domainAvailable)
            && (reply == SlugConflict <==>
                  unseen && domainAvailable && PickAll(links.Keys, slugs, 0, |targets|) == None)
            && (reply.Created? ==> reply.count == |targets|)
  {
  }

  class LinkStore {
    var links: Links
    var receipts: map<Key, Receipt>

    /** Inserts one link under the first usable slug; a taken slug inserts nothing and is retried. */
    method CreateOne(key: Key, target: string, slugs: nat -> string) returns (made: Option<string>)
      modifies this`links
      ensures made == Pick(old(links).Keys, slugs, 0)
      ensures links == if made.None? then old(links) else old(links)[made.value := Link(Some(key), target)]
    {
      made := None;
      var attempt := 0;
      while attempt < MAX_SLUG_ATTEMPTS
        invariant attempt <= MAX_SLUG_ATTEMPTS
        invariant Pick(old(links).Keys, slugs, 0) == Pick(old(links).Keys, slugs, attempt)
        invariant made.None? && links == old(links)
      {
        var slug := slugs(attempt);
        attempt := attempt + 1;
        if Reserved(slug) { continue; }
        if slug !in links {
          links := links[slug := Link(Some(key), target)];
          made := Some(slug);
          return;
        }
      }
    }

    /** One link per target, in order. */
    method CreateAll(key: Key, targets: seq<string>, slugs: nat -> nat -> string) returns (made: Option<seq<string>>)
      modifies this`links
      ensures made == PickAll(old(links).Keys, slugs, 0, |targets|)
      ensures made.Some? ==> |made.value| == |targets| && links == AddLinks(old(links), key, targets, made.value)
    {
      var list: seq<string> := [];
      ghost var picked := PickAll(links.Keys, slugs, 0, |targets|);
      assert picked.Some? ==> picked.value == list + picked.value;
      for n := 0 to |targets|
        invariant |list| == n
        invariant links == AddLinks(old(links), key, targets, list)
        invariant Continues(picked, list, PickAll(links.Keys, slugs, n, |targets|))
      {
        ghost var taken := links.Keys;
        var slug := CreateOne(key, targets[n], slugs(n));
        if slug.None? { return None; }
        assert links.Keys == taken + {slug.value};
        ContinuesWith(picked, list, slug.value, PickAll(links.Keys, slugs, n + 1, |targets|));
        list := list + [slug.value];
        assert list[..n] == list[..|list| - 1];
      }
      assert list + [] == list;
      return Some(list);
    }

    /**
     A receipt with the same digest answers with its own count; with another digest it conflicts.
     Otherwise every link and the receipt are written together, or nothing is.
     */
    method BatchCreate(key: Key, digest: nat, targets: seq<string>, allowed: bool, domainAvailable: bool,
                       slugs: nat -> nat -> string)
      returns (reply: Reply)
      modifies this
      ensures !reply.Created? ==> links == old(links) && receipts == old(receipts)
      ensures reply == BatchReply(old(links), old(receipts), key, digest, targets, allowed, domainAvailable, slugs)
      ensures reply.Created? ==>
                && var picked := PickAll(old(links).Keys, slugs, 0, |targets|);
                && picked.Some? && |picked.value| == |targets|
                && links == AddLinks(old(links), key, targets, picked.value)
                && LinksAdded(old(links), links, key, targets, picked.value)
                && receipts == old(receipts)[key := Receipt(digest, |targets|)]
    {
      if !allowed { return Denied; }
      if key in receipts {
        if receipts[key].digest != digest { return Conflict; }
        return Replayed(receipts[key].count);
      }
      if !domainAvailable { return DomainUnavailable; }
      var committed := links;
      var made := CreateAll(key, targets, slugs);
      if made.None? {
        links := committed;
        return SlugConflict;
      }
      PickedAreFresh(committed.Keys, slugs, 0, |targets|);
      AddMeans(committed, key, targets, made.value);
      receipts := receipts[key := Receipt(digest, |targets|)];
      return Created(|targets|);
    }
  }
}
