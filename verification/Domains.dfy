/**
 The short-link domain registry. Domain writes hold an exclusive advisory lock, link
 creation the shared one. One default exists, it is enabled and mirrored in a setting,
 authorities are unique, and the address of a domain with links never changes.

 Origin parsing is a parameter: `authority` is the canonical authority of a stored
 origin or legacy host, `normalize` the canonical origin of new input.
 */
module Domains {
  import opened Common
  import opened Revisions

  datatype Mode = Direct | Intermediate | Confirmation

  datatype Domain = Domain(
    host: string, name: string, shortLinks: bool, enabled: bool, isDefault: bool, sortOrder: int, redirectMode: Mode,
    updatedAt: int)

  /** `links` maps each link to its domain, deleted links included; `mirror` is the legacy default-host setting. */
  datatype Db = Db(
    domains: map<string, Domain>, grants: map<string, set<string>>, links: map<string, string>, mirror: Option<string>)

  datatype Error = InvalidInput | NotFound | VersionConflict | Protected | Referenced | DomainConflict

  datatype Parsers = Parsers(
    authority: string -> Option<string>, normalize: string -> Option<string>, trim: string -> string)

  datatype Op =
    | Create(id: string, host: string, name: string, groups: Option<seq<string>>, enabled: bool, now: int)
    | Update(id: string, expected: int, host: string, name: string, groups: Option<seq<string>>,
             enabled: bool, now: int)
    | SetDefault(id: string, expected: int, now: int)
    | Delete(id: string, expected: int)
    | SetOrder(id: string, expected: int, order: int, now: int)
    | SetRedirectDefault(id: string, expected: int, mode: Mode, now: int)

  // ---------------------------------------------------------------- what each write does

  predicate GroupsOk(groups: Option<seq<string>>) {
    && groups.Some? && |groups.value| <= 2
    && (forall g :: g in groups.value ==> g == "user" || g == "admin")
    && (forall i, j :: 0 <= i < j < |groups.value| ==> groups.value[i] != groups.value[j])
  }

  predicate NameOk(name: string) { 1 <= |name| <= 80 }

  function GroupSet(groups: seq<string>): set<string> { set g | g in groups }

  predicate SameAuthority(a: string, b: string, authority: string -> Option<string>) {
    a == b || (authority(a).Some? && authority(a) == authority(b))
  }

  predicate AuthorityTaken(db: Db, host: string, except: Option<string>, authority: string -> Option<string>) {
    exists id :: id in db.domains && Some(id) != except && SameAuthority(host, db.domains[id].host, authority)
  }

  predicate HasLinks(db: Db, id: string) { exists l :: l in db.links && db.links[l] == id }

  predicate Managed(db: Db, id: string) { id in db.domains && db.domains[id].shortLinks }

  function Bumped(d: Domain, now: int): Domain { d.(updatedAt := NextRevision(now, d.updatedAt)) }

  /** Every other default is cleared; a domain that is the default already is only touched. */
  function WithDefault(domains: map<string, Domain>, id: string, now: int): map<string, Domain>
    requires id in domains
  {
    map k | k in domains ::
      if k == id then Bumped(domains[k], now).(isDefault := true)
      else if !domains[id].isDefault && domains[k].isDefault && domains[k].shortLinks
      then Bumped(domains[k], now).(isDefault := false)
      else domains[k]
  }

  function Written(db: Db, op: Op, p: Parsers): Result<Db, Error> {
    match op
    case Create(id, raw, name, groups, enabled, now) =>
      if p.normalize(raw).None? || !NameOk(p.trim(name)) || !GroupsOk(groups) then Err(InvalidInput)
      else
        var host := p.normalize(raw).value;
        if AuthorityTaken(db, host, None, p.authority) then Err(DomainConflict)
        else Ok(db.(domains := db.domains[id := Domain(host, p.trim(name), true, enabled, false, 0, Direct, now)],
                    grants := db.grants[id := GroupSet(groups.value)]))
    case Update(id, expected, raw, name, groups, enabled, now) =>
      if !Managed(db, id) then Err(NotFound)
      else
        var d := db.domains[id];
        if d.updatedAt != expected then Err(VersionConflict)
        else if raw != d.host && p.normalize(raw).None? then Err(InvalidInput)
        else
          var host := if raw == d.host then d.host else p.normalize(raw).value;
          if !NameOk(p.trim(name)) || !GroupsOk(groups) then Err(InvalidInput)
          else if d.isDefault && !enabled then Err(Protected)
          else if HasLinks(db, id) && host != d.host then Err(Referenced)
          else if AuthorityTaken(db, host, Some(id), p.authority) then Err(DomainConflict)
          else
            var row := Bumped(d, now).(host := host, name := p.trim(name), enabled := enabled);
            Ok(db.(domains := db.domains[id := row],
                   grants := db.grants[id := GroupSet(groups.value)],
                   mirror := if d.isDefault then Some(host) else db.mirror))
    case SetDefault(id, expected, now) =>
      if !Managed(db, id) then Err(NotFound)
      else
        var d := db.domains[id];
        if d.updatedAt != expected then Err(VersionConflict)
        else if !d.enabled then Err(Protected)
        else Ok(db.(domains := WithDefault(db.domains, id, now), mirror := Some(d.host)))
    case Delete(id, expected) =>
      if !Managed(db, id) then Err(NotFound)
      else
        var d := db.domains[id];
        if d.updatedAt != expected then Err(VersionConflict)
        else if d.isDefault then Err(Protected)
        else if HasLinks(db, id) then Err(Referenced)
        else Ok(db.(domains := db.domains - {id}, grants := db.grants - {id}))
    case SetOrder(id, expected, order, now) =>
      if order < -10000 || order > 10000 then Err(InvalidInput)
      else if !Managed(db, id) then Err(NotFound)
      else
        var d := db.domains[id];
        if d.updatedAt != expected then Err(VersionConflict)
        else if d.sortOrder == order then Ok(db)
        else Ok(db.(domains := db.domains[id := Bumped(d, now).(sortOrder := order)]))
    case SetRedirectDefault(id, expected, mode, now) =>
      if !Managed(db, id) then Err(NotFound)
      else
        var d := db.domains[id];
        if d.updatedAt != expected then Err(VersionConflict)
        else if d.redirectMode == mode then Ok(db)
        else Ok(db.(domains := db.domains[id := Bumped(d, now).(redirectMode := mode)]))
  }

  // ---------------------------------------------------------------- what each write does, field by field

  /** No two names, and none but these. */
  lemma GroupsMean(groups: Option<seq<string>>)
    ensures GroupsOk(groups) <==>
            || groups == Some([]) || groups == Some(["user"]) || groups == Some(["admin"])
            || groups == Some(["user", "admin"]) || groups == Some(["admin", "user"])
  {
    if groups.Some? && GroupsOk(groups) {
      var g := groups.value;
      if |g| == 1 {
        assert g[0] in g && g == [g[0]];
      } else if |g| == 2 {
        assert g[0] in g && g[1] in g && g == [g[0], g[1]];
      }
    }
  }

  /** Some other domain has the very host, or one with the same authority. */
  ghost predicate Clash(db: Db, host: string, except: Option<string>, authority: string -> Option<string>) {
    exists id :: id in db.domains && Some(id) != except &&
      (db.domains[id].host == host ||
       (authority(host).Some? && authority(host) == authority(db.domains[id].host)))
  }

  /** One domain is written; links and all other rows are the identical ones. */
  ghost predicate OnlyAt(a: Db, b: Db, id: string) {
    && b.links == a.links
    && (forall k :: k != id ==> (k in b.domains <==> k in a.domains) && (k in b.grants <==> k in a.grants))
    && (forall k :: k != id && k in a.domains ==> b.domains[k] == a.domains[k])
    && (forall k :: k != id && k in a.grants ==> b.grants[k] == a.grants[k])
  }

  lemma CreateMeans(db: Db, op: Op, p: Parsers)
    ensures op.Create? ==>
              var host, w := p.normalize(op.host), Written(db, op, p);
              var good := host.Some? && 1 <= |p.trim(op.name)| <= 80 && GroupsOk(op.groups);
              && (w == Err(InvalidInput) <==> !good)
              && (w == Err(DomainConflict) <==> good && Clash(db, host.value, None, p.authority))
              && (w.Ok? <==> good && !Clash(db, host.value, None, p.authority))
              && (w.Ok? ==>
                    && OnlyAt(db, w.value, op.id) && w.value.mirror == db.mirror && op.id in w.value.domains
                    && w.value.domains[op.id]
                       == Domain(host.value, p.trim(op.name), true, op.enabled, false, 0, Direct, op.now)
                    && op.id in w.value.grants && w.value.grants[op.id] == set g | g in op.groups.value)
  {
    if op.Create? && p.normalize(op.host).Some? {
      ClashIs(db, p.normalize(op.host).value, None, p.authority);
    }
  }

  lemma ClashIs(db: Db, host: string, except: Option<string>, authority: string -> Option<string>)
    ensures Clash(db, host, except, authority) <==> AuthorityTaken(db, host, except, authority)
  {
    if Clash(db, host, except, authority) {
      var id :| id in db.domains && Some(id) != except &&
        (db.domains[id].host == host || (authority(host).Some? && authority(host) == authority(db.domains[id].host)));
      assert SameAuthority(host, db.domains[id].host, authority);
    }
  }

  /** The guards every later write starts with; an id outside the short-link domains is not found. */
  lemma FirstGuards(db: Db, op: Op, p: Parsers)
    ensures !op.Create? && (op.SetOrder? ==> -10000 <= op.order <= 10000) ==>
              && (Written(db, op, p) == Err(NotFound) <==> op.id !in db.domains || !db.domains[op.id].shortLinks)
              && (Written(db, op, p) == Err(VersionConflict) <==>
                    op.id in db.domains && db.domains[op.id].shortLinks && db.domains[op.id].updatedAt != op.expected)
    ensures op.SetOrder? && !(-10000 <= op.order <= 10000) ==> Written(db, op, p) == Err(InvalidInput)
  {
  }

  /** It is this version of this domain that the write names. */
  predicate Current(db: Db, op: Op) {
    !op.Create? && op.id in db.domains && db.domains[op.id].shortLinks && db.domains[op.id].updatedAt == op.expected
  }

  /** The version of a row that was written: later than the one before, and no earlier than the clock. */
  predicate Later(a: Domain, b: Domain, now: int) {
    b.updatedAt > a.updatedAt && b.updatedAt >= now && (b.updatedAt == now || b.updatedAt == a.updatedAt + 1)
  }

  function NewHost(normalized: Option<string>): string { if normalized.None? then "" else normalized.value }

  lemma UpdateMeans(db: Db, op: Op, p: Parsers)
    ensures op.Update? && Current(db, op) ==>
              var d, w := db.domains[op.id], Written(db, op, p);
              var known := op.host == d.host || p.normalize(op.host).Some?;
              var good := known && 1 <= |p.trim(op.name)| <= 80 && GroupsOk(op.groups);
              var host := if op.host == d.host then d.host else NewHost(p.normalize(op.host));
              var moves := host != d.host && exists l :: l in db.links && db.links[l] == op.id;
              && (w == Err(InvalidInput) <==> !good)
              && (w == Err(Protected) <==> good && d.isDefault && !op.enabled)
              && (w == Err(Referenced) <==> good && (d.isDefault ==> op.enabled) && moves)
              && (w == Err(DomainConflict) <==>
                    good && (d.isDefault ==> op.enabled) && !moves && Clash(db, host, Some(op.id), p.authority))
              && (w.Ok? <==>
                    good && (d.isDefault ==> op.enabled) && !moves && !Clash(db, host, Some(op.id), p.authority))
              && (w.Ok? ==> Renamed(db, w.value, op, host, p.trim(op.name)))
  {
    if op.Update? && Current(db, op) {
      var d := db.domains[op.id];
      ClashIs(db, if op.host == d.host then d.host else NewHost(p.normalize(op.host)), Some(op.id), p.authority);
    }
  }

  /** Address, name, state and grants are the requested ones; purpose, default, order and mode stay. */
  ghost predicate Renamed(a: Db, b: Db, op: Op, host: string, name: string)
    requires op.Update? && op.id in a.domains && op.groups.Some?
  {
    && OnlyAt(a, b, op.id) && op.id in b.domains && op.id in b.grants
    && var d, e := a.domains[op.id], b.domains[op.id];
       && e.host == host && e.name == name && e.enabled == op.enabled && Later(d, e, op.now)
       && e.shortLinks == d.shortLinks && e.isDefault == d.isDefault
       && e.sortOrder == d.sortOrder && e.redirectMode == d.redirectMode
       && b.grants[op.id] == (set g | g in op.groups.value)
       && b.mirror == if d.isDefault then Some(host) else a.mirror
  }

  /** Same row, except for its version and whether it is the default. */
  predicate Flagged(a: Domain, b: Domain, isDefault: bool, now: int) {
    && b.isDefault == isDefault && Later(a, b, now)
    && b.host == a.host && b.name == a.name && b.shortLinks == a.shortLinks && b.enabled == a.enabled
    && b.sortOrder == a.sortOrder && b.redirectMode == a.redirectMode
  }

  lemma SetDefaultMeans(db: Db, op: Op, p: Parsers)
    ensures op.SetDefault? && Current(db, op) ==>
              var d, w := db.domains[op.id], Written(db, op, p);
              && (w == Err(Protected) <==> !d.enabled)
              && (w.Ok? <==> d.enabled)
              && (w.Ok? ==>
                    && w.value.links == db.links && w.value.grants == db.grants
                    && w.value.mirror == Some(d.host) && w.value.domains.Keys == db.domains.Keys
                    && Flagged(d, w.value.domains[op.id], true, op.now)
                    && forall k :: k in db.domains && k != op.id ==>
                         if !d.isDefault && db.domains[k].isDefault && db.domains[k].shortLinks
                         then Flagged(db.domains[k], w.value.domains[k], false, op.now)
                         else w.value.domains[k] == db.domains[k])
  {
  }

  lemma DeleteMeans(db: Db, op: Op, p: Parsers)
    ensures op.Delete? && Current(db, op) ==>
              var d, w := db.domains[op.id], Written(db, op, p);
              var linked := exists l :: l in db.links && db.links[l] == op.id;
              && (w == Err(Protected) <==> d.isDefault)
              && (w == Err(Referenced) <==> !d.isDefault && linked)
              && (w.Ok? <==> !d.isDefault && !linked)
              && (w.Ok? ==>
                    && OnlyAt(db, w.value, op.id) && w.value.mirror == db.mirror
                    && op.id !in w.value.domains && op.id !in w.value.grants)
  {
  }

  /** A configuration write replaces one field of one row, or nothing at all when it is stored already. */
  lemma ConfigurationMeans(db: Db, op: Op, p: Parsers)
    ensures Current(db, op) && (op.SetRedirectDefault? || (op.SetOrder? && -10000 <= op.order <= 10000)) ==>
              var d, w := db.domains[op.id], Written(db, op, p);
              && w.Ok? && OnlyAt(db, w.value, op.id) && w.value.mirror == db.mirror && w.value.grants == db.grants
              && op.id in w.value.domains
              && var e := w.value.domains[op.id];
                 && e.host == d.host && e.name == d.name && e.shortLinks == d.shortLinks && e.enabled == d.enabled
                 && e.isDefault == d.isDefault
                 && e.sortOrder == (if op.SetOrder? then op.order else d.sortOrder)
                 && e.redirectMode == (if op.SetRedirectDefault? then op.mode else d.redirectMode)
                 && (e.sortOrder == d.sortOrder && e.redirectMode == d.redirectMode ==> e == d)
                 && (e == d || Later(d, e, op.now))
  {
  }

  // ---------------------------------------------------------------- what every write keeps

  ghost predicate Consistent(db: Db, authority: string -> Option<string>) {
    && (exists id :: id in db.domains && db.domains[id].isDefault)
    && (forall id :: id in db.domains && db.domains[id].isDefault ==>
          db.domains[id].enabled && db.domains[id].shortLinks && db.mirror == Some(db.domains[id].host))
    && (forall a, b :: a in db.domains && b in db.domains && a != b ==>
          && !(db.domains[a].isDefault && db.domains[b].isDefault)
          && !SameAuthority(db.domains[a].host, db.domains[b].host, authority))
    && (forall l :: l in db.links ==> db.links[l] in db.domains)
  }

  /** Links stay on their domain, and that domain keeps its address. */
  ghost predicate LinksKept(a: Db, b: Db) {
    forall l :: l in a.links ==>
      && l in b.links && b.links[l] == a.links[l]
      && (a.links[l] in a.domains ==>
            b.links[l] in b.domains && b.domains[b.links[l]].host == a.domains[a.links[l]].host)
  }

  /** Adding or replacing one row whose authority nobody else has, without moving the default. */
  lemma PutKeeps(db: Db, id: string, d: Domain, grants: map<string, set<string>>, mirror: Option<string>,
                 authority: string -> Option<string>)
    requires Consistent(db, authority)
    requires forall a :: a in db.domains && a != id ==> !SameAuthority(d.host, db.domains[a].host, authority)
    requires d.isDefault <==> id in db.domains && db.domains[id].isDefault
    requires if d.isDefault then d.enabled && d.shortLinks && mirror == Some(d.host) else mirror == db.mirror
    ensures Consistent(db.(domains := db.domains[id := d], grants := grants, mirror := mirror), authority)
  {
    var n := db.(domains := db.domains[id := d], grants := grants, mirror := mirror);
    var k :| k in db.domains && db.domains[k].isDefault;
    assert n.domains[k].isDefault;
    forall a, b | a in n.domains && b in n.domains && a != b
      ensures !SameAuthority(n.domains[a].host, n.domains[b].host, authority)
    {
      if a == id { assert n.domains[b] == db.domains[b]; } else if b == id { assert n.domains[a] == db.domains[a]; }
    }
  }

  lemma PutKeepsLinks(db: Db, id: string, d: Domain, grants: map<string, set<string>>, mirror: Option<string>)
    requires id in db.domains && HasLinks(db, id) ==> d.host == db.domains[id].host
    ensures LinksKept(db, db.(domains := db.domains[id := d], grants := grants, mirror := mirror))
  {
    forall l | l in db.links && db.links[l] == id && id in db.domains ensures HasLinks(db, id) {
    }
  }

  lemma FreeAuthority(db: Db, host: string, except: Option<string>, authority: string -> Option<string>)
    requires !AuthorityTaken(db, host, except, authority)
    ensures forall a :: a in db.domains && Some(a) != except ==> !SameAuthority(host, db.domains[a].host, authority)
  {
  }

  lemma CreateKeeps(db: Db, op: Op, p: Parsers)
    requires Consistent(db, p.authority) && op.Create? && op.id !in db.domains && Written(db, op, p).Ok?
    ensures Consistent(Written(db, op, p).value, p.authority) && LinksKept(db, Written(db, op, p).value)
  {
    var n := Written(db, op, p).value;
    FreeAuthority(db, n.domains[op.id].host, None, p.authority);
    PutKeeps(db, op.id, n.domains[op.id], n.grants, n.mirror, p.authority);
    PutKeepsLinks(db, op.id, n.domains[op.id], n.grants, n.mirror);
  }

  lemma UpdateKeeps(db: Db, op: Op, p: Parsers)
    requires Consistent(db, p.authority) && op.Update? && Written(db, op, p).Ok?
    ensures Consistent(Written(db, op, p).value, p.authority) && LinksKept(db, Written(db, op, p).value)
  {
    var n := Written(db, op, p).value;
    FreeAuthority(db, n.domains[op.id].host, Some(op.id), p.authority);
    PutKeeps(db, op.id, n.domains[op.id], n.grants, n.mirror, p.authority);
    PutKeepsLinks(db, op.id, n.domains[op.id], n.grants, n.mirror);
  }

  lemma ConfigurationKeeps(db: Db, op: Op, p: Parsers)
    requires Consistent(db, p.authority) && (op.SetOrder? || op.SetRedirectDefault?) && Written(db, op, p).Ok?
    ensures Consistent(Written(db, op, p).value, p.authority) && LinksKept(db, Written(db, op, p).value)
  {
    var n := Written(db, op, p).value;
    if n != db {
      PutKeeps(db, op.id, n.domains[op.id], n.grants, n.mirror, p.authority);
      PutKeepsLinks(db, op.id, n.domains[op.id], n.grants, n.mirror);
    }
  }

  lemma SetDefaultKeeps(db: Db, op: Op, p: Parsers)
    requires Consistent(db, p.authority) && op.SetDefault? && Written(db, op, p).Ok?
    ensures Consistent(Written(db, op, p).value, p.authority) && LinksKept(db, Written(db, op, p).value)
    ensures Written(db, op, p).value.domains[op.id].isDefault
  {
    var n := Written(db, op, p).value;
    assert n.domains[op.id].isDefault;
    forall k | k in n.domains
      ensures n.domains[k].host == db.domains[k].host && (n.domains[k].isDefault ==> k == op.id)
    {
    }
  }

  lemma DeleteKeeps(db: Db, op: Op, p: Parsers)
    requires Consistent(db, p.authority) && op.Delete? && Written(db, op, p).Ok?
    ensures Consistent(Written(db, op, p).value, p.authority) && LinksKept(db, Written(db, op, p).value)
  {
    var n := Written(db, op, p).value;
    var d :| d in db.domains && db.domains[d].isDefault;
    assert d in n.domains && n.domains[d].isDefault;
    forall l | l in db.links ensures db.links[l] in n.domains {
      assert HasLinks(db, db.links[l]);
    }
  }

  lemma WriteKeeps(db: Db, op: Op, p: Parsers)
    requires Consistent(db, p.authority) && Written(db, op, p).Ok? && (op.Create? ==> op.id !in db.domains)
    ensures Consistent(Written(db, op, p).value, p.authority) && LinksKept(db, Written(db, op, p).value)
  {
    match op {
      case Create(_, _, _, _, _, _) => CreateKeeps(db, op, p);
      case Update(_, _, _, _, _, _, _) => UpdateKeeps(db, op, p);
      case SetDefault(_, _, _) => SetDefaultKeeps(db, op, p);
      case Delete(_, _) => DeleteKeeps(db, op, p);
      case SetOrder(_, _, _, _) => ConfigurationKeeps(db, op, p);
      case SetRedirectDefault(_, _, _, _) => ConfigurationKeeps(db, op, p);
    }
  }

  // ---------------------------------------------------------------- revisions of one write

  /** The same row, or a later revision of it; its purpose never changes. */
  predicate Advanced(a: Domain, b: Domain) { b == a || (a.updatedAt < b.updatedAt && a.shortLinks == b.shortLinks) }

  /** A write leaves every row it does not remove as it was, or gives it a later revision. */
  lemma WriteAdvances(db: Db, op: Op, p: Parsers, id: string)
    requires Written(db, op, p).Ok? && (op.Create? ==> op.id !in db.domains)
    requires id in db.domains && id in Written(db, op, p).value.domains
    ensures Advanced(db.domains[id], Written(db, op, p).value.domains[id])
  {
  }

  /** Writes that name a revision, with the input their handler lets through. */
  predicate Guarded(op: Op) {
    !op.Create? && (op.SetOrder? ==> -10000 <= op.order <= 10000)
  }

  // ---------------------------------------------------------------- writes and link creations interleaved

  datatype Progress =
    | WriteWaiting(op: Op)
    | WriteHolding(op: Op)
    | WritePrepared(op: Op, result: Db)
    | LinkWaiting(link: string)
    | LinkHolding(link: string)
    | LinkReady(link: string, domain: string, group: string, useDefault: bool)

  /** `issued` are all domain ids ever chosen: new ids are fresh random values. */
  datatype State = State(
    db: Db, exclusive: Option<nat>, sharers: set<nat>, txs: map<nat, Progress>, issued: set<string>)

  datatype Action =
    | BeginWrite(tx: nat, op: Op)
    | BeginLink(tx: nat, link: string)
    | Lock(tx: nat)
    | Execute(tx: nat)
    | ReadDomain(tx: nat, domain: string, group: string, useDefault: bool)
    | Commit(tx: nat)
    | Rollback(tx: nat)

  function Ended(s: State, tx: nat): State {
    s.(txs := s.txs - {tx}, sharers := s.sharers - {tx},
       exclusive := if s.exclusive == Some(tx) then None else s.exclusive)
  }

  /** The domain a link may be created on. */
  predicate Selectable(db: Db, domain: string, group: string, useDefault: bool) {
    && Managed(db, domain) && db.domains[domain].enabled && db.domains[domain].isDefault == useDefault
    && domain in db.grants && group in db.grants[domain]
  }

  function Step(s: State, a: Action, p: Parsers): Option<State> {
    match a
    case BeginWrite(tx, op) =>
      if tx !in s.txs && (op.Create? ==> op.id !in s.issued)
      then Some(s.(txs := s.txs[tx := WriteWaiting(op)], issued := s.issued + if op.Create? then {op.id} else {}))
      else None
    case BeginLink(tx, link) => if tx !in s.txs then Some(s.(txs := s.txs[tx := LinkWaiting(link)])) else None
    case Lock(tx) =>
      if tx !in s.txs || s.exclusive.Some? then None
      else (match s.txs[tx]
            case WriteWaiting(op) =>
              if s.sharers == {} then Some(s.(txs := s.txs[tx := WriteHolding(op)], exclusive := Some(tx))) else None
            case LinkWaiting(link) =>
              Some(s.(txs := s.txs[tx := LinkHolding(link)], sharers := s.sharers + {tx}))
            case _ => None)
    case Execute(tx) =>
      if tx in s.txs && s.txs[tx].WriteHolding? && Written(s.db, s.txs[tx].op, p).Ok?
      then Some(s.(txs := s.txs[tx := WritePrepared(s.txs[tx].op, Written(s.db, s.txs[tx].op, p).value)])) else None
    case ReadDomain(tx, domain, group, useDefault) =>
      if tx in s.txs && s.txs[tx].LinkHolding? && Selectable(s.db, domain, group, useDefault)
      then Some(s.(txs := s.txs[tx := LinkReady(s.txs[tx].link, domain, group, useDefault)])) else None
    case Commit(tx) =>
      if tx !in s.txs then None
      else (match s.txs[tx]
            case WritePrepared(_, result) => Some(Ended(s.(db := result), tx))
            case LinkReady(link, domain, _, _) =>
              if link !in s.db.links
              then Some(Ended(s.(db := s.db.(links := s.db.links[link := domain])), tx))
              else None
            case _ => None)
    case Rollback(tx) => if tx in s.txs then Some(Ended(s, tx)) else None
  }

  function Run(s: State, acts: seq<Action>, p: Parsers): Option<State>
    decreases |acts|
  {
    if acts == [] then Some(s)
    else
      var n := Step(s, acts[0], p);
      if n.None? then None else Run(n.value, acts[1..], p)
  }

  /** The domain a write under way is going to create. */
  function Creating(progress: Progress): Option<string> {
    if (progress.WriteWaiting? || progress.WriteHolding? || progress.WritePrepared?) && progress.op.Create?
    then Some(progress.op.id) else None
  }

  /** Ids are used once: those being created are chosen, distinct and not stored yet. */
  ghost predicate IdsFresh(s: State) {
    && s.db.domains.Keys <= s.issued
    && (forall tx :: tx in s.txs && Creating(s.txs[tx]).Some? ==>
          Creating(s.txs[tx]).value in s.issued && Creating(s.txs[tx]).value !in s.db.domains)
    && (forall tx, other :: tx in s.txs && other in s.txs && tx != other && Creating(s.txs[tx]).Some? ==>
          Creating(s.txs[tx]) != Creating(s.txs[other]))
  }

  ghost predicate TxOk(s: State, tx: nat, p: Parsers)
    requires tx in s.txs
  {
    match s.txs[tx]
    case WriteHolding(_) => s.exclusive == Some(tx)
    case WritePrepared(op, result) => s.exclusive == Some(tx) && Written(s.db, op, p) == Ok(result)
    case LinkHolding(_) => tx in s.sharers
    case LinkReady(_, domain, group, useDefault) => tx in s.sharers && Selectable(s.db, domain, group, useDefault)
    case _ => true
  }

  ghost predicate StateOk(s: State, p: Parsers) {
    && Consistent(s.db, p.authority)
    && (s.exclusive.Some? ==> s.sharers == {})
    && IdsFresh(s)
    && (forall tx :: tx in s.txs ==> TxOk(s, tx, p))
  }

  lemma LinksKeptIsTransitive(a: Db, b: Db, c: Db, authority: string -> Option<string>)
    requires LinksKept(a, b) && LinksKept(b, c) && Consistent(a, authority)
    ensures LinksKept(a, c)
  {
  }

  lemma WritesAddOnlyWhatTheyCreate(db: Db, op: Op, p: Parsers, id: string)
    requires Written(db, op, p).Ok? && id in Written(db, op, p).value.domains && id !in db.domains
    ensures op.Create? && op.id == id
  {
  }

  lemma CommitKeepsIds(s: State, tx: nat, p: Parsers)
    requires StateOk(s, p) && Step(s, Commit(tx), p).Some?
    ensures IdsFresh(Step(s, Commit(tx), p).value)
  {
    var n := Step(s, Commit(tx), p).value;
    assert TxOk(s, tx, p);
    forall id | id in n.db.domains && id !in s.db.domains ensures Creating(s.txs[tx]) == Some(id) {
      WritesAddOnlyWhatTheyCreate(s.db, s.txs[tx].op, p, id);
    }
    assert forall other :: other in n.txs ==> other in s.txs && other != tx && n.txs[other] == s.txs[other];
  }

  lemma BeginKeepsIds(s: State, a: Action, p: Parsers)
    requires StateOk(s, p) && Step(s, a, p).Some? && (a.BeginWrite? || a.BeginLink?)
    ensures IdsFresh(Step(s, a, p).value)
  {
  }

  lemma OtherStepKeepsIds(s: State, a: Action, p: Parsers)
    requires StateOk(s, p) && Step(s, a, p).Some? && !a.Commit? && !a.BeginWrite? && !a.BeginLink?
    ensures IdsFresh(Step(s, a, p).value)
  {
  }

  lemma StepKeepsTxs(s: State, a: Action, p: Parsers, tx: nat)
    requires StateOk(s, p) && Step(s, a, p).Some? && tx in Step(s, a, p).value.txs
    ensures TxOk(Step(s, a, p).value, tx, p)
  {
    if tx in s.txs { assert TxOk(s, tx, p); }
    if a.Commit? { assert TxOk(s, a.tx, p); }
  }

  lemma StepKeepsOk(s: State, a: Action, p: Parsers)
    requires StateOk(s, p) && Step(s, a, p).Some?
    ensures StateOk(Step(s, a, p).value, p) && LinksKept(s.db, Step(s, a, p).value.db)
  {
    var n := Step(s, a, p).value;
    if a.Commit? {
      CommitKeepsIds(s, a.tx, p);
    } else if a.BeginWrite? || a.BeginLink? {
      BeginKeepsIds(s, a, p);
    } else {
      OtherStepKeepsIds(s, a, p);
    }
    forall tx | tx in n.txs ensures TxOk(n, tx, p) { StepKeepsTxs(s, a, p, tx); }
    if a.Commit? {
      assert TxOk(s, a.tx, p);
      if s.txs[a.tx].WritePrepared? {
        WriteKeeps(s.db, s.txs[a.tx].op, p);
      } else {
        var d :| d in s.db.domains && s.db.domains[d].isDefault;
        assert d in n.db.domains;
      }
    }
  }

  /**
   In every interleaving there is exactly one default domain, enabled and mirrored; authorities are
   distinct; and no domain with links is ever deleted or re-addressed.
   */
  lemma {:induction false} RegistryHolds(s: State, acts: seq<Action>, p: Parsers)
    requires StateOk(s, p) && Run(s, acts, p).Some?
    ensures StateOk(Run(s, acts, p).value, p)
    ensures LinksKept(s.db, Run(s, acts, p).value.db)
    decreases |acts|
  {
    if acts != [] {
      var n := Step(s, acts[0], p).value;
      StepKeepsOk(s, acts[0], p);
      RegistryHolds(n, acts[1..], p);
      LinksKeptIsTransitive(s.db, n.db, Run(s, acts, p).value.db, p.authority);
    }
  }

  /** A link is stored on a domain its group may still use: enabled and granted at that very moment. */
  lemma LinksGoWhereAllowed(s: State, acts: seq<Action>, p: Parsers, tx: nat)
    requires StateOk(s, p) && Run(s, acts, p).Some?
    ensures var now := Run(s, acts, p).value;
            tx in now.txs && now.txs[tx].LinkReady? ==>
              var t := now.txs[tx];
              && t.domain in now.db.domains && t.domain in now.db.grants
              && var d := now.db.domains[t.domain];
                 d.shortLinks && d.enabled && d.isDefault == t.useDefault && t.group in now.db.grants[t.domain]
  {
    RegistryHolds(s, acts, p);
    var now := Run(s, acts, p).value;
    if tx in now.txs { assert TxOk(now, tx, p); }
  }

  // ---------------------------------------------------------------- revisions over runs

  /** A deleted domain, or a creation given up: its id never comes back. */
  ghost predicate Gone(s: State, id: string) {
    id in s.issued && id !in s.db.domains && forall tx :: tx in s.txs ==> Creating(s.txs[tx]) != Some(id)
  }

  lemma StepKeepsGone(s: State, a: Action, p: Parsers, id: string)
    requires StateOk(s, p) && Gone(s, id) && Step(s, a, p).Some?
    ensures Gone(Step(s, a, p).value, id)
  {
    if a.Commit? && s.txs[a.tx].WritePrepared? {
      assert TxOk(s, a.tx, p);
      if id in s.txs[a.tx].result.domains { WritesAddOnlyWhatTheyCreate(s.db, s.txs[a.tx].op, p, id); }
    }
  }

  lemma {:induction false} GoneForGood(s: State, acts: seq<Action>, p: Parsers, id: string)
    requires StateOk(s, p) && Gone(s, id) && Run(s, acts, p).Some?
    ensures id !in Run(s, acts, p).value.db.domains
    decreases |acts|
  {
    if acts != [] {
      StepKeepsOk(s, acts[0], p);
      StepKeepsGone(s, acts[0], p, id);
      GoneForGood(Step(s, acts[0], p).value, acts[1..], p, id);
    }
  }

  lemma StepAdvances(s: State, a: Action, p: Parsers, id: string)
    requires StateOk(s, p) && Step(s, a, p).Some? && id in s.db.domains
    ensures var n := Step(s, a, p).value;
            if id in n.db.domains then Advanced(s.db.domains[id], n.db.domains[id]) else Gone(n, id)
  {
    if a.Commit? && s.txs[a.tx].WritePrepared? {
      assert TxOk(s, a.tx, p);
      var n := Step(s, a, p).value;
      if id in n.db.domains { WriteAdvances(s.db, s.txs[a.tx].op, p, id); }
    }
  }

  /**
   Every domain present at both ends of a run is the identical row or has a later revision,
   whichever write touched it, so one revision never names two rows.
   */
  lemma {:induction false} RevisionsAdvance(s: State, acts: seq<Action>, p: Parsers, id: string)
    requires StateOk(s, p) && Run(s, acts, p).Some?
    requires id in s.db.domains && id in Run(s, acts, p).value.db.domains
    ensures var was, now := s.db.domains[id], Run(s, acts, p).value.db.domains[id];
            Advanced(was, now) && (was.updatedAt == now.updatedAt ==> was == now)
    decreases |acts|
  {
    if acts != [] {
      var n := Step(s, acts[0], p).value;
      StepKeepsOk(s, acts[0], p);
      StepAdvances(s, acts[0], p, id);
      if id !in n.db.domains { GoneForGood(n, acts[1..], p, id); }
      RevisionsAdvance(n, acts[1..], p, id);
    }
  }

  /**
   A write built on an earlier version of a domain that is still there conflicts if and only if
   that version has been replaced, even when it asks for what is already stored.
   */
  lemma StaleWritesConflict(s: State, acts: seq<Action>, p: Parsers, op: Op)
    requires StateOk(s, p) && Run(s, acts, p).Some? && Guarded(op)
    requires Managed(s.db, op.id) && op.expected == s.db.domains[op.id].updatedAt
    requires op.id in Run(s, acts, p).value.db.domains
    ensures var now := Run(s, acts, p).value.db;
            Written(now, op, p) == Err(VersionConflict) <==> now.domains[op.id] != s.db.domains[op.id]
  {
    RevisionsAdvance(s, acts, p, op.id);
  }

  // ---------------------------------------------------------------- the transactions step by step

  class Registry {
    var db: Db

    /** Compares the wanted host with every other stored one. */
    method CheckAuthorityConflict(host: string, except: Option<string>, authority: string -> Option<string>)
      returns (conflict: bool)
      ensures conflict <==> AuthorityTaken(db, host, except, authority)
    {
      var wanted := authority(host);
      var rest := db.domains.Keys;
      while rest != {}
        invariant rest <= db.domains.Keys
        invariant forall id :: id in db.domains && id !in rest && Some(id) != except ==>
                    !SameAuthority(host, db.domains[id].host, authority)
        decreases rest
      {
        var id :| id in rest;
        rest := rest - {id};
        if Some(id) != except {
          var stored := authority(db.domains[id].host);
          if (wanted.Some? && stored.Some? && stored == wanted) || db.domains[id].host == host {
            return true;
          }
        }
      }
      return false;
    }

    /**
     Applies only the differences: rows to delete are grants not asked for, rows to insert are
     grants not held, and no grant that stays is written.
     */
    method ReplaceGrants(id: string, keys: seq<string>) returns (deleted: set<string>, inserted: seq<string>)
      requires GroupsOk(Some(keys))
      modifies this
      ensures db == old(db).(grants := old(db).grants[id := GroupSet(keys)])
      ensures var held := if id in old(db).grants then old(db).grants[id] else {};
              && deleted == held - GroupSet(keys)
              && GroupSet(inserted) == GroupSet(keys) - held
              && forall i, j :: 0 <= i < j < |inserted| ==> inserted[i] != inserted[j]
    {
      var existing := if id in db.grants then db.grants[id] else {};
      deleted := existing - GroupSet(keys);
      var current := existing - deleted;
      inserted := [];
      for i := 0 to |keys|
        invariant current == (existing - deleted) + GroupSet(inserted)
        invariant GroupSet(inserted) == GroupSet(keys[..i]) - existing
        invariant forall a, b :: 0 <= a < b < |inserted| ==> inserted[a] != inserted[b]
      {
        assert keys[..i + 1] == keys[..i] + [keys[i]];
        if keys[i] !in existing {
          assert keys[i] !in GroupSet(inserted);
          inserted := inserted + [keys[i]];
          current := current + {keys[i]};
        }
      }
      assert keys[..|keys|] == keys;
      assert current == GroupSet(keys);
      db := db.(grants := db.grants[id := current]);
    }

    /** Validates before it compares authorities; the new row is never the default. */
    method Create(op: Op, p: Parsers) returns (r: Option<Error>)
      requires op.Create? && op.id !in db.domains
      modifies this
      ensures Written(old(db), op, p).Ok? ==> r.None? && db == Written(old(db), op, p).value
      ensures Written(old(db), op, p).Err? ==> r == Some(Written(old(db), op, p).error) && db == old(db)
    {
      var host := p.normalize(op.host);
      if host.None? { return Some(InvalidInput); }
      var name := p.trim(op.name);
      if !NameOk(name) || !GroupsOk(op.groups) { return Some(InvalidInput); }
      var conflict := CheckAuthorityConflict(host.value, None, p.authority);
      if conflict { return Some(DomainConflict); }
      db := db.(domains := db.domains[op.id := Domain(host.value, name, true, op.enabled, false, 0, Direct, op.now)]);
      var deleted, inserted := ReplaceGrants(op.id, op.groups.value);
      return None;
    }

    /** The default and any domain with links stay. */
    method Delete(op: Op, p: Parsers) returns (r: Option<Error>)
      requires op.Delete?
      modifies this
      ensures Written(old(db), op, p).Ok? ==> r.None? && db == Written(old(db), op, p).value
      ensures Written(old(db), op, p).Err? ==> r == Some(Written(old(db), op, p).error) && db == old(db)
    {
      if !Managed(db, op.id) { return Some(NotFound); }
      var current := db.domains[op.id];
      if current.updatedAt != op.expected { return Some(VersionConflict); }
      if current.isDefault { return Some(Protected); }
      if HasLinks(db, op.id) { return Some(Referenced); }
      db := db.(domains := db.domains - {op.id}, grants := db.grants - {op.id});
      return None;
    }

    /** The revision is compared even when the order stays. */
    method ApplyDomainOrder(op: Op, p: Parsers) returns (r: Option<Error>)
      requires op.SetOrder?
      modifies this
      ensures Written(old(db), op, p).Ok? ==> r.None? && db == Written(old(db), op, p).value
      ensures Written(old(db), op, p).Err? ==> r == Some(Written(old(db), op, p).error) && db == old(db)
    {
      if op.order < -10000 || op.order > 10000 { return Some(InvalidInput); }
      if !Managed(db, op.id) { return Some(NotFound); }
      var current := db.domains[op.id];
      if current.updatedAt != op.expected { return Some(VersionConflict); }
      if current.sortOrder != op.order {
        db := db.(domains := db.domains[op.id := Bumped(current, op.now).(sortOrder := op.order)]);
      }
      return None;
    }

    /** So is it for the default redirect mode. */
    method ApplyDomainRedirectDefault(op: Op, p: Parsers) returns (r: Option<Error>)
      requires op.SetRedirectDefault?
      modifies this
      ensures Written(old(db), op, p).Ok? ==> r.None? && db == Written(old(db), op, p).value
      ensures Written(old(db), op, p).Err? ==> r == Some(Written(old(db), op, p).error) && db == old(db)
    {
      if !Managed(db, op.id) { return Some(NotFound); }
      var current := db.domains[op.id];
      if current.updatedAt != op.expected { return Some(VersionConflict); }
      if current.redirectMode != op.mode {
        db := db.(domains := db.domains[op.id := Bumped(current, op.now).(redirectMode := op.mode)]);
      }
      return None;
    }

    method Update(op: Op, p: Parsers) returns (r: Option<Error>)
      requires op.Update?
      modifies this
      ensures Written(old(db), op, p).Ok? ==> r.None? && db == Written(old(db), op, p).value
      ensures Written(old(db), op, p).Err? ==> r == Some(Written(old(db), op, p).error) && db == old(db)
    {
      if !Managed(db, op.id) { return Some(NotFound); }
      var current := db.domains[op.id];
      if current.updatedAt != op.expected { return Some(VersionConflict); }
      var host := current.host;
      if op.host != current.host {
        if p.normalize(op.host).None? { return Some(InvalidInput); }
        host := p.normalize(op.host).value;
      }
      var name := p.trim(op.name);
      if !NameOk(name) || !GroupsOk(op.groups) { return Some(InvalidInput); }
      if current.isDefault && !op.enabled { return Some(Protected); }
      if HasLinks(db, op.id) && current.host != host { return Some(Referenced); }
      var conflict := CheckAuthorityConflict(host, Some(op.id), p.authority);
      if conflict { return Some(DomainConflict); }
      var row := Bumped(current, op.now).(host := host, name := name, enabled := op.enabled);
      db := db.(domains := db.domains[op.id := row]);
      var deleted, inserted := ReplaceGrants(op.id, op.groups.value);
      if row.isDefault { db := db.(mirror := Some(row.host)); }
      return None;
    }

    method SetDefault(op: Op, p: Parsers) returns (r: Option<Error>)
      requires op.SetDefault?
      modifies this
      ensures Written(old(db), op, p).Ok? ==> r.None? && db == Written(old(db), op, p).value
      ensures Written(old(db), op, p).Err? ==> r == Some(Written(old(db), op, p).error) && db == old(db)
    {
      if !Managed(db, op.id) { return Some(NotFound); }
      var current := db.domains[op.id];
      if current.updatedAt != op.expected { return Some(VersionConflict); }
      if !current.enabled { return Some(Protected); }
      var domains := db.domains;
      if !current.isDefault {
        domains := map k | k in domains ::
          if domains[k].isDefault && domains[k].shortLinks
          then Bumped(domains[k], op.now).(isDefault := false)
          else domains[k];
      }
      domains := domains[op.id := Bumped(domains[op.id], op.now).(isDefault := true)];
      assert domains == WithDefault(db.domains, op.id, op.now);
      db := db.(domains := domains, mirror := Some(current.host));
      return None;
    }
  }
}
