/** The permission catalog and the check every stored permission set of a built-in group passes. */
module Permissions {
  import opened Common

  datatype Key =
    | ShortLinkCreate | ShortLinkCustomSlug | ShortLinkReadOwn | ShortLinkReadVisits | ShortLinkExportVisits
    | ShortLinkExportStatistics | ShortLinkExport | ShortLinkUpdateOwn | ShortLinkDeleteOwn | ShortLinkSetMetadata
    | ShortLinkUseIntermediate | ShortLinkSetExpiration | ShortLinkSetPassword | ShortLinkUseConfirmation
    | ShortLinkSetMaxVisits | DomainUseDefault | DomainUseAssigned
    | DomainManage | SystemManage | AdminAccess | StatisticsReadAll | AuditRead | AuditExport
    | ShortLinkReadAll | ShortLinkUpdateAll | ShortLinkDeleteAll
    | Unlisted(name: string)

  datatype Definition = Definition(key: Key, isProtected: bool)

  /** The keys in catalog order; the last nine are protected. */
  const CATALOG: seq<Definition> := [
    Definition(ShortLinkCreate, false), Definition(ShortLinkCustomSlug, false), Definition(ShortLinkReadOwn, false),
    Definition(ShortLinkReadVisits, false), Definition(ShortLinkExportVisits, false),
    Definition(ShortLinkExportStatistics, false), Definition(ShortLinkExport, false),
    Definition(ShortLinkUpdateOwn, false), Definition(ShortLinkDeleteOwn, false),
    Definition(ShortLinkSetMetadata, false), Definition(ShortLinkUseIntermediate, false),
    Definition(ShortLinkSetExpiration, false), Definition(ShortLinkSetPassword, false),
    Definition(ShortLinkUseConfirmation, false), Definition(ShortLinkSetMaxVisits, false),
    Definition(DomainUseDefault, false), Definition(DomainUseAssigned, false),
    Definition(DomainManage, true), Definition(SystemManage, true), Definition(AdminAccess, true),
    Definition(StatisticsReadAll, true), Definition(AuditRead, true), Definition(AuditExport, true),
    Definition(ShortLinkReadAll, true), Definition(ShortLinkUpdateAll, true), Definition(ShortLinkDeleteAll, true)]

  datatype Group = Guest | User | Admin | Other(name: string)

  datatype Error = UnknownGroup | UnknownPermission | DuplicatePermission | ProtectedPermission

  predicate DistinctKeys(catalog: seq<Definition>) {
    forall i, j :: 0 <= i < j < |catalog| ==> catalog[i].key != catalog[j].key
  }

  predicate Listed(catalog: seq<Definition>, k: Key) {
    exists i :: 0 <= i < |catalog| && catalog[i].key == k
  }

  /** Guests own nothing, users nothing protected, and administrators everything protected. */
  predicate Ownership(catalog: seq<Definition>, group: Group, values: seq<Key>) {
    match group
    case Guest => values == []
    case User => forall d :: d in catalog && d.isProtected ==> d.key !in values
    case Admin => forall d :: d in catalog && d.isProtected ==> d.key in values
    case Other(_) => false
  }

  lemma OwnershipMeans(catalog: seq<Definition>, group: Group, values: seq<Key>)
    ensures Ownership(catalog, Guest, values) <==> |values| == 0
    ensures Ownership(catalog, User, values) <==> !exists d :: d in catalog && d.isProtected && d.key in values
    ensures Ownership(catalog, Admin, values) <==> !exists d :: d in catalog && d.isProtected && d.key !in values
    ensures group.Other? ==> !Ownership(catalog, group, values)
  {
  }

  /** The catalog's keys that were chosen, in catalog order: the same for every order of `values`. */
  function Chosen(catalog: seq<Definition>, values: seq<Key>): seq<Key> {
    if catalog == [] then []
    else
      var init := catalog[..|catalog| - 1];
      var last := catalog[|catalog| - 1].key;
      Chosen(init, values) + if last in values then [last] else []
  }

  /** Nothing is wrong with the keys before position `n`. */
  ghost predicate GoodBefore(catalog: seq<Definition>, values: seq<Key>, n: nat) {
    n < |values| && Distinct(values[..n]) && forall i :: 0 <= i < n ==> Listed(catalog, values[i])
  }

  ghost predicate FirstUnknown(catalog: seq<Definition>, values: seq<Key>, n: nat) {
    GoodBefore(catalog, values, n) && !Listed(catalog, values[n])
  }

  ghost predicate FirstRepeated(catalog: seq<Definition>, values: seq<Key>, n: nat) {
    GoodBefore(catalog, values, n) && Listed(catalog, values[n]) && values[n] in values[..n]
  }

  lemma NothingBadBefore(catalog: seq<Definition>, values: seq<Key>, n: nat, m: nat)
    requires n < m && GoodBefore(catalog, values, m)
    ensures !FirstUnknown(catalog, values, n) && !FirstRepeated(catalog, values, n)
  {
    assert values[..m][n] == values[n];
    forall i | 0 <= i < n ensures values[i] != values[n] { assert values[..m][i] == values[i]; }
  }

  /** The first bad key is bad in one way only, and there is no other. */
  lemma FirstBad(catalog: seq<Definition>, values: seq<Key>, n: nat)
    requires FirstUnknown(catalog, values, n) || FirstRepeated(catalog, values, n)
    ensures !(Distinct(values) && forall v :: v in values ==> Listed(catalog, v))
    ensures forall m: nat :: FirstUnknown(catalog, values, m) || FirstRepeated(catalog, values, m) ==> m == n
  {
    assert values[n] in values;
    if values[n] in values[..n] { var i :| 0 <= i < n && values[..n][i] == values[n]; }
    forall m: nat | FirstUnknown(catalog, values, m) || FirstRepeated(catalog, values, m) ensures m == n {
      if n < m { NothingBadBefore(catalog, values, n, m); }
      if m < n { NothingBadBefore(catalog, values, m, n); }
    }
  }

  lemma NoneBad(catalog: seq<Definition>, values: seq<Key>)
    requires Distinct(values) && forall v :: v in values ==> Listed(catalog, v)
    ensures forall n: nat :: !FirstUnknown(catalog, values, n) && !FirstRepeated(catalog, values, n)
  {
    forall n: nat | FirstUnknown(catalog, values, n) || FirstRepeated(catalog, values, n) ensures false {
      FirstBad(catalog, values, n);
    }
  }

  /** Marks the catalog entries that were chosen; the first bad key decides the error. */
  method SelectKeys(catalog: seq<Definition>, values: seq<Key>) returns (error: Option<Error>, selected: array<bool>)
    requires DistinctKeys(catalog)
    ensures error.None? <==> Distinct(values) && forall v :: v in values ==> Listed(catalog, v)
    ensures error == Some(UnknownPermission) <==> exists n: nat :: FirstUnknown(catalog, values, n)
    ensures error == Some(DuplicatePermission) <==> exists n: nat :: FirstRepeated(catalog, values, n)
    ensures error in {None, Some(UnknownPermission), Some(DuplicatePermission)}
    ensures error.None? ==>
              && selected.Length == |catalog|
              && forall i :: 0 <= i < |catalog| ==> (selected[i] <==> catalog[i].key in values)
  {
    var indexes: map<Key, nat> := map[];
    for i := 0 to |catalog|
      invariant forall k :: k in indexes ==> indexes[k] < i && catalog[indexes[k]].key == k
      invariant forall j :: 0 <= j < i ==> catalog[j].key in indexes
    {
      indexes := indexes[catalog[i].key := i];
    }
    selected := new bool[|catalog|](_ => false);
    for n := 0 to |values|
      invariant Distinct(values[..n])
      invariant forall v :: v in values[..n] ==> Listed(catalog, v)
      invariant forall i :: 0 <= i < |catalog| ==> (selected[i] <==> catalog[i].key in values[..n])
    {
      var value := values[n];
      assert values[..n + 1] == values[..n] + [value];
      if value !in indexes {
        assert FirstUnknown(catalog, values, n);
        FirstBad(catalog, values, n);
        return Some(UnknownPermission), selected;
      }
      if selected[indexes[value]] {
        assert FirstRepeated(catalog, values, n);
        FirstBad(catalog, values, n);
        return Some(DuplicatePermission), selected;
      }
      selected[indexes[value]] := true;
    }
    assert values[..|values|] == values;
    NoneBad(catalog, values);
    return None, selected;
  }

  method NormalizeForGroup(catalog: seq<Definition>, group: Group, values: seq<Key>)
    returns (r: Result<seq<Key>, Error>)
    requires DistinctKeys(catalog)
    ensures r.Ok? <==>
            && Distinct(values) && (forall v :: v in values ==> Listed(catalog, v)) && Ownership(catalog, group, values)
    ensures r.Ok? ==> r.value == Chosen(catalog, values)
    ensures r == Err(UnknownGroup) <==> group.Other?
    ensures r == Err(ProtectedPermission) <==>
            && !group.Other? && Distinct(values) && (forall v :: v in values ==> Listed(catalog, v))
            && !Ownership(catalog, group, values)
    ensures r == Err(UnknownPermission) <==> !group.Other? && exists n: nat :: FirstUnknown(catalog, values, n)
    ensures r == Err(DuplicatePermission) <==> !group.Other? && exists n: nat :: FirstRepeated(catalog, values, n)
  {
    if group.Other? { return Err(UnknownGroup); }
    var error, selected := SelectKeys(catalog, values);
    if error.Some? { return Err(error.value); }
    if group.Guest? {
      if values != [] { return Err(ProtectedPermission); }
    } else {
      for i := 0 to |catalog|
        invariant forall j :: 0 <= j < i && catalog[j].isProtected ==> (group.Admin? <==> selected[j])
      {
        if catalog[i].isProtected && (group.Admin? != selected[i]) {
          assert catalog[i] in catalog;
          return Err(ProtectedPermission);
        }
      }
    }
    var result: seq<Key> := [];
    for i := 0 to |catalog|
      invariant result == Chosen(catalog[..i], values)
    {
      assert catalog[..i + 1][..i] == catalog[..i];
      if selected[i] { result := result + [catalog[i].key]; }
    }
    assert catalog[..|catalog|] == catalog;
    return Ok(result);
  }

  lemma ListedInitOrLast(catalog: seq<Definition>, k: Key)
    requires catalog != []
    ensures var n := |catalog| - 1; Listed(catalog, k) <==> Listed(catalog[..n], k) || catalog[n].key == k
  {
    var n := |catalog| - 1;
    assert forall i :: 0 <= i < n ==> catalog[..n][i] == catalog[i];
  }

  /** Nothing is lost or added: the normal form has exactly the chosen keys the catalog lists. */
  lemma {:induction false} ChosenHasTheSameKeys(catalog: seq<Definition>, values: seq<Key>, k: Key)
    ensures k in Chosen(catalog, values) <==> k in values && Listed(catalog, k)
  {
    if catalog != [] {
      ChosenHasTheSameKeys(catalog[..|catalog| - 1], values, k);
      ListedInitOrLast(catalog, k);
    }
  }

  /** A position for every listed key; the catalog holds each key at its own position. */
  function Position(k: Key): int {
    match k
    case ShortLinkCreate => 0 case ShortLinkCustomSlug => 1 case ShortLinkReadOwn => 2 case ShortLinkReadVisits => 3
    case ShortLinkExportVisits => 4 case ShortLinkExportStatistics => 5 case ShortLinkExport => 6
    case ShortLinkUpdateOwn => 7 case ShortLinkDeleteOwn => 8 case ShortLinkSetMetadata => 9
    case ShortLinkUseIntermediate => 10 case ShortLinkSetExpiration => 11 case ShortLinkSetPassword => 12
    case ShortLinkUseConfirmation => 13 case ShortLinkSetMaxVisits => 14 case DomainUseDefault => 15
    case DomainUseAssigned => 16 case DomainManage => 17 case SystemManage => 18 case AdminAccess => 19
    case StatisticsReadAll => 20 case AuditRead => 21 case AuditExport => 22 case ShortLinkReadAll => 23
    case ShortLinkUpdateAll => 24 case ShortLinkDeleteAll => 25 case Unlisted(_) => -1
  }

  lemma FrontPositions(i: nat)
    requires i < 13
    ensures Position(CATALOG[i].key) == i
  {
  }

  lemma BackPositions(i: nat)
    requires 13 <= i < 26
    ensures Position(CATALOG[i].key) == i
  {
  }

  /** What only administrators own: the last nine keys of the catalog. */
  lemma ProtectedKeys(i: nat)
    requires i < 26
    ensures CATALOG[i].isProtected <==> i >= 17
    ensures CATALOG[i].isProtected <==>
            CATALOG[i].key in [DomainManage, SystemManage, AdminAccess, StatisticsReadAll, AuditRead, AuditExport,
                               ShortLinkReadAll, ShortLinkUpdateAll, ShortLinkDeleteAll]
  {
    if i < 13 { FrontPositions(i); } else { BackPositions(i); }
    NineKeys(CATALOG[i].key);
    ProtectedFromSeventeen(i);
  }

  lemma NineKeys(k: Key)
    ensures Position(k) >= 17 <==>
            k in [DomainManage, SystemManage, AdminAccess, StatisticsReadAll, AuditRead, AuditExport,
                  ShortLinkReadAll, ShortLinkUpdateAll, ShortLinkDeleteAll]
  {
  }

  lemma ProtectedFromSeventeen(i: nat)
    requires i < 26
    ensures CATALOG[i].isProtected <==> i >= 17
  {
  }

  /** The chosen keys come in the order of the catalog. */
  lemma {:induction false} ChosenInOrder(catalog: seq<Definition>, values: seq<Key>, i: nat, j: nat)
      returns (a: nat, b: nat)
    requires i < j < |Chosen(catalog, values)|
    ensures a < b < |catalog| && catalog[a].key == Chosen(catalog, values)[i]
    ensures catalog[b].key == Chosen(catalog, values)[j]
  {
    var n := |catalog| - 1;
    var rest := Chosen(catalog[..n], values);
    if j < |rest| {
      a, b := ChosenInOrder(catalog[..n], values, i, j);
    } else {
      b := n;
      ChosenHasTheSameKeys(catalog[..n], values, rest[i]);
      a :| 0 <= a < n && catalog[..n][a].key == rest[i];
    }
  }

  lemma CatalogHasDistinctKeys()
    ensures |CATALOG| == 26 && DistinctKeys(CATALOG)
  {
    forall i, j | 0 <= i < j < 26 ensures CATALOG[i].key != CATALOG[j].key {
      if i < 13 { FrontPositions(i); } else { BackPositions(i); }
      if j < 13 { FrontPositions(j); } else { BackPositions(j); }
    }
  }
}
