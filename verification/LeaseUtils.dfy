/** The lease database and the lookup that fixes the destination of every IA_PD route. */
module LeaseUtils {
  import opened Common

  datatype LeaseType = TYPE_NA | TYPE_PD | TYPE_TA | TYPE_V4

  datatype LeaseState = Default | Declined | ExpiredReclaimed | Released

  datatype Lease = Lease(
    leaseType: LeaseType, addr: string, prefixLength: nat, iaid: nat, duid: Option<string>,
    state: LeaseState, hwaddr: Option<string>)

  /** The lease database as the sequence of its records, in the order queries return them. */
  type LeaseDatabase = seq<Lease>

  // ----- Lease lookup -----

  function GetLeases6(db: LeaseDatabase, leaseType: LeaseType, duid: string, iaid: nat): seq<Lease> {
    if db == [] then []
    else
      var rest := GetLeases6(db[1..], leaseType, duid, iaid);
      if db[0].leaseType == leaseType && db[0].duid == Some(duid) && db[0].iaid == iaid then [db[0]] + rest else rest
  }

  predicate IsInactive(lease: Lease) {
    lease.state == ExpiredReclaimed || lease.state == Declined
  }

  function ActiveOnly(leases: seq<Lease>): seq<Lease> {
    if leases == [] then []
    else if IsInactive(leases[0]) then ActiveOnly(leases[1..])
    else [leases[0]] + ActiveOnly(leases[1..])
  }

  /** The client's IA_NA leases that are neither declined nor reclaimed, in database order. */
  function ActiveIaNa(db: LeaseDatabase, duid: Option<string>, iaid: nat): seq<Lease> {
    if duid.None? then [] else ActiveOnly(GetLeases6(db, TYPE_NA, duid.value, iaid))
  }

  function First<T>(s: seq<T>): Option<T> {
    if s == [] then None else Some(s[0])
  }

  lemma {:induction false} ActiveOnlySkip(leases: seq<Lease>, k: nat)
    requires k < |leases| && forall j :: 0 <= j < k ==> IsInactive(leases[j])
    ensures !IsInactive(leases[k]) ==> First(ActiveOnly(leases)) == Some(leases[k])
  {
    if k > 0 {
      ActiveOnlySkip(leases[1..], k - 1);
    }
  }

  lemma {:induction false} ActiveOnlyNone(leases: seq<Lease>)
    requires forall j :: 0 <= j < |leases| ==> IsInactive(leases[j])
    ensures ActiveOnly(leases) == []
  {
    if leases != [] {
      ActiveOnlyNone(leases[1..]);
    }
  }

  /** The record is an IA_NA lease of the client and IAID that is neither declined nor reclaimed. */
  predicate IsActiveIaNa(lease: Lease, duid: Option<string>, iaid: nat) {
    && lease.leaseType == TYPE_NA && duid.Some? && lease.duid == duid && lease.iaid == iaid
    && lease.state != Declined && lease.state != ExpiredReclaimed
  }

  /** The record at position `k` is the first such. */
  predicate IsFirstActive(db: LeaseDatabase, duid: Option<string>, iaid: nat, k: int) {
    0 <= k < |db| && IsActiveIaNa(db[k], duid, iaid) && forall j :: 0 <= j < k ==> !IsActiveIaNa(db[j], duid, iaid)
  }

  lemma {:induction false} FirstActiveRecord(db: LeaseDatabase, duid: Option<string>, iaid: nat) returns (k: nat)
    ensures k <= |db| && forall j :: 0 <= j < k ==> !IsActiveIaNa(db[j], duid, iaid)
    ensures First(ActiveIaNa(db, duid, iaid)) == if k < |db| then Some(db[k]) else None
    ensures k < |db| ==> IsActiveIaNa(db[k], duid, iaid)
  {
    if db == [] || IsActiveIaNa(db[0], duid, iaid) {
      k := 0;
    } else {
      var rest := FirstActiveRecord(db[1..], duid, iaid);
      k := rest + 1;
      assert forall j :: 0 < j < k ==> db[j] == db[1..][j - 1];
    }
  }

  /** Finds the first active IA_NA lease of a client identifier and IAID. */
  method FindIA_NALeaseByDUID_IAID(db: LeaseDatabase, duid: Option<string>, iaid: nat) returns (matched: Option<Lease>)
    ensures matched == First(ActiveIaNa(db, duid, iaid))
    ensures matched.Some? ==> exists k :: IsFirstActive(db, duid, iaid, k) && matched == Some(db[k])
    ensures matched.None? <==> forall k :: 0 <= k < |db| ==> !IsActiveIaNa(db[k], duid, iaid)
  {
    matched := None;
    if duid.Some? {
      var collection := GetLeases6(db, TYPE_NA, duid.value, iaid);
      for i := 0 to |collection|
        invariant matched == None
        invariant forall j :: 0 <= j < i ==> IsInactive(collection[j])
      {
        if collection[i].state == ExpiredReclaimed || collection[i].state == Declined {
          continue;
        }
        if matched.None? {
          matched := Some(collection[i]);
          ActiveOnlySkip(collection, i);
          break;
        }
      }
      if matched.None? {
        ActiveOnlyNone(collection);
      }
    }
    ghost var k := FirstActiveRecord(db, duid, iaid);
    assert k < |db| ==> IsFirstActive(db, duid, iaid, k);
  }

  lemma {:induction false} GetLeases6Concat(a: LeaseDatabase, b: LeaseDatabase, leaseType: LeaseType, duid: string, iaid: nat)
    ensures GetLeases6(a + b, leaseType, duid, iaid) == GetLeases6(a, leaseType, duid, iaid) + GetLeases6(b, leaseType, duid, iaid)
  {
    if a == [] {
      assert a + b == b;
    } else {
      assert (a + b)[1..] == a[1..] + b;
      GetLeases6Concat(a[1..], b, leaseType, duid, iaid);
    }
  }

  lemma {:induction false} ActiveOnlyConcat(a: seq<Lease>, b: seq<Lease>)
    ensures ActiveOnly(a + b) == ActiveOnly(a) + ActiveOnly(b)
  {
    if a == [] {
      assert a + b == b;
    } else {
      assert (a + b)[1..] == a[1..] + b;
      ActiveOnlyConcat(a[1..], b);
    }
  }

  /** Replacing a stretch of the database by another in which, as before, the client has no
      active IA_NA lease does not change the lease that is found. */
  lemma InactiveChangesDoNotMatter(a: LeaseDatabase, x: LeaseDatabase, y: LeaseDatabase, b: LeaseDatabase,
                                   duid: Option<string>, iaid: nat)
    requires ActiveIaNa(x, duid, iaid) == [] && ActiveIaNa(y, duid, iaid) == []
    ensures ActiveIaNa(a + x + b, duid, iaid) == ActiveIaNa(a + y + b, duid, iaid)
  {
    if duid.Some? {
      forall m | m in {x, y}
        ensures ActiveIaNa(a + m + b, duid, iaid)
             == ActiveIaNa(a, duid, iaid) + ActiveIaNa(m, duid, iaid) + ActiveIaNa(b, duid, iaid)
      {
        GetLeases6Concat(a + m, b, TYPE_NA, duid.value, iaid);
        GetLeases6Concat(a, m, TYPE_NA, duid.value, iaid);
        var p, q, r := GetLeases6(a, TYPE_NA, duid.value, iaid), GetLeases6(m, TYPE_NA, duid.value, iaid),
                       GetLeases6(b, TYPE_NA, duid.value, iaid);
        ActiveOnlyConcat(p + q, r);
        ActiveOnlyConcat(p, q);
      }
    }
  }

  /** The address of the active IA_NA lease of a client identifier and IAID. */
  function ActiveFor(db: LeaseDatabase, duid: Option<string>, iaid: nat): Option<string> {
    match First(ActiveIaNa(db, duid, iaid))
    case Some(found) => Some(found.addr)
    case None => None
  }

  /** The destination of the client's IA_PD routes is the address of the first active IA_NA record. */
  lemma ActiveForIsRecord(db: LeaseDatabase, duid: Option<string>, iaid: nat)
    ensures ActiveFor(db, duid, iaid).Some? ==>
      exists k :: IsFirstActive(db, duid, iaid, k) && ActiveFor(db, duid, iaid) == Some(db[k].addr)
    ensures ActiveFor(db, duid, iaid).None? <==> forall k :: 0 <= k < |db| ==> !IsActiveIaNa(db[k], duid, iaid)
  {
    var k := FirstActiveRecord(db, duid, iaid);
    assert k < |db| ==> IsFirstActive(db, duid, iaid, k);
  }
}
