/** The ownership lease of a (stream, durable) pair: src/nats_ingest.cpp, lines 408-520. */
module IngestLease {
  import opened Options

  const LEASE_SECONDS := 30

  /** One row of the lease table.  Owner ids are unique per job object; time is in seconds. */
  datatype Lease = Lease(owner: nat, token: nat, until: int)

  predicate Claimable(row: Option<Lease>, owner: nat, now: int) {
    row.None? || row.value.until <= now || row.value.owner == owner
  }

  predicate HeldBy(row: Option<Lease>, owner: nat, token: nat) {
    row.Some? && row.value.owner == owner && row.value.token == token
  }

  /** A fresh row is inserted with token 1 and at once bumped by the UPDATE, so it starts at 2. */
  function ClaimedToken(row: Option<Lease>): nat {
    if row.None? then 2 else row.value.token + 1
  }

  function AfterClaim(row: Option<Lease>, owner: nat, now: int): Option<Lease> {
    if Claimable(row, owner, now) then Some(Lease(owner, ClaimedToken(row), now + LEASE_SECONDS)) else row
  }

  function AfterFence(row: Option<Lease>, owner: nat, token: nat, now: int): Option<Lease> {
    if HeldBy(row, owner, token) then Some(Lease(owner, token, now + LEASE_SECONDS)) else row
  }

  /** A lease is renewed at most once per third of its time. */
  predicate RenewalDue(now: int, lastRenewal: int) {
    now - lastRenewal >= LEASE_SECONDS / 3
  }

  datatype Renewal = NotDue | Renewed | Lost

  /** What RenewIngestLeaseIfDue comes to outside of a transaction. */
  function RenewalOf(row: Option<Lease>, owner: nat, token: nat, now: int, lastRenewal: int): Renewal {
    if !RenewalDue(now, lastRenewal) then NotDue else if HeldBy(row, owner, token) then Renewed else Lost
  }

  function AfterRelease(row: Option<Lease>, owner: nat, token: nat): Option<Lease> {
    if token != 0 && HeldBy(row, owner, token) then None else row
  }

  /** The lease table restricted to one (stream, durable) key; each method is one transaction. */
  class LeaseTable {
    var row: Option<Lease>

    constructor ()
      ensures row == None
    {
      row := None;
    }

    /** INSERT .. ON CONFLICT DO NOTHING, then UPDATE, then the SELECT that decides; rolled back on conflict. */
    method ClaimIngestLease(owner: nat, now: int) returns (token: Option<nat>)
      modifies this
      ensures token.None? <==> old(row).Some? && old(row).value.owner != owner && now < old(row).value.until
      ensures token.None? ==> row == old(row)
      ensures token.Some? ==> row == Some(Lease(owner, token.value, now + 30))
      ensures token.Some? ==> token.value == if old(row).None? then 2 else old(row).value.token + 1
      ensures row == AfterClaim(old(row), owner, now)
      ensures token.Some? <==> Claimable(old(row), owner, now)
    {
      var before := row;
      if row.None? {
        row := Some(Lease(owner, 1, now + LEASE_SECONDS));
      }
      if row.value.until <= now || row.value.owner == owner {
        row := Some(Lease(owner, row.value.token + 1, now + LEASE_SECONDS));
      }
      if row.value.owner != owner {
        row := before;
        return None;
      }
      token := Some(row.value.token);
    }

    /** The guarded UPDATE .. RETURNING inside a commit; an empty result aborts the transaction. */
    method FenceIngestCommit(owner: nat, token: nat, now: int) returns (held: bool)
      modifies this
      ensures held <==> old(row).Some? && old(row).value.owner == owner && old(row).value.token == token
      ensures row == if held then Some(Lease(owner, token, now + 30)) else old(row)
      ensures held == HeldBy(old(row), owner, token) && row == AfterFence(old(row), owner, token, now)
    {
      held := row.Some? && row.value.owner == owner && row.value.token == token;
      if held {
        row := Some(row.value.(until := now + LEASE_SECONDS));
      }
    }

    /** Renews when it is due, and never while a transaction is open; a lost lease is an error. */
    method RenewIngestLeaseIfDue(owner: nat, token: nat, now: int, lastRenewal: int, inTransaction: bool)
      returns (held: bool, renewal: int)
      modifies this
      ensures now - lastRenewal < 10 || inTransaction ==> held && row == old(row) && renewal == lastRenewal
      ensures now - lastRenewal >= 10 && !inTransaction ==>
                && (held <==> old(row).Some? && old(row).value.owner == owner && old(row).value.token == token)
                && row == (if held then Some(Lease(owner, token, now + 30)) else old(row))
                && renewal == if held then now else lastRenewal
    {
      held, renewal := true, lastRenewal;
      if now - lastRenewal < LEASE_SECONDS / 3 || inTransaction {
        return;
      }
      held := FenceIngestCommit(owner, token, now);
      if held {
        renewal := now;
      }
    }

    /** Deletes the caller's own row, and no other; a caller that never claimed has token 0. */
    method ReleaseIngestLease(owner: nat, token: nat)
      modifies this
      ensures row == if token != 0 && old(row).Some? && old(row).value.owner == owner && old(row).value.token == token
                     then None else old(row)
      ensures row == AfterRelease(old(row), owner, token)
    {
      if token == 0 {
        return;
      }
      if row.Some? && row.value.owner == owner && row.value.token == token {
        row := None;
      }
    }
  }
}
