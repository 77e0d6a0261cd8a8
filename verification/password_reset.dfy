/**
 * The password-reset entries: one record per issued code, with its expiry time and whether it
 * was spent, and the store's automatic removal of expired records.
 */
module PasswordResets {
  import opened Collections
  import opened ResourceModel

  /** An issued reset code. `used` defaults to false. */
  datatype ResetEntry = ResetEntry(email: string, resetCode: string, expiresAt: Time, used: bool)

  /** The schema's required fields are present (a required string refuses ""). */
  predicate EntryHasRequiredFields(e: ResetEntry)
  {
    e.email != "" && e.resetCode != ""
  }

  type Resets = seq<ResetEntry>

  /** At most one entry per email. The schema does not enforce this (its index on
      (email, resetCode) is not unique); the handlers' delete-then-create keeps it. */
  predicate AtMostOnePerEmail(resets: Resets)
  {
    forall i, j :: 0 <= i < j < |resets| ==> resets[i].email != resets[j].email
  }

  /** The store's query for a spendable code: same email and code, not used, expiring strictly
      after `now`. */
  predicate Spendable(e: ResetEntry, email: string, code: string, now: Time)
  {
    e.email == email && e.resetCode == code && !e.used && e.expiresAt > now
  }

  /** `findOne` with that query: the first spendable entry, or -1. */
  function FindSpendable(resets: Resets, email: string, code: string, now: Time): (k: int)
    ensures -1 <= k < |resets|
    ensures k == -1 <==> forall i :: 0 <= i < |resets| ==> !Spendable(resets[i], email, code, now)
    ensures k >= 0 ==> Spendable(resets[k], email, code, now)
  {
    if |resets| == 0 then -1
    else if Spendable(resets[0], email, code, now) then 0
    else
      var k := FindSpendable(resets[1..], email, code, now);
      if k == -1 then -1 else k + 1
  }

  /** `deleteMany({email})`: every entry of other emails, in order. */
  function DeleteByEmail(resets: Resets, email: string): (r: Resets)
    ensures forall e: ResetEntry :: e in r <==> e in resets && e.email != email
    ensures forall e: ResetEntry :: e.email != email ==> multiset(r)[e] == multiset(resets)[e]
  {
    Filter((e: ResetEntry) => e.email != email, resets)
  }

  /**
   * The store's expiry sweep at time `t`: it may remove any entry whose `expiresAt` is not
   * after `t`, at a moment of its choosing, and never an unexpired one. `removes` says which
   * expired entries this sweep happened to remove.
   */
  function Sweep(resets: Resets, t: Time, removes: ResetEntry -> bool): (r: Resets)
    ensures forall e :: e in r ==> e in resets
    ensures forall e :: e in resets && e.expiresAt > t ==> e in r
    ensures forall e :: e in resets && !removes(e) ==> e in r
  {
    Filter((e: ResetEntry) => e.expiresAt > t || !removes(e), resets)
  }

  /** A sweep at or before `now` cannot change whether a code is spendable at `now`: spendable
      entries have not expired. */
  lemma SweepKeepsSpendable(resets: Resets, t: Time, removes: ResetEntry -> bool,
                            email: string, code: string, now: Time)
    requires t <= now
    ensures FindSpendable(Sweep(resets, t, removes), email, code, now) == -1
        <==> FindSpendable(resets, email, code, now) == -1
  {
    var r := Sweep(resets, t, removes);
    if FindSpendable(resets, email, code, now) != -1 {
      var k := FindSpendable(resets, email, code, now);
      assert resets[k] in r;
    }
    if FindSpendable(r, email, code, now) != -1 {
      var k := FindSpendable(r, email, code, now);
      assert r[k] in resets;
      var i :| 0 <= i < |resets| && resets[i] == r[k];
    }
  }

  /** A sweep keeps the one-entry-per-email invariant. */
  lemma SweepKeepsOnePerEmail(resets: Resets, t: Time, removes: ResetEntry -> bool)
    requires AtMostOnePerEmail(resets)
    ensures AtMostOnePerEmail(Sweep(resets, t, removes))
  {
    FilterKeepsOnePerEmail(resets, (e: ResetEntry) => e.expiresAt > t || !removes(e));
  }

  /** Dropping entries keeps at most one per email. */
  lemma FilterKeepsOnePerEmail(resets: Resets, f: ResetEntry -> bool)
    requires AtMostOnePerEmail(resets)
    ensures AtMostOnePerEmail(Filter(f, resets))
  {
    var key := (e: ResetEntry) => e.email;
    assert KeysDistinct(key, resets);
    FilterKeepsKeysDistinct(key, f, resets);
    var r := Filter(f, resets);
    assert forall i, j :: 0 <= i < j < |r| ==> key(r[i]) != key(r[j]);
  }

  /** Appending an entry for an email no entry holds keeps at most one entry per email. */
  lemma AppendKeepsOnePerEmail(resets: Resets, entry: ResetEntry)
    requires AtMostOnePerEmail(resets)
    requires forall e :: e in resets ==> e.email != entry.email
    ensures AtMostOnePerEmail(resets + [entry])
  {
    var r := resets + [entry];
    forall i, j | 0 <= i < j < |r| ensures r[i].email != r[j].email {
      assert r[i] == resets[i];
      if j == |resets| {
        assert resets[i] in resets;
      }
    }
  }
}
