/**
 * The life of a registration code: created unused, marked used by the account it created,
 * reset to unused by an administrator. New codes are six random digits, drawn again until
 * the draw is not yet in the table; the random draws are an input sequence here.
 */
module Codes {
  import opened Wrappers
  import opened Strings
  import opened Models

  /** What `register` does to the code it consumed. */
  function MarkUsed(c: RegistrationCode, userId: nat): (r: RegistrationCode)
    ensures r.isUsed && r.usedByUserId == Some(userId)
    ensures r.id == c.id && r.code == c.code
  {
    c.(isUsed := true, usedByUserId := Some(userId))
  }

  /** What `admin_reset_code` does to a code. */
  function Reset(c: RegistrationCode): (r: RegistrationCode)
    ensures !r.isUsed && r.usedByUserId.None?
    ensures r.id == c.id && r.code == c.code
  {
    c.(isUsed := false, usedByUserId := None)
  }

  /** Using an unused code and resetting it gives back exactly the row it was. */
  lemma UseThenResetRestores(c: RegistrationCode, users: seq<User>, userId: nat)
    requires CodeStateConsistent(c, users) && !c.isUsed
    ensures Reset(MarkUsed(c, userId)) == c
  {
  }

  /** A reset code is consistent whatever the users, and resetting twice is resetting once. */
  lemma ResetIsConsistentAndIdempotent(c: RegistrationCode, users: seq<User>)
    ensures CodeStateConsistent(Reset(c), users)
    ensures Reset(Reset(c)) == Reset(c)
  {
  }

  /** A code marked used by an existing user is consistent. */
  lemma MarkUsedIsConsistent(c: RegistrationCode, users: seq<User>, k: nat)
    requires k < |users|
    ensures CodeStateConsistent(MarkUsed(c, users[k].id), users)
  {
  }

  /** The code strings of a table, in table order. */
  function CodeStrings(codes: seq<RegistrationCode>): (r: seq<string>)
    ensures |r| == |codes|
    ensures forall x :: x in r <==> CodeStored(codes, x)
  {
    var r := seq(|codes|, k requires 0 <= k < |codes| => codes[k].code);
    assert forall k :: 0 <= k < |codes| ==> r[k] == codes[k].code;
    r
  }

  /** The code a draw of six random digits gives. */
  function Candidate(draw: nat): (code: string)
    ensures |code| == 6 && AllDigits(code)
  {
    SixDigits(draw)
  }

  /** The codes the draws give, in order. */
  function Candidates(draws: seq<nat>): (cs: seq<string>)
    ensures |cs| == |draws|
    ensures forall i :: 0 <= i < |draws| ==> cs[i] == Candidate(draws[i])
  {
    seq(|draws|, i requires 0 <= i < |draws| => Candidate(draws[i]))
  }

  predicate Distinct(xs: seq<string>) {
    forall i, j :: 0 <= i < j < |xs| ==> xs[i] != xs[j]
  }

  /** Codes of six digits, none already stored and no two alike. */
  predicate FreshBatch(batch: seq<string>, stored: seq<string>) {
    && (forall j :: 0 <= j < |batch| ==> |batch[j]| == 6 && AllDigits(batch[j]))
    && (forall j :: 0 <= j < |batch| ==> batch[j] !in stored)
    && Distinct(batch)
  }

  /** Every code of the batch is one of the candidates. */
  predicate DrawnFrom(batch: seq<string>, cands: seq<string>) {
    forall j :: 0 <= j < |batch| ==> batch[j] in cands
  }

  /** Choosing a candidate that is neither stored nor chosen keeps the batch fresh. */
  lemma ChooseCandidate(batch: seq<string>, stored: seq<string>, cands: seq<string>, i: nat)
    requires FreshBatch(batch, stored) && DrawnFrom(batch, cands)
    requires i < |cands| && |cands[i]| == 6 && AllDigits(cands[i])
    requires cands[i] !in stored && cands[i] !in batch
    ensures FreshBatch(batch + [cands[i]], stored) && DrawnFrom(batch + [cands[i]], cands)
  {
    var b := batch + [cands[i]];
    assert forall j :: 0 <= j < |batch| ==> b[j] == batch[j];
  }

  /** In a batch of distinct codes no code repeats an earlier one. */
  lemma DistinctHasNoRepeat(batch: seq<string>)
    requires Distinct(batch)
    ensures forall j :: 0 <= j < |batch| ==> batch[j] !in batch[..j]
  {
    forall j | 0 <= j < |batch|
      ensures batch[j] !in batch[..j]
    {
      assert forall k :: 0 <= k < j ==> batch[..j][k] == batch[k];
    }
  }

  /**
   * The batch the draws yield: the candidates are taken in order, each one kept when it is
   * neither stored nor kept already, until n are kept; false when they run out first.
   */
  function Pick(cands: seq<string>, stored: seq<string>, chosen: seq<string>, n: nat): (seq<string>, bool)
    decreases |cands|
  {
    if |chosen| >= n then (chosen, true)
    else if cands == [] then (chosen, false)
    else if cands[0] in stored || cands[0] in chosen then Pick(cands[1..], stored, chosen, n)
    else Pick(cands[1..], stored, chosen + [cands[0]], n)
  }

  /** One candidate of the walk that Pick describes. */
  lemma PickStep(cands: seq<string>, i: nat, stored: seq<string>, chosen: seq<string>, n: nat)
    requires i < |cands| && |chosen| < n
    ensures Pick(cands[i..], stored, chosen, n) ==
              if cands[i] in stored || cands[i] in chosen then Pick(cands[i + 1..], stored, chosen, n)
              else Pick(cands[i + 1..], stored, chosen + [cands[i]], n)
  {
    assert cands[i..][1..] == cands[i + 1..];
  }

  /** Among the candidates there are n distinct codes that are not stored. */
  ghost predicate EnoughFresh(cands: seq<string>, stored: seq<string>, n: nat) {
    exists b :: |b| == n && FreshBatch(b, stored) && DrawnFrom(b, cands)
  }

  /** Every candidate before i is stored or chosen. */
  predicate Covered(cands: seq<string>, i: nat, stored: seq<string>, chosen: seq<string>)
    requires i <= |cands|
  {
    forall k :: 0 <= k < i ==> cands[k] in stored || cands[k] in chosen
  }

  /** Passing a candidate that is stored or chosen, or choosing it, keeps the prefix covered. */
  lemma CoveredStep(cands: seq<string>, i: nat, stored: seq<string>, chosen: seq<string>, more: seq<string>)
    requires i < |cands| && Covered(cands, i, stored, chosen)
    requires cands[i] in stored || cands[i] in chosen + more
    ensures Covered(cands, i + 1, stored, chosen + more)
  {
  }

  /** n distinct codes cannot all lie among fewer than n codes. */
  lemma {:induction false} DistinctFitsIn(good: seq<string>, room: seq<string>)
    requires Distinct(good) && forall j :: 0 <= j < |good| ==> good[j] in room
    ensures |good| <= |room|
    decreases |good|
  {
    if good != [] {
      var k :| 0 <= k < |room| && room[k] == good[0];
      var rest := room[..k] + room[k + 1..];
      var tail := good[1..];
      forall j | 0 <= j < |tail|
        ensures tail[j] in rest
      {
        assert tail[j] == good[j + 1] != good[0];
        var m :| 0 <= m < |room| && room[m] == tail[j];
        if m < k {
          assert rest[m] == tail[j];
        } else {
          assert rest[m - 1] == tail[j];
        }
      }
      assert forall i, j :: 0 <= i < j < |tail| ==> tail[i] == good[i + 1] && tail[j] == good[j + 1];
      DistinctFitsIn(tail, rest);
    }
  }

  /** When every candidate is stored or among fewer than n chosen codes, n fresh ones do not exist. */
  lemma NotEnoughFresh(cands: seq<string>, stored: seq<string>, chosen: seq<string>, n: nat)
    requires |chosen| < n && Covered(cands, |cands|, stored, chosen)
    ensures !EnoughFresh(cands, stored, n)
  {
    if b :| |b| == n && FreshBatch(b, stored) && DrawnFrom(b, cands) {
      forall j | 0 <= j < |b|
        ensures b[j] in chosen
      {
        var i :| 0 <= i < |cands| && cands[i] == b[j];
      }
      DistinctFitsIn(b, chosen);
    }
  }

  /**
   * `for _ in range(count): while True: code = <six digits>; if <code is new>: break`:
   * takes the draws' codes in order, skipping every code already stored or already chosen,
   * until n codes are chosen. It fails exactly when the draws hold fewer than n distinct
   * codes that are not stored, and then every draw was stored or chosen.
   */
  method DrawFreshCodes(stored: seq<string>, n: nat, draws: seq<nat>) returns (batch: seq<string>, ok: bool)
    ensures (batch, ok) == Pick(Candidates(draws), stored, [], n)
    ensures ok <==> EnoughFresh(Candidates(draws), stored, n)
    ensures ok ==> |batch| == n
    ensures !ok ==> |batch| < n
    ensures !ok ==> forall i :: 0 <= i < |draws| ==> Candidate(draws[i]) in stored || Candidate(draws[i]) in batch
    ensures FreshBatch(batch, stored)
    ensures forall j :: 0 <= j < |batch| ==> batch[j] !in batch[..j]
    ensures forall j :: 0 <= j < |batch| ==> batch[j] in Candidates(draws)
  {
    var cands := Candidates(draws);
    batch := [];
    var i := 0;
    while |batch| < n
      invariant 0 <= i <= |cands|
      invariant |batch| <= n
      invariant FreshBatch(batch, stored) && DrawnFrom(batch, cands)
      invariant Covered(cands, i, stored, batch)
      invariant Pick(cands[i..], stored, batch, n) == Pick(cands, stored, [], n)
      decreases n - |batch|
    {
      while i < |cands| && (cands[i] in stored || cands[i] in batch)
        invariant 0 <= i <= |cands|
        invariant Covered(cands, i, stored, batch)
        invariant Pick(cands[i..], stored, batch, n) == Pick(cands, stored, [], n)
        decreases |cands| - i
      {
        PickStep(cands, i, stored, batch, n);
        CoveredStep(cands, i, stored, batch, []);
        i := i + 1;
      }
      if i == |cands| {
        ok := false;
        DistinctHasNoRepeat(batch);
        NotEnoughFresh(cands, stored, batch, n);
        return;
      }
      PickStep(cands, i, stored, batch, n);
      CoveredStep(cands, i, stored, batch, [cands[i]]);
      ChooseCandidate(batch, stored, cands, i);
      batch := batch + [cands[i]];
      i := i + 1;
    }
    ok := true;
    DistinctHasNoRepeat(batch);
  }

  /** The rows `RegistrationCode(code=c)` for a batch, with ids from the counter on. */
  function NewRows(next: nat, batch: seq<string>): seq<RegistrationCode> {
    seq(|batch|, j requires 0 <= j < |batch| => RegistrationCode(next + j, batch[j], false, None))
  }

  /** Appending a fresh batch keeps ids increasing, code strings unique and every row consistent. */
  lemma AddCodesKeepsWellFormed(codes: seq<RegistrationCode>, next: nat, users: seq<User>, batch: seq<string>)
    requires CodesWellFormed(codes, next, users)
    requires FreshBatch(batch, CodeStrings(codes))
    ensures CodesWellFormed(codes + NewRows(next, batch), next + |batch|, users)
  {
    var all := codes + NewRows(next, batch);
    assert forall j :: |codes| <= j < |all| ==> all[j] == RegistrationCode(next + (j - |codes|), batch[j - |codes|], false, None);
    forall i, j | 0 <= i < j < |all|
      ensures all[i].code != all[j].code
    {
      if j >= |codes| && i < |codes| {
        assert all[i].code in CodeStrings(codes);
      }
    }
  }

  /** Adds a fresh batch as unused codes and returns their rows. */
  method AddCodes(db: Database, batch: seq<string>) returns (rows: seq<RegistrationCode>)
    requires db.Valid()
    requires FreshBatch(batch, CodeStrings(db.codes))
    modifies db
    ensures db.Valid()
    ensures rows == NewRows(old(db.nextCodeId), batch)
    ensures db.codes == old(db.codes) + rows && db.nextCodeId == old(db.nextCodeId) + |batch|
    ensures db.users == old(db.users) && db.teams == old(db.teams) && db.posts == old(db.posts)
    ensures db.nextUserId == old(db.nextUserId) && db.nextTeamId == old(db.nextTeamId)
    ensures db.nextPostId == old(db.nextPostId)
  {
    AddCodesKeepsWellFormed(db.codes, db.nextCodeId, db.users, batch);
    rows := NewRows(db.nextCodeId, batch);
    db.codes := db.codes + rows;
    db.nextCodeId := db.nextCodeId + |batch|;
  }
}
