/**
 * Seeding a database: the default administrator account, created only when no user has
 * its name, and ten registration codes, created only when there are no codes at all.
 */
module InitDb {
  import opened Wrappers
  import opened Models
  import Codes

  const AdminName: string := "bennyboy635"
  const SeedCount: nat := 10

  /** The state seeding leads to: the administrator exists and there are codes. */
  ghost predicate Seeded(db: Database)
    reads db
  {
    UsernameTaken(db.users, AdminName) && |db.codes| > 0
  }

  /** The writes for the administrator: a new admin user, not a judge, without a team. */
  method AddAdmin(db: Database)
    requires db.Valid() && !UsernameTaken(db.users, AdminName)
    modifies db
    ensures db.Valid()
    ensures db.users == old(db.users) + [User(old(db.nextUserId), AdminName, true, false, None)]
    ensures db.nextUserId == old(db.nextUserId) + 1
    ensures db.codes == old(db.codes) && db.teams == old(db.teams) && db.posts == old(db.posts)
    ensures db.nextCodeId == old(db.nextCodeId) && db.nextTeamId == old(db.nextTeamId)
    ensures db.nextPostId == old(db.nextPostId)
  {
    var _ := AddUser(db, AdminName, true, false, None);
  }

  /**
   * `init_database`. The administrator is added exactly when no user has its name; ten
   * fresh codes are added exactly when the code table is empty. The draws stand for
   * `random.choices`; only when they hold fewer than ten distinct codes is no code added.
   * Once seeded, running it again changes nothing.
   */
  method InitDatabase(db: Database, draws: seq<nat>) returns (ok: bool, batch: seq<string>)
    requires db.Valid()
    modifies db
    ensures db.Valid()
    ensures UsernameTaken(old(db.users), AdminName) ==>
              db.users == old(db.users) && db.nextUserId == old(db.nextUserId)
    ensures !UsernameTaken(old(db.users), AdminName) ==>
              && db.users == old(db.users) + [User(old(db.nextUserId), AdminName, true, false, None)]
              && db.nextUserId == old(db.nextUserId) + 1
    ensures |old(db.codes)| > 0 ==> ok && batch == [] && db.codes == old(db.codes)
    ensures |old(db.codes)| == 0 && ok ==>
              && |batch| == SeedCount && Codes.FreshBatch(batch, [])
              && (forall j :: 0 <= j < |batch| ==> batch[j] in Codes.Candidates(draws))
              && db.codes == Codes.NewRows(old(db.nextCodeId), batch)
    ensures !ok ==> |old(db.codes)| == 0 && db.codes == [] && db.nextCodeId == old(db.nextCodeId)
    ensures !ok ==> !Codes.EnoughFresh(Codes.Candidates(draws), [], SeedCount)
    ensures ok ==> db.nextCodeId == old(db.nextCodeId) + |batch|
    ensures db.teams == old(db.teams) && db.posts == old(db.posts)
    ensures db.nextTeamId == old(db.nextTeamId) && db.nextPostId == old(db.nextPostId)
    ensures ok ==> Seeded(db)
    ensures old(Seeded(db)) ==> ok && unchanged(db)
  {
    UserByNameFound(db.users, AdminName);
    if UserByName(db.users, AdminName).None? {
      AddAdmin(db);
      assert db.users[|db.users| - 1].username == AdminName;
    }
    batch := [];
    if |db.codes| == 0 {
      batch, ok := Codes.DrawFreshCodes(Codes.CodeStrings(db.codes), SeedCount, draws);
      if !ok {
        batch := [];
        return;
      }
      var _ := Codes.AddCodes(db, batch);
    } else {
      ok := true;
    }
  }
}
