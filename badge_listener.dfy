/**
 * UnlockBadgeListener as a class whose methods update the user's badge column
 * in place, each proved against its function in BadgeRules.
 */
module BadgeListener {
  import opened Wrappers
  import opened BadgeService
  import opened Store
  import R = BadgeRules

  class UnlockBadgeListener {

    constructor ()
    {
    }

    /**
     * handle: fails with UserNotFound for an unresolved user and with
     * UnknownBadge for a name outside the tier table, writing nothing in either
     * case; otherwise checks the tier's threshold.
     */
    method Handle(db: Database, user: Option<UserId>, badgeName: string) returns (r: Outcome<Error>)
      modifies db
      ensures match R.HandleBadge(old(db.users), user, badgeName)
              case Success(users) => r == Pass && db.users == users
              case Failure(e) => r == Fail(e) && db.users == old(db.users)
    {
      if user.None? || user.value !in db.users {
        return Fail(UserNotFound);
      }
      var badges := BadgeThreshold(badgeName);
      if badges.Some? {
        CheckBadgeUnlock(db, user.value, badgeName, badges.value);
        r := Pass;
      } else {
        r := Fail(UnknownBadge(badgeName));
      }
    }

    /** `achievementCount` is the number of achievements the tier requires. */
    method CheckBadgeUnlock(db: Database, id: UserId, badgeName: string, achievementCount: nat)
      requires id in db.users
      modifies db
      ensures db.users == old(db.users)[id := R.CheckBadgeUnlock(old(db.users)[id], badgeName, achievementCount)]
    {
      if |db.users[id].achievements| >= achievementCount {
        UnlockBadge(db, id, badgeName);
      } else {
        assert old(db.users)[id := old(db.users)[id]] == old(db.users);
      }
    }

    method UnlockBadge(db: Database, id: UserId, badgeName: string)
      requires id in db.users
      modifies db
      ensures db.users == old(db.users)[id := R.UnlockBadge(old(db.users)[id], badgeName)]
    {
      db.users := db.users[id := db.users[id].(badge := Some(badgeName))];
    }
  }
}
