/**
 * What UnlockBadgeListener does, as functions on the persisted state: handle
 * validates the user and the badge name, and checkBadgeUnlock overwrites the
 * user's badge when the achievement rows reach the tier's threshold.
 */
module BadgeRules {
  import opened Wrappers
  import opened BadgeService
  import opened Store

  /** unlockBadge: the badge column takes the new name, whatever it held. */
  function UnlockBadge(u: UserRecord, badgeName: string): UserRecord
  {
    u.(badge := Some(badgeName))
  }

  /** checkBadgeUnlock: compare the number of achievement rows with the tier's threshold. */
  function CheckBadgeUnlock(u: UserRecord, badgeName: string, threshold: nat): UserRecord
  {
    if |u.achievements| >= threshold then UnlockBadge(u, badgeName) else u
  }

  /** handle: reject an unresolved user, then an unknown badge, otherwise check the tier. */
  function HandleBadge(users: map<UserId, UserRecord>, user: Option<UserId>, badgeName: string)
    : (r: Result<map<UserId, UserRecord>, Error>)
    ensures r.Success? ==> r.value.Keys == users.Keys
  {
    if !Resolves(users, user) then Failure(UserNotFound)
    else match BadgeThreshold(badgeName)
      case None => Failure(UnknownBadge(badgeName))
      case Some(threshold) => Success(users[user.value := CheckBadgeUnlock(users[user.value], badgeName, threshold)])
  }

  predicate IsTier(name: string)
  {
    exists i :: 0 <= i < |Badges| && Badges[i].name == name
  }

  /** The two errors of handle, in the order the source checks them. */
  lemma HandleBadgeErrors(users: map<UserId, UserRecord>, user: Option<UserId>, badgeName: string)
    ensures var r := HandleBadge(users, user, badgeName);
      (r == Failure(UserNotFound) <==> !Resolves(users, user)) &&
      (r == Failure(UnknownBadge(badgeName)) <==>
         Resolves(users, user) && badgeName !in {Beginner, Intermediate, Advanced, Master}) &&
      (r.Success? <==> Resolves(users, user) && IsTier(badgeName))
  {
    BadgeTable(badgeName);
  }

  /**
   * A successful handle touches only the user's badge: it becomes the candidate
   * exactly when the user has at least the tier's threshold of achievement rows,
   * whatever tier it held before, and stays as it was otherwise.
   */
  lemma HandleBadgeEffect(users: map<UserId, UserRecord>, id: UserId, i: nat)
    requires id in users && i < |Badges|
    ensures var r := HandleBadge(users, Some(id), Badges[i].name);
      var u := users[id];
      r.Success? &&
      r.value == users[id := r.value[id]] &&
      r.value[id] == u.(badge := r.value[id].badge) &&
      r.value[id].badge == (if |u.achievements| >= Badges[i].threshold then Some(Badges[i].name) else u.badge)
  {
    assert BadgeThreshold(Badges[i].name) == Some(Badges[i].threshold);
  }

  /** The Beginner tier needs no achievements, so every resolved user gets it. */
  lemma BeginnerAlwaysSet(users: map<UserId, UserRecord>, id: UserId)
    requires id in users
    ensures HandleBadge(users, Some(id), Beginner).Success?
    ensures HandleBadge(users, Some(id), Beginner).value[id].badge == Some(Beginner)
  {
    HandleBadgeEffect(users, id, 0);
  }

  /** A user already holding the candidate keeps it, however the rows have grown. */
  lemma HandleBadgeKeepsHeldTier(users: map<UserId, UserRecord>, id: UserId, badgeName: string)
    requires id in users && users[id].badge == Some(badgeName)
    requires HandleBadge(users, Some(id), badgeName).Success?
    ensures HandleBadge(users, Some(id), badgeName).value == users
  {
    var i := TierIndex(Badges, badgeName);
    HandleBadgeEffect(users, id, i);
    assert users[id := users[id]] == users;
  }

  /** Handling the same candidate twice is handling it once. */
  lemma HandleBadgeIdempotent(users: map<UserId, UserRecord>, user: Option<UserId>, badgeName: string)
    requires HandleBadge(users, user, badgeName).Success?
    ensures var after := HandleBadge(users, user, badgeName).value;
            HandleBadge(after, user, badgeName) == Success(after)
  {
    HandleBadgeErrors(users, user, badgeName);
    var id := user.value;
    var i :| 0 <= i < |Badges| && Badges[i].name == badgeName;
    HandleBadgeEffect(users, id, i);
    var after := HandleBadge(users, user, badgeName).value;
    HandleBadgeEffect(after, id, i);
    assert after[id := after[id]] == after;
  }

  /**
   * There is no monotonicity check: a user holding tier j who is handed a lower
   * tier i that the rows still qualify for is moved down to tier i.
   */
  lemma LowerTierOverwrites(users: map<UserId, UserRecord>, id: UserId, i: nat, j: nat)
    requires id in users && i < j < |Badges|
    requires users[id].badge == Some(Badges[j].name) && |users[id].achievements| >= Badges[j].threshold
    ensures HandleBadge(users, Some(id), Badges[i].name).Success?
    ensures HandleBadge(users, Some(id), Badges[i].name).value[id].badge == Some(Badges[i].name)
    ensures Badges[i].threshold < Badges[j].threshold
  {
    TiersAscending();
    HandleBadgeEffect(users, id, i);
  }
}
