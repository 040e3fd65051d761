/**
 * The two progress queries of AchievementsController: its own copy of the
 * next-available walk, and the badge progress (current tier, next tier and how
 * many achievements remain). Both read only their inputs.
 */
module AchievementsController {
  import opened BadgeService
  import opened Store
  import AchievementService

  /** The controller's copy of calculateNextAvailableAchievements. */
  method CalculateNextAvailableAchievements(unlocked: seq<string>) returns (next: seq<string>)
    ensures next == AchievementService.NextAvailable(unlocked)
  {
    var all := AchievementService.Achievements;
    next := [];
    if |unlocked| == 0 {
      var i := 0;
      while i < |all|
        invariant 0 <= i <= |all|
        invariant next == AchievementService.FirstOfEach(all[..i])
      {
        AchievementService.FirstOfEachStep(all, i);
        next := next + [all[i].achievements[0]];
        i := i + 1;
      }
      assert all[..i] == all;
      return;
    }
    var i := 0;
    while i < |all|
      invariant 0 <= i <= |all|
      invariant next == AchievementService.Walk(all[..i], unlocked)
    {
      var names := all[i].achievements;
      var j := 0;
      while j < |names|
        invariant 0 <= j <= |names|
        invariant forall jj :: 0 <= jj < j ==> names[jj] in unlocked
      {
        if names[j] !in unlocked {
          next := next + [names[j]];
          break;
        }
        j := j + 1;
      }
      assert AchievementService.FirstLockedIndex(names, unlocked) == j;
      AchievementService.WalkStep(all, i, unlocked);
      i := i + 1;
    }
    assert all[..i] == all;
  }

  /** What calculateBadgeProgress returns: current tier, next tier, achievements remaining. */
  datatype BadgeProgress = BadgeProgress(currentBadge: string, nextBadge: string, remaining: nat)

  /** The tier walk from tier list `bs` on, with `current` the tier reached so far. */
  function ProgressWalk(bs: seq<Badge>, count: nat, current: string): BadgeProgress
  {
    if bs == [] then BadgeProgress(current, "", 0)
    else if count < bs[0].threshold then BadgeProgress(current, bs[0].name, bs[0].threshold - count)
    else ProgressWalk(bs[1..], count, bs[0].name)
  }

  /** Specification of calculateBadgeProgress for a user with `count` achievement rows. */
  function BadgeProgressOf(count: nat): BadgeProgress
  {
    ProgressWalk(Badges, count, Beginner)
  }

  /**
   * calculateBadgeProgress: the loop over the tiers. Where the source breaks out
   * of the loop at the first tier not met and then returns, this returns from
   * inside the loop with the same three values.
   */
  method CalculateBadgeProgress(user: UserRecord) returns (currentBadge: string, nextBadge: string, remaining: nat)
    ensures BadgeProgress(currentBadge, nextBadge, remaining) == BadgeProgressOf(|user.achievements|)
  {
    var achievementCount := |user.achievements|;
    var badges := Badges;
    currentBadge := Beginner;
    nextBadge := "";
    remaining := 0;
    var i := 0;
    while i < |badges|
      invariant 0 <= i <= |badges|
      invariant ProgressWalk(badges[i..], achievementCount, currentBadge) == BadgeProgressOf(achievementCount)
    {
      assert badges[i..][1..] == badges[i + 1..];
      if achievementCount < badges[i].threshold {
        nextBadge := badges[i].name;
        remaining := badges[i].threshold - achievementCount;
        return;
      }
      currentBadge := badges[i].name;
      i := i + 1;
    }
  }

  // ---------------------------------------------------------------------------
  // Properties of the badge progress

  predicate Ascending(bs: seq<Badge>)
  {
    forall i, j :: 0 <= i < j < |bs| ==> bs[i].threshold < bs[j].threshold
  }

  /** The number of tiers whose threshold `count` meets. */
  function TiersMet(bs: seq<Badge>, count: nat): (m: nat)
    ensures m <= |bs|
  {
    if bs == [] then 0 else (if bs[0].threshold <= count then 1 else 0) + TiersMet(bs[1..], count)
  }

  /**
   * On ascending tiers the met tiers are a prefix of length m; the walk ends on
   * the last met tier and names the first unmet one with the distance to it.
   */
  lemma {:induction false} WalkMeaning(bs: seq<Badge>, count: nat, current: string)
    requires Ascending(bs)
    ensures var m := TiersMet(bs, count);
      var p := ProgressWalk(bs, count, current);
      (forall i :: 0 <= i < |bs| ==> (bs[i].threshold <= count <==> i < m)) &&
      p.currentBadge == (if m == 0 then current else bs[m - 1].name) &&
      (m < |bs| ==> p.nextBadge == bs[m].name && p.remaining == bs[m].threshold - count) &&
      (m == |bs| ==> p.nextBadge == "" && p.remaining == 0)
  {
    if bs != [] {
      var rest := bs[1..];
      assert Ascending(rest) by {
        assert forall i :: 0 <= i < |rest| ==> rest[i] == bs[i + 1];
      }
      WalkMeaning(rest, count, bs[0].name);
      if count < bs[0].threshold {
        assert forall i :: 0 <= i < |rest| ==> rest[i].threshold > count by {
          assert forall i :: 0 <= i < |rest| ==> rest[i] == bs[i + 1];
        }
        assert TiersMet(rest, count) == 0;
      } else {
        assert forall i :: 1 <= i < |bs| ==> bs[i] == rest[i - 1];
      }
    }
  }

  /**
   * The badge progress brackets the count: the current tier is the last one met
   * (there is always one, Beginner needing nothing), the next tier is the first
   * one not met and the remaining count is positive; past the top tier the next
   * badge is '' and nothing remains.
   */
  lemma BadgeProgressBrackets(count: nat)
    ensures var m := TiersMet(Badges, count);
      var p := BadgeProgressOf(count);
      1 <= m <= |Badges| &&
      (forall i :: 0 <= i < |Badges| ==> (Badges[i].threshold <= count <==> i < m)) &&
      p.currentBadge == Badges[m - 1].name && Badges[m - 1].threshold <= count &&
      (m < |Badges| ==> p.nextBadge == Badges[m].name && count < Badges[m].threshold &&
                        p.remaining == Badges[m].threshold - count && p.remaining > 0) &&
      (m == |Badges| ==> p.nextBadge == "" && p.remaining == 0)
  {
    TiersAscending();
    WalkMeaning(Badges, count, Beginner);
  }

  /** The tiers the controller reports at the boundaries of the table. */
  lemma BadgeProgressExamples(count: nat)
    ensures BadgeProgressOf(0) == BadgeProgress(Beginner, Intermediate, 4)
    ensures BadgeProgressOf(4) == BadgeProgress(Intermediate, Advanced, 4)
    ensures BadgeProgressOf(8) == BadgeProgress(Advanced, Master, 2)
    ensures count >= 10 ==> BadgeProgressOf(count) == BadgeProgress(Master, "", 0)
  {
    BadgeProgressBrackets(0);
    BadgeProgressBrackets(4);
    BadgeProgressBrackets(8);
    BadgeProgressBrackets(count);
  }
}
