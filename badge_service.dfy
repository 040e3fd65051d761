/**
 * BadgeService::getBadges: the badge tiers, in ascending order, each with the
 * number of unlocked achievements it requires.
 */
module BadgeService {
  import opened Wrappers

  const Beginner := "Beginner"
  const Intermediate := "Intermediate"
  const Advanced := "Advanced"
  const Master := "Master"

  datatype Badge = Badge(name: string, threshold: nat)

  /** The tier table, in the order of the source's associative array. */
  const Badges: seq<Badge> := [Badge(Beginner, 0), Badge(Intermediate, 4), Badge(Advanced, 8), Badge(Master, 10)]

  /** Position of the first tier named `name`, or |bs| when there is none. */
  function TierIndex(bs: seq<Badge>, name: string): (k: nat)
    ensures k <= |bs|
    ensures forall j :: 0 <= j < k ==> bs[j].name != name
    ensures k < |bs| ==> bs[k].name == name
  {
    if bs == [] || bs[0].name == name then 0 else 1 + TierIndex(bs[1..], name)
  }

  /**
   * `array_key_exists($badgeName, $badges)` followed by `$badges[$badgeName]`:
   * the threshold of the named tier, or None for a name that is not a tier.
   */
  function BadgeThreshold(name: string): (r: Option<nat>)
    ensures r.Some? <==> exists i :: 0 <= i < |Badges| && Badges[i].name == name
    ensures forall i :: 0 <= i < |Badges| && Badges[i].name == name ==> r == Some(Badges[i].threshold)
  {
    var k := TierIndex(Badges, name);
    if k < |Badges| then Some(Badges[k].threshold) else None
  }

  /** The table maps exactly the four tier names to 0, 4, 8 and 10. */
  lemma BadgeTable(name: string)
    ensures BadgeThreshold(name) ==
      if name == Beginner then Some(0)
      else if name == Intermediate then Some(4)
      else if name == Advanced then Some(8)
      else if name == Master then Some(10)
      else None
  {
    if name !in {Beginner, Intermediate, Advanced, Master} {
      assert forall i :: 0 <= i < |Badges| ==> Badges[i].name != name;
    } else {
      assert Badges[0].name == Beginner && Badges[1].name == Intermediate;
      assert Badges[2].name == Advanced && Badges[3].name == Master;
    }
  }

  /** Tier names are distinct and thresholds strictly ascend; the lowest tier needs nothing. */
  lemma TiersAscending()
    ensures forall i, j :: 0 <= i < j < |Badges| ==> Badges[i].threshold < Badges[j].threshold
    ensures forall i, j :: 0 <= i < j < |Badges| ==> Badges[i].name != Badges[j].name
    ensures Badges[0] == Badge(Beginner, 0)
  {
  }

  /** Every achievement count meets the lowest tier. */
  lemma SomeTierAlwaysMet(count: nat)
    ensures exists i :: 0 <= i < |Badges| && Badges[i].threshold <= count
  {
    assert Badges[0].threshold <= count;
  }
}
