/**
 * AchievementService: the achievement catalog (getAchievements) and the
 * next-available query (calculateNextAvailableAchievements).
 */
module AchievementService {
  import opened Wrappers
  import opened Digits

  const LessonsWatched := "Lessons Watched"
  const CommentsWritten := "Comments Written"
  const FirstLessonWatched := "First Lesson Watched"
  const FirstCommentWritten := "First Comment Written"
  /** The text that follows the number in the numbered names of each category. */
  const LessonsSuffix := " Lessons Watched"
  const CommentsSuffix := " Comments Written"

  /** One entry of the catalog: a category name and its achievement names, in order. */
  datatype Category = Category(name: string, achievements: seq<string>)

  /** getAchievements: the two categories, in the order of the source's associative array. */
  const Achievements: seq<Category> := [
    Category(LessonsWatched, [FirstLessonWatched, "5 Lessons Watched", "10 Lessons Watched",
                              "25 Lessons Watched", "50 Lessons Watched"]),
    Category(CommentsWritten, [FirstCommentWritten, "3 Comments Written", "5 Comments Written",
                               "10 Comments Written", "20 Comments Written"])
  ]

  /** The activity count that achievement k of category c requires. */
  function Threshold(c: nat, k: nat): nat
    requires c < |Achievements| && k < |Achievements[c].achievements|
  {
    (if c == 0 then [1, 5, 10, 25, 50] else [1, 3, 5, 10, 20])[k]
  }

  function Suffix(c: nat): string
    requires c < |Achievements|
  {
    if c == 0 then LessonsSuffix else CommentsSuffix
  }

  /** All ten catalog names, category by category. */
  function AllNames(): seq<string>
  {
    Achievements[0].achievements + Achievements[1].achievements
  }

  predicate InCatalog(name: string)
  {
    name in AllNames()
  }

  /** The category and position of a catalog name. */
  lemma CatalogPosition(name: string) returns (c: nat, k: nat)
    requires InCatalog(name)
    ensures c < |Achievements| && k < |Achievements[c].achievements|
    ensures Achievements[c].achievements[k] == name
  {
    var i :| 0 <= i < |AllNames()| && AllNames()[i] == name;
    if i < 5 {
      c, k := 0, i;
    } else {
      c, k := 1, i - 5;
    }
  }

  /** The catalog has two categories of five names each, "Lessons Watched" first. */
  lemma CatalogShape()
    ensures |Achievements| == 2
    ensures Achievements[0].name == LessonsWatched && Achievements[1].name == CommentsWritten
    ensures forall c :: 0 <= c < |Achievements| ==> |Achievements[c].achievements| == 5
    ensures Achievements[0].achievements[0] == FirstLessonWatched
    ensures Achievements[1].achievements[0] == FirstCommentWritten
    ensures |AllNames()| == 10
  {
  }

  /** The ten catalog names are pairwise distinct. */
  lemma NamesDistinct()
    ensures forall i, j :: 0 <= i < j < |AllNames()| ==> AllNames()[i] != AllNames()[j]
  {
    var l := Achievements[0].achievements;
    var m := Achievements[1].achievements;
    assert l[0] != l[1] && l[0] != l[2] && l[0] != l[3] && l[0] != l[4];
    assert l[1] != l[2] && l[1] != l[3] && l[1] != l[4];
    assert l[2] != l[3] && l[2] != l[4] && l[3] != l[4];
    assert m[0] != m[1] && m[0] != m[2] && m[0] != m[3] && m[0] != m[4];
    assert m[1] != m[2] && m[1] != m[3] && m[1] != m[4];
    assert m[2] != m[3] && m[2] != m[4] && m[3] != m[4];
    forall i, j | 0 <= i < 5 && 0 <= j < 5 ensures l[i] != m[j] {
      // the two categories differ in their last letter: 'd' (Watched) against 'n' (Written)
      assert l[i][|l[i]| - 1] == 'd';
      assert m[j][|m[j]| - 1] == 'n';
    }
    assert AllNames() == l + m;
  }

  /**
   * Every numbered name reads "{$n}" followed by its category's suffix, where n is
   * the category's threshold at that position, so the number scan reads n back.
   */
  lemma NamedByThreshold(c: nat, k: nat)
    requires c < |Achievements| && 1 <= k < 5
    ensures Achievements[c].achievements[k] == FormatNat(Threshold(c, k)) + Suffix(c)
    ensures ExtractNumber(Achievements[c].achievements[k]) == Some(Threshold(c, k))
  {
    if c == 0 { LessonNamesFormatted(k); } else { CommentNamesFormatted(k); }
    assert Suffix(c)[0] == ' ';
    ExtractFormatted(Threshold(c, k), Suffix(c));
  }

  /** The decimal renderings of the numbered thresholds. */
  lemma ThresholdsFormatted()
    ensures FormatNat(3) == "3" && FormatNat(5) == "5" && FormatNat(10) == "10"
    ensures FormatNat(20) == "20" && FormatNat(25) == "25" && FormatNat(50) == "50"
  {
  }

  lemma LessonNamesFormatted(k: nat)
    requires 1 <= k < 5
    ensures Achievements[0].achievements[k] == FormatNat(Threshold(0, k)) + LessonsSuffix
  {
    ThresholdsFormatted();
    var names := Achievements[0].achievements;
    assert names[1] == "5" + LessonsSuffix && names[2] == "10" + LessonsSuffix;
    assert names[3] == "25" + LessonsSuffix && names[4] == "50" + LessonsSuffix;
  }

  lemma CommentNamesFormatted(k: nat)
    requires 1 <= k < 5
    ensures Achievements[1].achievements[k] == FormatNat(Threshold(1, k)) + CommentsSuffix
  {
    ThresholdsFormatted();
    var names := Achievements[1].achievements;
    assert names[1] == "3" + CommentsSuffix && names[2] == "5" + CommentsSuffix;
    assert names[3] == "10" + CommentsSuffix && names[4] == "20" + CommentsSuffix;
  }

  /** Within each category the thresholds strictly ascend, starting at 1. */
  lemma ThresholdsAscending(c: nat)
    requires c < |Achievements|
    ensures Threshold(c, 0) == 1
    ensures forall i, j :: 0 <= i < j < |Achievements[c].achievements| ==> Threshold(c, i) < Threshold(c, j)
  {
  }

  // ---------------------------------------------------------------------------
  // calculateNextAvailableAchievements

  /** Position of the first name of `names` that is not in `unlocked`, or |names|. */
  function FirstLockedIndex(names: seq<string>, unlocked: seq<string>): (k: nat)
    ensures k <= |names|
    ensures forall j :: 0 <= j < k ==> names[j] in unlocked
    ensures k < |names| ==> names[k] !in unlocked
  {
    if names == [] || names[0] !in unlocked then 0 else 1 + FirstLockedIndex(names[1..], unlocked)
  }

  /** What one category contributes: its first locked name, or nothing. */
  function NextInCategory(names: seq<string>, unlocked: seq<string>): seq<string>
  {
    var k := FirstLockedIndex(names, unlocked);
    if k < |names| then [names[k]] else []
  }

  /** The general walk: each category's contribution, in category order. */
  function Walk(cats: seq<Category>, unlocked: seq<string>): seq<string>
  {
    if cats == [] then []
    else Walk(cats[..|cats| - 1], unlocked) + NextInCategory(cats[|cats| - 1].achievements, unlocked)
  }

  /** The shortcut for a user without achievements: the first name of every category. */
  function FirstOfEach(cats: seq<Category>): seq<string>
    requires forall c :: 0 <= c < |cats| ==> |cats[c].achievements| > 0
  {
    if cats == [] then []
    else FirstOfEach(cats[..|cats| - 1]) + [cats[|cats| - 1].achievements[0]]
  }

  /** Specification of calculateNextAvailableAchievements. */
  function NextAvailable(unlocked: seq<string>): seq<string>
  {
    if |unlocked| == 0 then FirstOfEach(Achievements) else Walk(Achievements, unlocked)
  }

  lemma WalkStep(cats: seq<Category>, i: nat, unlocked: seq<string>)
    requires i < |cats|
    ensures Walk(cats[..i + 1], unlocked) == Walk(cats[..i], unlocked) + NextInCategory(cats[i].achievements, unlocked)
  {
    assert cats[..i + 1][..i] == cats[..i];
  }

  lemma FirstOfEachStep(cats: seq<Category>, i: nat)
    requires i < |cats|
    requires forall c :: 0 <= c < |cats| ==> |cats[c].achievements| > 0
    ensures FirstOfEach(cats[..i + 1]) == FirstOfEach(cats[..i]) + [cats[i].achievements[0]]
  {
    assert cats[..i + 1][..i] == cats[..i];
  }

  /** calculateNextAvailableAchievements, with the source's nested loops and early break. */
  method CalculateNextAvailableAchievements(unlocked: seq<string>) returns (next: seq<string>)
    ensures next == NextAvailable(unlocked)
  {
    var all := Achievements;
    next := [];
    if |unlocked| == 0 {
      var i := 0;
      while i < |all|
        invariant 0 <= i <= |all|
        invariant next == FirstOfEach(all[..i])
      {
        FirstOfEachStep(all, i);
        next := next + [all[i].achievements[0]];
        i := i + 1;
      }
      assert all[..i] == all;
      return;
    }
    var i := 0;
    while i < |all|
      invariant 0 <= i <= |all|
      invariant next == Walk(all[..i], unlocked)
    {
      var names := all[i].achievements;
      var j := 0;
      while j < |names|
        invariant 0 <= j <= |names|
        invariant forall jj :: 0 <= jj < j ==> names[jj] in unlocked
      {
        if names[j] !in unlocked {
          next := next + [names[j]];
          break;
        }
        j := j + 1;
      }
      assert FirstLockedIndex(names, unlocked) == j;
      WalkStep(all, i, unlocked);
      i := i + 1;
    }
    assert all[..i] == all;
  }

  // ---------------------------------------------------------------------------
  // Properties of the next-available query

  /** The general walk over the catalog, unfolded: one contribution per category. */
  lemma WalkCatalog(unlocked: seq<string>)
    ensures Walk(Achievements, unlocked) ==
      NextInCategory(Achievements[0].achievements, unlocked) + NextInCategory(Achievements[1].achievements, unlocked)
  {
    var a := Achievements;
    assert a[..|a| - 1] == [a[0]];
    assert Walk([a[0]], unlocked) == NextInCategory(a[0].achievements, unlocked) by {
      assert [a[0]][..0] == [];
    }
  }

  /** The empty-input shortcut gives the same list as the general walk would. */
  lemma ShortcutAgrees()
    ensures FirstOfEach(Achievements) == Walk(Achievements, [])
    ensures forall unlocked :: NextAvailable(unlocked) == Walk(Achievements, unlocked)
  {
    var a := Achievements;
    WalkCatalog([]);
    assert a[..|a| - 1] == [a[0]];
    assert FirstOfEach([a[0]]) == [a[0].achievements[0]] by {
      assert [a[0]][..0] == [];
    }
    assert FirstLockedIndex(a[0].achievements, []) == 0;
    assert FirstLockedIndex(a[1].achievements, []) == 0;
  }

  /** The query as one contribution per category: lessons first, then comments. */
  lemma NextAvailablePerCategory(unlocked: seq<string>)
    ensures NextAvailable(unlocked) ==
      NextInCategory(Achievements[0].achievements, unlocked) + NextInCategory(Achievements[1].achievements, unlocked)
  {
    ShortcutAgrees();
    WalkCatalog(unlocked);
  }

  /**
   * Each returned name is absent from `unlocked`, every earlier name of its
   * category is present, and a category without one is fully unlocked.
   */
  lemma NextAvailableMeaning(unlocked: seq<string>, c: nat)
    requires c < |Achievements|
    ensures var names := Achievements[c].achievements;
            var k := FirstLockedIndex(names, unlocked);
            (k == |names| <==> forall j :: 0 <= j < |names| ==> names[j] in unlocked) &&
            (k < |names| ==> names[k] !in unlocked && names[k] in NextAvailable(unlocked)) &&
            (forall j :: 0 <= j < k ==> names[j] in unlocked) &&
            |NextAvailable(unlocked)| <= 2
  {
    NextAvailablePerCategory(unlocked);
  }

  /** No unlocked achievements: the first name of each category, in catalog order. */
  lemma NextAvailableForNewUser()
    ensures NextAvailable([]) == [FirstLessonWatched, FirstCommentWritten]
  {
    NextAvailablePerCategory([]);
    assert FirstLockedIndex(Achievements[0].achievements, []) == 0;
    assert FirstLockedIndex(Achievements[1].achievements, []) == 0;
  }

  /** Unlocked {First Lesson Watched, 5 Lessons Watched, First Comment Written}. */
  lemma NextAvailableAfterSome()
    ensures NextAvailable([FirstLessonWatched, "5 Lessons Watched", FirstCommentWritten]) ==
            ["10 Lessons Watched", "3 Comments Written"]
  {
    var u := [FirstLessonWatched, "5 Lessons Watched", FirstCommentWritten];
    NextAvailablePerCategory(u);
    var l := Achievements[0].achievements;
    var m := Achievements[1].achievements;
    assert l[2] !in u && m[1] !in u;
    assert l[0] in u && l[1] in u && m[0] in u;
    assert FirstLockedIndex(l, u) == 2;
    assert FirstLockedIndex(m, u) == 1;
  }

  /** Once every catalog name is unlocked, nothing is next. */
  lemma NextAvailableAllUnlocked(unlocked: seq<string>)
    requires forall i :: 0 <= i < |AllNames()| ==> AllNames()[i] in unlocked
    ensures NextAvailable(unlocked) == []
  {
    NextAvailablePerCategory(unlocked);
    assert forall k :: 0 <= k < 5 ==> AllNames()[k] == Achievements[0].achievements[k];
    assert forall k :: 0 <= k < 5 ==> AllNames()[5 + k] == Achievements[1].achievements[k];
  }

  lemma FirstLockedIndexByMembership(names: seq<string>, u1: seq<string>, u2: seq<string>)
    requires forall i :: 0 <= i < |names| ==> (names[i] in u1 <==> names[i] in u2)
    ensures FirstLockedIndex(names, u1) == FirstLockedIndex(names, u2)
  {
  }

  /**
   * Only `in_array` membership of catalog names matters: order, duplicates and
   * names outside the catalog make no difference.
   */
  lemma NextAvailableByMembership(u1: seq<string>, u2: seq<string>)
    requires forall i :: 0 <= i < |AllNames()| ==> (AllNames()[i] in u1 <==> AllNames()[i] in u2)
    ensures NextAvailable(u1) == NextAvailable(u2)
  {
    NextAvailablePerCategory(u1);
    NextAvailablePerCategory(u2);
    assert forall k :: 0 <= k < 5 ==> AllNames()[k] == Achievements[0].achievements[k];
    assert forall k :: 0 <= k < 5 ==> AllNames()[5 + k] == Achievements[1].achievements[k];
    FirstLockedIndexByMembership(Achievements[0].achievements, u1, u2);
    FirstLockedIndexByMembership(Achievements[1].achievements, u1, u2);
  }
}
