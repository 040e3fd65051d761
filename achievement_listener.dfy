/**
 * UnlockAchievementListener as a class: the constructor fills the checker table
 * with nested loops over the catalog, and handle and the check* methods update
 * the database in place. Each method is proved against its function in
 * AchievementRules.
 */
module AchievementListener {
  import opened Wrappers
  import opened Digits
  import opened AchievementService
  import opened Store
  import R = AchievementRules

  lemma UpdateAfterUnion<K, V>(a: map<K, V>, b: map<K, V>, k: K, v: V)
    ensures (a + b)[k := v] == a + b[k := v]
  {
  }

  lemma CategoryStep(category: string, names: seq<string>, j: nat)
    requires j < |names|
    ensures R.CategoryCheckers(category, names[..j + 1]) ==
            R.CategoryCheckers(category, names[..j])[names[j] := R.CheckerFor(category, names[j])]
  {
    assert names[..j + 1][..j] == names[..j];
  }

  lemma CatalogStep(cats: seq<Category>, i: nat)
    requires i < |cats|
    ensures R.CatalogCheckers(cats[..i + 1]) ==
            R.CatalogCheckers(cats[..i]) + R.CategoryCheckers(cats[i].name, cats[i].achievements)
  {
    assert cats[..i + 1][..i] == cats[..i];
  }

  class UnlockAchievementListener {
    /** Achievement name to the checker that handles it. */
    var achievementCheckers: map<string, R.Checker>

    /** The class invariant: the table holds the catalog's checkers. */
    predicate Valid()
      reads this
    {
      achievementCheckers == R.CheckerTable()
    }

    constructor ()
      ensures Valid()
    {
      new;
      InitializeAchievementCheckers();
    }

    method InitializeAchievementCheckers()
      modifies this
      ensures achievementCheckers == R.CheckerTable()
    {
      var achievements := Achievements;
      achievementCheckers := map[];
      var i := 0;
      while i < |achievements|
        invariant 0 <= i <= |achievements|
        invariant achievementCheckers == R.CatalogCheckers(achievements[..i])
      {
        var category := achievements[i].name;
        var names := achievements[i].achievements;
        var j := 0;
        while j < |names|
          invariant 0 <= j <= |names|
          invariant achievementCheckers ==
                    R.CatalogCheckers(achievements[..i]) + R.CategoryCheckers(category, names[..j])
        {
          var name := names[j];
          var checker;
          if name == FirstLessonWatched {
            checker := R.FirstLessonChecker;
          } else if name == FirstCommentWritten {
            checker := R.FirstCommentChecker;
          } else {
            checker := R.CategoryChecker(name, category);
          }
          CategoryStep(category, names, j);
          UpdateAfterUnion(R.CatalogCheckers(achievements[..i]), R.CategoryCheckers(category, names[..j]), name, checker);
          achievementCheckers := achievementCheckers[name := checker];
          j := j + 1;
        }
        assert names[..j] == names;
        CatalogStep(achievements, i);
        i := i + 1;
      }
      assert achievements[..i] == achievements;
    }

    /**
     * handle: fails with UserNotFound for an unresolved user and with
     * UnknownAchievement for a name without a checker, writing nothing in
     * either case; otherwise runs the checker.
     */
    method Handle(db: Database, user: Option<UserId>, achievementName: string) returns (r: Outcome<Error>)
      requires Valid()
      modifies db
      ensures match R.HandleAchievement(old(db.users), user, achievementName)
              case Success(users) => r == Pass && db.users == users
              case Failure(e) => r == Fail(e) && db.users == old(db.users)
    {
      if user.None? || user.value !in db.users {
        return Fail(UserNotFound);
      }
      if achievementName in achievementCheckers {
        var checker := achievementCheckers[achievementName];
        RunChecker(db, user.value, checker);
        r := Pass;
      } else {
        r := Fail(UnknownAchievement(achievementName));
      }
    }

    /** Calling a checker closure of the table. */
    method RunChecker(db: Database, id: UserId, checker: R.Checker)
      requires id in db.users
      modifies db
      ensures db.users == old(db.users)[id := R.RunChecker(checker, old(db.users)[id])]
    {
      match checker
      case FirstLessonChecker => CheckFirstLessonWatched(db, id);
      case FirstCommentChecker => CheckFirstCommentWritten(db, id);
      case CategoryChecker(name, category) => CheckAchievement(db, id, name, category);
    }

    method CheckAchievement(db: Database, id: UserId, achievementName: string, category: string)
      requires id in db.users
      modifies db
      ensures db.users == old(db.users)[id := R.CheckAchievement(old(db.users)[id], achievementName, category)]
    {
      if category == LessonsWatched {
        CheckLessonsWatched(db, id, achievementName);
      } else if category == CommentsWritten {
        CheckCommentsWritten(db, id, achievementName);
      } else {
        assert old(db.users)[id := old(db.users)[id]] == old(db.users);
      }
    }

    method CheckLessonsWatched(db: Database, id: UserId, achievementName: string)
      requires id in db.users
      modifies db
      ensures db.users == old(db.users)[id := R.CheckLessonsWatched(old(db.users)[id], achievementName)]
    {
      var number := ExtractNumber(achievementName);
      if number.None? {
        assert old(db.users)[id := old(db.users)[id]] == old(db.users);
        return;
      }
      if number.value == 1 {
        CheckFirstLessonWatched(db, id);
      } else {
        CheckGenericLessonsWatched(db, id, number.value);
      }
    }

    method CheckCommentsWritten(db: Database, id: UserId, achievementName: string)
      requires id in db.users
      modifies db
      ensures db.users == old(db.users)[id := R.CheckCommentsWritten(old(db.users)[id], achievementName)]
    {
      var number := ExtractNumber(achievementName);
      if number.None? {
        assert old(db.users)[id := old(db.users)[id]] == old(db.users);
        return;
      }
      if number.value == 1 {
        CheckFirstCommentWritten(db, id);
      } else {
        CheckGenericCommentsWritten(db, id, number.value);
      }
    }

    method CheckFirstLessonWatched(db: Database, id: UserId)
      requires id in db.users
      modifies db
      ensures db.users == old(db.users)[id := R.CheckFirstLessonWatched(old(db.users)[id])]
    {
      if db.users[id].watched > 0 {
        UnlockAchievement(db, id, FirstLessonWatched);
      } else {
        assert old(db.users)[id := old(db.users)[id]] == old(db.users);
      }
    }

    method CheckGenericLessonsWatched(db: Database, id: UserId, threshold: nat)
      requires id in db.users
      modifies db
      ensures db.users == old(db.users)[id := R.CheckGenericLessonsWatched(old(db.users)[id], threshold)]
    {
      CheckFirstLessonWatched(db, id);
      var watchedCount := db.users[id].watched;
      if watchedCount >= threshold {
        UnlockAchievement(db, id, FormatNat(threshold) + LessonsSuffix);
      }
    }

    method CheckFirstCommentWritten(db: Database, id: UserId)
      requires id in db.users
      modifies db
      ensures db.users == old(db.users)[id := R.CheckFirstCommentWritten(old(db.users)[id])]
    {
      if db.users[id].comments > 0 {
        UnlockAchievement(db, id, FirstCommentWritten);
      } else {
        assert old(db.users)[id := old(db.users)[id]] == old(db.users);
      }
    }

    method CheckGenericCommentsWritten(db: Database, id: UserId, threshold: nat)
      requires id in db.users
      modifies db
      ensures db.users == old(db.users)[id := R.CheckGenericCommentsWritten(old(db.users)[id], threshold)]
    {
      CheckFirstCommentWritten(db, id);
      var writtenCount := db.users[id].comments;
      if writtenCount >= threshold {
        UnlockAchievement(db, id, FormatNat(threshold) + CommentsSuffix);
      }
    }

    /** Check, then create: a row is added only when no row carries the name. */
    method UnlockAchievement(db: Database, id: UserId, achievementName: string)
      requires id in db.users
      modifies db
      ensures db.users == old(db.users)[id := R.UnlockAchievement(old(db.users)[id], achievementName)]
    {
      var achievementExists := achievementName in db.users[id].achievements;
      if !achievementExists {
        var u := db.users[id];
        db.users := db.users[id := u.(achievements := u.achievements + [achievementName])];
      } else {
        assert old(db.users)[id := old(db.users)[id]] == old(db.users);
      }
    }
  }
}
