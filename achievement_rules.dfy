/**
 * What UnlockAchievementListener does, as functions on the persisted state: the
 * checker table its constructor builds from the catalog, each check* method, the
 * create-if-absent unlockAchievement, and handle with its two errors.
 */
module AchievementRules {
  import opened Wrappers
  import opened Digits
  import opened AchievementService
  import opened Store

  /** The three kinds of closure the constructor stores in its table. */
  datatype Checker =
    | FirstLessonChecker                              // calls checkFirstLessonWatched
    | FirstCommentChecker                             // calls checkFirstCommentWritten
    | CategoryChecker(name: string, category: string) // calls checkAchievement(name, category)

  /** The checker the constructor picks for one catalog entry. */
  function CheckerFor(category: string, name: string): Checker
  {
    if name == FirstLessonWatched then FirstLessonChecker
    else if name == FirstCommentWritten then FirstCommentChecker
    else CategoryChecker(name, category)
  }

  /** The table entries for one category: every name maps to its checker. */
  function CategoryCheckers(category: string, names: seq<string>): (t: map<string, Checker>)
    ensures forall x :: x in t <==> x in names
    ensures forall x :: x in t ==> t[x] == CheckerFor(category, x)
  {
    if names == [] then map[]
    else
      var last := names[|names| - 1];
      assert names == names[..|names| - 1] + [last];
      CategoryCheckers(category, names[..|names| - 1])[last := CheckerFor(category, last)]
  }

  /** The table for a list of categories, filled category by category. */
  function CatalogCheckers(cats: seq<Category>): map<string, Checker>
  {
    if cats == [] then map[]
    else
      var last := cats[|cats| - 1];
      CatalogCheckers(cats[..|cats| - 1]) + CategoryCheckers(last.name, last.achievements)
  }

  /** The table initializeAchievementCheckers builds from getAchievements. */
  function CheckerTable(): map<string, Checker>
  {
    CatalogCheckers(Achievements)
  }

  // ---------------------------------------------------------------------------
  // The checks, each taking the user's record to the record after the check

  /** unlockAchievement: create the row only when no row with that name exists. */
  function UnlockAchievement(u: UserRecord, name: string): UserRecord
  {
    if name in u.achievements then u else u.(achievements := u.achievements + [name])
  }

  function CheckFirstLessonWatched(u: UserRecord): UserRecord
  {
    if u.watched > 0 then UnlockAchievement(u, FirstLessonWatched) else u
  }

  function CheckGenericLessonsWatched(u: UserRecord, threshold: nat): UserRecord
  {
    var v := CheckFirstLessonWatched(u);
    if v.watched >= threshold then UnlockAchievement(v, FormatNat(threshold) + LessonsSuffix) else v
  }

  function CheckFirstCommentWritten(u: UserRecord): UserRecord
  {
    if u.comments > 0 then UnlockAchievement(u, FirstCommentWritten) else u
  }

  function CheckGenericCommentsWritten(u: UserRecord, threshold: nat): UserRecord
  {
    var v := CheckFirstCommentWritten(u);
    if v.comments >= threshold then UnlockAchievement(v, FormatNat(threshold) + CommentsSuffix) else v
  }

  function CheckLessonsWatched(u: UserRecord, name: string): UserRecord
  {
    match ExtractNumber(name)
    case None => u
    case Some(n) => if n == 1 then CheckFirstLessonWatched(u) else CheckGenericLessonsWatched(u, n)
  }

  function CheckCommentsWritten(u: UserRecord, name: string): UserRecord
  {
    match ExtractNumber(name)
    case None => u
    case Some(n) => if n == 1 then CheckFirstCommentWritten(u) else CheckGenericCommentsWritten(u, n)
  }

  function CheckAchievement(u: UserRecord, name: string, category: string): UserRecord
  {
    if category == LessonsWatched then CheckLessonsWatched(u, name)
    else if category == CommentsWritten then CheckCommentsWritten(u, name)
    else u
  }

  /** Calling a checker from the table on the user. */
  function RunChecker(c: Checker, u: UserRecord): UserRecord
  {
    match c
    case FirstLessonChecker => CheckFirstLessonWatched(u)
    case FirstCommentChecker => CheckFirstCommentWritten(u)
    case CategoryChecker(name, category) => CheckAchievement(u, name, category)
  }

  /**
   * handle: reject an unresolved user, then an unknown name, otherwise run the
   * name's checker on the user. The result is the whole users table afterwards.
   */
  function HandleAchievement(users: map<UserId, UserRecord>, user: Option<UserId>, name: string)
    : (r: Result<map<UserId, UserRecord>, Error>)
    ensures r.Success? ==> r.value.Keys == users.Keys
  {
    if !Resolves(users, user) then Failure(UserNotFound)
    else if name in CheckerTable() then
      Success(users[user.value := RunChecker(CheckerTable()[name], users[user.value])])
    else Failure(UnknownAchievement(name))
  }

  // ---------------------------------------------------------------------------
  // Reference definitions

  /** The activity count of category c: watched lessons, then comments. */
  function Counter(u: UserRecord, c: nat): nat
  {
    if c == 0 then u.watched else u.comments
  }

  /** Unlocking a list of names one after the other. */
  function UnlockAll(u: UserRecord, names: seq<string>): UserRecord
    decreases |names|
  {
    if names == [] then u else UnlockAll(UnlockAchievement(u, names[0]), names[1..])
  }

  /**
   * The names that handling entry k of category c earns with activity count
   * `count`: the category's first achievement once there is any activity, and
   * the named achievement itself once its threshold is reached.
   */
  function Earned(c: nat, k: nat, count: nat): seq<string>
    requires c < |Achievements| && k < |Achievements[c].achievements|
  {
    (if count >= 1 then [Achievements[c].achievements[0]] else []) +
    (if k > 0 && count >= Threshold(c, k) then [Achievements[c].achievements[k]] else [])
  }

  // ---------------------------------------------------------------------------
  // The checker table

  lemma CatalogCheckersUnfold()
    ensures CheckerTable() ==
      CategoryCheckers(LessonsWatched, Achievements[0].achievements) +
      CategoryCheckers(CommentsWritten, Achievements[1].achievements)
  {
    var a := Achievements;
    assert a[..|a| - 1] == [a[0]];
    assert CatalogCheckers([a[0]]) == CategoryCheckers(LessonsWatched, a[0].achievements) by {
      assert [a[0]][..0] == [];
    }
  }

  /** The table holds exactly the ten catalog names. */
  lemma CheckerTableKeys(name: string)
    ensures name in CheckerTable() <==> InCatalog(name)
  {
    CatalogCheckersUnfold();
    assert AllNames() == Achievements[0].achievements + Achievements[1].achievements;
  }

  /** Entry k of category c is stored with the checker its name and category call for. */
  lemma CheckerTableEntry(c: nat, k: nat)
    requires c < |Achievements| && k < |Achievements[c].achievements|
    ensures Achievements[c].achievements[k] in CheckerTable()
    ensures CheckerTable()[Achievements[c].achievements[k]] ==
            CheckerFor(Achievements[c].name, Achievements[c].achievements[k])
  {
    CatalogCheckersUnfold();
    var name := Achievements[c].achievements[k];
    if c == 0 {
      NamesDistinct();
      assert AllNames()[k] == name;
      assert forall j :: 0 <= j < 5 ==> AllNames()[5 + j] == Achievements[1].achievements[j];
      assert name !in Achievements[1].achievements;
    }
  }

  // ---------------------------------------------------------------------------
  // Create-if-absent

  /**
   * unlockAchievement never creates a second row: afterwards exactly one row
   * carries `name` if none did, every other name keeps its rows, existing rows
   * stay in place, and only the rows change.
   */
  lemma UnlockAchievementOnce(u: UserRecord, name: string)
    ensures var r := UnlockAchievement(u, name);
      r == u.(achievements := r.achievements) &&
      r.achievements[..|u.achievements|] == u.achievements &&
      multiset(r.achievements)[name] == (if name in u.achievements then multiset(u.achievements)[name] else 1) &&
      forall x :: x != name ==> multiset(r.achievements)[x] == multiset(u.achievements)[x]
  {
  }

  /** Unlocking a list of names: its effect on rows, name by name. */
  lemma {:induction false} UnlockAllEffect(u: UserRecord, names: seq<string>)
    ensures var r := UnlockAll(u, names);
      r == u.(achievements := r.achievements) &&
      |u.achievements| <= |r.achievements| &&
      r.achievements[..|u.achievements|] == u.achievements &&
      (forall x :: x in r.achievements <==> x in u.achievements || x in names) &&
      (forall x :: multiset(r.achievements)[x] ==
                   if x in names && x !in u.achievements then 1 else multiset(u.achievements)[x])
    decreases |names|
  {
    if names != [] {
      var v := UnlockAchievement(u, names[0]);
      UnlockAchievementOnce(u, names[0]);
      UnlockAllEffect(v, names[1..]);
      var r := UnlockAll(v, names[1..]);
      assert r.achievements[..|u.achievements|] == r.achievements[..|v.achievements|][..|u.achievements|];
      forall x ensures x in r.achievements <==> x in u.achievements || x in names {
        assert x in names <==> x == names[0] || x in names[1..];
        assert x in v.achievements <==> x in u.achievements || x == names[0];
      }
      forall x ensures multiset(r.achievements)[x] ==
                       if x in names && x !in u.achievements then 1 else multiset(u.achievements)[x] {
        assert x in names <==> x == names[0] || x in names[1..];
        assert x in v.achievements <==> x in u.achievements || x == names[0];
        assert x in u.achievements <==> multiset(u.achievements)[x] > 0;
      }
    }
  }

  /** Unlocking names that all have rows already changes nothing. */
  lemma {:induction false} UnlockAllPresent(u: UserRecord, names: seq<string>)
    requires forall i :: 0 <= i < |names| ==> names[i] in u.achievements
    ensures UnlockAll(u, names) == u
    decreases |names|
  {
    if names != [] {
      UnlockAllPresent(u, names[1..]);
    }
  }

  // ---------------------------------------------------------------------------
  // handle

  /** The two errors of handle, in the order the source checks them. */
  lemma HandleAchievementErrors(users: map<UserId, UserRecord>, user: Option<UserId>, name: string)
    ensures var r := HandleAchievement(users, user, name);
      (r == Failure(UserNotFound) <==> !Resolves(users, user)) &&
      (r == Failure(UnknownAchievement(name)) <==> Resolves(users, user) && !InCatalog(name)) &&
      (r.Success? <==> Resolves(users, user) && InCatalog(name))
  {
    CheckerTableKeys(name);
  }

  /** The checker of the first entry of each category. */
  lemma RunFirstChecker(u: UserRecord, c: nat)
    requires c < |Achievements|
    ensures RunChecker(CheckerFor(Achievements[c].name, Achievements[c].achievements[0]), u) ==
            UnlockAll(u, Earned(c, 0, Counter(u, c)))
  {
    var first := Achievements[c].achievements[0];
    assert Earned(c, 0, Counter(u, c)) == if Counter(u, c) >= 1 then [first] else [];
    assert UnlockAll(u, [first]) == UnlockAchievement(u, first);
  }

  /** A numbered entry is stored with a category checker, not a "First ..." checker. */
  lemma NumberedEntryChecker(c: nat, k: nat)
    requires c < |Achievements| && 1 <= k < |Achievements[c].achievements|
    ensures var name := Achievements[c].achievements[k];
            CheckerFor(Achievements[c].name, name) == CategoryChecker(name, Achievements[c].name)
  {
    var name := Achievements[c].achievements[k];
    NamedByThreshold(c, k);
    assert IsDigit(name[0]) by {
      assert name[0] == FormatNat(Threshold(c, k))[0];
    }
    assert name != FirstLessonWatched && name != FirstCommentWritten by {
      assert FirstLessonWatched[0] == 'F' && FirstCommentWritten[0] == 'F';
    }
  }

  /** checkLessonsWatched on a name "{$n} Lessons Watched" with n at least 2. */
  lemma NumberedLessonsCheck(u: UserRecord, n: nat, name: string)
    requires n >= 2 && name == FormatNat(n) + LessonsSuffix
    ensures CheckLessonsWatched(u, name) ==
            UnlockAll(u, (if u.watched >= 1 then [FirstLessonWatched] else []) + (if u.watched >= n then [name] else []))
  {
    assert LessonsSuffix[0] == ' ';
    ExtractFormatted(n, LessonsSuffix);
    assert CheckLessonsWatched(u, name) == CheckGenericLessonsWatched(u, n);
    UnlockTwo(u, FirstLessonWatched, name, u.watched >= 1, u.watched >= n);
  }

  /** checkCommentsWritten on a name "{$n} Comments Written" with n at least 2. */
  lemma NumberedCommentsCheck(u: UserRecord, n: nat, name: string)
    requires n >= 2 && name == FormatNat(n) + CommentsSuffix
    ensures CheckCommentsWritten(u, name) ==
            UnlockAll(u, (if u.comments >= 1 then [FirstCommentWritten] else []) + (if u.comments >= n then [name] else []))
  {
    assert CommentsSuffix[0] == ' ';
    ExtractFormatted(n, CommentsSuffix);
    assert CheckCommentsWritten(u, name) == CheckGenericCommentsWritten(u, n);
    UnlockTwo(u, FirstCommentWritten, name, u.comments >= 1, u.comments >= n);
  }

  /** The checker of a numbered "Lessons Watched" entry. */
  lemma RunLessonsChecker(u: UserRecord, k: nat)
    requires 1 <= k < |Achievements[0].achievements|
    ensures RunChecker(CheckerFor(LessonsWatched, Achievements[0].achievements[k]), u) ==
            UnlockAll(u, Earned(0, k, u.watched))
  {
    var name := Achievements[0].achievements[k];
    NumberedEntryChecker(0, k);
    NamedByThreshold(0, k);
    NumberedLessonsCheck(u, Threshold(0, k), name);
  }

  /** The checker of a numbered "Comments Written" entry. */
  lemma RunCommentsChecker(u: UserRecord, k: nat)
    requires 1 <= k < |Achievements[1].achievements|
    ensures RunChecker(CheckerFor(CommentsWritten, Achievements[1].achievements[k]), u) ==
            UnlockAll(u, Earned(1, k, u.comments))
  {
    var name := Achievements[1].achievements[k];
    NumberedEntryChecker(1, k);
    NamedByThreshold(1, k);
    NumberedCommentsCheck(u, Threshold(1, k), name);
  }

  /** Two conditional unlocks in a row are the unlock of the names whose condition holds. */
  lemma UnlockTwo(u: UserRecord, a: string, b: string, p: bool, q: bool)
    ensures var v := if p then UnlockAchievement(u, a) else u;
            (if q then UnlockAchievement(v, b) else v) ==
            UnlockAll(u, (if p then [a] else []) + (if q then [b] else []))
  {
    var v := if p then UnlockAchievement(u, a) else u;
    if p && q {
      assert ([a] + [b])[1..] == [b];
      assert UnlockAll(v, [b]) == UnlockAll(UnlockAchievement(v, b), []) by { assert [b][1..] == []; }
    } else if p {
      assert [a] + [] == [a];
    } else if q {
      assert [] + [b] == [b];
    } else {
      assert (if p then [a] else []) + (if q then [b] else []) == [];
    }
  }

  /**
   * Handling entry k of category c runs exactly the unlocks Earned lists, against
   * the count of that category: no other achievement of the catalog is touched.
   */
  lemma HandleCatalogAchievement(users: map<UserId, UserRecord>, id: UserId, c: nat, k: nat)
    requires id in users
    requires c < |Achievements| && k < |Achievements[c].achievements|
    ensures HandleAchievement(users, Some(id), Achievements[c].achievements[k]) ==
            Success(users[id := UnlockAll(users[id], Earned(c, k, Counter(users[id], c)))])
  {
    var u := users[id];
    CheckerTableEntry(c, k);
    if k == 0 {
      RunFirstChecker(u, c);
    } else if c == 0 {
      RunLessonsChecker(u, k);
    } else {
      RunCommentsChecker(u, k);
    }
  }

  /**
   * Everything handle promises for a catalog name: only that user's rows change,
   * existing rows stay, and the rows afterwards hold exactly the old names plus
   * the name itself when the count reaches its threshold and the category's
   * first achievement when the count is at least one, each in a single row.
   */
  lemma HandleAchievementEffect(users: map<UserId, UserRecord>, id: UserId, c: nat, k: nat)
    requires id in users
    requires c < |Achievements| && k < |Achievements[c].achievements|
    ensures var name := Achievements[c].achievements[k];
      var r := HandleAchievement(users, Some(id), name);
      var u := users[id];
      var count := Counter(u, c);
      r.Success? &&
      r.value == users[id := r.value[id]] &&
      r.value[id] == u.(achievements := r.value[id].achievements) &&
      |u.achievements| <= |r.value[id].achievements| &&
      r.value[id].achievements[..|u.achievements|] == u.achievements &&
      (forall x :: x in r.value[id].achievements <==>
         x in u.achievements ||
         (x == name && count >= Threshold(c, k)) ||
         (x == Achievements[c].achievements[0] && count >= 1)) &&
      (forall x :: multiset(r.value[id].achievements)[x] ==
         if x in r.value[id].achievements && x !in u.achievements then 1 else multiset(u.achievements)[x])
  {
    var u := users[id];
    var count := Counter(u, c);
    var earned := Earned(c, k, count);
    HandleCatalogAchievement(users, id, c, k);
    UnlockAllEffect(u, earned);
    ThresholdsAscending(c);
  }

  /** A threshold of N: N-1 activities leave the name locked, N unlock it. */
  lemma HandleAchievementThreshold(users: map<UserId, UserRecord>, id: UserId, c: nat, k: nat)
    requires id in users
    requires c < |Achievements| && k < |Achievements[c].achievements|
    requires Achievements[c].achievements[k] !in users[id].achievements
    ensures var name := Achievements[c].achievements[k];
      var r := HandleAchievement(users, Some(id), name);
      var count := Counter(users[id], c);
      r.Success? && id in r.value &&
      (name in r.value[id].achievements <==> count >= Threshold(c, k)) &&
      (count == Threshold(c, k) - 1 ==> name !in r.value[id].achievements)
  {
    var u := users[id];
    var name := Achievements[c].achievements[k];
    var earned := Earned(c, k, Counter(u, c));
    HandleCatalogAchievement(users, id, c, k);
    UnlockAllNewName(u, earned, name);
    EarnedHoldsName(c, k, Counter(u, c));
  }

  /** Entry k of its category is among the names earned exactly when the count reaches its threshold. */
  lemma EarnedHoldsName(c: nat, k: nat, count: nat)
    requires c < |Achievements| && k < |Achievements[c].achievements|
    ensures Achievements[c].achievements[k] in Earned(c, k, count) <==> count >= Threshold(c, k)
  {
    ThresholdsAscending(c);
  }

  /** A name without a row gets exactly one row from unlocking a list, if the list holds it, and none otherwise. */
  lemma UnlockAllNewName(u: UserRecord, names: seq<string>, name: string)
    requires name !in u.achievements
    ensures var rows := UnlockAll(u, names).achievements;
      (name in rows <==> name in names) && (name in names ==> multiset(rows)[name] == 1)
  {
    UnlockAllEffect(u, names);
  }

  /** A user without activity in a category earns nothing from that category's names. */
  lemma HandleWithoutActivity(users: map<UserId, UserRecord>, id: UserId, c: nat, k: nat)
    requires id in users
    requires c < |Achievements| && k < |Achievements[c].achievements|
    requires Counter(users[id], c) == 0
    ensures HandleAchievement(users, Some(id), Achievements[c].achievements[k]) == Success(users)
  {
    HandleCatalogAchievement(users, id, c, k);
    ThresholdsAscending(c);
    assert Earned(c, k, 0) == [];
    assert users[id := users[id]] == users;
  }

  /** Unlocking the same names twice is unlocking them once. */
  lemma UnlockAllTwice(u: UserRecord, names: seq<string>)
    ensures UnlockAll(UnlockAll(u, names), names) == UnlockAll(u, names)
  {
    UnlockAllEffect(u, names);
    UnlockAllPresent(UnlockAll(u, names), names);
  }

  /** Handling entry k of category c again, with the same counts, changes nothing more. */
  lemma HandleCatalogAchievementTwice(users: map<UserId, UserRecord>, id: UserId, c: nat, k: nat)
    requires id in users
    requires c < |Achievements| && k < |Achievements[c].achievements|
    ensures HandleAchievement(users, Some(id), Achievements[c].achievements[k]).Success?
    ensures var name := Achievements[c].achievements[k];
            var after := HandleAchievement(users, Some(id), name).value;
            HandleAchievement(after, Some(id), name) == Success(after)
  {
    var name := Achievements[c].achievements[k];
    var u := users[id];
    var earned := Earned(c, k, Counter(u, c));
    HandleCatalogAchievement(users, id, c, k);
    var r := UnlockAll(u, earned);
    var after := users[id := r];
    HandleCatalogAchievement(after, id, c, k);
    UnlockAllEffect(u, earned);
    assert Counter(r, c) == Counter(u, c);
    UnlockAllTwice(u, earned);
    assert after[id := r] == after;
  }

  /** Handling the same name again, with the same counts, changes nothing more. */
  lemma HandleAchievementIdempotent(users: map<UserId, UserRecord>, user: Option<UserId>, name: string)
    requires HandleAchievement(users, user, name).Success?
    ensures var after := HandleAchievement(users, user, name).value;
            HandleAchievement(after, user, name) == Success(after)
  {
    HandleAchievementErrors(users, user, name);
    var c, k := CatalogPosition(name);
    HandleCatalogAchievementTwice(users, user.value, c, k);
  }

  /** Handling a name never gives any name a second row. */
  lemma HandleKeepsRowsUnique(users: map<UserId, UserRecord>, user: Option<UserId>, name: string)
    requires HandleAchievement(users, user, name).Success?
    requires NoDuplicateRows(users[user.value].achievements)
    ensures NoDuplicateRows(HandleAchievement(users, user, name).value[user.value].achievements)
  {
    HandleAchievementErrors(users, user, name);
    var id := user.value;
    var c, k :| 0 <= c < |Achievements| && 0 <= k < |Achievements[c].achievements| &&
                Achievements[c].achievements[k] == name;
    HandleAchievementEffect(users, id, c, k);
    NoDuplicateRowsByCount(users[id].achievements);
    NoDuplicateRowsByCount(HandleAchievement(users, user, name).value[id].achievements);
  }
}
