/**
 * The participants list of the administration area: one entry per distinct user, taken from
 * that user's first response, then shown newest first.
 */
module UserManagement {
  import opened Wrappers
  import opened Seqs
  import opened SurveyData

  datatype UserRow = UserRow(id: string, name: string, phone: string, submittedAt: int)

  /** The entry a response contributes when its user is not listed yet. */
  function RowFor(r: UserResponse): UserRow
  {
    UserRow(r.userId, r.userName, r.userPhone, r.submittedAt)
  }

  function RowIdIs(id: string): UserRow -> bool
  {
    (u: UserRow) => u.id == id
  }

  /**
   * The reduce over the responses: a response adds an entry only when no entry with its
   * user id exists yet.
   */
  function Users(rs: seq<UserResponse>): (us: seq<UserRow>)
    ensures |us| <= |rs|
  {
    if rs == [] then []
    else
      var acc := Users(rs[..|rs| - 1]);
      var r := rs[|rs| - 1];
      if Find(acc, RowIdIs(r.userId)).None? then acc + [RowFor(r)] else acc
  }

  /** Whether the list has an entry for the user. */
  predicate Listed(us: seq<UserRow>, id: string)
  {
    FirstIndex(us, RowIdIs(id)) >= 0
  }

  /** Exactly the users that responded are listed. */
  lemma {:induction false} UsersCover(rs: seq<UserResponse>, id: string)
    ensures Listed(Users(rs), id) <==> ResponseIndex(rs, id) >= 0
    decreases |rs|
  {
    if rs != [] {
      var n := |rs| - 1;
      var init, r := rs[..n], rs[n];
      assert rs == init + [r];
      UsersCover(init, id);
      var acc := Users(init);
      FirstIndexSnoc(init, r, UserIdIs(id));
      if Find(acc, RowIdIs(r.userId)).None? {
        FirstIndexSnoc(acc, RowFor(r), RowIdIs(id));
      } else if id == r.userId {
        assert Listed(acc, id);
      }
    }
  }

  predicate DistinctIds(us: seq<UserRow>)
  {
    forall i, j :: 0 <= i < j < |us| ==> us[i].id != us[j].id
  }

  lemma UsersDistinctStep(acc: seq<UserRow>, r: UserResponse)
    requires DistinctIds(acc)
    ensures DistinctIds(if Find(acc, RowIdIs(r.userId)).None? then acc + [RowFor(r)] else acc)
  {
    if Find(acc, RowIdIs(r.userId)).None? {
      assert forall i :: 0 <= i < |acc| ==> acc[i].id != r.userId;
    }
  }

  /** No user is listed twice. */
  lemma {:induction false} UsersDistinct(rs: seq<UserResponse>)
    ensures DistinctIds(Users(rs))
    decreases |rs|
  {
    if rs != [] {
      var n := |rs| - 1;
      UsersDistinct(rs[..n]);
      var acc := Users(rs[..n]);
      UsersStep(rs, n, acc, Find(acc, RowIdIs(rs[n].userId)));
      UsersDistinctStep(acc, rs[n]);
      assert rs[..n + 1] == rs;
    }
  }

  /** Every entry is the one the first response of its user contributes. */
  predicate FromFirstResponses(rs: seq<UserResponse>, us: seq<UserRow>)
  {
    forall j :: 0 <= j < |us| ==>
      0 <= ResponseIndex(rs, us[j].id) < |rs| && us[j] == RowFor(rs[ResponseIndex(rs, us[j].id)])
  }

  /** The entries are ordered as the first responses of their users. */
  predicate InFirstResponseOrder(rs: seq<UserResponse>, us: seq<UserRow>)
  {
    forall i, j :: 0 <= i < j < |us| ==> ResponseIndex(rs, us[i].id) < ResponseIndex(rs, us[j].id)
  }

  /** The first response of a user already listed is found before the new last response. */
  lemma ListedIndexUnchanged(init: seq<UserResponse>, r: UserResponse, id: string)
    requires ResponseIndex(init, id) >= 0
    ensures ResponseIndex(init + [r], id) == ResponseIndex(init, id)
  {
    FirstIndexSnoc(init, r, UserIdIs(id));
  }

  /** The entry a new user adds points at the new last response. */
  lemma NewUserIndex(init: seq<UserResponse>, r: UserResponse)
    requires ResponseIndex(init, r.userId) == -1
    ensures ResponseIndex(init + [r], r.userId) == |init|
  {
    FirstIndexSnoc(init, r, UserIdIs(r.userId));
    assert UserIdIs(r.userId)(r);
  }

  /** Each entry carries the name, phone and time of the first response with its user id. */
  lemma {:induction false} UsersFromFirstResponses(rs: seq<UserResponse>)
    ensures FromFirstResponses(rs, Users(rs))
    decreases |rs|
  {
    if rs != [] {
      var n := |rs| - 1;
      var init, r := rs[..n], rs[n];
      assert rs == init + [r];
      UsersFromFirstResponses(init);
      var acc := Users(init);
      var us := Users(rs);
      forall j | 0 <= j < |us|
        ensures 0 <= ResponseIndex(rs, us[j].id) < |rs| && us[j] == RowFor(rs[ResponseIndex(rs, us[j].id)])
      {
        if j < |acc| {
          assert us[j] == acc[j];
          ListedIndexUnchanged(init, r, acc[j].id);
          assert rs[ResponseIndex(init, acc[j].id)] == init[ResponseIndex(init, acc[j].id)];
        } else {
          assert us == acc + [RowFor(r)] && us[j] == RowFor(r);
          UsersCover(init, r.userId);
          NewUserIndex(init, r);
        }
      }
    }
  }

  /** The entries come in the order of their users' first responses. */
  lemma {:induction false} UsersInFirstResponseOrder(rs: seq<UserResponse>)
    ensures InFirstResponseOrder(rs, Users(rs))
    decreases |rs|
  {
    if rs != [] {
      var n := |rs| - 1;
      var init, r := rs[..n], rs[n];
      assert rs == init + [r];
      UsersInFirstResponseOrder(init);
      UsersFromFirstResponses(init);
      var acc := Users(init);
      var us := Users(rs);
      forall i, j | 0 <= i < j < |us|
        ensures ResponseIndex(rs, us[i].id) < ResponseIndex(rs, us[j].id)
      {
        assert us[i] == acc[i];
        ListedIndexUnchanged(init, r, acc[i].id);
        if j < |acc| {
          assert us[j] == acc[j];
          ListedIndexUnchanged(init, r, acc[j].id);
        } else {
          assert us == acc + [RowFor(r)] && us[j] == RowFor(r);
          UsersCover(init, r.userId);
          NewUserIndex(init, r);
        }
      }
    }
  }

  /** One more response adds its user at the end exactly when the user is not listed yet. */
  lemma UsersStep(rs: seq<UserResponse>, i: nat, users: seq<UserRow>, existing: Option<UserRow>)
    requires i < |rs| && users == Users(rs[..i])
    requires existing == Find(users, RowIdIs(rs[i].userId))
    ensures Users(rs[..i + 1]) == if existing.None? then users + [RowFor(rs[i])] else users
  {
    assert rs[..i + 1][..i] == rs[..i];
  }

  /** The reduce as written: one pass, pushing onto the accumulator. */
  method UniqueUsers(rs: seq<UserResponse>) returns (users: seq<UserRow>)
    ensures users == Users(rs)
  {
    users := [];
    var i := 0;
    while i < |rs|
      invariant 0 <= i <= |rs|
      invariant users == Users(rs[..i])
    {
      var response := rs[i];
      var existing := Find(users, RowIdIs(response.userId));
      UsersStep(rs, i, users, existing);
      if existing.None? {
        users := users + [RowFor(response)];
      }
      i := i + 1;
    }
    assert rs[..i] == rs;
  }

  function RowTime(u: UserRow): int
  {
    u.submittedAt
  }

  /** The displayed list: the same entries, newest submission first. */
  function SortedUsers(users: seq<UserRow>): (r: seq<UserRow>)
    ensures multiset(r) == multiset(users)
    ensures NewestFirst(r, RowTime)
  {
    SortNewestFirst(users, RowTime)
  }
}
