/**
 * The identity gate: one current user, an administrator flag computed from a fixed allow-list
 * (name compared ignoring case, phone compared exactly), and the derived flags.
 */
module Auth {
  import opened Wrappers
  import opened Text

  datatype User = User(id: string, name: string, phone: string, isAdmin: bool)

  datatype AdminEntry = AdminEntry(name: string, phone: string)

  const Admins: seq<AdminEntry> := [AdminEntry("Admin Un", "0600000001"), AdminEntry("Admin Deux", "0600000002")]

  /** `list.some(admin => ...)`, scanning the allow-list in order. */
  function AnyAdminMatches(list: seq<AdminEntry>, name: string, phone: string): (b: bool)
    ensures b <==> exists i :: 0 <= i < |list| && EqualIgnoringCase(list[i].name, name) && list[i].phone == phone
  {
    if list == [] then false
    else (EqualIgnoringCase(list[0].name, name) && list[0].phone == phone)
         || AnyAdminMatches(list[1..], name, phone)
  }

  predicate IsListedAdmin(name: string, phone: string)
  {
    AnyAdminMatches(Admins, name, phone)
  }

  lemma FirstAdminInLowerCase()
    ensures EqualIgnoringCase("Admin Un", "admin un")
  {
    var listed, typed := "Admin Un", "admin un";
    forall i | 0 <= i < 8 ensures LowerChar(listed[i]) == LowerChar(typed[i]) {}
    EqualIgnoringCaseByChars(listed, typed);
  }

  /** The check ignores the case of the name. */
  lemma AdminNameIgnoresCase()
    ensures IsListedAdmin("admin un", "0600000001")
  {
    FirstAdminInLowerCase();
    assert Admins[0] == AdminEntry("Admin Un", "0600000001");
  }

  lemma SecondAdminIsAnother()
    ensures !EqualIgnoringCase("Admin Deux", "Admin Un")
  {
    assert |ToLower("Admin Deux")| != |ToLower("Admin Un")|;
  }

  /** The check does not ignore how the phone is written, nor which entry it belongs to. */
  lemma AdminPhoneIsExact(phone: string)
    requires phone == "0600000002" || phone == "06 00 00 00 01"
    ensures !IsListedAdmin("Admin Un", phone)
  {
    assert Admins[0].phone != phone by {
      if |phone| == 10 {
        assert Admins[0].phone[9] != phone[9];
      }
    }
    SecondAdminIsAnother();
    assert Admins[1].name == "Admin Deux";
  }

  class AuthState {
    var currentUser: Option<User>

    constructor ()
      ensures currentUser == None
    {
      currentUser := None;
    }

    /** `isAuthenticated`: there is a current user. */
    function IsAuthenticated(): bool
      reads this
    {
      currentUser.Some?
    }

    /** `isAdmin`: the current user's flag, false when nobody is logged in. */
    function IsAdmin(): (b: bool)
      reads this
      ensures b ==> IsAuthenticated()
      ensures b <==> currentUser.Some? && currentUser.value.isAdmin
    {
      match currentUser
      case None => false
      case Some(u) => u.isAdmin
    }

    /** `login` always succeeds; `clockId` stands for the time-based id. */
    method Login(name: string, phone: string, clockId: string)
      modifies this
      ensures currentUser == Some(User(clockId, name, phone, IsListedAdmin(name, phone)))
      ensures IsAuthenticated() && (IsAdmin() <==> IsListedAdmin(name, phone))
    {
      var isAdmin := AnyAdminMatches(Admins, name, phone);
      currentUser := Some(User(clockId, name, phone, isAdmin));
    }

    /** `adminLogin` logs in exactly the allow-listed pairs and leaves the state alone otherwise. */
    method AdminLogin(name: string, phone: string, clockId: string) returns (ok: bool)
      modifies this
      ensures ok <==> IsListedAdmin(name, phone)
      ensures ok ==> currentUser == Some(User(clockId, name, phone, true)) && IsAdmin()
      ensures !ok ==> currentUser == old(currentUser)
    {
      ok := AnyAdminMatches(Admins, name, phone);
      if ok {
        Login(name, phone, clockId);
      }
    }

    method Logout()
      modifies this
      ensures currentUser == None && !IsAuthenticated() && !IsAdmin()
    {
      currentUser := None;
    }
  }
}
