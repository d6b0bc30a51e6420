/**
 * The login form: blank-field check, then the French phone pattern (a `0` or `+33` prefix, a
 * digit from 1 to 9, then four groups of two digits, each optionally preceded by one `-`, `.` or
 * space, and nothing else), then the administrator or ordinary login.
 */
module Login {
  import opened Wrappers
  import opened Text
  import Seqs
  import Auth

  const FieldsRequired := "Veuillez remplir tous les champs"
  const InvalidPhone := "Numéro de téléphone invalide"
  const BadAdminCredentials := "Identifiants administrateur incorrects"

  predicate IsDigit(c: char)
  {
    '0' <= c <= '9'
  }

  /** The optional separator `[-. ]`. */
  predicate IsSeparator(c: char)
  {
    c == '-' || c == '.' || c == ' '
  }

  /**
   * `([-. ]?[0-9]{2}){n}` matching all of `s`. A separator is never a digit, so the optional
   * separator is taken exactly when the next character is one: the match is deterministic.
   */
  function MatchGroups(s: string, n: nat): bool
    decreases n
  {
    if n == 0 then s == []
    else if |s| >= 3 && IsSeparator(s[0]) && IsDigit(s[1]) && IsDigit(s[2]) then MatchGroups(s[3..], n - 1)
    else if |s| >= 2 && IsDigit(s[0]) && IsDigit(s[1]) then MatchGroups(s[2..], n - 1)
    else false
  }

  /** What follows the `0` or `+33` prefix, when `s` starts with one. */
  function AfterPrefix(s: string): (r: Option<string>)
    ensures r.Some? ==> (s == "0" + r.value || s == "+33" + r.value)
  {
    if |s| >= 1 && s[0] == '0' then
      assert s == "0" + s[1..];
      Some(s[1..])
    else if |s| >= 3 && s[..3] == "+33" then
      assert s == s[..3] + s[3..];
      Some(s[3..])
    else None
  }

  /** The phone pattern of the form, anchored at both ends. */
  predicate IsFrenchPhone(s: string)
  {
    match AfterPrefix(s)
    case None => false
    case Some(rest) => |rest| >= 1 && '1' <= rest[0] <= '9' && MatchGroups(rest[1..], 4)
  }

  // ---------------------------------------------------------------------------------------
  // The language of the pattern, written as a concatenation of its parts.

  predicate IsPrefix(p: string)
  {
    p == "0" || p == "+33"
  }

  /** One `[-. ]?[0-9]{2}` group. */
  predicate IsGroup(g: string)
  {
    || (|g| == 2 && IsDigit(g[0]) && IsDigit(g[1]))
    || (|g| == 3 && IsSeparator(g[0]) && IsDigit(g[1]) && IsDigit(g[2]))
  }

  function Concat(gs: seq<string>): string
  {
    if gs == [] then "" else gs[0] + Concat(gs[1..])
  }

  lemma {:induction false} GroupsMatch(gs: seq<string>)
    requires forall i :: 0 <= i < |gs| ==> IsGroup(gs[i])
    ensures MatchGroups(Concat(gs), |gs|)
  {
    if gs != [] {
      var s := Concat(gs);
      assert s == gs[0] + Concat(gs[1..]);
      GroupsMatch(gs[1..]);
      assert s[|gs[0]|..] == Concat(gs[1..]);
    }
  }

  lemma {:induction false} MatchedGroups(s: string, n: nat) returns (gs: seq<string>)
    requires MatchGroups(s, n)
    ensures |gs| == n && (forall i :: 0 <= i < n ==> IsGroup(gs[i])) && Concat(gs) == s
  {
    if n == 0 {
      gs := [];
    } else {
      var k := if |s| >= 3 && IsSeparator(s[0]) && IsDigit(s[1]) && IsDigit(s[2]) then 3 else 2;
      var rest := MatchedGroups(s[k..], n - 1);
      gs := [s[..k]] + rest;
      assert gs[1..] == rest;
      assert s == s[..k] + s[k..];
    }
  }

  /** Every string of the pattern's language passes the check. */
  lemma PhoneFromParts(p: string, d: char, gs: seq<string>)
    requires IsPrefix(p) && '1' <= d <= '9'
    requires |gs| == 4 && forall i :: 0 <= i < 4 ==> IsGroup(gs[i])
    ensures IsFrenchPhone(p + [d] + Concat(gs))
  {
    var rest := [d] + Concat(gs);
    GroupsMatch(gs);
    Seqs.AppendAssoc(p, [d], Concat(gs));
    assert rest[1..] == Concat(gs);
    if p == "0" {
      assert (p + rest)[1..] == rest;
    } else {
      assert (p + rest)[..3] == "+33" && (p + rest)[3..] == rest;
    }
  }

  /** Every string that passes the check is in the pattern's language. */
  lemma PhoneToParts(s: string) returns (p: string, d: char, gs: seq<string>)
    requires IsFrenchPhone(s)
    ensures IsPrefix(p) && '1' <= d <= '9'
    ensures |gs| == 4 && (forall i :: 0 <= i < 4 ==> IsGroup(gs[i]))
    ensures s == p + [d] + Concat(gs)
  {
    var rest := AfterPrefix(s).value;
    p := if s == "0" + rest then "0" else "+33";
    d := rest[0];
    gs := MatchedGroups(rest[1..], 4);
    assert rest == [d] + rest[1..];
    Seqs.AppendAssoc(p, [d], rest[1..]);
  }

  // ---------------------------------------------------------------------------------------
  // Shape of an accepted number.

  function DigitCount(s: string): nat
  {
    if s == [] then 0 else (if IsDigit(s[0]) then 1 else 0) + DigitCount(s[1..])
  }

  lemma {:induction false} MatchGroupsShape(s: string, n: nat)
    requires MatchGroups(s, n)
    ensures 2 * n <= |s| <= 3 * n
    ensures DigitCount(s) == 2 * n
  {
    if n > 0 {
      var k := if |s| >= 3 && IsSeparator(s[0]) && IsDigit(s[1]) && IsDigit(s[2]) then 3 else 2;
      MatchGroupsShape(s[k..], n - 1);
      assert s[1..][1..] == s[2..];
      assert DigitCount(s[1..]) == 1 + DigitCount(s[2..]);
      if k == 3 {
        assert s[2..][1..] == s[3..];
        assert DigitCount(s[2..]) == 1 + DigitCount(s[3..]);
        assert !IsDigit(s[0]);
      }
    }
  }

  /** An accepted number has 10 to 16 characters and exactly 9 digits after its prefix. */
  lemma AcceptedPhoneShape(s: string)
    requires IsFrenchPhone(s)
    ensures 10 <= |s| <= 16
    ensures DigitCount(AfterPrefix(s).value) == 9
  {
    var rest := AfterPrefix(s).value;
    MatchGroupsShape(rest[1..], 4);
    assert rest == [rest[0]] + rest[1..];
  }

  // ---------------------------------------------------------------------------------------
  // The form.

  /** The checks made before any login call: the error to show, or None when both pass. */
  function FormError(name: string, phone: string): (r: Option<string>)
    ensures r == Some(FieldsRequired) <==> IsBlank(name) || IsBlank(phone)
    ensures r == Some(InvalidPhone) <==> !IsBlank(name) && !IsBlank(phone) && !IsFrenchPhone(phone)
    ensures r.None? <==> !IsBlank(name) && IsFrenchPhone(phone)
  {
    if IsBlank(name) || IsBlank(phone) then Some(FieldsRequired)
    else if !IsFrenchPhone(phone) then Some(InvalidPhone)
    else
      assert !IsWhitespace(phone[0]);
      None
  }

  datatype Route = AdminArea | SurveyArea

  class LoginPage {
    var name: string
    var phone: string
    var isAdminLogin: bool
    var error: string

    constructor ()
      ensures name == "" && phone == "" && !isAdminLogin && error == ""
    {
      name, phone, isAdminLogin, error := "", "", false, "";
    }

    method SetName(value: string)
      modifies this`name
      ensures name == value
    {
      name := value;
    }

    method SetPhone(value: string)
      modifies this`phone
      ensures phone == value
    {
      phone := value;
    }

    method ToggleAdminLogin()
      modifies this`isAdminLogin
      ensures isAdminLogin == !old(isAdminLogin)
    {
      isAdminLogin := !isAdminLogin;
    }

    /**
     * `handleSubmit`: both validations run before any login call; in administrator mode the
     * administrator area is reached only through a successful `adminLogin`.
     */
    method HandleSubmit(auth: Auth.AuthState, clockId: string) returns (navigateTo: Option<Route>)
      modifies this`error, auth
      ensures FormError(name, phone).Some? ==>
                error == FormError(name, phone).value && navigateTo == None
                && auth.currentUser == old(auth.currentUser)
      ensures FormError(name, phone).None? && isAdminLogin && Auth.IsListedAdmin(name, phone) ==>
                error == "" && navigateTo == Some(AdminArea)
                && auth.currentUser == Some(Auth.User(clockId, name, phone, true))
      ensures FormError(name, phone).None? && isAdminLogin && !Auth.IsListedAdmin(name, phone) ==>
                error == BadAdminCredentials && navigateTo == None
                && auth.currentUser == old(auth.currentUser)
      ensures FormError(name, phone).None? && !isAdminLogin ==>
                error == "" && navigateTo == Some(SurveyArea)
                && auth.currentUser == Some(Auth.User(clockId, name, phone, Auth.IsListedAdmin(name, phone)))
    {
      error := "";
      if IsBlank(name) || IsBlank(phone) {
        error := FieldsRequired;
        return None;
      }
      if !IsFrenchPhone(phone) {
        error := InvalidPhone;
        return None;
      }
      if isAdminLogin {
        var success := auth.AdminLogin(name, phone, clockId);
        if success {
          navigateTo := Some(AdminArea);
        } else {
          error := BadAdminCredentials;
          navigateTo := None;
        }
      } else {
        auth.Login(name, phone, clockId);
        navigateTo := Some(SurveyArea);
      }
    }
  }
}
