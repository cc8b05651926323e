/**
 * The user registry and session of the authentication script: the demo
 * password hash, registration with its validation chain, login, the 24-hour
 * session and the role queries. The user list and the session record stand
 * for the two browser-storage entries; the clock is a parameter.
 */
module Auth {
  import opened Wrappers

  // ---------------------------------------------------------------------
  // The demo hash (`simpleHash`).

  const TwoTo31: int := 0x8000_0000
  const TwoTo32: int := 0x1_0000_0000

  /** ECMAScript ToInt32: reduce modulo 2^32 into [-2^31, 2^31). */
  function WrapInt32(n: int): (r: int)
    ensures -TwoTo31 <= r < TwoTo31
    ensures r == n % TwoTo32 || r == n % TwoTo32 - TwoTo32
  {
    var m := n % TwoTo32;
    if m >= TwoTo31 then m - TwoTo32 else m
  }

  /** ToInt32 only depends on its argument modulo 2^32. */
  lemma WrapCongruent(a: int, b: int, j: int)
    requires a == b + j * TwoTo32
    ensures WrapInt32(a) == WrapInt32(b)
  {
  }

  /** The loop's step as the script writes it: a 32-bit left shift by 5, minus, plus, then `& hash`. */
  function ShiftStep(h: int, c: int): (r: int)
    ensures -TwoTo31 <= r < TwoTo31
  {
    WrapInt32(WrapInt32(h * 32) - h + c)
  }

  /** The same step read as arithmetic: `31 * h + c` wrapped to 32 bits. */
  function Step(h: int, c: int): (r: int)
    ensures -TwoTo31 <= r < TwoTo31
  {
    WrapInt32(31 * h + c)
  }

  /** Shifting, subtracting and wrapping twice is one wrap of `31 * h + c`. */
  lemma ShiftStepIsStep(h: int, c: int)
    ensures ShiftStep(h, c) == Step(h, c)
  {
    var w := WrapInt32(h * 32);
    var j := if w == (h * 32) % TwoTo32 then -((h * 32) / TwoTo32) else -((h * 32) / TwoTo32) - 1;
    assert w == h * 32 + j * TwoTo32;
    WrapCongruent(w - h + c, 31 * h + c, j);
  }

  /** The 32-bit accumulator after every character of `s`, from the left; code units are the characters' code points. */
  function HashAcc(s: string): (h: int)
    ensures -TwoTo31 <= h < TwoTo31
  {
    if s == [] then 0 else Step(HashAcc(s[..|s| - 1]), s[|s| - 1] as int)
  }

  function Abs(n: int): nat
  {
    if n < 0 then -n else n
  }

  const HexDigits: string := "0123456789abcdef"

  function HexDigit(d: nat): char
    requires d < 16
  {
    HexDigits[d]
  }

  /** `toString(16)` of a non-negative integer: lower-case digits, most significant first, no leading zero. */
  function Hex(n: nat): (s: string)
    ensures |s| >= 1
    decreases n
  {
    if n < 16 then [HexDigit(n)] else Hex(n / 16) + [HexDigit(n % 16)]
  }

  /** The value of a lower-case hex digit. */
  function DigitValue(c: char): nat
  {
    if '0' <= c <= '9' then c as int - '0' as int
    else if 'a' <= c <= 'f' then c as int - 'a' as int + 10
    else 0
  }

  /** Reading a hex numeral back, most significant digit first. */
  function HexValue(s: string): nat
  {
    if s == [] then 0 else HexValue(s[..|s| - 1]) * 16 + DigitValue(s[|s| - 1])
  }

  /** Reading back what `Hex` wrote gives the number again. */
  lemma {:induction false} HexRoundTrip(n: nat)
    ensures HexValue(Hex(n)) == n
    decreases n
  {
    if n >= 16 {
      HexRoundTrip(n / 16);
      var s := Hex(n);
      assert s[..|s| - 1] == Hex(n / 16);
      assert DigitValue(HexDigit(n % 16)) == n % 16;
    } else {
      assert DigitValue(HexDigit(n)) == n;
      assert Hex(n)[..0] == [];
    }
  }

  /** The numeral has no leading zero, and only digits from the table. */
  lemma {:induction false} HexCanonical(n: nat)
    ensures Hex(n)[0] == '0' ==> n == 0
    ensures forall i :: 0 <= i < |Hex(n)| ==> Hex(n)[i] in HexDigits
    decreases n
  {
    if n >= 16 {
      HexCanonical(n / 16);
      assert Hex(n)[0] == Hex(n / 16)[0];
    }
  }

  /** A number below 16^k has at most k hex digits. */
  lemma {:induction false} HexLength(n: nat, k: nat, bound: nat)
    requires k >= 1 && bound == Pow16(k) && n < bound
    ensures |Hex(n)| <= k
    decreases k
  {
    if n >= 16 {
      assert k >= 2;
      HexLength(n / 16, k - 1, Pow16(k - 1));
    }
  }

  function Pow16(k: nat): nat
  {
    if k == 0 then 1 else 16 * Pow16(k - 1)
  }

  /** `simpleHash(s)` as a value: the hex numeral of the absolute 32-bit accumulator. */
  function HashString(s: string): (r: string)
    ensures HexValue(r) == Abs(HashAcc(s))
  {
    HexRoundTrip(Abs(HashAcc(s)));
    Hex(Abs(HashAcc(s)))
  }

  /** A stored password hash is at most eight hex digits long. */
  lemma HashLength(s: string)
    ensures 1 <= |HashString(s)| <= 8
  {
    assert Pow16(8) == 0x1_0000_0000;
    HexLength(Abs(HashAcc(s)), 8, Pow16(8));
  }

  /** The empty password hashes to "0": the loop does not run and the accumulator stays 0. */
  lemma HashEmpty()
    ensures HashString("") == "0"
  {
  }

  /** The hash is not injective: two different passwords share a hash and so log in alike. */
  lemma HashCollision()
    ensures "Aa" != "BB" && HashString("Aa") == HashString("BB")
  {
    assert "Aa"[..1] == "A" && "BB"[..1] == "B";
    assert "A"[..0] == [] && "B"[..0] == [];
    assert HashAcc("A") == 65 && HashAcc("B") == 66;
  }

  /** The hash loop: shift, subtract, add the code unit, wrap; then `Math.abs` and `toString(16)`. */
  method SimpleHash(s: string) returns (r: string)
    ensures r == HashString(s)
  {
    var h := 0;
    var i := 0;
    while i < |s|
      invariant 0 <= i <= |s|
      invariant h == HashAcc(s[..i])
    {
      var c := s[i] as int;
      ShiftStepIsStep(h, c);
      assert s[..i + 1][..i] == s[..i];
      h := WrapInt32(WrapInt32(h * 32) - h + c);
      i := i + 1;
    }
    assert s[..i] == s;
    r := Hex(if h < 0 then -h else h);
  }

  // ---------------------------------------------------------------------
  // The e-mail pattern `^[^\s@]+@[^\s@]+\.[^\s@]+$`.

  /** The characters the ECMAScript class `\s` matches: white space and line terminators. */
  predicate IsJsSpace(c: char)
  {
    var n := c as int;
    (9 <= n <= 13) || n == 32 || n == 0xA0 || n == 0x1680 || (0x2000 <= n <= 0x200A)
    || n == 0x2028 || n == 0x2029 || n == 0x202F || n == 0x205F || n == 0x3000 || n == 0xFEFF
  }

  /** A character of the class `[^\s@]`. */
  predicate Plain(c: char)
  {
    !IsJsSpace(c) && c != '@'
  }

  predicate AllPlain(s: string)
  {
    forall j :: 0 <= j < |s| ==> Plain(s[j])
  }

  /** The pattern itself: a plain run, '@', a plain run, '.', a plain run, covering the whole string. */
  ghost predicate EmailPattern(e: string)
  {
    exists i, k :: 0 < i && i + 1 < k < |e| - 1 && e[i] == '@' && e[k] == '.'
      && AllPlain(e[..i]) && AllPlain(e[i + 1..k]) && AllPlain(e[k + 1..])
  }

  /** The first index of `c` in `s`, or -1. */
  function IndexOf(s: string, c: char): (r: int)
    ensures -1 <= r < |s|
    ensures r >= 0 ==> s[r] == c && forall j :: 0 <= j < r ==> s[j] != c
    ensures r == -1 ==> forall j :: 0 <= j < |s| ==> s[j] != c
  {
    if s == [] then -1
    else if s[0] == c then 0
    else
      var k := IndexOf(s[1..], c);
      if k < 0 then -1 else k + 1
  }

  /** The test as a direct scan: the only '@' after a plain run, then plain characters with an inner '.'. */
  predicate EmailOk(e: string)
  {
    var i := IndexOf(e, '@');
    i > 0 && AllPlain(e[..i]) && AllPlain(e[i + 1..])
    && |e[i + 1..]| >= 3 && '.' in e[i + 1..][1..|e[i + 1..]| - 1]
  }

  /** What the scan accepts, the pattern matches. */
  lemma EmailOkMatches(e: string)
    requires EmailOk(e)
    ensures EmailPattern(e)
  {
    var i := IndexOf(e, '@');
    var r := e[i + 1..];
    var inner := r[1..|r| - 1];
    var d :| 0 <= d < |inner| && inner[d] == '.';
    var k := i + 2 + d;
    assert e[k] == '.';
    assert e[i + 1..k] == r[..d + 1];
    assert e[k + 1..] == r[d + 2..];
    assert AllPlain(e[i + 1..k]) && AllPlain(e[k + 1..]);
  }

  /** What the pattern matches, the scan accepts. */
  lemma PatternIsEmailOk(e: string, i: int, k: int)
    requires 0 < i && i + 1 < k < |e| - 1 && e[i] == '@' && e[k] == '.'
    requires AllPlain(e[..i]) && AllPlain(e[i + 1..k]) && AllPlain(e[k + 1..])
    ensures EmailOk(e)
  {
    assert forall j :: 0 <= j < i ==> e[..i][j] == e[j];
    assert IndexOf(e, '@') == i;
    var r := e[i + 1..];
    assert r == e[i + 1..k] + [e[k]] + e[k + 1..];
    assert !IsJsSpace('.');
    assert AllPlain(r);
    assert r[1..|r| - 1][k - i - 2] == '.';
  }

  /** The scan accepts exactly the strings the pattern matches. */
  lemma EmailOkIsPattern(e: string)
    ensures EmailOk(e) <==> EmailPattern(e)
  {
    if EmailOk(e) {
      EmailOkMatches(e);
    }
    if EmailPattern(e) {
      var i, k :| 0 < i && i + 1 < k < |e| - 1 && e[i] == '@' && e[k] == '.'
        && AllPlain(e[..i]) && AllPlain(e[i + 1..k]) && AllPlain(e[k + 1..]);
      PatternIsEmailOk(e, i, k);
    }
  }

  // ---------------------------------------------------------------------
  // Users and sessions.

  /** `toLowerCase` on the ASCII letters. */
  function LowerChar(c: char): char
  {
    if 'A' <= c <= 'Z' then (c as int + 32) as char else c
  }

  function ToLower(s: string): (r: string)
    ensures |r| == |s|
    ensures forall i :: 0 <= i < |s| ==> r[i] == LowerChar(s[i])
  {
    seq(|s|, i requires 0 <= i < |s| => LowerChar(s[i]))
  }

  /** Lower-casing twice is lower-casing once. */
  lemma ToLowerIdempotent(s: string)
    ensures ToLower(ToLower(s)) == ToLower(s)
  {
  }

  /** Two addresses are the same account when they agree after lower-casing. */
  predicate SameEmail(a: string, b: string)
    ensures SameEmail(a, b) <==> |a| == |b| && forall i :: 0 <= i < |a| ==> LowerChar(a[i]) == LowerChar(b[i])
  {
    ToLower(a) == ToLower(b)
  }

  /** A registered user record. */
  datatype User = User(id: string, email: string, password: string, name: string,
                       userType: string, createdAt: string, projects: seq<string>)

  /** The user part of a session record. */
  datatype SessionUser = SessionUser(id: string, email: string, name: string, userType: string)

  /** The session record: who is logged in and until when (milliseconds since the epoch). */
  datatype Session = Session(user: SessionUser, expires: int)

  /** 24 hours in milliseconds. */
  const SessionLifetime: int := 24 * 60 * 60 * 1000

  /** `users.find` by case-insensitive e-mail: the first match, or -1. */
  function FindByEmail(users: seq<User>, email: string): (r: int)
    ensures -1 <= r < |users|
    ensures r >= 0 ==>
      SameEmail(users[r].email, email) && forall j :: 0 <= j < r ==> !SameEmail(users[j].email, email)
    ensures r == -1 <==> forall j :: 0 <= j < |users| ==> !SameEmail(users[j].email, email)
  {
    if users == [] then -1
    else if SameEmail(users[0].email, email) then 0
    else
      var k := FindByEmail(users[1..], email);
      if k < 0 then -1 else k + 1
  }

  /**
   * `length` of a string: its UTF-16 code units. A character outside the
   * Basic Multilingual Plane is a surrogate pair and counts twice.
   */
  function Utf16Length(s: string): (n: nat)
    ensures |s| <= n <= 2 * |s|
    ensures n == |s| <==> forall j :: 0 <= j < |s| ==> s[j] as int < 0x1_0000
  {
    if s == [] then 0
    else (if s[0] as int < 0x1_0000 then 1 else 2) + Utf16Length(s[1..])
  }

  /** Three emoji are six code units, enough for the password rule. */
  lemma Utf16Example()
    ensures |"\U{1F600}\U{1F600}\U{1F600}"| == 3
    ensures Utf16Length("\U{1F600}\U{1F600}\U{1F600}") == 6
  {
    var s := "\U{1F600}\U{1F600}\U{1F600}";
    assert s[1..][1..][1..] == [];
  }

  /**
   * The validation chain of `register`, in its order: the first failing
   * check's message, or None when the registration may go ahead.
   */
  function RegisterError(users: seq<User>, email: string, password: string, name: string, userType: string)
    : (r: Option<string>)
    ensures r.None? <==>
      && email != "" && password != "" && name != ""
      && (userType == "customer" || userType == "admin")
      && Utf16Length(password) >= 6 && EmailPattern(email)
      && forall j :: 0 <= j < |users| ==> !SameEmail(users[j].email, email)
    ensures email == "" || password == "" || name == "" ==> r == Some("All fields are required")
    ensures email != "" && password != "" && name != "" && userType != "customer" && userType != "admin" ==>
      r == Some("Please select a valid user type")
    ensures r == Some("Email already registered") ==> FindByEmail(users, email) >= 0
    ensures email != "" && password != "" && name != "" && (userType == "customer" || userType == "admin") ==>
      && (Utf16Length(password) < 6 ==> r == Some("Password must be at least 6 characters"))
      && (Utf16Length(password) >= 6 && !EmailPattern(email) ==> r == Some("Invalid email format"))
      && (Utf16Length(password) >= 6 && EmailPattern(email) && FindByEmail(users, email) >= 0 ==>
            r == Some("Email already registered"))
  {
    EmailOkIsPattern(email);
    if email == "" || password == "" || name == "" then Some("All fields are required")
    else if userType == "" || (userType != "customer" && userType != "admin") then Some("Please select a valid user type")
    else if Utf16Length(password) < 6 then Some("Password must be at least 6 characters")
    else if !EmailOk(email) then Some("Invalid email format")
    else if FindByEmail(users, email) >= 0 then Some("Email already registered")
    else None
  }

  /** The record `register` appends: e-mail lower-cased, password hashed, no projects. */
  function NewUser(id: string, email: string, password: string, name: string, userType: string, createdAt: string)
    : (u: User)
    ensures u.email == ToLower(email) && SameEmail(u.email, email)
    ensures u.password == HashString(password) && u.projects == []
  {
    ToLowerIdempotent(email);
    User(id, ToLower(email), HashString(password), name, userType, createdAt, [])
  }

  /** The checks of `login`: both fields given, a user with this e-mail, and the password's hash. */
  function Authenticate(users: seq<User>, email: string, password: string): (r: Result<User, string>)
    ensures r.Success? <==>
      email != "" && password != "" && FindByEmail(users, email) >= 0
      && users[FindByEmail(users, email)].password == HashString(password)
    ensures r.Success? ==> r.value == users[FindByEmail(users, email)] && SameEmail(r.value.email, email)
    ensures r.Failure? && email != "" && password != "" ==> r.error == "Invalid email or password"
    ensures email == "" || password == "" ==> r == Failure("Email and password are required")
  {
    if email == "" || password == "" then Failure("Email and password are required")
    else
      var i := FindByEmail(users, email);
      if i < 0 then Failure("Invalid email or password")
      else if users[i].password != HashString(password) then Failure("Invalid email or password")
      else Success(users[i])
  }

  /** An unknown address and a wrong password are refused with the same message. */
  lemma LoginFailureUniform(users: seq<User>, email: string, p1: string, p2: string, other: string)
    requires email != "" && p1 != "" && p2 != "" && other != ""
    requires FindByEmail(users, email) >= 0 && users[FindByEmail(users, email)].password != HashString(p1)
    requires FindByEmail(users, other) < 0
    ensures Authenticate(users, email, p1) == Authenticate(users, other, p2) == Failure("Invalid email or password")
  {
  }

  /** The session a login writes: the user's public fields, role defaulting to customer, expiring a day later. */
  function MakeSession(u: User, now: int): (s: Session)
    ensures s.user.id == u.id && s.user.email == u.email && s.user.name == u.name
    ensures s.user.userType == (if u.userType == "" then "customer" else u.userType)
    ensures s.expires - now == 86400000
  {
    Session(SessionUser(u.id, u.email, u.name, if u.userType == "" then "customer" else u.userType),
            now + SessionLifetime)
  }

  /** A session counts up to and including its expiry instant. */
  predicate Live(s: Session, now: int)
  {
    !(now > s.expires)
  }

  /** A fresh session is live for exactly the next 24 hours. */
  lemma SessionWindow(u: User, now: int, t: int)
    ensures Live(MakeSession(u, now), t) <==> t <= now + 86400000
  {
  }

  /** No two users share an e-mail address up to case. */
  ghost predicate EmailsUnique(users: seq<User>)
  {
    forall i, j :: 0 <= i < j < |users| ==> !SameEmail(users[i].email, users[j].email)
  }

  /** What registration appends is found again by a login with the same e-mail and password. */
  lemma RegisterThenLogin(users: seq<User>, id: string, email: string, password: string, name: string,
                          userType: string, createdAt: string)
    requires RegisterError(users, email, password, name, userType).None?
    ensures var u := NewUser(id, email, password, name, userType, createdAt);
      Authenticate(users + [u], email, password) == Success(u)
  {
    var u := NewUser(id, email, password, name, userType, createdAt);
    var s := users + [u];
    assert forall j :: 0 <= j < |users| ==> s[j] == users[j];
    assert SameEmail(s[|users|].email, email);
    assert FindByEmail(s, email) == |users|;
  }

  /** Registration keeps e-mail addresses unique up to case. */
  lemma RegisterKeepsUnique(users: seq<User>, u: User, email: string)
    requires EmailsUnique(users) && FindByEmail(users, email) < 0 && SameEmail(u.email, email)
    ensures EmailsUnique(users + [u])
  {
    var s := users + [u];
    forall i, j | 0 <= i < j < |s|
      ensures !SameEmail(s[i].email, s[j].email)
    {
      if j == |users| {
        assert s[i] == users[i];
      }
    }
  }

  /** The two storage entries: the user list and the session record. */
  class Registry {
    var users: seq<User>
    var session: Option<Session>

    constructor ()
      ensures users == [] && session == None
    {
      users, session := [], None;
    }

    /**
     * `register`: the first failing check's message and no change, or the new
     * record appended and the success message. The session is not touched.
     */
    method Register(email: string, password: string, name: string, userType: string, id: string, createdAt: string)
      returns (success: bool, message: string)
      modifies this`users
      ensures var err := RegisterError(old(users), email, password, name, userType);
        && (success <==> err.None?)
        && (!success ==> message == err.value && users == old(users))
        && (success ==>
              message == "Registration successful!"
              && users == old(users) + [NewUser(id, email, password, name, userType, createdAt)])
      ensures old(EmailsUnique(users)) ==> EmailsUnique(users)
    {
      var err := RegisterError(users, email, password, name, userType);
      if err.Some? {
        return false, err.value;
      }
      var hashed := SimpleHash(password);
      var u := User(id, ToLower(email), hashed, name, userType, createdAt, []);
      assert u == NewUser(id, email, password, name, userType, createdAt);
      if EmailsUnique(users) {
        RegisterKeepsUnique(users, u, email);
      }
      users := users + [u];
      success, message := true, "Registration successful!";
    }

    /** `login`: on success the session is written for the found user; otherwise nothing changes. */
    method Login(email: string, password: string, now: int) returns (success: bool, message: string)
      modifies this`session
      ensures var a := Authenticate(users, email, password);
        && (success <==> a.Success?)
        && (success ==> message == "Login successful!" && session == Some(MakeSession(a.value, now)))
        && (!success ==> message == a.error && session == old(session))
    {
      if email == "" || password == "" {
        return false, "Email and password are required";
      }
      var i := FindByEmail(users, email);
      if i < 0 {
        return false, "Invalid email or password";
      }
      var hashed := SimpleHash(password);
      if users[i].password != hashed {
        return false, "Invalid email or password";
      }
      session := Some(MakeSession(users[i], now));
      success, message := true, "Login successful!";
    }

    /** `logout`: the session record is removed. */
    method Logout()
      modifies this`session
      ensures session == None
    {
      session := None;
    }

    /** `isLoggedIn`: a live session answers yes; an expired one is removed and answers no. */
    method IsLoggedIn(now: int) returns (b: bool)
      modifies this`session
      ensures b <==> old(session).Some? && Live(old(session).value, now)
      ensures session == (if b then old(session) else None)
    {
      if session.None? {
        return false;
      }
      if now > session.value.expires {
        Logout();
        return false;
      }
      b := true;
    }

    /** `getCurrentUser`: the session's user while it is live; an expired session is removed. */
    method GetCurrentUser(now: int) returns (u: Option<SessionUser>)
      modifies this`session
      ensures u.Some? <==> old(session).Some? && Live(old(session).value, now)
      ensures u.Some? ==> u.value == old(session).value.user && session == old(session)
      ensures u.None? ==> session == None
    {
      if session.None? {
        return None;
      }
      if now > session.value.expires {
        Logout();
        return None;
      }
      u := Some(session.value.user);
    }

    /** `isAdmin`: a live session whose user has the admin role. */
    method IsAdmin(now: int) returns (b: bool)
      modifies this`session
      ensures b <==> old(session).Some? && Live(old(session).value, now) && old(session).value.user.userType == "admin"
      ensures session == (if old(session).Some? && Live(old(session).value, now) then old(session) else None)
    {
      var u := GetCurrentUser(now);
      b := u.Some? && u.value.userType == "admin";
    }

    /** `isCustomer`: a live session whose user has the customer role. */
    method IsCustomer(now: int) returns (b: bool)
      modifies this`session
      ensures b <==> old(session).Some? && Live(old(session).value, now) && old(session).value.user.userType == "customer"
      ensures session == (if old(session).Some? && Live(old(session).value, now) then old(session) else None)
    {
      var u := GetCurrentUser(now);
      b := u.Some? && u.value.userType == "customer";
    }
  }
}
