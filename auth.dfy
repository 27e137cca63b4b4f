// The auth service's UserService: registration with an emailed
// verification code, verification, resending, and login. The password
// encoder and the random source are parameters; e-mail and JWT issuing are
// left out. Times are seconds.
module Auth {
  import opened Wrappers
  import Text

  const CodeCharacters := "ABCDEFGHIJKLMNOPQRSTUVWXYZ0123456789"
  const CodeLength := 6
  const ExpiryHours := 24
  const ExpirySeconds := ExpiryHours * 3600

  datatype User = User(username: string, email: string, passwordHash: string, deleted: bool)

  datatype TokenType = EmailVerification | PasswordReset

  datatype Token = Token(userId: nat, code: string, kind: TokenType, expiresAt: int, verifiedAt: Option<int>, createdAt: int)

  /** The three exception classes the service throws, with their messages. */
  datatype AuthError =
    | UserAlreadyExists(message: string)
    | VerificationFailed(message: string)
    | AuthenticationFailed(message: string)

  datatype Result<T> = Ok(value: T) | Err(error: AuthError)

  /** VerificationToken.isVerified. */
  predicate IsVerified(t: Token) { t.verifiedAt.Some? }

  /** VerificationToken.isExpired: strictly after the expiry instant. */
  predicate IsExpired(t: Token, now: int) { now > t.expiresAt }

  /** A code the service can issue: six characters from the upper-case alphabet and digits. */
  predicate IsCode(code: string)
  {
    |code| == CodeLength && forall k :: 0 <= k < |code| ==> code[k] in CodeCharacters
  }

  predicate Live(users: seq<User>, id: nat)
  {
    1 <= id <= |users| && !users[id - 1].deleted
  }

  predicate UsernameTaken(users: seq<User>, username: string)
  {
    exists i :: 0 <= i < |users| && !users[i].deleted && users[i].username == username
  }

  predicate EmailTaken(users: seq<User>, email: string)
  {
    exists i :: 0 <= i < |users| && !users[i].deleted && users[i].email == email
  }

  /** No two live users share a username or an e-mail address. */
  predicate UniqueAccounts(users: seq<User>)
  {
    forall i, j :: 0 <= i < |users| && 0 <= j < |users| && i != j && !users[i].deleted && !users[j].deleted ==>
      users[i].username != users[j].username && users[i].email != users[j].email
  }

  /** Every e-mail verification token belongs to a user, carries an issuable code and lives 24 hours. */
  predicate WellIssued(users: seq<User>, tokens: seq<Token>)
  {
    forall k :: 0 <= k < |tokens| ==>
      1 <= tokens[k].userId <= |users| &&
      (tokens[k].kind == EmailVerification ==> IsCode(tokens[k].code) && tokens[k].expiresAt == tokens[k].createdAt + ExpirySeconds)
  }

  /** findByEmailAndDeletedAtIsNull. */
  function UserByEmail(users: seq<User>, email: string, n: nat): (r: Option<nat>)
    requires n <= |users|
    decreases |users| - n
    ensures r.Some? ==> n < r.value <= |users| && Live(users, r.value) && users[r.value - 1].email == email
    ensures r.None? ==> forall i :: n <= i < |users| && !users[i].deleted ==> users[i].email != email
  {
    if n == |users| then None
    else if !users[n].deleted && users[n].email == email then Some(n + 1)
    else UserByEmail(users, email, n + 1)
  }

  /** findByUserIdAndCodeAndTokenType: the index of a matching e-mail verification token. */
  function TokenFor(tokens: seq<Token>, userId: nat, code: string, n: nat): (r: Option<nat>)
    requires n <= |tokens|
    decreases |tokens| - n
    ensures r.Some? ==> n <= r.value < |tokens| && tokens[r.value].userId == userId && tokens[r.value].code == code &&
                        tokens[r.value].kind == EmailVerification
    ensures r.None? ==> forall k :: n <= k < |tokens| ==>
                          !(tokens[k].userId == userId && tokens[k].code == code && tokens[k].kind == EmailVerification)
  {
    if n == |tokens| then None
    else if tokens[n].userId == userId && tokens[n].code == code && tokens[n].kind == EmailVerification then Some(n)
    else TokenFor(tokens, userId, code, n + 1)
  }

  /** findFirstByUserIdAndTokenTypeAndVerifiedAtIsNullOrderByCreatedAtDesc: the user's newest unverified e-mail token. */
  function LatestUnverified(tokens: seq<Token>, userId: nat): (r: Option<Token>)
    ensures r.Some? ==> r.value in tokens && r.value.userId == userId && r.value.kind == EmailVerification && !IsVerified(r.value)
    ensures r.None? ==> forall t :: t in tokens && t.userId == userId && t.kind == EmailVerification ==> IsVerified(t)
    ensures r.Some? ==> forall t :: t in tokens && t.userId == userId && t.kind == EmailVerification && !IsVerified(t) ==>
                          t.createdAt <= r.value.createdAt
  {
    if tokens == [] then None
    else
      var t := tokens[0];
      var rest := LatestUnverified(tokens[1..], userId);
      assert forall x :: x in tokens <==> x == t || x in tokens[1..];
      if t.userId == userId && t.kind == EmailVerification && !IsVerified(t) && (rest.None? || rest.value.createdAt <= t.createdAt) then Some(t)
      else rest
  }

  /**
   * resendVerificationEmail's refusal test as written: it asks whether the
   * newest unverified token is verified, so it answers yes for no input.
   */
  predicate RefusesResendAsWritten(tokens: seq<Token>, userId: nat)
  {
    var existing := LatestUnverified(tokens, userId);
    existing.Some? && IsVerified(existing.value)
  }

  /** What the test is for: the user's e-mail address has been verified already. */
  predicate AlreadyVerified(tokens: seq<Token>, userId: nat)
  {
    exists k :: 0 <= k < |tokens| && tokens[k].userId == userId && tokens[k].kind == EmailVerification && IsVerified(tokens[k])
  }

  /** The written test never refuses, while a user whose only token is verified should be refused. */
  lemma ResendRefusalCannotFire(tokens: seq<Token>, userId: nat)
    ensures !RefusesResendAsWritten(tokens, userId)
    ensures var verified := [Token(1, "ABC123", EmailVerification, 86400, Some(10), 0)];
            !RefusesResendAsWritten(verified, 1) && AlreadyVerified(verified, 1)
  {
    var verified := [Token(1, "ABC123", EmailVerification, 86400, Some(10), 0)];
    assert IsVerified(verified[0]);
  }

  /** The alphabet is the upper-case ASCII letters and the digits. */
  lemma AlphabetIsUpperAndDigits(c: char)
    requires c in CodeCharacters
    ensures 'A' <= c <= 'Z' || '0' <= c <= '9'
  {
    var d :| 0 <= d < |CodeCharacters| && CodeCharacters[d] == c;
  }

  /** Java's toUpperCase leaves every issuable code as it is, so a code typed in lower case still matches. */
  lemma {:induction false} CodesSurviveCaseChanges(code: string)
    requires IsCode(code)
    ensures Text.Upper(code) == code && Text.Upper(Text.Lower(code)) == code
  {
    forall k | 0 <= k < |code| ensures Text.UpperChar(code[k]) == code[k] && Text.UpperChar(Text.LowerChar(code[k])) == code[k] {
      AlphabetIsUpperAndDigits(code[k]);
    }
  }

  /** generateVerificationCode's loop: `draws` are the six values RANDOM.nextInt(36) returned. */
  method GenerateCode(draws: seq<nat>) returns (code: string)
    requires |draws| == CodeLength && forall k :: 0 <= k < |draws| ==> draws[k] < |CodeCharacters|
    ensures IsCode(code)
    ensures forall k :: 0 <= k < CodeLength ==> code[k] == CodeCharacters[draws[k]]
  {
    code := "";
    var i := 0;
    while i < CodeLength
      invariant 0 <= i <= CodeLength && |code| == i
      invariant forall k :: 0 <= k < i ==> code[k] == CodeCharacters[draws[k]]
    {
      code := code + [CodeCharacters[draws[i]]];
      i := i + 1;
    }
  }

  /** loginUser's decision: an unknown e-mail and a wrong password fail with the same message. */
  function Login(users: seq<User>, email: string, password: string, matches: (string, string) -> bool): (r: Result<nat>)
    ensures r.Err? ==> r.error == AuthenticationFailed("Invalid email or password")
    ensures r.Ok? <==> UserByEmail(users, email, 0).Some? && matches(password, users[UserByEmail(users, email, 0).value - 1].passwordHash)
    ensures r.Ok? ==> Live(users, r.value) && users[r.value - 1].email == email
  {
    match UserByEmail(users, email, 0)
    case None => Err(AuthenticationFailed("Invalid email or password"))
    case Some(id) => if matches(password, users[id - 1].passwordHash) then Ok(id) else Err(AuthenticationFailed("Invalid email or password"))
  }

  /** Login succeeds exactly for a live account with that address whose hash matches. */
  lemma LoginNeedsAMatchingAccount(users: seq<User>, email: string, password: string, matches: (string, string) -> bool)
    requires UniqueAccounts(users)
    ensures Login(users, email, password, matches).Ok? <==>
            exists i :: 0 <= i < |users| && !users[i].deleted && users[i].email == email && matches(password, users[i].passwordHash)
  {
    var found := UserByEmail(users, email, 0);
    if found.Some? {
      forall i | 0 <= i < |users| && !users[i].deleted && users[i].email == email ensures i == found.value - 1 { }
    }
  }

  class UserService {
    var users: seq<User>
    var tokens: seq<Token>

    ghost predicate Valid()
      reads this
    {
      UniqueAccounts(users) && WellIssued(users, tokens)
    }

    constructor()
      ensures Valid() && users == [] && tokens == []
    {
      users, tokens := [], [];
    }

    /** generateVerificationCode: a fresh e-mail token for the user, expiring ExpiryHours after `now`. */
    method IssueCode(userId: nat, draws: seq<nat>, now: int) returns (code: string)
      requires Valid() && 1 <= userId <= |users|
      requires |draws| == CodeLength && forall k :: 0 <= k < |draws| ==> draws[k] < |CodeCharacters|
      modifies this
      ensures Valid() && users == old(users) && IsCode(code)
      ensures forall k :: 0 <= k < CodeLength ==> code[k] == CodeCharacters[draws[k]]
      ensures tokens == old(tokens) + [Token(userId, code, EmailVerification, now + ExpirySeconds, None, now)]
    {
      code := GenerateCode(draws);
      tokens := tokens + [Token(userId, code, EmailVerification, now + ExpirySeconds, None, now)];
    }

    /** registerUser: the username is checked before the e-mail; a duplicate creates nothing. */
    method Register(username: string, email: string, password: string, encode: string -> string, draws: seq<nat>, now: int)
      returns (r: Result<nat>)
      requires Valid()
      requires |draws| == CodeLength && forall k :: 0 <= k < |draws| ==> draws[k] < |CodeCharacters|
      modifies this
      ensures Valid()
      ensures UsernameTaken(old(users), username) ==> r == Err(UserAlreadyExists("Username already exists"))
      ensures !UsernameTaken(old(users), username) && EmailTaken(old(users), email) ==> r == Err(UserAlreadyExists("Email already exists"))
      ensures r.Err? ==> users == old(users) && tokens == old(tokens)
      ensures r.Ok? <==> !UsernameTaken(old(users), username) && !EmailTaken(old(users), email)
      ensures r.Ok? ==> r.value == |users| && users == old(users) + [User(username, email, encode(password), false)]
      ensures r.Ok? ==> exists code :: IsCode(code) && tokens == old(tokens) + [Token(r.value, code, EmailVerification, now + ExpirySeconds, None, now)]
    {
      if exists i :: 0 <= i < |users| && !users[i].deleted && users[i].username == username {
        return Err(UserAlreadyExists("Username already exists"));
      }
      if exists i :: 0 <= i < |users| && !users[i].deleted && users[i].email == email {
        return Err(UserAlreadyExists("Email already exists"));
      }
      AccountsStayUnique(users, User(username, email, encode(password), false));
      users := users + [User(username, email, encode(password), false)];
      var code := IssueCode(|users|, draws, now);
      r := Ok(|users|);
    }

    /** verifyEmail: the code is upper-cased; then not found, already verified and expired are refused in that order. */
    method VerifyEmail(userId: nat, code: string, now: int) returns (r: Result<()>)
      requires Valid()
      modifies this
      ensures Valid() && users == old(users)
      ensures var found := TokenFor(old(tokens), userId, Text.Upper(code), 0);
              && (found.None? ==> r == Err(VerificationFailed("Invalid verification code")))
              && (found.Some? && IsVerified(old(tokens)[found.value]) ==> r == Err(VerificationFailed("Email already verified")))
              && (found.Some? && !IsVerified(old(tokens)[found.value]) && IsExpired(old(tokens)[found.value], now) ==>
                    r == Err(VerificationFailed("Verification code has expired")))
              && (r.Err? ==> tokens == old(tokens))
              && (r.Ok? <==> found.Some? && !IsVerified(old(tokens)[found.value]) && !IsExpired(old(tokens)[found.value], now))
              && (r.Ok? ==> tokens == old(tokens)[found.value := old(tokens)[found.value].(verifiedAt := Some(now))])
    {
      var found := TokenFor(tokens, userId, Text.Upper(code), 0);
      if found.None? {
        return Err(VerificationFailed("Invalid verification code"));
      }
      var t := tokens[found.value];
      if t.verifiedAt.Some? {
        return Err(VerificationFailed("Email already verified"));
      }
      if now > t.expiresAt {
        return Err(VerificationFailed("Verification code has expired"));
      }
      tokens := tokens[found.value := t.(verifiedAt := Some(now))];
      r := Ok(());
    }

    /**
     * resendVerificationEmail with the intended refusal: an unknown address
     * fails; an address already verified is refused (see
     * RefusesResendAsWritten for the test as written); otherwise every
     * e-mail token of the user is deleted and exactly one new one issued.
     */
    method Resend(email: string, draws: seq<nat>, now: int) returns (r: Result<()>)
      requires Valid()
      requires |draws| == CodeLength && forall k :: 0 <= k < |draws| ==> draws[k] < |CodeCharacters|
      modifies this
      ensures Valid() && users == old(users)
      ensures UserByEmail(users, email, 0).None? ==> r == Err(VerificationFailed("User not found"))
      ensures UserByEmail(users, email, 0).Some? && AlreadyVerified(old(tokens), UserByEmail(users, email, 0).value) ==>
                r == Err(VerificationFailed("Email already verified"))
      ensures r.Err? ==> tokens == old(tokens)
      ensures r.Ok? <==> UserByEmail(users, email, 0).Some? && !AlreadyVerified(old(tokens), UserByEmail(users, email, 0).value)
      ensures r.Ok? ==> var id := UserByEmail(users, email, 0).value;
                exists code :: IsCode(code) &&
                  tokens == WithoutEmailTokens(old(tokens), id) + [Token(id, code, EmailVerification, now + ExpirySeconds, None, now)]
    {
      var found := UserByEmail(users, email, 0);
      if found.None? {
        return Err(VerificationFailed("User not found"));
      }
      var id := found.value;
      if exists k :: 0 <= k < |tokens| && tokens[k].userId == id && tokens[k].kind == EmailVerification && IsVerified(tokens[k]) {
        return Err(VerificationFailed("Email already verified"));
      }
      FilterKeepsWellIssued(users, tokens, id);
      tokens := WithoutEmailTokens(tokens, id);
      var code := IssueCode(id, draws, now);
      r := Ok(());
    }
  }

  /** deleteByUserIdAndTokenType for e-mail verification tokens. */
  function WithoutEmailTokens(tokens: seq<Token>, userId: nat): (r: seq<Token>)
    ensures forall t :: t in r <==> t in tokens && !(t.userId == userId && t.kind == EmailVerification)
    ensures |r| <= |tokens|
  {
    if tokens == [] then []
    else
      var rest := WithoutEmailTokens(tokens[1..], userId);
      assert forall x :: x in tokens <==> x == tokens[0] || x in tokens[1..];
      if tokens[0].userId == userId && tokens[0].kind == EmailVerification then rest else [tokens[0]] + rest
  }

  /** After a resend the user holds exactly one e-mail verification token: the new one. */
  lemma ResendLeavesOneToken(tokens: seq<Token>, userId: nat, t: Token)
    requires t.userId == userId && t.kind == EmailVerification
    ensures var after := WithoutEmailTokens(tokens, userId) + [t];
            forall k :: 0 <= k < |after| && after[k].userId == userId && after[k].kind == EmailVerification ==> k == |after| - 1
  {
  }

  lemma FilterKeepsWellIssued(users: seq<User>, tokens: seq<Token>, userId: nat)
    requires WellIssued(users, tokens)
    ensures WellIssued(users, WithoutEmailTokens(tokens, userId))
  {
    var r := WithoutEmailTokens(tokens, userId);
    forall k | 0 <= k < |r|
      ensures 1 <= r[k].userId <= |users| &&
              (r[k].kind == EmailVerification ==> IsCode(r[k].code) && r[k].expiresAt == r[k].createdAt + ExpirySeconds)
    {
      assert r[k] in tokens;
    }
  }

  lemma AccountsStayUnique(users: seq<User>, u: User)
    requires UniqueAccounts(users) && !UsernameTaken(users, u.username) && !EmailTaken(users, u.email)
    ensures UniqueAccounts(users + [u])
  {
    var s := users + [u];
    forall i, j | 0 <= i < |s| && 0 <= j < |s| && i != j && !s[i].deleted && !s[j].deleted
      ensures s[i].username != s[j].username && s[i].email != s[j].email
    {
      if i == |users| {
        assert s[j] == users[j];
      } else if j == |users| {
        assert s[i] == users[i];
      }
    }
  }
}
