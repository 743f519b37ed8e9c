/** The bearer-token guard in front of every authenticated route: the token
    layer rejects a missing, badly signed or expired token, and `validate` then
    asks the session check whether the token is still the user's live one. */
module JwtStrategy {
  import opened Results
  import AuthService

  /** A database failure while reading the session marker. */
  datatype StoreFault = StoreFault

  /** What the Authorization header carries, as the token layer sees it. */
  datatype Bearer = Missing | BadSignature | Signed(claim: AuthService.Claim)

  /** validate(): a failing session lookup counts as "not live"; a token that is
      not live is Unauthorized; a live one passes through unchanged. */
  function Validate(reply: Result<bool, StoreFault>, claim: AuthService.Claim): (r: Result<AuthService.Claim, AuthService.Fault>)
    ensures r.Ok? <==> reply == Ok(true)
    ensures r.Ok? ==> r.value == claim
    ensures r.Err? ==> r.error == AuthService.Unauthorized
  {
    var live := match reply
      case Err(_) => false
      case Ok(s) => s;
    if !live then Err(AuthService.Unauthorized) else Ok(claim)
  }

  /** The whole guard at second `nowSec`: expiry is enforced (a token is expired
      from its `exp` second on), then the session check runs against the tables. */
  function Authenticate(db: AuthService.AuthDb, bearer: Bearer, nowSec: nat): (r: Result<AuthService.Claim, AuthService.Fault>)
    ensures r.Err? ==> r.error == AuthService.Unauthorized
  {
    match bearer
    case Missing => Err(AuthService.Unauthorized)
    case BadSignature => Err(AuthService.Unauthorized)
    case Signed(claim) =>
      if nowSec >= claim.exp then Err(AuthService.Unauthorized)
      else Validate(Ok(AuthService.Session(db, claim)), claim)
  }

  /** A request is let through exactly when it carries a signed, unexpired token
      that the session check accepts, and the handler then sees that token's claim. */
  lemma AuthenticateIff(db: AuthService.AuthDb, bearer: Bearer, nowSec: nat)
    ensures Authenticate(db, bearer, nowSec).Ok? <==>
      bearer.Signed? && nowSec < bearer.claim.exp && AuthService.Session(db, bearer.claim)
    ensures Authenticate(db, bearer, nowSec).Ok? ==> Authenticate(db, bearer, nowSec).value == bearer.claim
  {
  }

  /** A token from a successful login opens the guard until it expires, as long as the
      user does not log in again and the signer's clock did not run backwards. */
  lemma FreshLoginAuthenticates(
    db: AuthService.AuthDb, dto: AuthService.LoginDto, verify: (string, string) -> bool,
    sign: AuthService.SignInput, nowSec: nat)
    requires sign.nowMs <= sign.signMs
    requires AuthService.Login(db, dto, verify, sign).reply.Ok?
    requires nowSec < AuthService.Login(db, dto, verify, sign).reply.value.accessToken.exp
    ensures var o := AuthService.Login(db, dto, verify, sign);
            Authenticate(o.db, Signed(o.reply.value.accessToken), nowSec) == Ok(o.reply.value.accessToken)
  {
    AuthService.LoginIssuesLiveToken(db, dto, verify, sign);
  }

  /** After a successful login, a token of the same user issued in an earlier second
      is refused even though it is signed and unexpired. */
  lemma EarlierTokenRefusedAfterLogin(
    db: AuthService.AuthDb, dto: AuthService.LoginDto, verify: (string, string) -> bool,
    sign: AuthService.SignInput, earlier: AuthService.Claim, nowSec: nat)
    requires AuthService.Login(db, dto, verify, sign).reply.Ok?
    requires earlier.id == AuthService.FindLoginUser(db, dto.user).value.id
    requires earlier.iat < sign.nowMs / 1000
    ensures Authenticate(AuthService.Login(db, dto, verify, sign).db, Signed(earlier), nowSec) == Err(AuthService.Unauthorized)
  {
    AuthService.LoginRevokesEarlierTokens(db, dto, verify, sign, earlier);
  }
}
