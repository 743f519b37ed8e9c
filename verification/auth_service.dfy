/** The authentication service: login with a single-device session marker,
    the session check behind every authenticated request, the caller's profile,
    menu tree and per-path permission.

    The tables the service reads are one immutable value (`AuthDb`). Password
    hashing, the clocks, the random marker suffix and token signing come in as
    parameters: `verify(hash, plain)` stands for the argon2 comparison, and an
    access token is modelled by the claim it carries (signature and encoding are
    not modelled). */
module AuthService {
  import opened Results
  import opened Text
  import Utils
  import MenuTree

  const NoAccess := "Sorry, you don't have access to this resource."
  const BadCredentials := "Username or password is incorrect"

  /** The HTTP errors the service throws. */
  datatype Fault = BadRequest(message: string) | Unauthorized | Forbidden(message: string)

  /** The payload of an access token: the signed user fields plus issue and expiry second. */
  datatype Claim = Claim(id: int, name: string, access: string, iat: nat, exp: nat)

  datatype Account = Account(
    id: int,
    accessId: int,
    username: string,
    password: string,
    fullname: string,
    status: int)

  /** One role-menu grant joined with its menu; the sequence is in (menu id, menu sort) order. */
  datatype GrantRow = GrantRow(accessId: int, menu: MenuTree.MenuRow)

  datatype Device = Device(
    firebaseId: string,
    imei: string,
    name: string,
    os: string,
    platform: string,
    appVersion: string)

  /** The tables behind the service: users, role names by role id, grants, the
      session marker of each user and the device of each user. */
  datatype AuthDb = AuthDb(
    users: seq<Account>,
    roles: map<int, string>,
    grants: seq<GrantRow>,
    sessions: map<int, string>,
    devices: map<int, Device>)

  // ---------------------------------------------------------------------------
  // Queries.

  /** The user row with the given id, if any. */
  function FindUser(users: seq<Account>, id: int): (r: Option<Account>)
    ensures r.Some? ==> r.value in users && r.value.id == id
    ensures r.None? ==> forall k :: 0 <= k < |users| ==> users[k].id != id
  {
    if users == [] then None
    else if users[0].id == id then Some(users[0])
    else FindUser(users[1..], id)
  }

  /** The login query: an active user with that username whose role exists (inner join). */
  function FindLoginUser(db: AuthDb, username: string): (r: Option<Account>)
    ensures r.Some? ==> (r.value in db.users && r.value.username == username
                         && r.value.status == 1 && r.value.accessId in db.roles)
    ensures r.None? ==> forall a :: a in db.users && a.username == username && a.status == 1 ==> a.accessId !in db.roles
    decreases |db.users|
  {
    if db.users == [] then None
    else
      var a := db.users[0];
      if a.username == username && a.status == 1 && a.accessId in db.roles then Some(a)
      else FindLoginUser(db.(users := db.users[1..]), username)
  }

  /** The menu rows granted to a role, in grant order. */
  function GrantedMenus(grants: seq<GrantRow>, accessId: int): (rows: seq<MenuTree.MenuRow>)
    ensures forall m :: m in rows <==> GrantRow(accessId, m) in grants
  {
    if grants == [] then []
    else (if grants[0].accessId == accessId then [grants[0].menu] else []) + GrantedMenus(grants[1..], accessId)
  }

  /** The rows of the menu query for a user: the grants of the user's role. */
  function MenuRows(db: AuthDb, userId: int): seq<MenuTree.MenuRow>
  {
    match FindUser(db.users, userId)
    case None => []
    case Some(u) => if u.accessId in db.roles then GrantedMenus(db.grants, u.accessId) else []
  }

  /** The first row with the given path. */
  function FirstWithPath(rows: seq<MenuTree.MenuRow>, path: string): (r: Option<MenuTree.MenuRow>)
    ensures r.Some? ==> r.value in rows && r.value.path == path
    ensures r.None? ==> forall m :: m in rows ==> m.path != path
  {
    if rows == [] then None
    else if rows[0].path == path then Some(rows[0])
    else FirstWithPath(rows[1..], path)
  }

  /** The first row with a non-empty path: the redirect target after login. */
  function FirstLandingPath(rows: seq<MenuTree.MenuRow>): (r: Option<string>)
    ensures r.Some? ==> r.value != "" && exists m :: m in rows && m.path == r.value
    ensures r.Some? ==> exists k :: 0 <= k < |rows| && rows[k].path == r.value && forall j :: 0 <= j < k ==> rows[j].path == ""
    ensures r.None? ==> forall m :: m in rows ==> m.path == ""
  {
    if rows == [] then None
    else if rows[0].path != "" then Some(rows[0].path)
    else FirstLandingPath(rows[1..])
  }

  // ---------------------------------------------------------------------------
  // Session markers.

  /** The session marker: the signing second, a colon and a random suffix. */
  function SessionId(nowMs: nat, suffix: string): string
  {
    Decimal(nowMs / 1000) + ":" + suffix
  }

  /** `Number(s)` for the strings the model distinguishes: the empty string is 0,
      a string of decimal digits is its value, anything else is NaN (`None`). */
  function JsNumber(s: string): (r: Option<nat>)
    ensures s == "" ==> r == Some(0)
    ensures r.Some? <==> AllDigits(s)
    ensures ':' in s ==> r.None?
  {
    if s == "" then Some(0)
    else if AllDigits(s) then Some(ParseDigits(s))
    else None
  }

  /** A non-empty string without a leading zero reads as `n` exactly when it is the
      decimal representation of `n`. */
  lemma JsNumberReadsDecimal(s: string, n: nat)
    requires s != "" && (s[0] != '0' || |s| == 1)
    ensures JsNumber(s) == Some(n) <==> s == Decimal(n)
  {
    DecimalRoundTrip(n);
    if AllDigits(s) {
      CanonicalDigitsRoundTrip(s);
    }
  }

  /** The number in front of the first colon of a marker. */
  function MarkerTime(sid: string): Option<nat>
  {
    var head := match IndexOf(sid, ':')
      case None => sid
      case Some(k) => sid[..k];
    JsNumber(head)
  }

  /** signSession: a fresh marker from the current clock and five random alphanumeric characters. */
  method SignSession(nowMs: nat) returns (sid: string)
    ensures MarkerTime(sid) == Some(nowMs / 1000)
    ensures |sid| == |Decimal(nowMs / 1000)| + 6
    ensures forall i :: |Decimal(nowMs / 1000)| < i < |sid| ==> Utils.InCharSet(Utils.Alphanumeric, sid[i])
    ensures exists suffix ::
              && |suffix| == 5
              && (forall i :: 0 <= i < 5 ==> Utils.InCharSet(Utils.Alphanumeric, suffix[i]))
              && sid == SessionId(nowMs, suffix)
  {
    var suffix := Utils.ValidateRandomChar(5, Utils.Alphanumeric);
    sid := SessionId(nowMs, suffix);
    MarkerTimeOfSessionId(nowMs, suffix);
    SessionIdSuffix(nowMs, suffix);
  }

  /** After the second and the colon, a marker is its suffix. */
  lemma SessionIdSuffix(nowMs: nat, suffix: string)
    ensures var d := Decimal(nowMs / 1000);
      && |SessionId(nowMs, suffix)| == |d| + 1 + |suffix|
      && forall i :: |d| < i < |SessionId(nowMs, suffix)| ==> SessionId(nowMs, suffix)[i] == suffix[i - |d| - 1]
  {
  }

  /** The marker's leading number is the signing second, whatever the suffix. */
  lemma MarkerTimeOfSessionId(nowMs: nat, suffix: string)
    ensures MarkerTime(SessionId(nowMs, suffix)) == Some(nowMs / 1000)
  {
    var d := Decimal(nowMs / 1000);
    assert ':' !in d by {
      forall i | 0 <= i < |d| ensures d[i] != ':' { assert IsDigit(d[i]); }
    }
    IndexOfSplitPoint(d, ':', suffix);
    assert SessionId(nowMs, suffix)[..|d|] == d;
    DecimalRoundTrip(nowMs / 1000);
  }

  lemma SessionIdExample()
    ensures SessionId(1718529600000, "AB123") == "1718529600:AB123"
  {
    DecimalExample();
    assert 1718529600000 / 1000 == 1718529600;
    assert SessionId(1718529600000, "AB123") == Decimal(1718529600) + ":" + "AB123";
  }

  /** session(): a token is live when the user has a marker whose number is at most the token's `iat`. */
  function Session(db: AuthDb, claim: Claim): bool
  {
    if claim.id !in db.sessions then false
    else match MarkerTime(db.sessions[claim.id])
      case None => false
      case Some(t) => t <= claim.iat
  }

  /** Writing a fresh marker at `nowMs` makes a token of that user live exactly when
      the token was issued in that second or later; other users are not affected. */
  lemma FreshMarkerSession(db: AuthDb, id: int, nowMs: nat, suffix: string, claim: Claim)
    ensures var db' := db.(sessions := db.sessions[id := SessionId(nowMs, suffix)]);
      && (claim.id == id ==> (Session(db', claim) <==> nowMs / 1000 <= claim.iat))
      && (claim.id != id ==> Session(db', claim) == Session(db, claim))
  {
    MarkerTimeOfSessionId(nowMs, suffix);
  }

  /** A number written out in decimal reads back as that number. */
  lemma JsNumberOfDecimal(n: nat)
    ensures JsNumber(Decimal(n)) == Some(n)
  {
    DecimalRoundTrip(n);
  }

  /** With `iat` 1000, a marker stamped 1001 is refused, one stamped 999 is accepted,
      and a user without a marker is refused. */
  lemma SessionExamples(db: AuthDb, claim: Claim)
    requires claim.iat == 1000
    ensures claim.id !in db.sessions ==> !Session(db, claim)
    ensures !Session(db.(sessions := db.sessions[claim.id := "1001:ABCDE"]), claim)
    ensures Session(db.(sessions := db.sessions[claim.id := "999:ABCDE"]), claim)
  {
    MarkerExamples();
  }

  lemma MarkerExamples()
    ensures MarkerTime("1001:ABCDE") == Some(1001)
    ensures MarkerTime("999:ABCDE") == Some(999)
  {
    MarkerAt1001();
    MarkerAt999();
  }

  lemma MarkerAt1001()
    ensures MarkerTime("1001:ABCDE") == Some(1001)
  {
    assert DigitChar(0) == '0' && DigitChar(1) == '1';
    assert Decimal(10) == Decimal(1) + "0";
    assert Decimal(100) == Decimal(10) + "0";
    assert Decimal(1001) == Decimal(100) + "1";
    assert SessionId(1001000, "ABCDE") == "1001:ABCDE";
    MarkerTimeOfSessionId(1001000, "ABCDE");
  }

  lemma MarkerAt999()
    ensures MarkerTime("999:ABCDE") == Some(999)
  {
    assert DigitChar(9) == '9';
    assert Decimal(99) == Decimal(9) + "9";
    assert Decimal(999) == Decimal(99) + "9";
    assert SessionId(999000, "ABCDE") == "999:ABCDE";
    MarkerTimeOfSessionId(999000, "ABCDE");
  }

  // ---------------------------------------------------------------------------
  // Profile, menu and permission.

  datatype MeReply = MeReply(id: int, name: string, access: string)

  /** me(): the token's own fields, once the user row still exists. */
  function Me(db: AuthDb, claim: Claim): (r: Result<MeReply, Fault>)
    ensures r.Ok? <==> exists k :: 0 <= k < |db.users| && db.users[k].id == claim.id
    ensures r.Ok? ==> r.value == MeReply(claim.id, claim.name, claim.access)
    ensures r.Err? ==> r.error == Unauthorized
  {
    match FindUser(db.users, claim.id)
    case None => Err(Unauthorized)
    case Some(_) => Ok(MeReply(claim.id, claim.name, claim.access))
  }

  /** menu(): the caller's menu tree, or Forbidden when the role grants no menu. */
  method Menu(db: AuthDb, claim: Claim) returns (r: Result<seq<MenuTree.MenuNode>, Fault>)
    ensures r.Err? <==> MenuRows(db, claim.id) == []
    ensures r.Err? ==> r.error == Forbidden(NoAccess)
    ensures r.Ok? ==> r.value == MenuTree.Forest(MenuRows(db, claim.id))
  {
    var rows := MenuRows(db, claim.id);
    if |rows| == 0 {
      return Err(Forbidden(NoAccess));
    }
    var forest := MenuTree.BuildMenu(rows);
    r := Ok(forest);
  }

  /** permission(): the flags of the first grant of the caller's role for the path. */
  function Permission(db: AuthDb, claim: Claim, path: string): (r: Result<MenuTree.Permission, Fault>)
    ensures r.Ok? ==> exists m :: m in MenuRows(db, claim.id) && m.path == path && m.permission == r.value
    ensures r.Err? <==> forall m :: m in MenuRows(db, claim.id) ==> m.path != path
    ensures r.Err? ==> r.error == Forbidden(NoAccess)
  {
    match FirstWithPath(MenuRows(db, claim.id), path)
    case None => Err(Forbidden(NoAccess))
    case Some(m) => Ok(m.permission)
  }

  /** A user's menu rows are exactly the grants of the user's existing role. */
  lemma MenuRowsAreRoleGrants(db: AuthDb, u: Account, m: MenuTree.MenuRow)
    requires FindUser(db.users, u.id) == Some(u)
    ensures m in MenuRows(db, u.id) <==> u.accessId in db.roles && GrantRow(u.accessId, m) in db.grants
  {
  }

  // ---------------------------------------------------------------------------
  // Login.

  datatype LoginDto = LoginDto(user: string, password: string, device: Device)

  /** The environment of one login: the clock read for the marker, the clock read
      by the token signer, the random suffix and the configured lifetime in seconds. */
  datatype SignInput = SignInput(nowMs: nat, signMs: nat, suffix: string, expiresIn: nat)

  datatype LoginReply = LoginReply(accessToken: Claim, redirectTo: string)

  /** The row writes a login issues: each of the marker and the device row is either inserted or updated. */
  datatype Write = InsertSession | UpdateSession | InsertDevice | UpdateDevice

  /** The reply, the tables after the call and the writes issued, in order. */
  datatype LoginOutcome = LoginOutcome(reply: Result<LoginReply, Fault>, db: AuthDb, writes: seq<Write>)

  /** The claim the signer issues: `iat` is its own clock's second. */
  function IssueClaim(u: Account, access: string, signMs: nat, expiresIn: nat): (c: Claim)
    ensures c.id == u.id && c.name == u.fullname && c.access == access
    ensures c.iat * 1000 <= signMs < c.iat * 1000 + 1000 && c.exp == c.iat + expiresIn
  {
    Claim(u.id, u.fullname, access, signMs / 1000, signMs / 1000 + expiresIn)
  }

  /** login(): check credentials, find a landing page, sign a token, then overwrite
      the user's session marker and device. Every failure leaves the tables as they were,
      and an unknown user and a wrong password get the same answer. */
  function Login(db: AuthDb, dto: LoginDto, verify: (string, string) -> bool, sign: SignInput): (o: LoginOutcome)
    ensures FindLoginUser(db, dto.user).None? ==> o == LoginOutcome(Err(BadRequest(BadCredentials)), db, [])
    ensures FindLoginUser(db, dto.user).Some? && !verify(FindLoginUser(db, dto.user).value.password, dto.password)
      ==> o == LoginOutcome(Err(BadRequest(BadCredentials)), db, [])
    ensures FindLoginUser(db, dto.user).Some? && verify(FindLoginUser(db, dto.user).value.password, dto.password) ==>
      var landing := FirstLandingPath(GrantedMenus(db.grants, FindLoginUser(db, dto.user).value.accessId));
      && (o.reply.Ok? <==> landing.Some?)
      && (landing.None? ==> o.reply == Err(Forbidden(NoAccess)))
    ensures o.reply.Err? ==> o.db == db && o.writes == []
    ensures o.reply.Err? && o.reply.error.Forbidden? ==>
      && o.reply.error.message == NoAccess
      && forall m :: m in GrantedMenus(db.grants, FindLoginUser(db, dto.user).value.accessId) ==> m.path == ""
    ensures o.reply.Ok? ==>
      var u := FindLoginUser(db, dto.user).value;
      && verify(u.password, dto.password)
      && o.reply.value.accessToken == IssueClaim(u, db.roles[u.accessId], sign.signMs, sign.expiresIn)
      && o.reply.value.redirectTo != ""
      && o.reply.value.redirectTo == FirstLandingPath(GrantedMenus(db.grants, u.accessId)).value
      && (exists m :: m in GrantedMenus(db.grants, u.accessId) && m.path == o.reply.value.redirectTo)
      && o.db.users == db.users && o.db.roles == db.roles && o.db.grants == db.grants
      && o.writes == [if u.id in db.sessions then UpdateSession else InsertSession,
                      if u.id in db.devices then UpdateDevice else InsertDevice]
      && o.db.sessions.Keys == db.sessions.Keys + {u.id}
      && o.db.sessions[u.id] == SessionId(sign.nowMs, sign.suffix)
      && (forall id :: id in db.sessions && id != u.id ==> o.db.sessions[id] == db.sessions[id])
      && o.db.devices.Keys == db.devices.Keys + {u.id}
      && o.db.devices[u.id] == dto.device
      && (forall id :: id in db.devices && id != u.id ==> o.db.devices[id] == db.devices[id])
  {
    match FindLoginUser(db, dto.user)
    case None => LoginOutcome(Err(BadRequest(BadCredentials)), db, [])
    case Some(u) =>
      if !verify(u.password, dto.password) then LoginOutcome(Err(BadRequest(BadCredentials)), db, [])
      else match FirstLandingPath(GrantedMenus(db.grants, u.accessId))
        case None => LoginOutcome(Err(Forbidden(NoAccess)), db, [])
        case Some(path) =>
          var token := IssueClaim(u, db.roles[u.accessId], sign.signMs, sign.expiresIn);
          LoginOutcome(Ok(LoginReply(token, path)), Upsert(db, u.id, SessionId(sign.nowMs, sign.suffix), dto.device), UpsertWrites(db, u.id))
  }

  /** The session and device upserts: either way the user's single marker and device row hold the new values. */
  function Upsert(db: AuthDb, id: int, sid: string, device: Device): (d: AuthDb)
    ensures d.users == db.users && d.roles == db.roles && d.grants == db.grants
    ensures d.sessions.Keys == db.sessions.Keys + {id} && d.sessions[id] == sid
    ensures forall k :: k in db.sessions && k != id ==> d.sessions[k] == db.sessions[k]
    ensures d.devices.Keys == db.devices.Keys + {id} && d.devices[id] == device
    ensures forall k :: k in db.devices && k != id ==> d.devices[k] == db.devices[k]
  {
    db.(sessions := db.sessions[id := sid], devices := db.devices[id := device])
  }

  /** The writes the upserts issue: an update where the user already has a row, an insert otherwise. */
  function UpsertWrites(db: AuthDb, id: int): seq<Write>
  {
    [if id in db.sessions then UpdateSession else InsertSession,
     if id in db.devices then UpdateDevice else InsertDevice]
  }

  lemma DivMonotone(a: nat, b: nat)
    requires a <= b
    ensures a / 1000 <= b / 1000
  {
  }

  /** The token a successful login returns passes the session check against the
      tables the login left behind, provided the signer's clock did not run backwards. */
  lemma LoginIssuesLiveToken(db: AuthDb, dto: LoginDto, verify: (string, string) -> bool, sign: SignInput)
    requires sign.nowMs <= sign.signMs
    requires Login(db, dto, verify, sign).reply.Ok?
    ensures var o := Login(db, dto, verify, sign);
            Session(o.db, o.reply.value.accessToken)
  {
    var o := Login(db, dto, verify, sign);
    MarkerTimeOfSessionId(sign.nowMs, sign.suffix);
    DivMonotone(sign.nowMs, sign.signMs);
  }

  /** Single-device sessions: after a successful login, a token of that user is
      live exactly when it was issued no earlier than the login's second. Tokens
      from earlier logins are revoked; one issued within the same second survives. */
  lemma LoginRevokesEarlierTokens(db: AuthDb, dto: LoginDto, verify: (string, string) -> bool, sign: SignInput, claim: Claim)
    requires Login(db, dto, verify, sign).reply.Ok?
    requires claim.id == FindLoginUser(db, dto.user).value.id
    ensures Session(Login(db, dto, verify, sign).db, claim) <==> sign.nowMs / 1000 <= claim.iat
  {
    MarkerTimeOfSessionId(sign.nowMs, sign.suffix);
  }

  /** A login leaves every other user's session check as it was. */
  lemma LoginKeepsOtherSessions(db: AuthDb, dto: LoginDto, verify: (string, string) -> bool, sign: SignInput, claim: Claim)
    requires Login(db, dto, verify, sign).reply.Ok?
    requires claim.id != FindLoginUser(db, dto.user).value.id
    ensures Session(Login(db, dto, verify, sign).db, claim) == Session(db, claim)
  {
  }

  lemma SameLoginUser(db: AuthDb, db': AuthDb, username: string)
    requires db.users == db'.users && db.roles == db'.roles
    ensures FindLoginUser(db', username) == FindLoginUser(db, username)
    decreases |db.users|
  {
    if db.users != [] {
      SameLoginUser(db.(users := db.users[1..]), db'.(users := db'.users[1..]), username);
    }
  }

  /** Two logins of the same user: the first login's token dies with the second login
      exactly when the second one happened in a later second. */
  lemma SecondLoginRevokesFirstToken(
    db: AuthDb, dto: LoginDto, verify: (string, string) -> bool, first: SignInput, second: SignInput)
    requires first.nowMs <= first.signMs
    requires Login(db, dto, verify, first).reply.Ok?
    requires Login(Login(db, dto, verify, first).db, dto, verify, second).reply.Ok?
    ensures var o1 := Login(db, dto, verify, first);
            var o2 := Login(o1.db, dto, verify, second);
            Session(o2.db, o1.reply.value.accessToken) <==> second.nowMs / 1000 <= first.signMs / 1000
  {
    var o1 := Login(db, dto, verify, first);
    var u := FindLoginUser(db, dto.user).value;
    var token := o1.reply.value.accessToken;
    assert token.id == u.id && token.iat == first.signMs / 1000;
    assert o1.db.users == db.users && o1.db.roles == db.roles;
    SameLoginUser(db, o1.db, dto.user);
    LoginRevokesEarlierTokens(o1.db, dto, verify, second, token);
  }
}
