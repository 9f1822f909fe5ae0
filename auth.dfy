/** The login route: check email and password, issue an access token. */
module Auth {
  import opened Http
  import opened Entities
  import opened Dependencies

  /** Signing an access token for the given claims (the expiry is inside). */
  type Issuer = Claims -> string

  datatype LoginResponse = LoginResponse(status: int, success: bool, message: string, accessToken: Option<string>)

  /** The one response for every failed login, whatever the reason. */
  const LoginFailed: LoginResponse :=
    LoginResponse(400, false, "Неверный email или пароль", None)

  /** The payload `create_access_token` signs: the id as text, and the email. */
  function TokenClaims(id: int, email: string): Claims {
    Claims(Some(IntToString(id)), Some(email))
  }

  /** `.filter(email == e).first()`: the admin with this email, if any. */
  function FindByEmail(admins: map<int, Admin>, email: string): (r: Option<int>)
    requires UniqueEmails(admins)
    ensures r.Some? ==> r.value in admins && admins[r.value].email == email
    ensures r.None? <==> forall id :: id in admins ==> admins[id].email != email
  {
    if exists id :: id in admins && admins[id].email == email then
      var id :| id in admins && admins[id].email == email; Some(id)
    else None
  }

  /** `login` */
  function Login(admins: map<int, Admin>, email: string, password: string,
                 hash: string -> string, issue: Issuer): (r: LoginResponse)
    requires UniqueEmails(admins)
    ensures r.success <==> exists id :: id in admins && admins[id].email == email && admins[id].passwordHash == hash(password)
    ensures !r.success ==> r == LoginFailed
    ensures r.success ==> r.status == 200 && r.message == "Login successful"
    ensures r.success ==> (exists id :: id in admins && admins[id].email == email && r.accessToken == Some(issue(TokenClaims(id, email))))
  {
    match FindByEmail(admins, email)
    case None => LoginFailed
    case Some(id) =>
      if hash(password) != admins[id].passwordHash then LoginFailed
      else LoginResponse(200, true, "Login successful", Some(issue(TokenClaims(id, admins[id].email))))
  }

  /** An unknown email and a wrong password give the same response. */
  lemma NoAccountEnumeration(admins: map<int, Admin>, known: string, unknown: string,
                             wrong: string, any: string, hash: string -> string, issue: Issuer)
    requires UniqueEmails(admins)
    requires forall id :: id in admins ==> admins[id].email != unknown
    requires forall id :: id in admins && admins[id].email == known ==> admins[id].passwordHash != hash(wrong)
    ensures Login(admins, unknown, any, hash, issue) == Login(admins, known, wrong, hash, issue) == LoginFailed
  {
  }

  /** A token from a successful login, sent back as a bearer header while it
      still decodes to the claims it was issued with, authenticates the admin
      that logged in. */
  lemma LoginTokenAuthenticates(admins: map<int, Admin>, email: string, password: string,
                                hash: string -> string, issue: Issuer, decode: Decoder)
    requires UniqueEmails(admins)
    requires Login(admins, email, password, hash, issue).success
    requires decode(Login(admins, email, password, hash, issue).accessToken.value)
             == Some(TokenClaims(FindByEmail(admins, email).value, email))
    ensures var token := Login(admins, email, password, hash, issue).accessToken.value;
            var id := FindByEmail(admins, email).value;
            RequireAdmin(Some("Bearer " + token), admins, decode) == Ok(id)
  {
    var token := Login(admins, email, password, hash, issue).accessToken.value;
    var id := FindByEmail(admins, email).value;
    var header := "Bearer " + token;
    BearerCaseInsensitive("Bearer", token);
    assert header == "Bearer" + " " + token;
    assert header[7..] == token;
    ParseIntOfIntToString(id);
    assert TokenNames(decode, token, id);
  }
}
