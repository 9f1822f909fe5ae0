/** Resolving the calling admin from the Authorization header. The resolvers
    read only the admins table, so they cannot change the store. */
module Dependencies {
  import opened Http
  import opened Entities

  /** The claims of a decoded access token that the resolver reads. */
  datatype Claims = Claims(sub: Option<string>, email: Option<string>)

  /** Verifying and decoding a signed token with the server's secret: None when
      the signature is wrong, the token has expired or it is not a token. */
  type Decoder = string -> Option<Claims>

  const BearerPrefix: string := "bearer "
  const MissingBearer: string := "Authorization header with Bearer token is required"
  const InvalidToken: string := "Invalid or expired token"
  const AdminNotFound: string := "Admin not found"

  // ---- String helpers: str.lower, str.startswith, str.split(sep, 1) ----

  /** Lower-casing of one character (ASCII letters only). */
  function Lower(c: char): char {
    if 'A' <= c <= 'Z' then (c as int + 32) as char else c
  }

  function LowerString(s: string): (r: string)
    ensures |r| == |s| && forall i :: 0 <= i < |s| ==> r[i] == Lower(s[i])
  {
    seq(|s|, i requires 0 <= i < |s| => Lower(s[i]))
  }

  predicate StartsWith(s: string, prefix: string) {
    |prefix| <= |s| && s[..|prefix|] == prefix
  }

  /** The position of the first c in s. */
  function IndexOf(s: string, c: char): (r: Option<nat>)
    ensures r.Some? ==> r.value < |s| && s[r.value] == c && forall k :: 0 <= k < r.value ==> s[k] != c
    ensures r.None? ==> forall k :: 0 <= k < |s| ==> s[k] != c
  {
    if s == [] then None
    else if s[0] == c then Some(0)
    else match IndexOf(s[1..], c)
      case None => None
      case Some(i) => Some(i + 1)
  }

  /** s.split(sep, 1): the text before the first sep and the text after it, or s alone. */
  function SplitOnce(s: string, sep: char): (parts: seq<string>)
    ensures |parts| == 1 <==> sep !in s
    ensures sep in s ==> |parts| == 2
    ensures |parts| == 1 ==> parts[0] == s
    ensures |parts| == 2 ==> sep !in parts[0] && s == parts[0] + [sep] + parts[1]
  {
    match IndexOf(s, sep)
    case None => [s]
    case Some(i) => [s[..i], s[i + 1..]]
  }

  /** `not h or not h.lower().startswith("bearer ")` fails for exactly these headers. */
  predicate IsBearerHeader(header: Option<string>) {
    header.Some? && header.value != "" && StartsWith(LowerString(header.value), BearerPrefix)
  }

  /** The bearer test ignores the case of the scheme. */
  lemma BearerCaseInsensitive(scheme: string, token: string)
    requires |scheme| == 6 && LowerString(scheme) == "bearer"
    ensures IsBearerHeader(Some(scheme + " " + token))
  {
  }

  /** The token of a bearer header: the text after its first space, which is
      the seventh character, so the token is everything after "bearer ". */
  function BearerToken(header: string): (token: string)
    requires IsBearerHeader(Some(header))
    ensures token == header[7..]
  {
    var parts := SplitOnce(header, ' ');
    FirstSpaceOfBearer(header);
    parts[1]
  }

  lemma FirstSpaceOfBearer(header: string)
    requires IsBearerHeader(Some(header))
    ensures IndexOf(header, ' ') == Some(6)
  {
    var low := LowerString(header);
    assert low[..7] == BearerPrefix;
    forall k | 0 <= k < 6 ensures header[k] != ' ' {
      assert low[k] == BearerPrefix[k];
    }
    assert header[6] == ' ' by { assert low[6] == BearerPrefix[6]; }
  }

  // ---- int(): decimal integers, and str() on integers ----

  predicate IsDigit(c: char) {
    '0' <= c <= '9'
  }

  predicate AllDigits(s: string) {
    forall i :: 0 <= i < |s| ==> IsDigit(s[i])
  }

  function DigitsValue(s: string): nat
    requires AllDigits(s)
  {
    if s == [] then 0 else 10 * DigitsValue(s[..|s| - 1]) + (s[|s| - 1] as int - '0' as int)
  }

  /** int(s) for a string: an optional sign and at least one decimal digit. */
  function ParseInt(s: string): (r: Option<int>)
    ensures r.Some? ==> |s| > 0
  {
    var negative := |s| > 0 && s[0] == '-';
    var digits := if |s| > 0 && (s[0] == '-' || s[0] == '+') then s[1..] else s;
    if |digits| > 0 && AllDigits(digits) then
      Some(if negative then -(DigitsValue(digits) as int) else DigitsValue(digits))
    else None
  }

  function NatToString(n: nat): (s: string)
    decreases n
  {
    var last := [('0' as int + n % 10) as char];
    if n < 10 then last else NatToString(n / 10) + last
  }

  /** str(n) for an integer. */
  function IntToString(n: int): string {
    if n < 0 then "-" + NatToString(-n) else NatToString(n)
  }

  lemma {:induction false} NatToStringDigits(n: nat)
    ensures |NatToString(n)| > 0 && AllDigits(NatToString(n))
    ensures NatToString(n)[0] != '-' && NatToString(n)[0] != '+'
    ensures DigitsValue(NatToString(n)) == n
    decreases n
  {
    var s := NatToString(n);
    if n >= 10 {
      NatToStringDigits(n / 10);
      assert s[..|s| - 1] == NatToString(n / 10);
    }
  }

  /** A string of digits reads as its value. */
  lemma ParseIntOfDigits(digits: string)
    requires |digits| > 0 && AllDigits(digits)
    ensures ParseInt(digits) == Some(DigitsValue(digits) as int)
    ensures ParseInt("-" + digits) == Some(-(DigitsValue(digits) as int))
  {
    assert IsDigit(digits[0]);
    assert ("-" + digits)[1..] == digits;
  }

  /** int(str(n)) == n: the subject written into a token reads back as the same id. */
  lemma {:induction false} ParseIntOfIntToString(n: int)
    ensures ParseInt(IntToString(n)) == Some(n)
  {
    var m: nat := if n < 0 then -n else n;
    NatToStringDigits(m);
    ParseIntOfDigits(NatToString(m));
  }

  // ---- The resolvers ----

  /** `_get_admin_by_id` */
  function GetAdminById(admins: map<int, Admin>, id: int): (r: Result<int>)
    ensures r.Ok? <==> id in admins
    ensures r.Ok? ==> r.value == id
    ensures r.Err? ==> r.error == BadRequest(AdminNotFound)
  {
    if id in admins then Ok(id) else Err(BadRequest(AdminNotFound))
  }

  /** The token decodes and its `sub` claim reads as the integer id. */
  predicate TokenNames(decode: Decoder, token: string, id: int) {
    decode(token).Some? && decode(token).value.sub.Some? && ParseInt(decode(token).value.sub.value) == Some(id)
  }

  /** `_resolve_admin_from_token`: decoding failures and a missing or non-integer
      subject are one error; an id with no admin is another. */
  function ResolveAdminFromToken(token: string, admins: map<int, Admin>, decode: Decoder): (r: Result<int>)
    ensures r.Ok? ==> TokenNames(decode, token, r.value) && r.value in admins
    ensures r == Err(BadRequest(InvalidToken)) <==> forall id :: !TokenNames(decode, token, id)
    ensures r == Err(BadRequest(AdminNotFound)) <==> exists id :: TokenNames(decode, token, id) && id !in admins
    ensures r.Ok? || r == Err(BadRequest(InvalidToken)) || r == Err(BadRequest(AdminNotFound))
  {
    match decode(token)
    case None => Err(BadRequest(InvalidToken))
    case Some(claims) =>
      match claims.sub
      case None => Err(BadRequest(InvalidToken))
      case Some(sub) =>
        match ParseInt(sub)
        case None => Err(BadRequest(InvalidToken))
        case Some(id) =>
          assert TokenNames(decode, token, id);
          GetAdminById(admins, id)
  }

  /** `require_admin` */
  function RequireAdmin(header: Option<string>, admins: map<int, Admin>, decode: Decoder): (r: Result<int>)
    ensures !IsBearerHeader(header) ==> r == Err(BadRequest(MissingBearer))
    ensures IsBearerHeader(header) ==> r == ResolveAdminFromToken(header.value[7..], admins, decode)
    ensures r.Ok? ==> r.value in admins
  {
    if header.None? || header.value == [] || !StartsWith(LowerString(header.value), BearerPrefix) then
      Err(BadRequest(MissingBearer))
    else
      ResolveAdminFromToken(BearerToken(header.value), admins, decode)
  }

  /** `optional_admin`: no bearer header means an anonymous caller, never an error. */
  function OptionalAdmin(header: Option<string>, admins: map<int, Admin>, decode: Decoder): (r: Result<Option<int>>)
    ensures !IsBearerHeader(header) ==> r == Ok(None)
    ensures r.Ok? && r.value.Some? ==> r.value.value in admins
  {
    if header.None? || header.value == [] || !StartsWith(LowerString(header.value), BearerPrefix) then
      Ok(None)
    else
      match ResolveAdminFromToken(BearerToken(header.value), admins, decode)
      case Ok(id) => Ok(Some(id))
      case Err(e) => Err(e)
  }

  /** With a bearer header the optional resolver fails exactly as the required
      one does, and otherwise yields the same admin. */
  lemma OptionalAgreesWithRequired(header: Option<string>, admins: map<int, Admin>, decode: Decoder)
    requires IsBearerHeader(header)
    ensures OptionalAdmin(header, admins, decode).Err? <==> RequireAdmin(header, admins, decode).Err?
    ensures OptionalAdmin(header, admins, decode).Err? ==>
              OptionalAdmin(header, admins, decode).error == RequireAdmin(header, admins, decode).error
    ensures OptionalAdmin(header, admins, decode).Ok? ==>
              OptionalAdmin(header, admins, decode).value == Some(RequireAdmin(header, admins, decode).value)
  {
  }
}
