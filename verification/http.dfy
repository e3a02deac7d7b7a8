/** The HTTP replies the server's routes produce and the bearer-token check
    that guards them. Token verification itself is a lookup in the set of
    tokens the signing secret accepts. */
module Http {
  import opened Wrappers
  import opened Strings
  import opened JobModel

  /** A JSON body, or the file a download streams. */
  datatype Body =
    | ErrorBody(error: string)
    | ListBody(records: seq<JobRecord>)
    | UploadBody(message: string, jobs: seq<JobDoc>)
    | FileBody(path: string, name: string)

  datatype Reply = Reply(status: nat, body: Body)

  function ErrorReply(status: nat, message: string): Reply {
    Reply(status, ErrorBody(message))
  }

  const MissingToken: string := "Unauthorized: missing token"
  const InvalidToken: string := "Unauthorized: invalid token"

  /** `(authHeader || "").split(" ")[1]`, where an absent or empty second
      field counts as no token. The token is never empty and never holds a
      space. */
  function ExtractToken(header: Option<string>): (r: Option<string>)
    ensures r.Some? ==> r.value != "" && ' ' !in r.value
    ensures r.Some? ==> |Split(header.GetOr(""), ' ')| >= 2 && Split(header.GetOr(""), ' ')[1] == r.value
  {
    var parts := Split(header.GetOr(""), ' ');
    if |parts| >= 2 && parts[1] != "" then Some(parts[1]) else None
  }

  /** A header of the form `<scheme> <token>`, optionally followed by more
      space-separated text, yields the token. The scheme word is not
      checked: any word without a space is accepted in place of `Bearer`. */
  lemma SchemeAndToken(scheme: string, token: string, rest: Option<string>)
    requires ' ' !in scheme && ' ' !in token && token != ""
    ensures ExtractToken(Some(scheme + " " + token + (if rest.Some? then " " + rest.value else ""))) == Some(token)
  {
    var tail := if rest.Some? then " " + rest.value else "";
    var header := scheme + " " + token + tail;
    assert header == scheme + [' '] + (token + tail);
    SplitFirstField(scheme, ' ', token + tail);
    if rest.Some? {
      assert token + tail == token + [' '] + rest.value;
      SplitFirstField(token, ' ', rest.value);
    } else {
      assert token + tail == token;
      SplitWithoutSeparator(token, ' ');
    }
  }

  /** A missing header, or one without a space (a bare token, or the scheme
      alone), carries no token. */
  lemma NoSpaceNoToken(header: Option<string>)
    requires header.None? || ' ' !in header.value
    ensures ExtractToken(header) == None
  {
    SplitWithoutSeparator(header.GetOr(""), ' ');
  }

  /** `authenticateToken`: the user id of a token the secret accepts, or a
      401 reply saying whether the token was missing or rejected. */
  function Authenticate(header: Option<string>, accepted: map<string, string>): (r: Result<string, Reply>)
    ensures r.Ok? <==> ExtractToken(header).Some? && ExtractToken(header).value in accepted
    ensures r.Ok? ==> r.value == accepted[ExtractToken(header).value]
    ensures ExtractToken(header).None? ==> r == Err(ErrorReply(401, MissingToken))
    ensures ExtractToken(header).Some? && ExtractToken(header).value !in accepted
            ==> r == Err(ErrorReply(401, InvalidToken))
  {
    match ExtractToken(header)
    case None => Err(ErrorReply(401, MissingToken))
    case Some(token) =>
      if token in accepted then Ok(accepted[token]) else Err(ErrorReply(401, InvalidToken))
  }

  /** A well-formed header with an accepted token authenticates as that
      token's user, whatever its scheme word. */
  lemma AcceptedBearerAuthenticates(scheme: string, token: string, accepted: map<string, string>)
    requires ' ' !in scheme && ' ' !in token && token in accepted && token != ""
    ensures Authenticate(Some(scheme + " " + token), accepted) == Ok(accepted[token])
  {
    SchemeAndToken(scheme, token, None);
    assert scheme + " " + token + "" == scheme + " " + token;
  }
}
