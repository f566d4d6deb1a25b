/** `getWst` (server.js): derives a device's Webshare session token from a Webshare
    username and password by the salted double hash, and keeps it only once Webshare
    accepts it. SHA-1 (hex digest) and the HTTP client are parameters. */
module Credentials {
  import opened Wrappers
  import opened Text
  import opened Patterns
  import opened Webshare

  /** The marker a successful `/api/user_data/` response contains. */
  const StatusOk: string := "<status>OK</status>"

  /** The token candidate for a salt: `sha1(salt + sha1(password))`. */
  function SaltedHash(sha1: string -> string, salt: string, password: string): string {
    sha1(salt + sha1(password))
  }

  function GetWst(username: string, password: string, http: Http, sha1: string -> string): (r: Traced<Option<string>, Request>)
    // without both credentials nothing is requested
    ensures username == "" || password == "" ==> r == Traced(None, [])
    // a token is returned exactly when the salt was found and Webshare accepted the hash
    ensures r.value.Some? <==>
      && username != "" && password != ""
      && http(SaltRequest(username)).Some?
      && FirstCapture(http(SaltRequest(username)).value, "salt").Some?
      && var hash := SaltedHash(sha1, FirstCapture(http(SaltRequest(username)).value, "salt").value, password);
         http(UserDataRequest(hash)).Some? && Includes(http(UserDataRequest(hash)).value, StatusOk)
    // the token is the salted hash of the first `<salt>` capture
    ensures r.value.Some? ==>
      r.value.value == SaltedHash(sha1, FirstCapture(http(SaltRequest(username)).value, "salt").value, password)
    // the token returned is one Webshare has verified
    ensures r.value.Some? ==>
      http(UserDataRequest(r.value.value)).Some? && Includes(http(UserDataRequest(r.value.value)).value, StatusOk)
    // requests: the salt first, then the verification of the candidate, nothing else
    ensures r.calls == [] || r.calls == [SaltRequest(username)] ||
      (|r.calls| == 2 && r.calls[0] == SaltRequest(username) && r.calls[1].UserDataRequest?)
    ensures username != "" && password != "" ==> |r.calls| >= 1 && r.calls[0] == SaltRequest(username)
    // the check is made exactly when a salt was captured, and it checks the salted hash
    ensures |r.calls| == 2 <==>
      && username != "" && password != ""
      && http(SaltRequest(username)).Some?
      && FirstCapture(http(SaltRequest(username)).value, "salt").Some?
    ensures |r.calls| == 2 ==>
      r.calls[1] == UserDataRequest(SaltedHash(sha1, FirstCapture(http(SaltRequest(username)).value, "salt").value, password))
  {
    if username == "" || password == "" then Traced(None, [])
    else
      var saltRequest := SaltRequest(username);
      match http(saltRequest)
      case None => Traced(None, [saltRequest])
      case Some(saltBody) =>
        match FirstCapture(saltBody, "salt")
        case None => Traced(None, [saltRequest])
        case Some(salt) =>
          var hash := SaltedHash(sha1, salt, password);
          var checkRequest := UserDataRequest(hash);
          match http(checkRequest)
          case None => Traced(None, [saltRequest, checkRequest])
          case Some(checkBody) =>
            if Includes(checkBody, StatusOk) then Traced(Some(hash), [saltRequest, checkRequest])
            else Traced(None, [saltRequest, checkRequest])
  }
}
