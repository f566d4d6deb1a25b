/** The gate in front of the addon router (server.js): every request under
    `/:token/:deviceMac` is checked for the MAC format, a device holding that token and
    MAC, and an unexpired owner before the stream handler runs with the device's
    Webshare token as its configuration. */
module Gate {
  import opened Wrappers
  import opened Mac
  import opened JsNumbers
  import opened Webshare
  import opened Addon
  import opened Credentials
  import opened Accounts

  /** The gate's verdict: 400, 401 and 403 refusals, or admission with the handler's
      configuration (None when the device has no Webshare token). */
  datatype Verdict = BadMac | UnknownDevice | Expired | Admit(config: Option<Config>)

  /** The HTTP status of a refusal. */
  function Status(v: Verdict): (code: nat)
    requires !v.Admit?
    ensures code == 400 <==> v == BadMac
    ensures code == 401 <==> v == UnknownDevice
    ensures code == 403 <==> v == Expired
  {
    match v
    case BadMac => 400
    case UnknownDevice => 401
    case Expired => 403
  }

  predicate Grants(d: Device, token: string, deviceMac: string) {
    d.token == token && d.deviceId == deviceMac
  }

  /** `devices[k]` is the device `Token.findOne({ token, deviceId })` finds. */
  predicate FirstGrant(devices: seq<Device>, token: string, deviceMac: string, k: int) {
    && 0 <= k < |devices| && Grants(devices[k], token, deviceMac)
    && forall j :: 0 <= j < k ==> !Grants(devices[j], token, deviceMac)
  }

  /** The owner exists and `now` is not past the expiry (the comparison is strict). */
  predicate Live(store: Store, username: string, now: int) {
    username in store.users && now <= store.users[username].expiresAt
  }

  /** The configuration passed on: only a non-empty Webshare token is. */
  function DeviceConfig(d: Device): (c: Option<Config>)
    ensures c.Some? <==> d.wst.Some? && d.wst.value != ""
    ensures c.Some? ==> c.value.wstToken == d.wst.value
  {
    if d.wst.Some? && d.wst.value != "" then Some(Config(d.wst.value)) else None
  }

  /** The mount-path middleware, with the clock read as `now`. */
  function Authorize(store: Store, token: string, deviceMac: string, now: int): (v: Verdict)
    ensures v == BadMac <==> !IsMacAddress(deviceMac)
    ensures v == UnknownDevice <==>
      IsMacAddress(deviceMac) && forall k :: 0 <= k < |store.devices| ==> !Grants(store.devices[k], token, deviceMac)
    ensures IsMacAddress(deviceMac) ==> forall k :: FirstGrant(store.devices, token, deviceMac, k) ==>
      && (v.Admit? <==> Live(store, store.devices[k].username, now))
      && (v.Admit? ==> v.config == DeviceConfig(store.devices[k]))
  {
    if !IsMacAddress(deviceMac) then BadMac
    else match FirstMatch(store.devices, d => Grants(d, token, deviceMac))
      case None => UnknownDevice
      case Some(k) =>
        var device := store.devices[k];
        if !Live(store, device.username, now) then Expired
        else Admit(DeviceConfig(device))
  }

  /** In a valid store a token picks out at most one device, so any device granting
      access is the one the lookup finds. */
  lemma OnlyGrant(store: Store, token: string, deviceMac: string, k: nat)
    requires Valid(store)
    requires k < |store.devices| && Grants(store.devices[k], token, deviceMac)
    ensures FirstGrant(store.devices, token, deviceMac, k)
  {
  }

  /** What the gate answers for a device of a valid store: admission with its own
      configuration while its owner is live, 403 afterwards. */
  lemma {:induction false} AuthorizeDevice(store: Store, k: nat, now: int)
    requires Valid(store) && k < |store.devices|
    ensures var d := store.devices[k];
      Authorize(store, d.token, d.deviceId, now) ==
        if Live(store, d.username, now) then Admit(DeviceConfig(d)) else Expired
  {
    var d := store.devices[k];
    OnlyGrant(store, d.token, d.deviceId, k);
  }

  // ---------------------------------------------------------------------------
  // the admin actions as seen through the gate

  /** A device just added is admitted with the Webshare token `getWst` derived, until
      its owner's expiry; after that it gets 403. */
  lemma AddedDeviceAdmitted(store: Store, form: AddForm, now: int, http: Http, sha1: string -> string,
                            bcrypt: string -> string, newToken: string, later: int)
    requires Valid(store)
    requires AddDevice(store, form, now, http, sha1, bcrypt, newToken).value.outcome.Redirect?
    ensures var after := AddDevice(store, form, now, http, sha1, bcrypt, newToken).value.store;
      var wst := GetWst(form.wsUser, form.wsPass, http, sha1).value;
      && form.username in after.users
      && Authorize(after, newToken, form.deviceMac, later) ==
        if later <= after.users[form.username].expiresAt
        then Admit(if wst.Some? && wst.value != "" then Some(Config(wst.value)) else None)
        else Expired
  {
    var after := AddDevice(store, form, now, http, sha1, bcrypt, newToken).value.store;
    AddDevicePreservesValid(store, form, now, bcrypt, newToken, GetWst(form.wsUser, form.wsPass, http, sha1));
    AuthorizeDevice(after, |store.devices|, later);
  }

  /** A newly created user's device stays admitted for exactly `daysValid` days. */
  lemma NewUserExpiry(store: Store, form: AddForm, now: int, http: Http, sha1: string -> string,
                      bcrypt: string -> string, newToken: string, later: int)
    requires Valid(store) && form.username !in store.users
    requires AddDevice(store, form, now, http, sha1, bcrypt, newToken).value.outcome.Redirect?
    ensures ToNumber(form.daysValid).Some?
    ensures var after := AddDevice(store, form, now, http, sha1, bcrypt, newToken).value.store;
      Authorize(after, newToken, form.deviceMac, later).Admit? <==>
        later <= now + ToNumber(form.daysValid).value * MsPerDay
  {
    AddedDeviceAdmitted(store, form, now, http, sha1, bcrypt, newToken, later);
  }

  /** After a device is revoked its token no longer opens anything: the gate answers 401. */
  lemma {:induction false} RevokedDeviceRefused(store: Store, k: nat, later: int)
    requires Valid(store) && k < |store.devices|
    requires FirstOwned(store.devices, store.devices[k].username, store.devices[k].deviceId, k)
    ensures var d := store.devices[k];
      Authorize(RevokeDevice(store, d.username, d.deviceId).store, d.token, d.deviceId, later) == UnknownDevice
  {
    var d := store.devices[k];
    var devices := RevokeDevice(store, d.username, d.deviceId).store.devices;
    assert devices == store.devices[..k] + store.devices[k + 1..];
    forall i | 0 <= i < |devices| ensures !Grants(devices[i], d.token, d.deviceId) {
      assert devices[i] == store.devices[if i < k then i else i + 1];
    }
  }

  /** Revoking one device leaves every other device's verdict as it was. */
  lemma {:induction false} RevokeKeepsOthers(store: Store, k: nat, m: nat, later: int)
    requires Valid(store) && k < |store.devices| && m < |store.devices| && m != k
    requires FirstOwned(store.devices, store.devices[k].username, store.devices[k].deviceId, k)
    ensures var d, e := store.devices[k], store.devices[m];
      Authorize(RevokeDevice(store, d.username, d.deviceId).store, e.token, e.deviceId, later)
        == Authorize(store, e.token, e.deviceId, later)
  {
    var d := store.devices[k];
    var after := RevokeDevice(store, d.username, d.deviceId).store;
    assert after.devices == store.devices[..k] + store.devices[k + 1..];
    var m' := if m < k then m else m - 1;
    assert after.devices[m'] == store.devices[m];
    RevokePreservesValid(store, d.username, d.deviceId);
    AuthorizeDevice(store, m, later);
    AuthorizeDevice(after, m', later);
  }

  /** After a reset by `days`, every device of that user is admitted up to `days` days
      from the reset and refused with 403 after it. */
  lemma ResetReopensAccess(store: Store, k: nat, daysValid: string, now: int, later: int)
    requires Valid(store) && k < |store.devices|
    requires store.devices[k].username in store.users
    requires ResetExpiry(store, store.devices[k].username, daysValid, now).outcome.Redirect?
    ensures ToNumber(daysValid).Some?
    ensures var d := store.devices[k];
      Authorize(ResetExpiry(store, d.username, daysValid, now).store, d.token, d.deviceId, later) ==
        if later <= now + ToNumber(daysValid).value * MsPerDay then Admit(DeviceConfig(d)) else Expired
  {
    var d := store.devices[k];
    var after := ResetExpiry(store, d.username, daysValid, now).store;
    ResetPreservesValid(store, d.username, daysValid, now);
    AuthorizeDevice(after, k, later);
  }

  // ---------------------------------------------------------------------------
  // a stream request end to end

  /** What the client receives for a stream request: a refusal with its status, or the
      handler's answer. */
  datatype Response = Refused(status: nat) | Answered(outcome: HandlerOutcome)

  /** `GET /:token/:deviceMac/stream/:type/:id.json`: the gate, then the stream handler. */
  method ServeStream(store: Store, token: string, deviceMac: string, now: int,
                     kind: string, id: string, http: Http) returns (response: Response, calls: seq<Request>)
    // a refused request never reaches Webshare
    ensures !Authorize(store, token, deviceMac, now).Admit? ==>
      response == Refused(Status(Authorize(store, token, deviceMac, now))) && calls == []
    // a device without a Webshare token is answered with no streams and no requests
    ensures Authorize(store, token, deviceMac, now) == Admit(None) ==> response == Answered(Streams([])) && calls == []
    // an admitted request with a Webshare token gets what the pipeline gives for it
    ensures var v := Authorize(store, token, deviceMac, now);
      v.Admit? && v.config.Some? && BuildQuery(kind, id).Some? ==>
        && response == Answered(Streams(Pipeline(BuildQuery(kind, id).value, v.config.value.wstToken, http).value))
        && calls == Pipeline(BuildQuery(kind, id).value, v.config.value.wstToken, http).calls
    // an admitted request whose series id cannot be split is rejected before any request
    ensures var v := Authorize(store, token, deviceMac, now);
      v.Admit? && v.config.Some? && BuildQuery(kind, id).None? ==> response == Answered(Rejected) && calls == []
    // the search is made with the device's own Webshare token
    ensures Authorize(store, token, deviceMac, now).Admit? && calls != [] ==>
      calls[0].SearchRequest? && Some(Config(calls[0].wst)) == Authorize(store, token, deviceMac, now).config
    ensures response.Answered? && response.outcome.Streams? ==> |response.outcome.streams| <= MaxAttempts
  {
    var verdict := Authorize(store, token, deviceMac, now);
    if !verdict.Admit? {
      return Refused(Status(verdict)), [];
    }
    var outcome;
    outcome, calls := StreamHandler(kind, id, verdict.config, http);
    response := Answered(outcome);
  }
}
