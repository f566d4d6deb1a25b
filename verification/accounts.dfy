/** The account store and the admin actions of server.js: addon users with an expiry,
    device tokens bound to a MAC address and an optional Webshare token, and the
    `/admin/add`, `/admin/test-ws`, `/admin/revoke` and `/admin/reset` routes. The
    database is a value; the clock, bcrypt, SHA-1, uuid and the HTTP client are
    parameters. */
module Accounts {
  import opened Wrappers
  import opened Text
  import opened Patterns
  import opened Mac
  import opened JsNumbers
  import opened Webshare
  import opened Credentials

  /** `24 * 60 * 60 * 1000`: milliseconds in a day. */
  const MsPerDay: int := 86400000

  /** A `User` document: the bcrypt hash and the expiry instant in epoch milliseconds. */
  datatype User = User(hash: string, expiresAt: int)

  /** A `Token` document: one device of a user. `wst` is None when `getWst` gave null. */
  datatype Device = Device(username: string, token: string, deviceId: string, wst: Option<string>)

  /** Both collections: users keyed by their unique username, devices in insertion order. */
  datatype Store = Store(users: map<string, User>, devices: seq<Device>)

  /** What an admin route answers: a redirect, a 400 with its message, or a failure that
      surfaces as a server error (a rejected database write). */
  datatype AdminOutcome = Redirect(location: string) | BadRequest(message: string) | Failed

  /** An admin route's answer and the store it leaves behind. */
  datatype Admin = Admin(outcome: AdminOutcome, store: Store)

  const AdminPage: string := "/admin"
  const TestPassedPage: string := "/admin?ws_test=success"
  const TestFailedPage: string := "/admin?ws_test=fail"

  /** `calcExpiry(days)` with the clock read as `now`. */
  function CalcExpiry(now: int, days: int): (expiry: int)
    // not before `now` for a non-negative number of days, and before it otherwise
    ensures expiry >= now <==> days >= 0
    ensures expiry == now <==> days == 0
  {
    now + days * MsPerDay
  }

  /** The expiry lies a whole number of days after `now`, and that number is `days`. */
  lemma CalcExpiryWholeDays(now: int, days: int)
    ensures (CalcExpiry(now, days) - now) % MsPerDay == 0
    ensures (CalcExpiry(now, days) - now) / MsPerDay == days
  {
  }

  /** What the schemas and the routes keep true of the store: required fields are
      non-empty, usernames and tokens are unique, and every stored device id passed the
      MAC check. */
  ghost predicate Valid(store: Store) {
    && "" !in store.users
    && (forall u :: u in store.users ==> store.users[u].hash != "")
    && (forall k :: 0 <= k < |store.devices| ==> DeviceValid(store.devices[k]))
    && (forall k, m :: 0 <= k < m < |store.devices| ==> store.devices[k].token != store.devices[m].token)
  }

  predicate DeviceValid(d: Device) {
    d.username != "" && d.token != "" && IsMacAddress(d.deviceId)
  }

  /** Whether some device already holds `token` (the unique index on `token`). */
  predicate TokenInUse(devices: seq<Device>, token: string) {
    exists k :: 0 <= k < |devices| && devices[k].token == token
  }

  /** The first device `matches` accepts: what `findOne` and `deleteOne` select. */
  function FirstMatch(devices: seq<Device>, matches: Device -> bool): (r: Option<nat>)
    ensures r.Some? ==> r.value < |devices| && matches(devices[r.value])
    ensures r.Some? ==> forall k :: 0 <= k < r.value ==> !matches(devices[k])
    ensures r.None? ==> forall k :: 0 <= k < |devices| ==> !matches(devices[k])
  {
    if |devices| == 0 then None
    else if matches(devices[0]) then Some(0)
    else match FirstMatch(devices[1..], matches)
      case None => None
      case Some(k) => Some(k + 1)
  }

  // ---------------------------------------------------------------------------
  // POST /admin/add

  /** The form fields of `/admin/add`; a field left empty arrives as "". */
  datatype AddForm = AddForm(username: string, password: string, daysValid: string,
                             deviceMac: string, wsUser: string, wsPass: string)

  predicate MissingField(form: AddForm) {
    form.username == "" || form.password == "" || form.daysValid == "" || form.deviceMac == ""
  }

  /** The user the form stands for: the existing one, or a new one created with the
      bcrypt hash and `days` from now. None when the creation is rejected: the days are
      not a number (an invalid date) or the hash is empty (a required field). */
  function EnsureUser(users: map<string, User>, form: AddForm, now: int, bcrypt: string -> string): (r: Option<map<string, User>>)
    ensures form.username in users ==> r == Some(users)
    ensures form.username !in users ==>
      (r.Some? <==> ToNumber(form.daysValid).Some? && bcrypt(form.password) != "")
    ensures r.Some? && form.username !in users ==>
      r.value == users[form.username := User(bcrypt(form.password), CalcExpiry(now, ToNumber(form.daysValid).value))]
  {
    if form.username in users then Some(users)
    else match ToNumber(form.daysValid)
      case None => None
      case Some(days) =>
        var hash := bcrypt(form.password);
        if hash == "" then None
        else Some(users[form.username := User(hash, CalcExpiry(now, days))])
  }

  /** `/admin/add`: checks the form, creates the user when absent, asks `getWst` for the
      form's Webshare credentials, then stores a device under the fresh token `newToken`.
      A failure after the user was created keeps the user. */
  function AddDevice(store: Store, form: AddForm, now: int, http: Http, sha1: string -> string,
                     bcrypt: string -> string, newToken: string): Traced<Admin, Request>
  {
    AddDeviceWith(store, form, now, bcrypt, newToken, GetWst(form.wsUser, form.wsPass, http, sha1))
  }

  /** The `/admin/add` route with `wst` standing for what `getWst` answers: its token and
      its requests, which are made only once the user exists. */
  function AddDeviceWith(store: Store, form: AddForm, now: int, bcrypt: string -> string, newToken: string,
                         wst: Traced<Option<string>, Request>): (r: Traced<Admin, Request>)
    // a missing field or a malformed MAC: 400, nothing stored and nothing requested
    ensures r.value.outcome.BadRequest? <==> MissingField(form) || !IsMacAddress(form.deviceMac)
    ensures r.value.outcome.BadRequest? ==> r.value.store == store && r.calls == []
    // success exactly when the user exists or can be created and the token is fresh
    ensures r.value.outcome.Redirect? <==>
      && !MissingField(form) && IsMacAddress(form.deviceMac)
      && EnsureUser(store.users, form, now, bcrypt).Some?
      && newToken != "" && !TokenInUse(store.devices, newToken)
    ensures r.value.outcome.Redirect? ==> r.value.outcome.location == AdminPage
    // on success one device is appended, carrying the token `getWst` answered
    ensures r.value.outcome.Redirect? ==>
      r.value.store.devices == store.devices + [Device(form.username, newToken, form.deviceMac, wst.value)]
    ensures !r.value.outcome.Redirect? ==> r.value.store.devices == store.devices
    // and the users are those `EnsureUser` left
    ensures r.value.outcome.Redirect? ==> r.value.store.users == EnsureUser(store.users, form, now, bcrypt).value
    // existing users are never changed; at most the form's user is added
    ensures forall u :: u in store.users ==> u in r.value.store.users && r.value.store.users[u] == store.users[u]
    ensures r.value.store.users.Keys <= store.users.Keys + {form.username}
    // Webshare is contacted only once the user exists
    ensures r.calls != [] ==> form.username in r.value.store.users
    ensures EnsureUser(store.users, form, now, bcrypt).Some? && !MissingField(form) && IsMacAddress(form.deviceMac) ==>
      r.calls == wst.calls
    // a user that cannot be created: nothing stored and Webshare never asked
    ensures !MissingField(form) && IsMacAddress(form.deviceMac) && EnsureUser(store.users, form, now, bcrypt).None? ==>
      r.value.store == store && r.calls == []
    // once the user exists it stays, even when the device insert then fails
    ensures !MissingField(form) && IsMacAddress(form.deviceMac) && EnsureUser(store.users, form, now, bcrypt).Some? ==>
      r.value.store.users == EnsureUser(store.users, form, now, bcrypt).value
  {
    if MissingField(form) then Traced(Admin(BadRequest("All fields required"), store), [])
    else if !IsMacAddress(form.deviceMac) then Traced(Admin(BadRequest("Bad MAC format"), store), [])
    else match EnsureUser(store.users, form, now, bcrypt)
      case None => Traced(Admin(Failed, store), [])
      case Some(users) =>
        if newToken == "" || TokenInUse(store.devices, newToken) then
          Traced(Admin(Failed, Store(users, store.devices)), wst.calls)
        else
          var device := Device(form.username, newToken, form.deviceMac, wst.value);
          Traced(Admin(Redirect(AdminPage), Store(users, store.devices + [device])), wst.calls)
  }

  // ---------------------------------------------------------------------------
  // POST /admin/test-ws

  /** `/admin/test-ws`: redirects to the success page exactly when `getWst` yields a
      token (`if (wst)`: a non-empty one). */
  function TestWebshare(wsUser: string, wsPass: string, http: Http, sha1: string -> string): (r: Traced<AdminOutcome, Request>)
    ensures r.value == Redirect(TestPassedPage) || r.value == Redirect(TestFailedPage)
    ensures r.calls == GetWst(wsUser, wsPass, http, sha1).calls
    ensures wsUser == "" || wsPass == "" ==> r == Traced(Redirect(TestFailedPage), [])
    // success means Webshare accepted the salted hash of the password
    ensures r.value == Redirect(TestPassedPage) ==>
      && http(SaltRequest(wsUser)).Some?
      && FirstCapture(http(SaltRequest(wsUser)).value, "salt").Some?
      && var hash := SaltedHash(sha1, FirstCapture(http(SaltRequest(wsUser)).value, "salt").value, wsPass);
         http(UserDataRequest(hash)).Some? && Includes(http(UserDataRequest(hash)).value, StatusOk)
    // and a token Webshare accepted always reaches the success page
    ensures r.value == Redirect(TestPassedPage) <==>
      GetWst(wsUser, wsPass, http, sha1).value.Some? && GetWst(wsUser, wsPass, http, sha1).value.value != ""
  {
    var wst := GetWst(wsUser, wsPass, http, sha1);
    Traced(Redirect(if wst.value.Some? && wst.value.value != "" then TestPassedPage else TestFailedPage), wst.calls)
  }

  // ---------------------------------------------------------------------------
  // POST /admin/revoke

  predicate Owns(d: Device, username: string, deviceMac: string) {
    d.username == username && d.deviceId == deviceMac
  }

  /** `devices[k]` is the first device of `username` with that MAC. */
  predicate FirstOwned(devices: seq<Device>, username: string, deviceMac: string, k: int) {
    && 0 <= k < |devices| && Owns(devices[k], username, deviceMac)
    && forall j :: 0 <= j < k ==> !Owns(devices[j], username, deviceMac)
  }

  /** `/admin/revoke`: deletes the first device of `username` with that MAC, if any, and
      redirects. */
  function RevokeDevice(store: Store, username: string, deviceMac: string): (r: Admin)
    ensures r.outcome == Redirect(AdminPage)
    ensures r.store.users == store.users
    ensures (forall k :: 0 <= k < |store.devices| ==> !Owns(store.devices[k], username, deviceMac)) ==> r.store == store
    ensures forall k :: FirstOwned(store.devices, username, deviceMac, k) ==>
      r.store.devices == store.devices[..k] + store.devices[k + 1..]
  {
    match FirstMatch(store.devices, d => Owns(d, username, deviceMac))
    case None => Admin(Redirect(AdminPage), store)
    case Some(k) => Admin(Redirect(AdminPage), store.(devices := store.devices[..k] + store.devices[k + 1..]))
  }

  // ---------------------------------------------------------------------------
  // POST /admin/reset

  /** `/admin/reset`: sets the user's expiry to `daysValid` days from now. Empty days
      are a 400; days that are not a number make the update fail; an unknown username
      changes nothing but still redirects. */
  function ResetExpiry(store: Store, username: string, daysValid: string, now: int): (r: Admin)
    ensures daysValid == "" ==> r == Admin(BadRequest("Days required"), store)
    ensures r.outcome.Redirect? <==> daysValid != "" && ToNumber(daysValid).Some?
    ensures !r.outcome.Redirect? ==> r.store == store
    ensures r.outcome.Redirect? ==> r.outcome.location == AdminPage
    // devices are untouched and no user appears or disappears
    ensures r.store.devices == store.devices && r.store.users.Keys == store.users.Keys
    // only that user's expiry changes; the hash stays
    ensures forall u :: u in store.users && u != username ==> r.store.users[u] == store.users[u]
    ensures r.outcome.Redirect? && username in store.users ==>
      r.store.users[username] == User(store.users[username].hash, CalcExpiry(now, ToNumber(daysValid).value))
  {
    if daysValid == "" then Admin(BadRequest("Days required"), store)
    else match ToNumber(daysValid)
      case None => Admin(Failed, store)
      case Some(days) =>
        if username in store.users then
          var user := store.users[username];
          Admin(Redirect(AdminPage), store.(users := store.users[username := user.(expiresAt := CalcExpiry(now, days))]))
        else Admin(Redirect(AdminPage), store)
  }

  // ---------------------------------------------------------------------------
  // the store invariant

  /** Adding a device keeps the store valid. */
  lemma AddDevicePreservesValid(store: Store, form: AddForm, now: int, bcrypt: string -> string, newToken: string,
                                wst: Traced<Option<string>, Request>)
    requires Valid(store)
    ensures Valid(AddDeviceWith(store, form, now, bcrypt, newToken, wst).value.store)
  {
    var after := AddDeviceWith(store, form, now, bcrypt, newToken, wst).value;
    if MissingField(form) || !IsMacAddress(form.deviceMac) || EnsureUser(store.users, form, now, bcrypt).None? {
      assert after.store == store;
    } else {
      var users := EnsureUser(store.users, form, now, bcrypt).value;
      EnsureUserKeepsNames(store.users, form, now, bcrypt);
      if newToken == "" || TokenInUse(store.devices, newToken) {
        assert after.store == Store(users, store.devices);
      } else {
        var device := Device(form.username, newToken, form.deviceMac, wst.value);
        assert after.store == Store(users, store.devices + [device]);
        AppendPreservesValid(store, users, device);
      }
    }
  }

  /** Creating a user under a non-empty name with a non-empty hash keeps every name and
      every hash non-empty. */
  lemma EnsureUserKeepsNames(users: map<string, User>, form: AddForm, now: int, bcrypt: string -> string)
    requires "" !in users && forall u :: u in users ==> users[u].hash != ""
    requires form.username != "" && EnsureUser(users, form, now, bcrypt).Some?
    ensures var after := EnsureUser(users, form, now, bcrypt).value;
      "" !in after && forall u :: u in after ==> after[u].hash != ""
  {
  }

  /** Appending a well-formed device with a fresh token, under users with non-empty names
      and hashes, keeps the store valid. */
  lemma AppendPreservesValid(store: Store, users: map<string, User>, device: Device)
    requires Valid(store) && DeviceValid(device) && !TokenInUse(store.devices, device.token)
    requires "" !in users && forall u :: u in users ==> users[u].hash != ""
    ensures Valid(Store(users, store.devices + [device]))
  {
    var devices := store.devices + [device];
    var n := |store.devices|;
    forall k, m | 0 <= k < m < |devices| ensures devices[k].token != devices[m].token {
      assert devices[k] == store.devices[k];
      if m < n {
        assert devices[m] == store.devices[m];
      }
    }
    forall k | 0 <= k < |devices| ensures DeviceValid(devices[k]) {
      if k < n {
        assert devices[k] == store.devices[k];
      }
    }
  }


  /** Revoking a device keeps the store valid. */
  lemma RevokePreservesValid(store: Store, username: string, deviceMac: string)
    requires Valid(store)
    ensures Valid(RevokeDevice(store, username, deviceMac).store)
  {
    var m := FirstMatch(store.devices, d => Owns(d, username, deviceMac));
    if m.Some? {
      var k := m.value;
      var devices := RevokeDevice(store, username, deviceMac).store.devices;
      assert devices == store.devices[..k] + store.devices[k + 1..];
      forall i | 0 <= i < |devices| ensures devices[i] == store.devices[if i < k then i else i + 1] {
      }
    }
  }

  /** Resetting an expiry keeps the store valid. */
  lemma ResetPreservesValid(store: Store, username: string, daysValid: string, now: int)
    requires Valid(store)
    ensures Valid(ResetExpiry(store, username, daysValid, now).store)
  {
  }
}
