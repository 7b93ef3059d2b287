/** The relay's two tables and its locked blocks. Each block runs under the database lock, so it is
    one atomic step that reads the clock once. */
module RelayBlocks {
  import opened Inventory

  /** The settings read from the environment, already clamped to their minimum. */
  datatype Config = Config(timeoutMs: int, leaseMs: int, onlineWindowMs: int, retentionMs: int, bootstrapSecret: string)

  predicate ValidConfig(cfg: Config) {
    cfg.timeoutMs >= 1000 && cfg.leaseMs >= 1000 && cfg.onlineWindowMs >= 5000 && cfg.retentionMs >= 60000
  }

  datatype Status = Pending | Responded | Expired

  datatype Call = Call(
    pi: string, kind: string, authorization: string, payload: string, status: Status,
    code: int, body: string, createdAt: int, updatedAt: int, leaseExpiresAt: int)

  datatype Device = Device(secretHash: string, name: string, createdAt: int, updatedAt: int, lastSeenAt: int)

  type Devices = map<string, Device>
  type Calls = map<string, Call>

  /** What a Pi presents: its id, the hash of its secret ("" when the secret is blank), and, on a poll,
      the bootstrap secret and its name. */
  datatype Credentials = Credentials(pi: string, secretHash: string, bootstrap: Option<string>, name: string)

  predicate Online(devices: Devices, pi: string, now: int, cfg: Config) {
    pi in devices && now - devices[pi].lastSeenAt <= cfg.onlineWindowMs
  }

  function Cleanup(calls: Calls, now: int, cfg: Config): Calls {
    map r | r in calls && !(calls[r].updatedAt < now - cfg.retentionMs && calls[r].status != Pending) :: calls[r]
  }

  predicate Authentic(devices: Devices, cred: Credentials, cfg: Config) {
    && cred.pi != "" && cred.secretHash != ""
    && if cred.pi in devices then devices[cred.pi].secretHash == cred.secretHash
       else cfg.bootstrapSecret != "" && cred.bootstrap == Some(cfg.bootstrapSecret)
  }

  /** Registers an unknown Pi, or marks a known one as seen; a poll also refreshes its name. */
  function SeenDevice(devices: Devices, cred: Credentials, now: int): Devices {
    var name := if cred.bootstrap.Some? then cred.name else if cred.pi in devices then devices[cred.pi].name else "";
    devices[cred.pi :=
      if cred.pi in devices then devices[cred.pi].(name := name, updatedAt := now, lastSeenAt := now)
      else Device(cred.secretHash, name, now, now, now)]
  }

  predicate Claimable(calls: Calls, r: string, pi: string, now: int) {
    r in calls && calls[r].pi == pi && calls[r].status == Pending && calls[r].leaseExpiresAt <= now
  }

  /** The oldest claimable request, if there is one. */
  ghost predicate IsNextClaim(calls: Calls, pi: string, now: int, found: Option<string>) {
    match found
    case None => forall r :: !Claimable(calls, r, pi, now)
    case Some(best) =>
      && Claimable(calls, best, pi, now)
      && forall r | Claimable(calls, r, pi, now) :: calls[best].createdAt <= calls[r].createdAt
  }

  function Leased(call: Call, now: int, cfg: Config): Call {
    call.(leaseExpiresAt := now + cfg.leaseMs, updatedAt := now)
  }

  function WithExpired(calls: Calls, r: string, now: int): Calls {
    if r in calls then calls[r := calls[r].(status := Expired, updatedAt := now)] else calls
  }

  function Answered(call: Call, code: int, body: string, now: int): Call {
    call.(status := Responded, code := code, body := body, updatedAt := now, leaseExpiresAt := 0)
  }

  function NewCall(pi: string, kind: string, authorization: string, payload: string, stamp: int): Call {
    Call(pi, kind, authorization, payload, Pending, 0, "", stamp, stamp, 0)
  }

  /** How a wait ends. */
  datatype Outcome = Returned(code: int, body: string) | NotFound | SawExpired | WentOffline | TimedOut

  /** What one look at the row tells the waiter; `None` means keep waiting. */
  function LookOutcome(devices: Devices, calls: Calls, r: string, pi: string, now: int, cfg: Config): Option<Outcome> {
    if r !in calls || calls[r].pi != pi then Some(NotFound)
    else if calls[r].status == Responded then Some(Returned(calls[r].code, calls[r].body))
    else if calls[r].status == Expired then Some(SawExpired)
    else if !Online(devices, pi, now, cfg) then Some(WentOffline)
    else None
  }

  function LookCalls(devices: Devices, calls: Calls, r: string, pi: string, now: int, cfg: Config): Calls {
    if LookOutcome(devices, calls, r, pi, now, cfg) == Some(WentOffline) then WithExpired(calls, r, now) else calls
  }
}
