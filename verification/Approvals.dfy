/**
 The approval workflow around service keys: a request owns an inactive key from the moment it is made,
 and only approval followed by execution switches the key on.
 */
module Approvals {
  import opened Wrappers
  import opened SecretKeys

  const WEEK := 7 * 24 * 3600

  /**
   What a request asks for; a key request names the key that was created for it. The other eight kinds,
   on toggles and on an application's data, touch no key.
   */
  datatype Work = CreateKey(keyId: Id) | DeleteKey(keyId: Id) | DeleteApplication | Other

  datatype Status = Pending | Approved | Rejected | Expired

  datatype Request = Request(
    id: Id, work: Work, requestedBy: Id, teamId: Id, applicationId: Option<Id>,
    status: Status, actionedBy: Option<Id>, expiresAt: int)

  /** The audit trail, one record per act that went through. */
  datatype Record =
    | RequestedKey(request: Id, keyId: Id, user: Id)
    | Requested(request: Id, work: Work, user: Id)
    | ApprovedBy(request: Id, user: Id, authorised: bool)
    | RejectedBy(request: Id, user: Id, authorised: bool)
    | WithdrawnBy(request: Id, user: Id)
    | ExecutedBy(request: Id, user: Id, authorised: bool)

  datatype System = System(keys: Keys, requests: map<Id, Request>, log: seq<Record>)

  datatype Reply = Reply(system: System, outcome: Outcome)

  // ---------- the request itself ----------

  predicate IsExpired(r: Request, now: int) {
    now > r.expiresAt
  }

  predicate CanBeApprovedBy(r: Request, user: Id, now: int) {
    r.requestedBy != user && r.status == Pending && !IsExpired(r, now)
  }

  // ---------- transitions ----------

  /** What the lookups at the start of a request find. */
  datatype Lookups = Lookups(userKnown: bool, teamKnown: bool, canRead: bool, applicationKnown: bool, toggleKnown: bool)

  /** The checks every request passes first; a toggle or an application is looked up only if it is named. */
  function Admission(look: Lookups, app: Option<Id>, toggle: Option<Id>): Outcome {
    if !look.userKnown || !look.teamKnown then Failed(NotFound)
    else if !look.canRead then Failed(Denied)
    else if app.Some? && !look.applicationKnown then Failed(NotFound)
    else if toggle.Some? && !look.toggleKnown then Failed(NotFound)
    else Ok
  }

  /** `fault` is a failed insertion of the request, after its key was created. */
  function AskForKey(s: System, id: Id, keyId: Id, keyHash: string, user: Id, team: Id, app: Option<Id>,
                     look: Lookups, now: int, fault: bool): Reply {
    if Admission(look, app, None) != Ok then Reply(s, Admission(look, app, None))
    else if app.None? then Reply(s, Failed(Validation))
    else if !ValidOwner(app.value, user) then Reply(s, Failed(Validation))
    else
      var made := s.(keys := s.keys[keyId := NewKey(keyId, keyHash, app.value, user, false)]);
      if fault then Reply(made, Failed(Database))
      else
        var request := Request(id, CreateKey(keyId), user, team, app, Pending, None, now + WEEK);
        Reply(made.(requests := s.requests[id := request], log := s.log + [RequestedKey(id, keyId, user)]), Ok)
  }

  /** Every other request creates nothing but itself. */
  function AskFor(s: System, id: Id, work: Work, user: Id, team: Id, app: Option<Id>, toggle: Option<Id>,
                  look: Lookups, now: int, fault: bool): Reply {
    if Admission(look, app, toggle) != Ok then Reply(s, Admission(look, app, toggle))
    else if fault then Reply(s, Failed(Database))
    else Reply(s.(requests := s.requests[id := Request(id, work, user, team, app, Pending, None, now + WEEK)],
                  log := s.log + [Requested(id, work, user)]), Ok)
  }

  function Approve(s: System, id: Id, user: Id, canAct: bool, now: int): Reply {
    if id !in s.requests then Reply(s, Failed(NotFound))
    else if !CanBeApprovedBy(s.requests[id], user, now) then Reply(s, Failed(Validation))
    else if !canAct then Reply(s, Failed(Denied))
    else Reply(s.(requests := s.requests[id := s.requests[id].(status := Approved, actionedBy := Some(user))],
                  log := s.log + [ApprovedBy(id, user, canAct)]), Ok)
  }

  function WithoutKeyOf(keys: Keys, r: Request): Keys {
    match r.work
    case CreateKey(k) => keys - {k}
    case _ => keys
  }

  function Reject(s: System, id: Id, user: Id, canAct: bool, now: int): Reply {
    if id !in s.requests then Reply(s, Failed(NotFound))
    else if !CanBeApprovedBy(s.requests[id], user, now) then Reply(s, Failed(Validation))
    else if !canAct then Reply(s, Failed(Denied))
    else Reply(System(WithoutKeyOf(s.keys, s.requests[id]),
                      s.requests[id := s.requests[id].(status := Rejected, actionedBy := Some(user))],
                      s.log + [RejectedBy(id, user, canAct)]), Ok)
  }

  function Withdraw(s: System, id: Id, user: Id): Reply {
    if id !in s.requests then Reply(s, Failed(NotFound))
    else if s.requests[id].requestedBy != user then Reply(s, Failed(Denied))
    else if s.requests[id].status != Pending then Reply(s, Failed(Validation))
    else Reply(System(WithoutKeyOf(s.keys, s.requests[id]), s.requests - {id}, s.log + [WithdrawnBy(id, user)]), Ok)
  }

  /** Only the status of overdue pending requests changes; the key such a request owns stays inactive. */
  function Expire(s: System, now: int): System {
    s.(requests := map i | i in s.requests ::
         if s.requests[i].status == Pending && s.requests[i].expiresAt <= now
         then s.requests[i].(status := Expired) else s.requests[i])
  }

  /** The keys that are left when an application is deleted with all that belongs to it. */
  function WithoutKeysOf(keys: Keys, app: Id): Keys {
    map k | k in keys && keys[k].applicationId != app :: keys[k]
  }

  /** `result` is what the executed action itself reports, where that is not about keys. */
  function Execute(s: System, id: Id, user: Id, canAct: bool, result: Outcome): Reply {
    if id !in s.requests then Reply(s, Failed(NotFound))
    else if !canAct then Reply(s, Failed(Denied))
    else if s.requests[id].status != Approved then Reply(s, Failed(Validation))
    else
      var r := s.requests[id];
      var done := s.log + [ExecutedBy(id, user, canAct)];
      match r.work
      case DeleteKey(k) =>
        if k == "" then Reply(s, Failed(Validation)) else Reply(s.(keys := s.keys - {k}, log := done), Ok)
      case DeleteApplication =>
        if r.applicationId.None? then Reply(s, Failed(Validation))
        else if result != Ok then Reply(s, result)
        else Reply(s.(keys := WithoutKeysOf(s.keys, r.applicationId.value), log := done), Ok)
      case Other => if result != Ok then Reply(s, result) else Reply(s.(log := done), Ok)
      case CreateKey(k) =>
        if r.applicationId.None? || k == "" then Reply(s, Failed(Validation))
        else
          var keys := Activated(s.keys, k, r.applicationId.value);
          if k in Rotated(s.keys, r.applicationId.value) then Reply(s.(keys := keys, log := done), Ok)
          else Reply(s.(keys := keys), Failed(NotFound))
  }

  /** The key that a request for a key owns. */
  function KeyOf(work: Work): set<Id> {
    if work.CreateKey? then {work.keyId} else {}
  }

  /** What executing a request's work leaves of the keys. */
  ghost predicate Done(t: Keys, u: Keys, r: Request) {
    match r.work
    case CreateKey(k) =>
      && r.applicationId.Some? && k in t && k in u
      && u[k] == t[k].(active := true, isCurrent := true) && Turned(t - {k}, u - {k}, r.applicationId.value)
    case DeleteKey(k) => u == t - {k}
    case DeleteApplication =>
      r.applicationId.Some? && forall k | k in t || k in u ::
        if k in t && t[k].applicationId == r.applicationId.value then k !in u else k in t && k in u && u[k] == t[k]
    case Other => u == t
  }

  /** What an approved request needs so that its work goes through; `result` is what other work reports. */
  predicate CanBeDone(t: Keys, r: Request, result: Outcome) {
    match r.work
    case CreateKey(k) =>
      && r.applicationId.Some? && k != "" && k in t
      && !(t[k].active && t[k].applicationId == r.applicationId.value && !t[k].isCurrent)
    case DeleteKey(k) => k != ""
    case DeleteApplication => r.applicationId.Some? && result == Ok
    case Other => result == Ok
  }

  // ---------- the use case ----------

  class ApprovalUseCase {
    const secretKeys: SecretKeyUseCase
    var requests: map<Id, Request>
    var log: seq<Record>

    function View(): System
      reads this, secretKeys
    {
      System(secretKeys.keys, requests, log)
    }

    constructor (secretKeys: SecretKeyUseCase)
      ensures this.secretKeys == secretKeys && View() == System(secretKeys.keys, map[], [])
    {
      this.secretKeys := secretKeys;
      requests := map[];
      log := [];
    }

    method Admit(look: Lookups, app: Option<Id>, toggle: Option<Id>) returns (out: Outcome)
      ensures out == Admission(look, app, toggle)
      ensures out == Ok || out == Failed(NotFound) || out == Failed(Denied)
      ensures out == Ok <==>
              && look.userKnown && look.teamKnown && look.canRead
              && (app.Some? ==> look.applicationKnown) && (toggle.Some? ==> look.toggleKnown)
      ensures out == Failed(Denied) <==> look.userKnown && look.teamKnown && !look.canRead
    {
      if !look.userKnown {
        return Failed(NotFound);
      }
      if !look.teamKnown {
        return Failed(NotFound);
      }
      if !look.canRead {
        return Failed(Denied);
      }
      if app.Some? && !look.applicationKnown {
        return Failed(NotFound);
      }
      if toggle.Some? && !look.toggleKnown {
        return Failed(NotFound);
      }
      out := Ok;
    }

    method CreateKeyRequest(id: Id, keyId: Id, keyHash: string, user: Id, team: Id, app: Option<Id>,
                            look: Lookups, now: int, fault: bool) returns (out: Outcome)
      modifies this, secretKeys
      ensures Reply(View(), out) == AskForKey(old(View()), id, keyId, keyHash, user, team, app, look, now, fault)
      ensures out != Ok && out != Failed(Database) ==> View() == old(View())
      ensures out == Ok || out == Failed(Database) ==>
              && look.userKnown && look.teamKnown && look.canRead && look.applicationKnown
              && app.Some? && app.value != "" && user != ""
              && secretKeys.keys ==
                 old(secretKeys.keys)[keyId := SecretKey(keyId, keyHash, app.value, user, false, true, None)]
      ensures out == Ok || out == Failed(Database) ==> (fault <==> out == Failed(Database))
      ensures out != Ok ==> requests == old(requests) && log == old(log)
      ensures out == Ok ==>
              && requests ==
                 old(requests)[id := Request(id, CreateKey(keyId), user, team, app, Pending, None, now + 604800)]
              && log == old(log) + [RequestedKey(id, keyId, user)]
      ensures out == Failed(Validation) <==>
              && look.userKnown && look.teamKnown && look.canRead && (app.Some? ==> look.applicationKnown)
              && (app.None? || app.value == "" || user == "")
      ensures look.userKnown && look.teamKnown && !look.canRead ==> out == Failed(Denied)
      ensures old(Inv(View()) && FreshKey(View(), keyId) && FreshRequest(View(), id)) ==> Inv(View())
    {
      ghost var before := View();
      ghost var step := AskKey(id, keyId, keyHash, user, team, app, look, now, fault);
      if Inv(before) && Supplied(before, step) {
        OperationKeepsInv(before, step);
      }
      out := Admit(look, app, None);
      if out != Ok {
        return;
      }
      if app.None? {
        return Failed(Validation);
      }
      var created := secretKeys.CreateSecretKey(app.value, user, false, keyId, keyHash);
      if created != Ok {
        return created;
      }
      var request := Request(id, CreateKey(keyId), user, team, app, Pending, None, now + WEEK);
      if fault {
        return Failed(Database);
      }
      requests := requests[id := request];
      log := log + [RequestedKey(id, keyId, user)];
      out := Ok;
    }

    method CreateOtherRequest(id: Id, work: Work, user: Id, team: Id, app: Option<Id>, toggle: Option<Id>,
                              look: Lookups, now: int, fault: bool) returns (out: Outcome)
      requires !work.CreateKey?
      modifies this
      ensures Reply(View(), out) == AskFor(old(View()), id, work, user, team, app, toggle, look, now, fault)
      ensures out != Ok ==> View() == old(View())
      ensures out == Ok ==>
              && requests == old(requests)[id := Request(id, work, user, team, app, Pending, None, now + 604800)]
              && log == old(log) + [Requested(id, work, user)]
      ensures out == Ok <==>
              && look.userKnown && look.teamKnown && look.canRead && !fault
              && (app.Some? ==> look.applicationKnown) && (toggle.Some? ==> look.toggleKnown)
      ensures old(Inv(View()) && FreshRequest(View(), id)) ==> Inv(View())
    {
      ghost var before := View();
      ghost var step := AskOther(id, work, user, team, app, toggle, look, now, fault);
      if Inv(before) && Supplied(before, step) {
        OperationKeepsInv(before, step);
      }
      out := Admit(look, app, toggle);
      if out != Ok {
        return;
      }
      var request := Request(id, work, user, team, app, Pending, None, now + WEEK);
      if fault {
        return Failed(Database);
      }
      requests := requests[id := request];
      log := log + [Requested(id, work, user)];
      out := Ok;
    }

    method MarkExpiredRequests(now: int)
      modifies this
      ensures View() == Expire(old(View()), now)
      ensures requests.Keys == old(requests.Keys) && log == old(log)
      ensures forall r | r in requests :: requests[r].status == Pending ==> requests[r].expiresAt > now
      ensures forall r | r in requests && requests[r] != old(requests)[r] ::
                && old(requests)[r].status == Pending && old(requests)[r].expiresAt <= now
                && requests[r] == old(requests)[r].(status := Expired)
      ensures old(Inv(View())) ==> Inv(View())
    {
      ghost var before := View();
      ghost var step := DoExpire(now);
      if Inv(before) {
        OperationKeepsInv(before, step);
      }
      requests := map i | i in requests ::
        if requests[i].status == Pending && requests[i].expiresAt <= now
        then requests[i].(status := Expired) else requests[i];
    }

    method ApproveRequest(id: Id, approver: Id, canAct: bool, now: int) returns (out: Outcome)
      modifies this
      ensures Reply(View(), out) == Approve(old(View()), id, approver, canAct, now)
      ensures out != Ok ==> View() == old(View())
      ensures out == Ok <==>
              && id in old(requests) && canAct && old(requests)[id].requestedBy != approver
              && old(requests)[id].status == Pending && old(requests)[id].expiresAt >= now
      ensures out == Ok ==>
              && requests == old(requests)[id := old(requests)[id].(status := Approved, actionedBy := Some(approver))]
              && log == old(log) + [ApprovedBy(id, approver, true)]
      ensures out == Failed(NotFound) <==> id !in old(requests)
      ensures out == Failed(Denied) ==> !canAct
      ensures old(Inv(View())) ==> Inv(View())
    {
      ghost var before := View();
      ghost var step := DoApprove(id, approver, canAct, now);
      if Inv(before) {
        OperationKeepsInv(before, step);
      }
      if id !in requests {
        return Failed(NotFound);
      }
      var request := requests[id];
      if !CanBeApprovedBy(request, approver, now) {
        return Failed(Validation);
      }
      if !canAct {
        return Failed(Denied);
      }
      if request.status != Pending || IsExpired(request, now) {
        return Failed(Validation);
      }
      requests := requests[id := request.(status := Approved, actionedBy := Some(approver))];
      log := log + [ApprovedBy(id, approver, canAct)];
      out := Ok;
    }

    method RejectRequest(id: Id, rejector: Id, canAct: bool, now: int) returns (out: Outcome)
      modifies this, secretKeys
      ensures Reply(View(), out) == Reject(old(View()), id, rejector, canAct, now)
      ensures out != Ok ==> View() == old(View())
      ensures out == Ok <==>
              && id in old(requests) && canAct && old(requests)[id].requestedBy != rejector
              && old(requests)[id].status == Pending && old(requests)[id].expiresAt >= now
      ensures out == Ok ==>
              && requests == old(requests)[id := old(requests)[id].(status := Rejected, actionedBy := Some(rejector))]
              && log == old(log) + [RejectedBy(id, rejector, true)]
              && secretKeys.keys == old(secretKeys.keys) - KeyOf(old(requests)[id].work)
      ensures out == Failed(NotFound) <==> id !in old(requests)
      ensures out == Failed(Denied) ==> !canAct
      ensures old(Inv(View())) ==> Inv(View())
    {
      ghost var before := View();
      ghost var step := DoReject(id, rejector, canAct, now);
      if Inv(before) {
        OperationKeepsInv(before, step);
      }
      if id !in requests {
        return Failed(NotFound);
      }
      var request := requests[id];
      if !CanBeApprovedBy(request, rejector, now) {
        return Failed(Validation);
      }
      if !canAct {
        return Failed(Denied);
      }
      requests := requests[id := request.(status := Rejected, actionedBy := Some(rejector))];
      if request.work.CreateKey? {
        secretKeys.RevokeSecretKey(request.work.keyId);
      }
      log := log + [RejectedBy(id, rejector, canAct)];
      out := Ok;
    }

    method WithdrawRequest(id: Id, requester: Id) returns (out: Outcome)
      modifies this, secretKeys
      ensures Reply(View(), out) == Withdraw(old(View()), id, requester)
      ensures out != Ok ==> View() == old(View())
      ensures out == Ok <==>
              id in old(requests) && old(requests)[id].requestedBy == requester && old(requests)[id].status == Pending
      ensures out == Ok ==>
              && id !in requests && requests == old(requests) - {id}
              && log == old(log) + [WithdrawnBy(id, requester)]
              && secretKeys.keys == old(secretKeys.keys) - KeyOf(old(requests)[id].work)
      ensures out == Failed(NotFound) <==> id !in old(requests)
      ensures out == Failed(Denied) <==> id in old(requests) && old(requests)[id].requestedBy != requester
      ensures old(Inv(View())) ==> Inv(View())
    {
      ghost var before := View();
      ghost var step := DoWithdraw(id, requester);
      if Inv(before) {
        OperationKeepsInv(before, step);
      }
      if id !in requests {
        return Failed(NotFound);
      }
      var request := requests[id];
      if request.requestedBy != requester {
        return Failed(Denied);
      }
      if request.status != Pending {
        return Failed(Validation);
      }
      if request.work.CreateKey? {
        secretKeys.RevokeSecretKey(request.work.keyId);
      }
      requests := requests - {id};
      log := log + [WithdrawnBy(id, requester)];
      out := Ok;
    }

    method ExecuteApprovedAction(id: Id, caller: Id, canAct: bool, result: Outcome) returns (out: Outcome)
      requires Named(secretKeys.keys)
      modifies this, secretKeys
      ensures Reply(View(), out) == Execute(old(View()), id, caller, canAct, result)
      ensures requests == old(requests)
      ensures log == if out == Ok then old(log) + [ExecutedBy(id, caller, true)] else old(log)
      ensures out == Ok ==> id in requests && requests[id].status == Approved && canAct
      ensures id !in requests ==> out == Failed(NotFound)
      ensures id in requests && !canAct ==> out == Failed(Denied)
      ensures id in requests && canAct && requests[id].status != Approved ==> out == Failed(Validation)
      ensures out == Ok ==> Done(old(secretKeys.keys), secretKeys.keys, requests[id])
      ensures id in requests && requests[id].status == Approved && canAct ==>
              (out == Ok <==> CanBeDone(old(secretKeys.keys), requests[id], result))
      ensures out != Ok && !(id in requests && requests[id].work.CreateKey?) ==> secretKeys.keys == old(secretKeys.keys)
      ensures forall k | k in secretKeys.keys && secretKeys.keys[k].active ::
                || (k in old(secretKeys.keys) && old(secretKeys.keys)[k].active)
                || (out == Ok && requests[id].work == CreateKey(k))
      ensures old(Inv(View())) ==> Inv(View())
    {
      ghost var before := View();
      ghost var step := DoExecute(id, caller, canAct, result);
      if Inv(before) {
        OperationKeepsInv(before, step);
      }
      if id !in requests {
        return Failed(NotFound);
      }
      var request := requests[id];
      if !canAct {
        return Failed(Denied);
      }
      if request.status != Approved {
        return Failed(Validation);
      }
      match request.work {
        case CreateKey(k) =>
          if request.applicationId.None? {
            return Failed(Validation);
          }
          if k == "" {
            return Failed(Validation);
          }
          var activated := secretKeys.ActivateAndRotateSecretKey(k, request.applicationId.value);
          if activated != Ok {
            return activated;
          }
        case DeleteKey(k) =>
          if k == "" {
            return Failed(Validation);
          }
          secretKeys.RevokeSecretKey(k);
        case DeleteApplication =>
          if request.applicationId.None? {
            return Failed(Validation);
          }
          if result != Ok {
            return result;
          }
          secretKeys.DeleteByApplication(request.applicationId.value);
        case Other =>
          if result != Ok {
            return result;
          }
      }
      log := log + [ExecutedBy(id, caller, canAct)];
      out := Ok;
    }
  }

  // ---------- the invariant ----------

  predicate Approves(e: Record, request: Id, requester: Id) {
    e.ApprovedBy? && e.request == request && e.authorised && e.user != requester
  }

  predicate Executes(e: Record, request: Id) {
    e.ExecutedBy? && e.request == request && e.authorised
  }

  /** An authorised user other than the requester approved the request. */
  ghost predicate WasApproved(log: seq<Record>, request: Id, requester: Id) {
    exists a :: 0 <= a < |log| && Approves(log[a], request, requester)
  }

  /** ... and an authorised user executed it afterwards. */
  ghost predicate WasExecuted(log: seq<Record>, request: Id, requester: Id) {
    exists a, b :: 0 <= a < b < |log| && Approves(log[a], request, requester) && Executes(log[b], request)
  }

  ghost predicate RequestOk(s: System, r: Id)
    requires r in s.requests
  {
    var q := s.requests[r];
    && q.id == r
    && (q.status == Approved ==> WasApproved(s.log, r, q.requestedBy))
    && (q.work.CreateKey? ==>
          && RequestedKey(r, q.work.keyId, q.requestedBy) in s.log
          && (q.work.keyId in s.keys ==> q.applicationId == Some(s.keys[q.work.keyId].applicationId))
          && (q.status == Rejected ==> q.work.keyId !in s.keys))
  }

  /** What the log says about the request `e` that asked for a key. */
  ghost predicate RecordOk(s: System, e: Record)
    requires e.RequestedKey?
  {
    && (e.request !in s.requests ==> e.keyId !in s.keys)
    && (e.request in s.requests ==>
          s.requests[e.request].work == CreateKey(e.keyId) && s.requests[e.request].requestedBy == e.user)
    && (e.keyId in s.keys && s.keys[e.keyId].active ==> WasExecuted(s.log, e.request, e.user))
  }

  ghost predicate UniqueRequests(log: seq<Record>) {
    forall e, f | e in log && f in log && e.RequestedKey? && f.RequestedKey? ::
      e.request == f.request || e.keyId == f.keyId ==> e == f
  }

  ghost predicate Inv(s: System) {
    && OneSlotEach(s.keys)
    && (forall r | r in s.requests :: RequestOk(s, r))
    && (forall e | e in s.log && e.RequestedKey? :: RecordOk(s, e))
    && UniqueRequests(s.log)
  }

  // ---------- operations and runs ----------

  datatype Operation =
    | AskKey(id: Id, keyId: Id, keyHash: string, user: Id, team: Id, app: Option<Id>,
             look: Lookups, now: int, fault: bool)
    | AskOther(id: Id, work: Work, user: Id, team: Id, app: Option<Id>, toggle: Option<Id>,
               look: Lookups, now: int, fault: bool)
    | DoApprove(id: Id, user: Id, canAct: bool, now: int)
    | DoReject(id: Id, user: Id, canAct: bool, now: int)
    | DoWithdraw(id: Id, user: Id)
    | DoExpire(now: int)
    | DoExecute(id: Id, user: Id, canAct: bool, result: Outcome)
    | Revoke(keyId: Id)
    | RegenerateKey(appId: Id, user: Id, keyId: Id, keyHash: string)

  function Apply(s: System, op: Operation): System {
    match op
    case AskKey(id, keyId, keyHash, user, team, app, look, now, fault) =>
      AskForKey(s, id, keyId, keyHash, user, team, app, look, now, fault).system
    case AskOther(id, work, user, team, app, toggle, look, now, fault) =>
      AskFor(s, id, work, user, team, app, toggle, look, now, fault).system
    case DoApprove(id, user, canAct, now) => Approve(s, id, user, canAct, now).system
    case DoReject(id, user, canAct, now) => Reject(s, id, user, canAct, now).system
    case DoWithdraw(id, user) => Withdraw(s, id, user).system
    case DoExpire(now) => Expire(s, now)
    case DoExecute(id, user, canAct, result) => Execute(s, id, user, canAct, result).system
    case Revoke(keyId) => s.(keys := s.keys - {keyId})
    case RegenerateKey(app, user, keyId, keyHash) => s.(keys := Regenerated(s.keys, app, user, keyId, keyHash))
  }

  predicate FreshKey(s: System, keyId: Id) {
    keyId !in s.keys && forall e | e in s.log && e.RequestedKey? :: e.keyId != keyId
  }

  predicate FreshRequest(s: System, id: Id) {
    id !in s.requests && forall e | e in s.log && e.RequestedKey? :: e.request != id
  }

  /** Identifiers are never reused. */
  predicate Supplied(s: System, op: Operation) {
    match op
    case AskKey(id, keyId, _, _, _, _, _, _, _) => FreshKey(s, keyId) && FreshRequest(s, id)
    case AskOther(id, work, _, _, _, _, _, _, _) => !work.CreateKey? && FreshRequest(s, id)
    case RegenerateKey(_, _, keyId, _) => FreshKey(s, keyId)
    case _ => true
  }

  lemma LogGrows(log: seq<Record>, e: Record, request: Id, requester: Id)
    ensures WasApproved(log, request, requester) ==> WasApproved(log + [e], request, requester)
    ensures WasExecuted(log, request, requester) ==> WasExecuted(log + [e], request, requester)
    ensures Approves(e, request, requester) ==> WasApproved(log + [e], request, requester)
    ensures Executes(e, request) && WasApproved(log, request, requester) ==> WasExecuted(log + [e], request, requester)
  {
    var more := log + [e];
    assert more[|log|] == e;
    if WasApproved(log, request, requester) {
      var a :| 0 <= a < |log| && Approves(log[a], request, requester);
      assert more[a] == log[a];
    }
    if WasExecuted(log, request, requester) {
      var a, b :| 0 <= a < b < |log| && Approves(log[a], request, requester) && Executes(log[b], request);
      assert more[a] == log[a] && more[b] == log[b];
    }
  }

  /** A request that at most changed status stays in order. */
  lemma RequestStays(s: System, u: System, e: Record, r: Id)
    requires r in s.requests && r in u.requests && RequestOk(s, r)
    requires u.log == s.log || u.log == s.log + [e]
    requires u.requests[r] == s.requests[r].(status := u.requests[r].status, actionedBy := u.requests[r].actionedBy)
    requires forall k | k in u.keys && k in s.keys :: u.keys[k].applicationId == s.keys[k].applicationId
    requires u.requests[r].status == Approved ==>
      s.requests[r].status == Approved || WasApproved(u.log, r, s.requests[r].requestedBy)
    requires u.requests[r].work.CreateKey? ==>
      var k := u.requests[r].work.keyId;
      && (k in u.keys ==> k in s.keys)
      && (u.requests[r].status == Rejected ==> s.requests[r].status == Rejected || k !in u.keys)
    ensures RequestOk(u, r)
  {
    LogGrows(s.log, e, r, s.requests[r].requestedBy);
  }

  /** A key request's record stays in order if its key is no more active than before, or was executed. */
  lemma RecordStays(s: System, u: System, e: Record, f: Record)
    requires f.RequestedKey? && RecordOk(s, f) && (u.log == s.log || u.log == s.log + [e])
    requires f.keyId in u.keys ==> f.keyId in s.keys
    requires f.keyId in u.keys && u.keys[f.keyId].active ==>
      s.keys[f.keyId].active || WasExecuted(u.log, f.request, f.user)
    requires f.request in s.requests ==> f.request in u.requests || f.keyId !in u.keys
    requires f.request in u.requests ==>
      && f.request in s.requests
      && u.requests[f.request].work == s.requests[f.request].work
      && u.requests[f.request].requestedBy == s.requests[f.request].requestedBy
    ensures RecordOk(u, f)
  {
    LogGrows(s.log, e, f.request, f.user);
  }

  // ---------- every operation keeps the invariant ----------

  lemma AskKeyKeepsInv(s: System, op: Operation)
    requires op.AskKey? && Inv(s) && Supplied(s, op)
    ensures Inv(Apply(s, op))
  {
    var u := Apply(s, op);
    if u.log == s.log {
      KeysOnlyKeepsInv(s, u);
    } else {
      StoredRequestKeepsInv(s, u, RequestedKey(op.id, op.keyId, op.user));
    }
  }

  /** A key and the request that owns it, both new. */
  lemma StoredRequestKeepsInv(s: System, u: System, e: Record)
    requires Inv(s) && e.RequestedKey? && FreshKey(s, e.keyId) && FreshRequest(s, e.request)
    requires e.keyId in u.keys && !u.keys[e.keyId].active && u.keys == s.keys[e.keyId := u.keys[e.keyId]]
    requires OneSlotEach(u.keys)
    requires e.request in u.requests && u.requests == s.requests[e.request := u.requests[e.request]]
    requires var q := u.requests[e.request];
      q.id == e.request && q.work == CreateKey(e.keyId) && q.requestedBy == e.user && q.status == Pending
      && q.applicationId == Some(u.keys[e.keyId].applicationId)
    requires u.log == s.log + [e]
    ensures Inv(u)
  {
    forall r | r in u.requests
      ensures RequestOk(u, r)
    {
      if r in s.requests {
        assert RequestOk(s, r);
        var q := s.requests[r];
        assert q.work.CreateKey? ==> RequestedKey(r, q.work.keyId, q.requestedBy) in s.log;
        RequestStays(s, u, e, r);
      } else {
        assert u.log[|s.log|] == e;
      }
    }
    forall f | f in u.log && f.RequestedKey?
      ensures RecordOk(u, f)
    {
      if f in s.log {
        RecordStays(s, u, e, f);
      }
    }
  }

  lemma AskOtherKeepsInv(s: System, op: Operation)
    requires op.AskOther? && Inv(s) && Supplied(s, op)
    ensures Inv(Apply(s, op))
  {
    var u := Apply(s, op);
    var e := Requested(op.id, op.work, op.user);
    forall r | r in u.requests
      ensures RequestOk(u, r)
    {
      if r in s.requests {
        RequestStays(s, u, e, r);
      }
    }
    forall f | f in u.log && f.RequestedKey?
      ensures RecordOk(u, f)
    {
      RecordStays(s, u, e, f);
    }
  }

  lemma ApproveKeepsInv(s: System, op: Operation)
    requires op.DoApprove? && Inv(s)
    ensures Inv(Apply(s, op))
  {
    var u := Apply(s, op);
    var e := ApprovedBy(op.id, op.user, true);
    if u != s {
      LogGrows(s.log, e, op.id, s.requests[op.id].requestedBy);
      forall r | r in u.requests
        ensures RequestOk(u, r)
      {
        RequestStays(s, u, e, r);
      }
      forall f | f in u.log && f.RequestedKey?
        ensures RecordOk(u, f)
      {
        RecordStays(s, u, e, f);
      }
    }
  }

  /** The key of one request is not the key of another. */
  lemma OwnKey(s: System, r: Id, q: Id)
    requires Inv(s) && r in s.requests && q in s.requests && s.requests[r].work.CreateKey?
    requires s.requests[q].work == s.requests[r].work
    ensures r == q
  {
    assert RequestOk(s, r) && RequestOk(s, q);
  }

  lemma RejectKeepsInv(s: System, op: Operation)
    requires op.DoReject? && Inv(s)
    ensures Inv(Apply(s, op))
  {
    var u := Apply(s, op);
    var e := RejectedBy(op.id, op.user, true);
    if u != s {
      forall r | r in u.requests
        ensures RequestOk(u, r)
      {
        RequestStays(s, u, e, r);
      }
      forall f | f in u.log && f.RequestedKey?
        ensures RecordOk(u, f)
      {
        RecordStays(s, u, e, f);
      }
    }
  }

  lemma WithdrawKeepsInv(s: System, op: Operation)
    requires op.DoWithdraw? && Inv(s)
    ensures Inv(Apply(s, op))
  {
    var u := Apply(s, op);
    var e := WithdrawnBy(op.id, op.user);
    if u != s {
      forall r | r in u.requests
        ensures RequestOk(u, r)
      {
        RequestStays(s, u, e, r);
      }
      forall f | f in u.log && f.RequestedKey?
        ensures RecordOk(u, f)
      {
        assert RecordOk(s, f);
        RecordStays(s, u, e, f);
      }
    }
  }

  lemma ExpireKeepsInv(s: System, now: int)
    requires Inv(s)
    ensures Inv(Expire(s, now))
  {
    var u := Expire(s, now);
    var e := WithdrawnBy("", "");
    forall r | r in u.requests
      ensures RequestOk(u, r)
    {
      RequestStays(s, u, e, r);
    }
    forall f | f in u.log && f.RequestedKey?
      ensures RecordOk(u, f)
    {
      RecordStays(s, u, e, f);
    }
  }

  /** What executing a request does to the keys: it adds none, moves none, and switches on at most its own. */
  ghost predicate Narrows(t: Keys, u: Keys, work: Work, logged: bool) {
    forall k | k in u ::
      && k in t && u[k].applicationId == t[k].applicationId
      && (u[k].active ==> t[k].active || (logged && work == CreateKey(k)))
  }

  lemma ActivationNarrows(t: Keys, id: Id, app: Id)
    ensures Narrows(t, Activated(t, id, app), CreateKey(id), id in Rotated(t, app))
  {
  }

  lemma NarrowingKeepsInv(s: System, u: System, id: Id, user: Id)
    requires Inv(s) && id in s.requests && s.requests[id].status == Approved
    requires u.requests == s.requests && OneSlotEach(u.keys)
    requires u.log == s.log || u.log == s.log + [ExecutedBy(id, user, true)]
    requires Narrows(s.keys, u.keys, s.requests[id].work, u.log != s.log)
    ensures Inv(u)
  {
    var q := s.requests[id];
    var e := ExecutedBy(id, user, true);
    assert RequestOk(s, id);
    LogGrows(s.log, e, id, q.requestedBy);
    forall r | r in u.requests
      ensures RequestOk(u, r)
    {
      RequestStays(s, u, e, r);
    }
    forall f | f in u.log && f.RequestedKey?
      ensures RecordOk(u, f)
    {
      assert RecordOk(s, f);
      if q.work == CreateKey(f.keyId) {
        assert f == RequestedKey(id, f.keyId, q.requestedBy);
      }
      RecordStays(s, u, e, f);
    }
  }

  /** Switching on the key of an approved request: only that key becomes active, and it has been executed. */
  lemma SwitchingOnKeepsInv(s: System, op: Operation)
    requires op.DoExecute? && Inv(s) && op.id in s.requests && op.canAct
    requires s.requests[op.id].status == Approved && s.requests[op.id].work.CreateKey?
    ensures Inv(Apply(s, op))
  {
    var u, q := Apply(s, op), s.requests[op.id];
    var k := q.work.keyId;
    if q.applicationId.Some? && k != "" {
      ActivateKeepsSlots(s.keys, k, q.applicationId.value);
      ActivationNarrows(s.keys, k, q.applicationId.value);
      assert k in Rotated(s.keys, q.applicationId.value) ==> |u.log| == |s.log| + 1;
    }
    NarrowingKeepsInv(s, u, op.id, op.user);
  }

  /** The other kinds of work switch no key on. */
  lemma ExecuteKeepsInv(s: System, op: Operation)
    requires op.DoExecute? && Inv(s)
    ensures Inv(Apply(s, op))
  {
    var u := Apply(s, op);
    if op.id in s.requests && op.canAct && s.requests[op.id].status == Approved {
      var q := s.requests[op.id];
      assert RequestOk(s, op.id);
      match q.work
      case CreateKey(k) => SwitchingOnKeepsInv(s, op);
      case _ =>
        assert forall k | k in u.keys :: k in s.keys && u.keys[k] == s.keys[k];
        NarrowingKeepsInv(s, u, op.id, op.user);
    }
  }

  lemma KeysOnlyKeepsInv(s: System, u: System)
    requires Inv(s) && OneSlotEach(u.keys) && u.requests == s.requests && u.log == s.log
    requires forall k | k in u.keys && k in s.keys :: u.keys[k].applicationId == s.keys[k].applicationId
    requires forall k | k in u.keys && k in s.keys :: u.keys[k].active == s.keys[k].active
    requires forall k | k in u.keys && k !in s.keys :: FreshKey(s, k)
    ensures Inv(u)
  {
    var e := WithdrawnBy("", "");
    forall r | r in u.requests
      ensures RequestOk(u, r)
    {
      assert RequestOk(s, r);
      RequestStays(s, u, e, r);
    }
    forall f | f in u.log && f.RequestedKey?
      ensures RecordOk(u, f)
    {
      RecordStays(s, u, e, f);
    }
  }

  lemma OperationKeepsInv(s: System, op: Operation)
    requires Inv(s) && Supplied(s, op)
    ensures Inv(Apply(s, op))
  {
    match op
    case AskKey(_, _, _, _, _, _, _, _, _) => AskKeyKeepsInv(s, op);
    case AskOther(_, _, _, _, _, _, _, _, _) => AskOtherKeepsInv(s, op);
    case DoApprove(_, _, _, _) => ApproveKeepsInv(s, op);
    case DoReject(_, _, _, _) => RejectKeepsInv(s, op);
    case DoWithdraw(_, _) => WithdrawKeepsInv(s, op);
    case DoExpire(now) => ExpireKeepsInv(s, now);
    case DoExecute(_, _, _, _) => ExecuteKeepsInv(s, op);
    case Revoke(_) => KeysOnlyKeepsInv(s, Apply(s, op));
    case RegenerateKey(app, user, keyId, keyHash) =>
      RegenerateKeepsSlots(s.keys, app, user, keyId, keyHash);
      KeysOnlyKeepsInv(s, Apply(s, op));
  }

  // ---------- runs ----------

  const INITIAL := System(map[], map[], [])

  predicate SuppliedRun(s: System, ops: seq<Operation>)
    decreases |ops|
  {
    ops == [] || (Supplied(s, ops[0]) && SuppliedRun(Apply(s, ops[0]), ops[1..]))
  }

  function Run(s: System, ops: seq<Operation>): System
    decreases |ops|
  {
    if ops == [] then s else Run(Apply(s, ops[0]), ops[1..])
  }

  lemma {:induction false} RunKeepsInv(s: System, ops: seq<Operation>)
    requires Inv(s) && SuppliedRun(s, ops)
    ensures Inv(Run(s, ops))
    decreases |ops|
  {
    if ops != [] {
      OperationKeepsInv(s, ops[0]);
      RunKeepsInv(Apply(s, ops[0]), ops[1..]);
    }
  }

  /**
   Safety over whole runs, failed insertions and repeated executions included: a key that was created
   by a request authenticates only after an authorised user other than the requester approved that
   request and an authorised user then executed it. There is never more than one current and one
   previous key per application.
   */
  lemma KeyNeedsApprovalAndExecution(ops: seq<Operation>, request: Id, keyId: Id, requester: Id)
    requires SuppliedRun(INITIAL, ops)
    ensures var s := Run(INITIAL, ops);
      && OneSlotEach(s.keys)
      && (RequestedKey(request, keyId, requester) in s.log && keyId in s.keys && s.keys[keyId].active ==>
            WasExecuted(s.log, request, requester))
  {
    RunKeepsInv(INITIAL, ops);
    var s := Run(INITIAL, ops);
    if RequestedKey(request, keyId, requester) in s.log {
      assert RecordOk(s, RequestedKey(request, keyId, requester));
    }
  }

  /** No rejected or withdrawn request leaves its key in the store. */
  lemma RefusedKeysAreGone(ops: seq<Operation>, request: Id, keyId: Id, requester: Id)
    requires SuppliedRun(INITIAL, ops)
    requires RequestedKey(request, keyId, requester) in Run(INITIAL, ops).log
    ensures var s := Run(INITIAL, ops);
      request !in s.requests || s.requests[request].status == Rejected ==> keyId !in s.keys
  {
    RunKeepsInv(INITIAL, ops);
    var s := Run(INITIAL, ops);
    assert RecordOk(s, RequestedKey(request, keyId, requester));
    if request in s.requests {
      assert RequestOk(s, request);
    }
  }

  /** A new key comes under this id. */
  predicate Brings(op: Operation, k: Id) {
    (op.AskKey? || op.RegenerateKey?) && op.keyId == k
  }

  lemma {:induction false} GoneStaysGone(s: System, ops: seq<Operation>, k: Id)
    requires k !in s.keys && forall j | 0 <= j < |ops| :: !Brings(ops[j], k)
    ensures k !in Run(s, ops).keys
    decreases |ops|
  {
    if ops != [] {
      assert !Brings(ops[0], k) && k !in Apply(s, ops[0]).keys;
      assert forall j | 0 <= j < |ops[1..]| :: ops[1..][j] == ops[j + 1];
      GoneStaysGone(Apply(s, ops[0]), ops[1..], k);
    }
  }

  /**
   What an approved deletion is for: once an authorised user has executed it, the key is not there in any
   continuation, so nothing authenticates with it, unless a new key is given the same id.
   */
  lemma DeletedKeyIsGoneForGood(s: System, id: Id, user: Id, result: Outcome, k: Id, ops: seq<Operation>)
    requires id in s.requests && s.requests[id].status == Approved && s.requests[id].work == DeleteKey(k) && k != ""
    requires forall j | 0 <= j < |ops| :: !Brings(ops[j], k)
    ensures k !in Run(Apply(s, DoExecute(id, user, true, result)), ops).keys
  {
    GoneStaysGone(Apply(s, DoExecute(id, user, true, result)), ops, k);
  }

  // ---------- who owns an inactive key ----------

  predicate Owns(s: System, r: Id, k: Id) {
    r in s.requests && s.requests[r].work == CreateKey(k) && s.requests[r].status != Rejected
  }

  ghost predicate EveryInactiveKeyOwned(s: System) {
    forall k | k in s.keys && !s.keys[k].active :: exists r :: Owns(s, r, k)
  }

  /** The one way to lose track of a pending key: its request could not be stored. */
  predicate Orphans(s: System, op: Operation) {
    && op.AskKey? && Admission(op.look, op.app, None) == Ok
    && op.app.Some? && ValidOwner(op.app.value, op.user) && op.fault
  }

  /** No operation switches a key off, and only a new request brings in an inactive one. */
  lemma InactiveBefore(s: System, op: Operation, k: Id)
    requires var u := Apply(s, op); k in u.keys && !u.keys[k].active
    ensures (k in s.keys && !s.keys[k].active) || (op.AskKey? && k == op.keyId)
  {
  }

  /** A request keeps the inactive key it owns, or loses it together with its own standing. */
  lemma OldOwnerKept(s: System, op: Operation, r: Id, k: Id)
    requires Inv(s) && Supplied(s, op) && Owns(s, r, k) && k in s.keys
    requires var u := Apply(s, op); k in u.keys && !u.keys[k].active
    ensures Owns(Apply(s, op), r, k)
  {
    assert RequestOk(s, r);
  }

  lemma OwnerKept(s: System, op: Operation, k: Id)
    requires Inv(s) && Supplied(s, op) && EveryInactiveKeyOwned(s) && !Orphans(s, op)
    requires var u := Apply(s, op); k in u.keys && !u.keys[k].active
    ensures exists r :: Owns(Apply(s, op), r, k)
  {
    InactiveBefore(s, op, k);
    if k in s.keys {
      var r :| Owns(s, r, k);
      OldOwnerKept(s, op, r, k);
    } else {
      assert Owns(Apply(s, op), op.id, k);
    }
  }

  /** A step keeps every inactive key owned if and only if it is not a failed insertion. */
  lemma OwnershipKeptIff(s: System, op: Operation)
    requires Inv(s) && Supplied(s, op) && EveryInactiveKeyOwned(s)
    ensures EveryInactiveKeyOwned(Apply(s, op)) <==> !Orphans(s, op)
  {
    var u := Apply(s, op);
    if Orphans(s, op) {
      assert op.keyId in u.keys && !u.keys[op.keyId].active;
      forall r | r in u.requests
        ensures !Owns(u, r, op.keyId)
      {
        assert RequestOk(s, r);
      }
    } else {
      forall k | k in u.keys && !u.keys[k].active
        ensures exists r :: Owns(u, r, k)
      {
        OwnerKept(s, op, k);
      }
    }
  }

  predicate NoOrphans(s: System, ops: seq<Operation>)
    decreases |ops|
  {
    ops == [] || (!Orphans(s, ops[0]) && NoOrphans(Apply(s, ops[0]), ops[1..]))
  }

  lemma {:induction false} RunKeepsOwnership(s: System, ops: seq<Operation>)
    requires Inv(s) && SuppliedRun(s, ops) && EveryInactiveKeyOwned(s) && NoOrphans(s, ops)
    ensures Inv(Run(s, ops)) && EveryInactiveKeyOwned(Run(s, ops))
    decreases |ops|
  {
    if ops != [] {
      OperationKeepsInv(s, ops[0]);
      OwnershipKeptIff(s, ops[0]);
      RunKeepsOwnership(Apply(s, ops[0]), ops[1..]);
    }
  }

  /** With no failed insertion, every inactive key belongs to exactly one request that was not refused. */
  lemma InactiveKeyHasOneOwner(ops: seq<Operation>, k: Id) returns (r: Id)
    requires SuppliedRun(INITIAL, ops) && NoOrphans(INITIAL, ops)
    requires k in Run(INITIAL, ops).keys && !Run(INITIAL, ops).keys[k].active
    ensures var s := Run(INITIAL, ops);
      Owns(s, r, k) && forall q | Owns(s, q, k) :: q == r
  {
    RunKeepsOwnership(INITIAL, ops);
    var s := Run(INITIAL, ops);
    r :| Owns(s, r, k);
    forall q | Owns(s, q, k)
      ensures q == r
    {
      OwnKey(s, r, q);
    }
  }
}
