/**
 * `log_activity`: derives the acting user, the client address and the user
 * agent from a request and appends one activity record to the log.
 */
module Utils {
  import opened Wrappers
  import opened Strings

  const ForwardedForKey := "HTTP_X_FORWARDED_FOR"
  const RemoteAddrKey := "REMOTE_ADDR"
  const UserAgentKey := "HTTP_USER_AGENT"

  datatype User = AnonymousUser | AuthenticatedUser(username: string)

  /** The parts of a request the log reads: its user and its `META` headers. */
  datatype Request = Request(user: User, meta: map<string, string>)

  /** `request.META.get(key)`. */
  function MetaGet(request: Request, key: string): (r: Option<string>)
    ensures r.Some? <==> key in request.meta
    ensures r.Some? ==> r.value == request.meta[key]
  {
    if key in request.meta then Some(request.meta[key]) else None
  }

  /** The logged user: the username of an authenticated user, `None` for an anonymous one. */
  function RequestUser(request: Request): (r: Option<string>)
    ensures r.Some? <==> request.user.AuthenticatedUser?
    ensures r.Some? ==> r.value == request.user.username
  {
    if request.user.AuthenticatedUser? then Some(request.user.username) else None
  }

  /**
   * The logged address. With a non-empty X-Forwarded-For header it is the
   * header's text before its first ',' (all of it when it has none), which
   * contains no ','; otherwise it is REMOTE_ADDR, possibly missing.
   */
  function ClientIp(request: Request): (r: Option<string>)
    ensures MetaGet(request, ForwardedForKey).Some? && MetaGet(request, ForwardedForKey).value != "" ==>
      var xff := request.meta[ForwardedForKey];
      && r.Some?
      && ',' !in r.value
      && |r.value| <= |xff| && xff[..|r.value|] == r.value
      && (r.value == xff || xff[|r.value|] == ',')
    ensures MetaGet(request, ForwardedForKey).None? || MetaGet(request, ForwardedForKey).value == "" ==>
      r == MetaGet(request, RemoteAddrKey)
  {
    var xff := MetaGet(request, ForwardedForKey);
    if xff.Some? && xff.value != "" then
      FirstSegmentSpec(xff.value, ',');
      Some(FirstSegment(xff.value, ','))
    else
      MetaGet(request, RemoteAddrKey)
  }

  /**
   * A forwarding chain "client, proxy1, proxy2" yields the client: the
   * address the first proxy recorded, whatever the later hops appended.
   */
  lemma ClientIpOfChain(request: Request, client: string, rest: string)
    requires ForwardedForKey in request.meta && request.meta[ForwardedForKey] == client + "," + rest
    requires ',' !in client
    ensures ClientIp(request) == Some(client)
  {
    var xff := client + "," + rest;
    var r := ClientIp(request).value;
    assert xff[|client|] == ',';
    assert r == xff[..|client|] == client;
  }

  /** A header naming a single address yields that address. */
  lemma ClientIpSingle(request: Request, client: string)
    requires ForwardedForKey in request.meta && request.meta[ForwardedForKey] == client
    requires client != "" && ',' !in client
    ensures ClientIp(request) == Some(client)
  {
  }

  /** One activity record. `ActivityLog` is not defined in models.py; the fields are those `log_activity` fills. */
  datatype ActivityLog = ActivityLog(
    actionType: string, description: string,
    user: Option<string>, ipAddress: Option<string>, userAgent: Option<string>)

  /**
   * The record `log_activity` creates: the given action type and description,
   * the request's user and address as derived above and its user agent as sent.
   */
  function RecordFor(request: Request, actionType: string, description: string): (e: ActivityLog)
    ensures e.actionType == actionType && e.description == description
    ensures e.user.Some? <==> request.user.AuthenticatedUser?
    ensures e.user == RequestUser(request)
    ensures e.ipAddress == ClientIp(request)
    ensures e.userAgent.Some? <==> UserAgentKey in request.meta
    ensures e.userAgent.Some? ==> e.userAgent.value == request.meta[UserAgentKey]
  {
    ActivityLog(actionType, description, RequestUser(request), ClientIp(request), MetaGet(request, UserAgentKey))
  }

  /** The activity log table (`ActivityLog.objects`). */
  class ActivityLogTable {
    var entries: seq<ActivityLog>

    constructor ()
      ensures entries == []
    {
      entries := [];
    }

    /** `ActivityLog.objects.create(...)`: appends one record. */
    method Create(e: ActivityLog)
      modifies this
      ensures entries == old(entries) + [e]
    {
      entries := entries + [e];
    }
  }

  /** `log_activity`: appends exactly one record, the one `RecordFor` describes, and changes nothing else. */
  method LogActivity(log: ActivityLogTable, request: Request, actionType: string, description: string)
    modifies log
    ensures log.entries == old(log.entries) + [RecordFor(request, actionType, description)]
  {
    var user: Option<string> := None;
    if request.user.AuthenticatedUser? {
      user := Some(request.user.username);
    }
    var forwardedFor := MetaGet(request, ForwardedForKey);
    var ipAddress: Option<string>;
    if forwardedFor.Some? && forwardedFor.value != "" {
      ipAddress := Some(FirstSegment(forwardedFor.value, ','));
    } else {
      ipAddress := MetaGet(request, RemoteAddrKey);
    }
    var userAgent := MetaGet(request, UserAgentKey);
    log.Create(ActivityLog(actionType, description, user, ipAddress, userAgent));
  }
}
