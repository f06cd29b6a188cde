/**
 Vtable dispatch shims with their defaults for NULL credentials or NULL
 vtable entries: request-metadata fetch and cancellation, the channel and
 server security-connector factories, and duplicate-without-call-credentials.
 What a present entry does belongs to the concrete credential and is a
 parameter here.
 */
module Dispatch {
  import opened CredState
  import opened Lifecycle
  import opened ChannelArgs
  import opened ProcessorSlot

  /** One metadata element (`grpc_mdelem`). */
  datatype Mdelem = Mdelem(key: string, value: string)

  /** Opaque `grpc_error *`, `grpc_polling_entity *` and `grpc_closure *`. */
  type ErrorId = nat
  type PollingEntity = nat
  type Closure = nat

  /** `grpc_auth_metadata_context`. */
  datatype AuthMetadataContext = AuthMetadataContext(serviceUrl: string, methodName: string)

  /** Outcome of a fetch: the boolean result ("complete now, no callback"),
      the metadata array and the error out-parameter after the call. */
  datatype FetchResult = FetchResult(complete: bool, md: seq<Mdelem>, error: Option<ErrorId>)

  /** Behaviour of a present `get_request_metadata` entry. */
  type GetRequestMetadataEntry =
    (Id, PollingEntity, AuthMetadataContext, seq<Mdelem>, Closure, Option<ErrorId>) -> FetchResult

  /** Behaviour of a present `cancel_get_request_metadata` entry: the array
      it leaves behind. */
  type CancelEntry = (Id, seq<Mdelem>, Option<ErrorId>) -> seq<Mdelem>

  /** Call credentials with a table that lacks entry `get` (or NULL creds). */
  predicate FetchDefaults(h: Heap, p: Ptr)
    requires Points(h, p, CallCreds) && HasTable(h, p)
  {
    p.None? || !h.creds[p.value].vtable.value.getRequestMetadata
  }

  /** `grpc_call_credentials_get_request_metadata`: NULL credentials or a
      NULL entry mean there is no metadata to add, so the fetch is complete
      at once with the array and error untouched; otherwise the result is
      whatever the entry returns for the same arguments. */
  function GetRequestMetadata(
    h: Heap, p: Ptr, pollent: PollingEntity, context: AuthMetadataContext,
    md: seq<Mdelem>, onRequestMetadata: Closure, error: Option<ErrorId>,
    entry: GetRequestMetadataEntry): (r: FetchResult)
    requires Points(h, p, CallCreds) && HasTable(h, p)
    ensures FetchDefaults(h, p) ==> r == FetchResult(true, md, error)
    ensures !FetchDefaults(h, p) ==> r == entry(p.value, pollent, context, md, onRequestMetadata, error)
  {
    if p.None? || !h.creds[p.value].vtable.value.getRequestMetadata then
      FetchResult(true, md, error)
    else
      entry(p.value, pollent, context, md, onRequestMetadata, error)
  }

  /** `grpc_call_credentials_cancel_get_request_metadata`: with NULL
      credentials or a NULL entry the array is left as it is; otherwise
      the entry decides. */
  function CancelGetRequestMetadata(
    h: Heap, p: Ptr, md: seq<Mdelem>, error: Option<ErrorId>, entry: CancelEntry): (r: seq<Mdelem>)
    requires Points(h, p, CallCreds) && HasTable(h, p)
    ensures (p.None? || !h.creds[p.value].vtable.value.cancelGetRequestMetadata) ==> r == md
    ensures p.Some? && h.creds[p.value].vtable.value.cancelGetRequestMetadata ==>
      r == entry(p.value, md, error)
  {
    if p.None? || !h.creds[p.value].vtable.value.cancelGetRequestMetadata then md
    else entry(p.value, md, error)
  }

  /** Opaque security connector. */
  type ConnectorId = nat

  datatype SecurityStatus = SecurityOk | SecurityError

  /** Status and the `*sc` and `*new_args` out-parameters after the call. */
  datatype ChannelConnectorResult =
    ChannelConnectorResult(status: SecurityStatus, sc: Option<ConnectorId>, newArgs: ArgList)

  /** Behaviour of a channel table's `create_security_connector`: it gets
      the credentials, the call credentials, the target, the args and the
      current values of `*sc` and `*new_args`. */
  type ChannelConnectorEntry =
    (Id, Ptr, string, ArgList, Option<ConnectorId>, ArgList) -> ChannelConnectorResult

  /** `grpc_channel_credentials_create_security_connector`. `*new_args` is
      reset to NULL before anything else, whatever it held. NULL credentials
      give a security error and leave `*sc` as it was. Otherwise the
      table's entry must be present (an assertion in the source, so a
      precondition here) and is called with NULL call credentials and the
      reset `*new_args`. */
  function ChannelCreateSecurityConnector(
    h: Heap, p: Ptr, target: string, args: ArgList,
    sc: Option<ConnectorId>, newArgs: ArgList, entry: ChannelConnectorEntry): (r: ChannelConnectorResult)
    requires Points(h, p, ChannelCreds) && HasTable(h, p)
    requires p.Some? ==> h.creds[p.value].vtable.value.createSecurityConnector
    ensures p.None? ==> r.status == SecurityError && r.sc == sc && r.newArgs.None?
    ensures p.Some? ==> r == entry(p.value, None, target, args, sc, None)
  {
    var newArgs' := None;
    if p.None? then ChannelConnectorResult(SecurityError, sc, newArgs')
    else entry(p.value, None, target, args, sc, newArgs')
  }

  /** Status and the `*sc` out-parameter after the call. */
  datatype ServerConnectorResult = ServerConnectorResult(status: SecurityStatus, sc: Option<ConnectorId>)

  type ServerConnectorEntry = (Id, Option<ConnectorId>) -> ServerConnectorResult

  /** `grpc_server_credentials_create_security_connector`: NULL credentials
      or a table without the entry are a recoverable configuration error
      (security error, `*sc` untouched); otherwise the entry decides. */
  function ServerCreateSecurityConnector(
    h: Heap, p: Ptr, sc: Option<ConnectorId>, entry: ServerConnectorEntry): (r: ServerConnectorResult)
    requires Points(h, p, ServerCreds) && HasTable(h, p)
    ensures (p.None? || !h.creds[p.value].vtable.value.createSecurityConnector) ==>
      r == ServerConnectorResult(SecurityError, sc)
    ensures p.Some? && h.creds[p.value].vtable.value.createSecurityConnector ==>
      r == entry(p.value, sc)
  {
    if p.None? || !h.creds[p.value].vtable.value.createSecurityConnector then
      ServerConnectorResult(SecurityError, sc)
    else
      entry(p.value, sc)
  }

  /** Behaviour of a present `duplicate_without_call_credentials` entry; it
      may take references of its own, so it yields a new heap. */
  type DuplicateEntry = (Heap, Id) -> (Heap, Ptr)

  /** Credentials, table and entry all present: the only case that
      delegates. */
  predicate DuplicateDelegates(h: Heap, p: Ptr)
    requires Points(h, p, ChannelCreds)
  {
    p.Some? && h.creds[p.value].vtable.Some? && h.creds[p.value].vtable.value.duplicateWithoutCallCredentials
  }

  /** `grpc_channel_credentials_duplicate_without_call_credentials`:
      delegates when credentials, table and entry are all present;
      otherwise it is a plain `ref`: the same pointer with one more
      reference, NULL for NULL. */
  function DuplicateWithoutCallCredentials(h: Heap, p: Ptr, entry: DuplicateEntry): (r: (Heap, Ptr))
    requires Points(h, p, ChannelCreds)
    ensures DuplicateDelegates(h, p) ==> r == entry(h, p.value)
    ensures !DuplicateDelegates(h, p) ==>
      && r.1 == p
      && r.0.log == h.log
      && r.0.creds.Keys == h.creds.Keys
      && (p.None? ==> r.0 == h)
      && (p.Some? ==> RefCount(r.0, p.value) == RefCount(h, p.value) + 1)
      && (p.Some? ==> SameExceptCount(r.0.creds[p.value], h.creds[p.value]))
      && (forall id | id in h.creds && Some(id) != p :: id in r.0.creds && r.0.creds[id] == h.creds[id])
  {
    if p.Some? && h.creds[p.value].vtable.Some? && h.creds[p.value].vtable.value.duplicateWithoutCallCredentials then
      entry(h, p.value)
    else
      Ref(h, p)
  }

  /** A fallback duplicate is indistinguishable from `ref`, and releasing
      it restores the heap. */
  lemma DuplicateFallbackIsRef(h: Heap, p: Ptr, entry: DuplicateEntry)
    requires Valid(h) && Points(h, p, ChannelCreds) && !DuplicateDelegates(h, p)
    ensures DuplicateWithoutCallCredentials(h, p, entry) == Ref(h, p)
    ensures var d := DuplicateWithoutCallCredentials(h, p, entry);
      CanUnref(d.0, d.1) && Unref(d.0, d.1) == h
  {
  }

  /** NULL credentials are a legal value everywhere: ref gives NULL, unref
      and processor replacement change nothing, a fetch is complete with
      nothing added, cancellation leaves the array alone, both connector
      factories report a security error without touching `*sc`, and the
      duplicate is NULL. None of this depends on the heap or on any entry.
      (`FindInArgs` states the same for a NULL argument list.) */
  lemma NullCredentialsAreSafe(
    h: Heap, pollent: PollingEntity, context: AuthMetadataContext, md: seq<Mdelem>,
    onDone: Closure, error: Option<ErrorId>, sc: Option<ConnectorId>, target: string,
    args: ArgList, newArgs: ArgList, processor: Processor,
    fetch: GetRequestMetadataEntry, cancel: CancelEntry, channelEntry: ChannelConnectorEntry,
    serverEntry: ServerConnectorEntry, duplicate: DuplicateEntry)
    requires Valid(h)
    ensures Ref(h, None) == (h, None)
    ensures Unref(h, None) == h
    ensures SetAuthMetadataProcessor(h, None, processor) == h
    ensures GetRequestMetadata(h, None, pollent, context, md, onDone, error, fetch) == FetchResult(true, md, error)
    ensures CancelGetRequestMetadata(h, None, md, error, cancel) == md
    ensures ChannelCreateSecurityConnector(h, None, target, args, sc, newArgs, channelEntry) ==
      ChannelConnectorResult(SecurityError, sc, None)
    ensures ServerCreateSecurityConnector(h, None, sc, serverEntry) == ServerConnectorResult(SecurityError, sc)
    ensures DuplicateWithoutCallCredentials(h, None, duplicate) == (h, None)
    ensures MetadataRequestDestroy(h, MetadataRequestCreate(h, None).1) == h
  {
  }

  /** A whole fetch attempt on a live call credential whose table has
      neither `get_request_metadata` nor `cancel_get_request_metadata`:
      the request envelope takes its reference, the fetch is complete at
      once with the array and error untouched, a cancellation leaves the
      array alone, and destroying the envelope restores the heap. No entry
      the concrete credential might supply changes this. */
  lemma FetchWithoutEntriesIsTrivial(
    h: Heap, id: Id, pollent: PollingEntity, context: AuthMetadataContext, md: seq<Mdelem>,
    onDone: Closure, error: Option<ErrorId>, fetch: GetRequestMetadataEntry, cancel: CancelEntry)
    requires Valid(h) && id in h.creds && h.creds[id].family == CallCreds
    requires h.creds[id].vtable.Some?
    requires !h.creds[id].vtable.value.getRequestMetadata
    requires !h.creds[id].vtable.value.cancelGetRequestMetadata
    ensures var (h1, req) := MetadataRequestCreate(h, Some(id));
      && Points(h1, req.creds, CallCreds) && HasTable(h1, req.creds)
      && GetRequestMetadata(h1, req.creds, pollent, context, md, onDone, error, fetch) == FetchResult(true, md, error)
      && CancelGetRequestMetadata(h1, req.creds, md, error, cancel) == md
      && CanUnref(h1, req.creds) && MetadataRequestDestroy(h1, req) == h
  {
  }

  /** The channel factory resets `*new_args` before anything else, so what
      the caller left there never influences the result. */
  lemma ChannelConnectorIgnoresIncomingNewArgs(
    h: Heap, p: Ptr, target: string, args: ArgList, sc: Option<ConnectorId>,
    newArgs1: ArgList, newArgs2: ArgList, entry: ChannelConnectorEntry)
    requires Points(h, p, ChannelCreds) && HasTable(h, p)
    requires p.Some? ==> h.creds[p.value].vtable.value.createSecurityConnector
    ensures ChannelCreateSecurityConnector(h, p, target, args, sc, newArgs1, entry) ==
      ChannelCreateSecurityConnector(h, p, target, args, sc, newArgs2, entry)
  {
  }

  /** The defaults never claim work was done: only a present entry can make
      a fetch asynchronous or a connector factory report success, and then
      the result is that entry's. */
  lemma OnlyEntriesSucceed(
    h: Heap, call: Ptr, channel: Ptr, server: Ptr,
    pollent: PollingEntity, context: AuthMetadataContext, md: seq<Mdelem>, onDone: Closure,
    error: Option<ErrorId>, target: string, args: ArgList, sc: Option<ConnectorId>, newArgs: ArgList,
    fetch: GetRequestMetadataEntry, channelEntry: ChannelConnectorEntry, serverEntry: ServerConnectorEntry)
    requires Points(h, call, CallCreds) && HasTable(h, call)
    requires Points(h, channel, ChannelCreds) && HasTable(h, channel)
    requires channel.Some? ==> h.creds[channel.value].vtable.value.createSecurityConnector
    requires Points(h, server, ServerCreds) && HasTable(h, server)
    ensures !GetRequestMetadata(h, call, pollent, context, md, onDone, error, fetch).complete ==>
      && call.Some? && h.creds[call.value].vtable.value.getRequestMetadata
      && !fetch(call.value, pollent, context, md, onDone, error).complete
    ensures ChannelCreateSecurityConnector(h, channel, target, args, sc, newArgs, channelEntry).status == SecurityOk ==>
      && channel.Some?
      && channelEntry(channel.value, None, target, args, sc, None).status == SecurityOk
    ensures ServerCreateSecurityConnector(h, server, sc, serverEntry).status == SecurityOk ==>
      && server.Some? && h.creds[server.value].vtable.value.createSecurityConnector
      && serverEntry(server.value, sc).status == SecurityOk
  {
  }
}
