# Credential core of gRPC's security layer, in Dafny

This project models the lifecycle and dispatch shell of gRPC's credential
objects, from `src/core/lib/security/credentials/credentials.c`. It covers
three kinds of credentials: channel credentials, call credentials and server
credentials. It proves properties about:

- the reference count that every credential record carries, and the
  exactly-once teardown when the count reaches zero;
- the metadata-request envelope, which holds one reference on a call
  credential;
- the vtable dispatch shims and their defaults for NULL credentials or NULL
  vtable entries: fetching request metadata, cancelling that fetch, the
  channel and server security-connector factories, and
  duplicate-without-call-credentials;
- the channel-args adapter: the copy/destroy/compare pointer vtable,
  `to_arg`, `from_arg` and `find_in_args`;
- replacement of the auth metadata processor on server credentials.

The model is a functional state machine. A `Heap` maps record addresses to
immutable `Cred` records. Each record holds its family, reference count,
optional vtable (one presence flag per entry) and processor triple. The heap
also carries a log of the side effects a release performs: the vtable
`destruct`, the processor `destroy` and the free. "Exactly once" is then a
statement about how often an event occurs in that log. A freed record is
removed from the map. NULL pointers are `None`.

What a present vtable entry does belongs to the concrete credential (TLS,
OAuth2, JWT, composite). Each shim therefore takes that behaviour as a
function parameter. Its contract says when the shim delegates to it and what
it returns when it does not.

The three families' `ref` functions have identical bodies, and so do their
`unref` functions, except that the server `unref` also tears down the
processor. The model therefore has one `Ref` and one `Unref`. `Unref` picks
the server teardown from the record's family. The channel and server variants
of `to_arg`, `from_arg` and `find_in_args` are likewise one function each,
taking the family as a parameter.

The model follows the code in three places where its behaviour is easy to
get wrong:

- `*_to_arg` does not take a reference. It only builds the argument. A
  reference is taken later, when the argument's copy function runs.
- `grpc_channel_credentials_create_security_connector` with NULL credentials
  leaves `*sc` as it was. It does not set a NULL connector. It does reset
  `*new_args` to NULL.
- `*_find_in_args` skips an entry that has the right key and pointer type but
  a NULL pointer, because it stops only at a non-NULL result of `from_arg`.

## Model

| member | source | states |
|---|---|---|
| Lifecycle.Ref | src/core/lib/security/credentials/credentials.c:55-60 | NULL maps to NULL with the heap unchanged. Otherwise the same pointer comes back and that record's count goes up by exactly one. No other record, no other field and no log entry changes. This is the same for call credentials (80-84) and server credentials (193-198). |
| Lifecycle.Unref | src/core/lib/security/credentials/credentials.c:200-212 | NULL is a no-op. Otherwise the count goes down by one. The record is freed exactly when the count it had was one, and its teardown is then appended to the log. Every other record is untouched, and live records keep at least one reference. The channel (62-71) and call (86-95) variants are the same without the processor step. |
| Lifecycle.TeardownEvents | src/core/lib/security/credentials/credentials.c:203-210 | The last release frees the record exactly once, as its final step. It runs `destruct` exactly once when the vtable has that entry, and as the first step. A processor destroy occurs if and only if the record is a server credential whose processor has both `destroy` and `state` non-NULL. That destroy occurs once, right before the free. The release emits nothing else: its length is one for the free, plus one for `destruct`, plus one for the processor destroy. |
| Lifecycle.RefTimes | src/core/lib/security/credentials/credentials.c:80-84 | `n` refs raise the count by exactly `n` and change nothing else. |
| Lifecycle.UnrefTimes | src/core/lib/security/credentials/credentials.c:86-95 | Fewer unrefs than references leave the record alive, with its count lowered by that many and the log unchanged. As many unrefs as references free it, and the teardown is logged once. No other record changes. |
| Lifecycle.DestructExactlyOnce | src/core/lib/security/credentials/credentials.c:62-71 | Start from the creation reference and take `n` more refs. None of the first `n` unrefs destructs or frees anything. The (n+1)th unref frees the record exactly once and runs its `destruct` exactly once when the vtable has one. |
| Lifecycle.ServerReleaseDestroysProcessor | src/core/lib/security/credentials/credentials.c:200-212 | When a server credential with an installed processor loses its last reference, `processor.destroy(processor.state)` runs exactly once. It runs after `destruct` and immediately before the free. |
| Lifecycle.ClientReleaseDestroysNoProcessor | src/core/lib/security/credentials/credentials.c:62-95 | Releasing the last reference to a channel or call credential never destroys a processor. |
| Lifecycle.RefUnrefRestores | src/core/lib/security/credentials/credentials.c:55-71 | A `ref` followed by an `unref` of the same pointer restores the heap exactly, including for NULL. |
| Lifecycle.MetadataRequestCreate | src/core/lib/security/credentials/credentials.c:40-46 | The request holds the given call credential. It takes exactly one reference on it, or none when it is NULL, and nothing else changes. |
| Lifecycle.MetadataRequestDestroy | src/core/lib/security/credentials/credentials.c:48-53 | Destroying a request releases exactly the one reference it holds, and no other record changes. While references remain, the log is untouched and only the count moves. When it held the last one, the record is freed and its teardown (destruct, processor destroy, free) is appended to the log. |
| Lifecycle.MetadataRequestBalanced | src/core/lib/security/credentials/credentials.c:40-53 | Creating a metadata request and then destroying it leaves the heap exactly as it was. |
| ProcessorSlot.SetAuthMetadataProcessor | src/core/lib/security/credentials/credentials.c:231-243 | NULL credentials are left alone. Otherwise the old processor's state is destroyed exactly when its `destroy` and `state` are both non-NULL. The new triple is then installed exactly as given, and nothing but the slot changes. |
| ProcessorSlot.SetTwiceDestroysFirstOnce | src/core/lib/security/credentials/credentials.c:238-242 | Setting a processor twice: the second call destroys the first processor's state exactly once, when it was installed, and nothing else. The second processor is then active. |
| ProcessorSlot.ReplaceThenRelease | src/core/lib/security/credentials/credentials.c:207-242 | Replace an installed processor with a second one, then release the credential's last reference. The first processor's state has been destroyed once, by the replacement. The second processor's state has been destroyed once, by the release. |
| ChannelArgs.FromArg | src/core/lib/security/credentials/credentials.c:170-179 | The result is NULL on a key mismatch or a non-pointer type. Otherwise it is the stored pointer itself, and no reference is taken. The server variant (267-275) is the same with the server key. |
| ChannelArgs.ToArg | src/core/lib/security/credentials/credentials.c:164-168 | The argument reads back through `from_arg` as the same pointer for its own family, and as NULL for the other family. It always stores the family's key and the pointer as given, NULL included, together with the family's pointer vtable. |
| ChannelArgs.PointerCopy | src/core/lib/security/credentials/credentials.c:154-156 | The copy entry returns the same pointer and adds exactly one reference to it. The record's other fields, every other record and the log are unchanged. |
| ChannelArgs.PointerDestroy | src/core/lib/security/credentials/credentials.c:150-152 | The destroy entry releases exactly one reference, and does nothing for NULL. Other records are untouched. When the last reference goes, the record is freed and its teardown is logged; otherwise the log is unchanged. |
| ChannelArgs.PointerCompare | src/core/lib/security/credentials/credentials.c:158 | The compare entry returns -1, 0 or 1. It returns 0 exactly for the same pointer, and a negative value exactly when the first address is lower. |
| ChannelArgs.PointerCompareIsOrder | src/core/lib/security/credentials/credentials.c:254-256 | Pointer comparison is antisymmetric and transitive, so it is an identity order. |
| ChannelArgs.CopyThenDestroyBalanced | src/core/lib/security/credentials/credentials.c:245-252 | Copying a credential argument and then destroying the copy leaves the heap exactly as it was. |
| ChannelArgs.FirstCredentialsIsFirstMatch | src/core/lib/security/credentials/credentials.c:277-287 | The scan finds nothing if and only if no entry yields a non-NULL pointer. Otherwise it returns the pointer of the earliest such entry. |
| ChannelArgs.FindInArgs | src/core/lib/security/credentials/credentials.c:181-191 | A NULL list gives NULL. Otherwise the result is the pointer of the first entry, in index order, whose `from_arg` is non-NULL, or NULL when no entry matches. |
| Dispatch.GetRequestMetadata | src/core/lib/security/credentials/credentials.c:104-114 | With NULL credentials or a NULL entry, the fetch reports "complete" and leaves the metadata array and the error untouched. Otherwise the result is exactly what the entry returns for the same arguments. |
| Dispatch.CancelGetRequestMetadata | src/core/lib/security/credentials/credentials.c:116-123 | With NULL credentials or a NULL entry, the metadata array is left as it is. Otherwise the entry decides. |
| Dispatch.ChannelCreateSecurityConnector | src/core/lib/security/credentials/credentials.c:125-136 | `*new_args` is NULL whatever it held before. NULL credentials give `GRPC_SECURITY_ERROR` with `*sc` unchanged. Otherwise the vtable entry must be present (the source asserts it) and is called with NULL call credentials and the reset `*new_args`. |
| Dispatch.ServerCreateSecurityConnector | src/core/lib/security/credentials/credentials.c:221-229 | NULL credentials or a missing entry give `GRPC_SECURITY_ERROR` with `*sc` unchanged. Otherwise the entry decides. |
| Dispatch.DuplicateWithoutCallCredentials | src/core/lib/security/credentials/credentials.c:138-148 | The function delegates exactly when the credentials, the vtable and the entry are all non-NULL. Otherwise it returns the same pointer with one more reference, returns NULL for NULL, and changes nothing else. The set of live records is unchanged, and the returned record differs only in its count. |
| Dispatch.DuplicateFallbackIsRef | src/core/lib/security/credentials/credentials.c:145-147 | The fallback duplicate equals a plain `ref` of the input, and releasing it restores the heap. |
| Dispatch.FetchWithoutEntriesIsTrivial | src/core/lib/security/credentials/credentials.c:40-123 | A whole fetch attempt on a live call credential whose table lacks both fetch entries, whatever those entries would do: the request takes its reference, the fetch is complete at once with the array and error kept, cancel leaves the array alone, and destroying the request restores the heap. |
| Dispatch.ChannelConnectorIgnoresIncomingNewArgs | src/core/lib/security/credentials/credentials.c:125-136 | Because `*new_args` is reset first, the value the caller left in it never changes the factory's result. |
| Dispatch.OnlyEntriesSucceed | src/core/lib/security/credentials/credentials.c:104-229 | A fetch can be left incomplete (asynchronous) only by a present entry that answered so. Either connector factory can report success only when it delegated and the entry reported success; the server factory also needs the entry to be present. |
| Dispatch.NullCredentialsAreSafe | src/core/lib/security/credentials/credentials.c:40-148 | For NULL credentials, whatever the heap and the entries: ref gives NULL, unref changes nothing, a fetch is complete with nothing added, cancel leaves the array alone, the channel factory returns an error with `*sc` kept and `*new_args` NULL, the duplicate is NULL, and a request envelope is balanced. |

## Left out

- Atomicity of `gpr_ref`/`gpr_unref`: the counter is modelled as a sequential counter, so thread-safety is not modelled.
- The bodies of the concrete vtable entries (TLS, OAuth2, JWT, composite credentials): these are uninterpreted function parameters of the shims, and their effect on the heap is not modelled.
- The asynchronous metadata-fetch protocol (one completion callback, the race between cancellation and completion): the concrete entries implement it, and this file only forwards to them.
- `grpc_exec_ctx`, the executor, `grpc_http_response_destroy` and the response buffer of a metadata request: these are plumbing. `gpr_zalloc` is not modelled, and `gpr_free` becomes removing the record plus a `Free` event.
- The public `*_release` wrappers (73-78, 97-102, 214-219): each is `unref` plus exec-ctx setup and an API trace.
- `GRPC_API_TRACE` and `gpr_log` diagnostics, including the error log for a wrong arg type and for server credentials that cannot create a connector.
- The concrete credential constructors that create a record with one reference: they are outside this file.
- The generic channel-args container (`grpc_channel_arg_pointer_create`, copying and destroying whole lists): an argument list is a sequence of key/value entries. The key strings `grpc.channel_credentials` and `grpc.server_credentials` come from `credentials.h`, which is not part of this model.
- ReplaceThenRelease: requires the replacement processor's state to differ from the installed one. When the same state is installed twice, the code runs `destroy` on that one state twice: once on replacement (credentials.c:239-240) and again when the last reference goes (credentials.c:207-208). The model logs both events, as the code does, but proves nothing about the state that is left dangling.
- CanUnref, GetRequestMetadata, CancelGetRequestMetadata, ChannelCreateSecurityConnector, ServerCreateSecurityConnector: these require a vtable to be present. Only duplicate_without_call_credentials checks the vtable pointer for NULL. The other shims and the last unref dereference it without a check (credentials.c:66, 90, 109, 119, 133, 204, 224), so a credential without a vtable is outside the code's contract.
