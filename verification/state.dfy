/**
 The heap of credential records shared by every operation of the credential
 core: channel, call and server credentials, each a reference-counted record
 carrying a capability table (vtable) and, for server credentials, an auth
 metadata processor slot. Freeing a record removes it from the heap; the
 side effects a release performs (vtable destruct, processor destroy, free)
 are appended to an event log, so "exactly once" becomes a statement about
 how many times an event occurs in the log.
 */
module CredState {

  datatype Option<+T> = None | Some(value: T)

  /** Address of a credential record. */
  type Id = nat

  /** A possibly-NULL credential pointer: None is NULL. */
  type Ptr = Option<Id>

  /** Opaque function pointer (processor process/destroy functions). */
  type FnId = nat

  /** Opaque `void *` state handed to a processor's destroy function. */
  type StateId = nat

  datatype Family = ChannelCreds | CallCreds | ServerCreds

  /** Which entries of a capability table are non-NULL. What a present entry
      does is not part of this model: the dispatch shims take it as a
      parameter. */
  datatype VTable = VTable(
    destruct: bool,
    getRequestMetadata: bool,
    cancelGetRequestMetadata: bool,
    createSecurityConnector: bool,
    duplicateWithoutCallCredentials: bool)

  /** The auth metadata processor triple `{ process, state, destroy }`. */
  datatype Processor = Processor(process: Option<FnId>, state: Option<StateId>, destroy: Option<FnId>)

  /** The zero-initialised processor slot. */
  const NoProcessor: Processor := Processor(None, None, None)

  /** A processor whose state is torn down when it is replaced or released:
      both its destroy function and its state are non-NULL. */
  predicate Installed(p: Processor)
  {
    p.destroy.Some? && p.state.Some?
  }

  /** One credential record. `processor` is only meaningful for server
      credentials; the other families have no such slot. */
  datatype Cred = Cred(family: Family, refcount: nat, vtable: Option<VTable>, processor: Processor)

  /** Observable side effects of releasing credentials or replacing a
      processor. */
  datatype Event =
    | Destruct(id: Id)
    | ProcessorDestroy(destroy: FnId, state: StateId)
    | Free(id: Id)

  /** The processor destroy that replacing or releasing processor `p` runs:
      one event when it is installed, none otherwise. */
  function DestroyEvents(p: Processor): seq<Event>
  {
    if Installed(p) then [ProcessorDestroy(p.destroy.value, p.state.value)] else []
  }

  datatype Heap = Heap(creds: map<Id, Cred>, log: seq<Event>)

  /** Every live record is owned by at least one holder (a record whose count
      reaches zero is freed at once) and only server records carry a
      processor. */
  predicate Valid(h: Heap)
  {
    forall id | id in h.creds ::
      && h.creds[id].refcount >= 1
      && (h.creds[id].family != ServerCreds ==> h.creds[id].processor == NoProcessor)
  }

  /** The reference count of `id`, zero once it has been freed. */
  function RefCount(h: Heap, id: Id): nat
  {
    if id in h.creds then h.creds[id].refcount else 0
  }

  /** `p` is NULL or points at a live record of family `f` (the C pointer
      type of the parameter). */
  predicate Points(h: Heap, p: Ptr, f: Family)
  {
    p.None? || (p.value in h.creds && h.creds[p.value].family == f)
  }

  /** `p` is NULL or its record has a capability table to dereference. */
  predicate HasTable(h: Heap, p: Ptr)
    requires p.Some? ==> p.value in h.creds
  {
    p.None? || h.creds[p.value].vtable.Some?
  }

  /** Two records that differ at most in their reference count. */
  predicate SameExceptCount(a: Cred, b: Cred)
  {
    a.family == b.family && a.vtable == b.vtable && a.processor == b.processor
  }

  /** Number of occurrences of `e` in `log`. */
  function Count(log: seq<Event>, e: Event): nat
  {
    if |log| == 0 then 0 else (if log[0] == e then 1 else 0) + Count(log[1..], e)
  }

  lemma {:induction false} CountAppend(a: seq<Event>, b: seq<Event>, e: Event)
    ensures Count(a + b, e) == Count(a, e) + Count(b, e)
  {
    if |a| == 0 {
      assert a + b == b;
    } else {
      assert (a + b)[1..] == a[1..] + b;
      CountAppend(a[1..], b, e);
    }
  }

  lemma CountSingleton(x: Event, e: Event)
    ensures Count([x], e) == if x == e then 1 else 0
  {
  }
}
