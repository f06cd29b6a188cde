/**
 Reference-count lifecycle shared by channel, call and server credentials
 (`*_ref` / `*_unref`) and the metadata-request envelope that holds one
 reference on a call credential. The atomic counter is modelled as a plain
 sequential counter.
 */
module Lifecycle {
  import opened CredState

  /** `*_ref`: NULL maps to NULL; otherwise the count goes up by one and the
      same pointer comes back. Nothing else in the heap moves. */
  function Ref(h: Heap, p: Ptr): (r: (Heap, Ptr))
    requires p.Some? ==> p.value in h.creds
    ensures r.1 == p
    ensures r.0.log == h.log
    ensures r.0.creds.Keys == h.creds.Keys
    ensures p.None? ==> r.0 == h
    ensures p.Some? ==> RefCount(r.0, p.value) == RefCount(h, p.value) + 1
    ensures p.Some? ==> SameExceptCount(r.0.creds[p.value], h.creds[p.value])
    ensures forall id | id in h.creds && Some(id) != p :: r.0.creds[id] == h.creds[id]
    ensures Valid(h) ==> Valid(r.0)
  {
    match p
    case None => (h, p)
    case Some(id) =>
      var c := h.creds[id];
      (h.(creds := h.creds[id := c.(refcount := c.refcount + 1)]), p)
  }

  /** What releasing the last reference to `c` does, in order: the vtable
      destruct when present, then for a server credential the processor's
      destroy when both it and its state are present, then the free. */
  function Teardown(id: Id, c: Cred): seq<Event>
    requires c.vtable.Some?
  {
    (if c.vtable.value.destruct then [Destruct(id)] else [])
    + (if c.family == ServerCreds then DestroyEvents(c.processor) else [])
    + [Free(id)]
  }

  /** `*_unref` may be called on NULL, or on a live record; it dereferences
      the vtable only when it drops the last reference. */
  predicate CanUnref(h: Heap, p: Ptr)
  {
    p.None? || (p.value in h.creds && (h.creds[p.value].refcount == 1 ==> h.creds[p.value].vtable.Some?))
  }

  /** `*_unref`: NULL is a no-op; otherwise the count goes down by one, and
      the record is torn down and freed exactly when that count reaches
      zero. Every other record is untouched and the log only grows. */
  function Unref(h: Heap, p: Ptr): (r: Heap)
    requires Valid(h) && CanUnref(h, p)
    ensures Valid(r)
    ensures p.None? ==> r == h
    ensures p.Some? ==> RefCount(r, p.value) == RefCount(h, p.value) - 1
    ensures p.Some? ==> (p.value in r.creds <==> h.creds[p.value].refcount > 1)
    ensures r.creds.Keys <= h.creds.Keys
    ensures forall id | id in h.creds && Some(id) != p :: id in r.creds && r.creds[id] == h.creds[id]
    ensures p.Some? && p.value in r.creds ==>
      r.log == h.log && SameExceptCount(r.creds[p.value], h.creds[p.value])
    ensures p.Some? && p.value !in r.creds ==>
      r.log == h.log + Teardown(p.value, h.creds[p.value])
  {
    match p
    case None => h
    case Some(id) =>
      var c := h.creds[id];
      if c.refcount > 1 then
        h.(creds := h.creds[id := c.(refcount := c.refcount - 1)])
      else
        Heap(h.creds - {id}, h.log + Teardown(id, c))
  }

  /** The events a teardown emits: one free, one destruct exactly when the
      table has a destruct entry, one processor destroy exactly when the
      record is a server credential with an installed processor, the
      destruct first and the free last. */
  lemma TeardownEvents(id: Id, c: Cred)
    requires c.vtable.Some?
    ensures var t := Teardown(id, c);
      && |t| == (if c.vtable.value.destruct then 1 else 0)
                + (if c.family == ServerCreds && Installed(c.processor) then 1 else 0) + 1
      && Count(t, Free(id)) == 1
      && t[|t| - 1] == Free(id)
      && Count(t, Destruct(id)) == (if c.vtable.value.destruct then 1 else 0)
      && (c.vtable.value.destruct ==> t[0] == Destruct(id))
      && (c.family == ServerCreds && Installed(c.processor) <==>
          exists i :: 0 <= i < |t| && t[i].ProcessorDestroy?)
      && (c.family == ServerCreds && Installed(c.processor) ==>
          var pd := ProcessorDestroy(c.processor.destroy.value, c.processor.state.value);
          && Count(t, pd) == 1
          && t[|t| - 2] == pd
          && (c.vtable.value.destruct ==> |t| == 3 && t[0] == Destruct(id)))
  {
    var t := Teardown(id, c);
    var d: seq<Event> := if c.vtable.value.destruct then [Destruct(id)] else [];
    var s := c.family == ServerCreds && Installed(c.processor);
    var pr: seq<Event> := if s then [ProcessorDestroy(c.processor.destroy.value, c.processor.state.value)] else [];
    assert t == d + pr + [Free(id)];
    CountAppend(d + pr, [Free(id)], Free(id));
    CountAppend(d, pr, Free(id));
    CountAppend(d + pr, [Free(id)], Destruct(id));
    CountAppend(d, pr, Destruct(id));
    CountSingleton(Free(id), Free(id));
    CountSingleton(Free(id), Destruct(id));
    if c.vtable.value.destruct {
      CountSingleton(Destruct(id), Free(id));
      CountSingleton(Destruct(id), Destruct(id));
    }
    if s {
      var pd := ProcessorDestroy(c.processor.destroy.value, c.processor.state.value);
      CountSingleton(pd, Free(id));
      CountSingleton(pd, Destruct(id));
      CountAppend(d + pr, [Free(id)], pd);
      CountAppend(d, pr, pd);
      CountSingleton(pd, pd);
      CountSingleton(Free(id), pd);
      if c.vtable.value.destruct {
        CountSingleton(Destruct(id), pd);
      }
      assert t[|t| - 2] == pd;
    } else {
      assert forall i | 0 <= i < |t| :: !t[i].ProcessorDestroy?;
    }
  }

  /** `n` successive `ref`s of the same record. */
  function RefTimes(h: Heap, id: Id, n: nat): (r: Heap)
    requires id in h.creds
    ensures r.log == h.log
    ensures r.creds.Keys == h.creds.Keys
    ensures RefCount(r, id) == RefCount(h, id) + n
    ensures SameExceptCount(r.creds[id], h.creds[id])
    ensures forall k | k in h.creds && k != id :: k in r.creds && r.creds[k] == h.creds[k]
    ensures Valid(h) ==> Valid(r)
    decreases n
  {
    if n == 0 then h else RefTimes(Ref(h, Some(id)).0, id, n - 1)
  }

  /** `n` successive `unref`s of the same record, at most as many as it has
      references. */
  function UnrefTimes(h: Heap, id: Id, n: nat): (r: Heap)
    requires Valid(h) && id in h.creds && n <= h.creds[id].refcount
    requires n == h.creds[id].refcount ==> h.creds[id].vtable.Some?
    ensures Valid(r)
    ensures RefCount(r, id) == RefCount(h, id) - n
    ensures forall k | k in h.creds && k != id :: k in r.creds && r.creds[k] == h.creds[k]
    ensures r.creds.Keys <= h.creds.Keys
    ensures n < h.creds[id].refcount ==>
      id in r.creds && r.log == h.log && SameExceptCount(r.creds[id], h.creds[id])
    ensures n == h.creds[id].refcount ==>
      id !in r.creds && r.log == h.log + Teardown(id, h.creds[id])
    decreases n
  {
    if n == 0 then h
    else if n == 1 then Unref(h, Some(id))
    else UnrefTimes(Unref(h, Some(id)), id, n - 1)
  }

  /** The exactly-once property of the lifecycle: starting from the creation
      reference, after `n` further refs the first `n` unrefs neither
      destruct nor free anything, and the (n+1)th unref frees the record
      once and runs its destruct once (when the table has one). */
  lemma {:induction false} DestructExactlyOnce(h: Heap, id: Id, n: nat)
    requires Valid(h) && id in h.creds
    requires h.creds[id].refcount == 1 && h.creds[id].vtable.Some?
    ensures var held := RefTimes(h, id, n);
      && (forall k | 0 <= k <= n ::
            id in UnrefTimes(held, id, k).creds && UnrefTimes(held, id, k).log == h.log)
      && var last := UnrefTimes(held, id, n + 1);
         && id !in last.creds
         && Count(last.log, Free(id)) == Count(h.log, Free(id)) + 1
         && Count(last.log, Destruct(id)) ==
              Count(h.log, Destruct(id)) + (if h.creds[id].vtable.value.destruct then 1 else 0)
  {
    var held := RefTimes(h, id, n);
    assert held.creds[id].refcount == n + 1;
    var last := UnrefTimes(held, id, n + 1);
    TeardownEvents(id, held.creds[id]);
    CountAppend(h.log, Teardown(id, held.creds[id]), Free(id));
    CountAppend(h.log, Teardown(id, held.creds[id]), Destruct(id));
  }

  /** A server credential whose processor is installed when its last
      reference goes: the processor's state is destroyed exactly once, after
      the vtable destruct, and just before the record is freed. */
  lemma {:induction false} ServerReleaseDestroysProcessor(h: Heap, id: Id)
    requires Valid(h) && id in h.creds
    requires h.creds[id].family == ServerCreds && h.creds[id].refcount == 1
    requires h.creds[id].vtable.Some? && Installed(h.creds[id].processor)
    ensures var c := h.creds[id];
      var pd := ProcessorDestroy(c.processor.destroy.value, c.processor.state.value);
      var r := Unref(h, Some(id));
      && id !in r.creds
      && Count(r.log, pd) == Count(h.log, pd) + 1
      && r.log[|r.log| - 1] == Free(id)
      && r.log[|r.log| - 2] == pd
      && (c.vtable.value.destruct ==> r.log[|r.log| - 3] == Destruct(id))
  {
    var c := h.creds[id];
    var pd := ProcessorDestroy(c.processor.destroy.value, c.processor.state.value);
    var t := Teardown(id, c);
    TeardownEvents(id, c);
    CountAppend(h.log, t, pd);
    var r := Unref(h, Some(id));
    assert r.log == h.log + t;
    assert r.log[|r.log| - 1] == t[|t| - 1];
    assert r.log[|r.log| - 2] == t[|t| - 2];
    if c.vtable.value.destruct {
      assert r.log[|r.log| - 3] == t[0];
    }
  }

  /** A channel or call credential has no processor: its last release emits
      no processor destroy at all. */
  lemma {:induction false} ClientReleaseDestroysNoProcessor(h: Heap, id: Id)
    requires Valid(h) && id in h.creds
    requires h.creds[id].family != ServerCreds && h.creds[id].refcount == 1
    requires h.creds[id].vtable.Some?
    ensures var r := Unref(h, Some(id));
      forall i | |h.log| <= i < |r.log| :: !r.log[i].ProcessorDestroy?
  {
    var c := h.creds[id];
    TeardownEvents(id, c);
    var r := Unref(h, Some(id));
    forall i | |h.log| <= i < |r.log|
      ensures !r.log[i].ProcessorDestroy?
    {
      assert r.log[i] == Teardown(id, c)[i - |h.log|];
    }
  }

  /** `ref` followed by `unref` of the same pointer restores the heap. */
  lemma RefUnrefRestores(h: Heap, p: Ptr)
    requires Valid(h) && (p.Some? ==> p.value in h.creds)
    ensures var held := Ref(h, p).0;
      CanUnref(held, p) && Unref(held, p) == h
  {
  }

  /** One in-flight "produce request metadata" operation; it owns one
      reference on the call credential that drives it. The HTTP response
      buffer it also owns is not modelled. */
  datatype MetadataRequest = MetadataRequest(creds: Ptr)

  /** `grpc_credentials_metadata_request_create`: takes exactly one
      reference on `creds` (none when it is NULL). */
  function MetadataRequestCreate(h: Heap, creds: Ptr): (r: (Heap, MetadataRequest))
    requires Points(h, creds, CallCreds)
    ensures r.1.creds == creds
    ensures r.0.log == h.log && r.0.creds.Keys == h.creds.Keys
    ensures creds.Some? ==> RefCount(r.0, creds.value) == RefCount(h, creds.value) + 1
    ensures creds.Some? ==> SameExceptCount(r.0.creds[creds.value], h.creds[creds.value])
    ensures forall id | id in h.creds && Some(id) != creds :: r.0.creds[id] == h.creds[id]
    ensures Points(r.0, creds, CallCreds)
    ensures Valid(h) ==> Valid(r.0)
  {
    var (h', p) := Ref(h, creds);
    (h', MetadataRequest(p))
  }

  /** `grpc_credentials_metadata_request_destroy`: releases exactly the one
      reference the request holds. */
  function MetadataRequestDestroy(h: Heap, req: MetadataRequest): (r: Heap)
    requires Valid(h) && CanUnref(h, req.creds)
    ensures Valid(r)
    ensures req.creds.Some? ==> RefCount(r, req.creds.value) == RefCount(h, req.creds.value) - 1
    ensures forall id | id in h.creds && Some(id) != req.creds :: id in r.creds && r.creds[id] == h.creds[id]
    ensures r.creds.Keys <= h.creds.Keys
    ensures req.creds.None? ==> r == h
    ensures req.creds.Some? && req.creds.value in r.creds ==>
      r.log == h.log && SameExceptCount(r.creds[req.creds.value], h.creds[req.creds.value])
    ensures req.creds.Some? && req.creds.value !in r.creds ==>
      r.log == h.log + Teardown(req.creds.value, h.creds[req.creds.value])
  {
    Unref(h, req.creds)
  }

  /** Creating a request and destroying it leaves the heap exactly as it
      was: the request's reference is balanced. */
  lemma MetadataRequestBalanced(h: Heap, creds: Ptr)
    requires Valid(h) && Points(h, creds, CallCreds)
    ensures var (h', req) := MetadataRequestCreate(h, creds);
      CanUnref(h', req.creds) && MetadataRequestDestroy(h', req) == h
  {
  }
}
