/**
 The auth metadata processor slot of a server credential
 (`grpc_server_credentials_set_auth_metadata_processor`).
 */
module ProcessorSlot {
  import opened CredState
  import opened Lifecycle

  /** Replaces the processor of server credential `p`. NULL credentials are
      left alone; otherwise the old processor's state is destroyed exactly
      when its destroy function and state are both present, and the new
      triple is installed as given. Nothing but the slot changes. */
  function SetAuthMetadataProcessor(h: Heap, p: Ptr, processor: Processor): (r: Heap)
    requires Valid(h) && Points(h, p, ServerCreds)
    ensures Valid(r)
    ensures p.None? ==> r == h
    ensures r.creds.Keys == h.creds.Keys
    ensures forall id | id in h.creds && Some(id) != p :: r.creds[id] == h.creds[id]
    ensures p.Some? ==>
      var previous := h.creds[p.value].processor;
      && r.creds[p.value] == h.creds[p.value].(processor := processor)
      && (Installed(previous) ==>
            r.log == h.log + [ProcessorDestroy(previous.destroy.value, previous.state.value)])
      && (!Installed(previous) ==> r.log == h.log)
  {
    match p
    case None => h
    case Some(id) =>
      var c := h.creds[id];
      Heap(h.creds[id := c.(processor := processor)], h.log + DestroyEvents(c.processor))
  }

  /** Setting a processor twice: the second call destroys the first
      processor's state exactly once (when it was installed) and nothing
      else, and leaves the second processor active. */
  lemma {:induction false} SetTwiceDestroysFirstOnce(h: Heap, id: Id, first: Processor, second: Processor)
    requires Valid(h) && id in h.creds && h.creds[id].family == ServerCreds
    ensures var h1 := SetAuthMetadataProcessor(h, Some(id), first);
      var h2 := SetAuthMetadataProcessor(h1, Some(id), second);
      && h2.creds[id].processor == second
      && |h2.log| == |h1.log| + (if Installed(first) then 1 else 0)
      && h2.log[..|h1.log|] == h1.log
      && (Installed(first) ==>
            var pd := ProcessorDestroy(first.destroy.value, first.state.value);
            Count(h2.log, pd) == Count(h1.log, pd) + 1 && h2.log[|h2.log| - 1] == pd)
  {
    var h1 := SetAuthMetadataProcessor(h, Some(id), first);
    var h2 := SetAuthMetadataProcessor(h1, Some(id), second);
    assert h1.creds[id].processor == first;
    if Installed(first) {
      var pd := ProcessorDestroy(first.destroy.value, first.state.value);
      CountAppend(h1.log, [pd], pd);
      CountSingleton(pd, pd);
    }
  }

  /** The processor in the slot when the last reference goes is the one torn
      down: after replacing `first` by `second` and releasing the
      credential, `first`'s state was destroyed once by the replacement and
      `second`'s once by the release. */
  lemma {:induction false} ReplaceThenRelease(h: Heap, id: Id, second: Processor)
    requires Valid(h) && id in h.creds && h.creds[id].family == ServerCreds
    requires h.creds[id].refcount == 1 && h.creds[id].vtable.Some?
    requires Installed(h.creds[id].processor) && Installed(second)
    requires h.creds[id].processor.state != second.state
    ensures var first := h.creds[id].processor;
      var pd1 := ProcessorDestroy(first.destroy.value, first.state.value);
      var pd2 := ProcessorDestroy(second.destroy.value, second.state.value);
      var h1 := SetAuthMetadataProcessor(h, Some(id), second);
      var h2 := Unref(h1, Some(id));
      && id !in h2.creds
      && Count(h2.log, pd1) == Count(h.log, pd1) + 1
      && Count(h2.log, pd2) == Count(h.log, pd2) + 1
  {
    var first := h.creds[id].processor;
    var pd1 := ProcessorDestroy(first.destroy.value, first.state.value);
    var pd2 := ProcessorDestroy(second.destroy.value, second.state.value);
    var h1 := SetAuthMetadataProcessor(h, Some(id), second);
    var h2 := Unref(h1, Some(id));
    var c1 := h1.creds[id];
    var t := Teardown(id, c1);
    TeardownEvents(id, c1);
    assert h1.log == h.log + [pd1];
    assert h2.log == h1.log + t;
    CountAppend(h.log, [pd1], pd1);
    CountAppend(h.log, [pd1], pd2);
    CountAppend(h1.log, t, pd1);
    CountAppend(h1.log, t, pd2);
    CountSingleton(pd1, pd1);
    CountSingleton(pd1, pd2);
    var d: seq<Event> := if c1.vtable.value.destruct then [Destruct(id)] else [];
    assert t == d + [pd2] + [Free(id)];
    CountAppend(d + [pd2], [Free(id)], pd1);
    CountAppend(d, [pd2], pd1);
    CountSingleton(pd2, pd1);
    CountSingleton(Free(id), pd1);
    if c1.vtable.value.destruct {
      CountSingleton(Destruct(id), pd1);
    }
  }
}
