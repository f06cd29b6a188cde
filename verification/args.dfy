/**
 The channel-args adapter for channel and server credentials: the pointer
 vtable (copy = ref, destroy = unref, compare = identity order), wrapping a
 credential as an argument, reading it back, and the first-match scan of an
 argument list.
 */
module ChannelArgs {
  import opened CredState
  import opened Lifecycle

  /** Well-known keys (`GRPC_ARG_CHANNEL_CREDENTIALS`,
      `GRPC_SERVER_CREDENTIALS_ARG`). */
  const ChannelCredentialsKey: string := "grpc.channel_credentials"
  const ServerCredentialsKey: string := "grpc.server_credentials"

  /** The copy/destroy/compare triple bound to a pointer argument. */
  datatype PointerVTable =
    | ChannelCredentialsPointerVTable
    | ServerCredentialsPointerVTable
    | OtherPointerVTable(tag: nat)

  /** `GRPC_ARG_STRING`, `GRPC_ARG_INTEGER` and `GRPC_ARG_POINTER` values. */
  datatype ArgValue =
    | StringValue(s: string)
    | IntegerValue(i: int)
    | PointerValue(p: Ptr, vtable: PointerVTable)

  datatype Arg = Arg(key: string, value: ArgValue)

  /** A possibly-NULL `grpc_channel_args *`. */
  type ArgList = Option<seq<Arg>>

  /** Only channel and server credentials travel through channel args. */
  predicate Adaptable(f: Family)
  {
    f != CallCreds
  }

  function KeyOf(f: Family): string
    requires Adaptable(f)
  {
    if f == ChannelCreds then ChannelCredentialsKey else ServerCredentialsKey
  }

  function PointerVTableOf(f: Family): PointerVTable
    requires Adaptable(f)
  {
    if f == ChannelCreds then ChannelCredentialsPointerVTable else ServerCredentialsPointerVTable
  }

  /** `*_from_arg`: NULL unless the key is the family's key and the value is
      a pointer; then the stored pointer itself, with no new reference. */
  function FromArg(a: Arg, f: Family): (r: Ptr)
    requires Adaptable(f)
    ensures a.key != KeyOf(f) ==> r.None?
    ensures !a.value.PointerValue? ==> r.None?
    ensures a.key == KeyOf(f) && a.value.PointerValue? ==> r == a.value.p
  {
    if a.key != KeyOf(f) then None
    else if !a.value.PointerValue? then None
    else a.value.p
  }

  /** `*_to_arg`: wraps `p` under its family's key with its family's pointer
      vtable. No reference is taken here: the copy function takes one when
      the argument is copied into a list. Reading the argument back with
      the same family yields `p`; the other family's reader ignores it. */
  function ToArg(p: Ptr, f: Family): (a: Arg)
    requires Adaptable(f)
    ensures a.key == KeyOf(f) && a.value.PointerValue? && a.value.p == p
    ensures FromArg(a, f) == p
    ensures forall g | Adaptable(g) && g != f :: FromArg(a, g).None?
    ensures a.value.PointerValue? && a.value.vtable == PointerVTableOf(f)
  {
    Arg(KeyOf(f), PointerValue(p, PointerVTableOf(f)))
  }

  /** The family whose credentials a pointer vtable copies and destroys. */
  function FamilyOf(vt: PointerVTable): Family
    requires !vt.OtherPointerVTable?
  {
    if vt == ChannelCredentialsPointerVTable then ChannelCreds else ServerCreds
  }

  /** The copy entry of a credential pointer vtable: `ref` of the family. */
  function PointerCopy(vt: PointerVTable, h: Heap, p: Ptr): (r: (Heap, Ptr))
    requires !vt.OtherPointerVTable? && Points(h, p, FamilyOf(vt))
    ensures r.1 == p && r.0.log == h.log
    ensures r.0.creds.Keys == h.creds.Keys
    ensures p.Some? ==> RefCount(r.0, p.value) == RefCount(h, p.value) + 1
    ensures p.Some? ==> SameExceptCount(r.0.creds[p.value], h.creds[p.value])
    ensures forall id | id in h.creds && Some(id) != p :: r.0.creds[id] == h.creds[id]
    ensures Points(r.0, p, FamilyOf(vt))
    ensures Valid(h) ==> Valid(r.0)
  {
    Ref(h, p)
  }

  /** The destroy entry of a credential pointer vtable: `unref` of the
      family. */
  function PointerDestroy(vt: PointerVTable, h: Heap, p: Ptr): (r: Heap)
    requires !vt.OtherPointerVTable? && Points(h, p, FamilyOf(vt))
    requires Valid(h) && CanUnref(h, p)
    ensures Valid(r)
    ensures p.Some? ==> RefCount(r, p.value) == RefCount(h, p.value) - 1
    ensures p.None? ==> r == h
    ensures r.creds.Keys <= h.creds.Keys
    ensures forall id | id in h.creds && Some(id) != p :: id in r.creds && r.creds[id] == h.creds[id]
    ensures p.Some? && p.value in r.creds ==>
      r.log == h.log && SameExceptCount(r.creds[p.value], h.creds[p.value])
    ensures p.Some? && p.value !in r.creds ==>
      r.log == h.log + Teardown(p.value, h.creds[p.value])
  {
    Unref(h, p)
  }

  /** The numeric address of a pointer; NULL is address zero. */
  function Address(p: Ptr): nat
  {
    if p.None? then 0 else p.value + 1
  }

  /** The compare entry, `GPR_ICMP(a, b)`: `(a > b) - (a < b)` on
      addresses. */
  function PointerCompare(a: Ptr, b: Ptr): (r: int)
    ensures -1 <= r <= 1
    ensures r == 0 <==> a == b
    ensures r < 0 <==> Address(a) < Address(b)
  {
    (if Address(a) > Address(b) then 1 else 0) - (if Address(a) < Address(b) then 1 else 0)
  }

  /** The compare entry orders pointers by identity: it is antisymmetric
      and transitive, so arguments holding the same credential compare
      equal and no others do. */
  lemma PointerCompareIsOrder(a: Ptr, b: Ptr, c: Ptr)
    ensures PointerCompare(a, b) == -PointerCompare(b, a)
    ensures PointerCompare(a, b) <= 0 && PointerCompare(b, c) <= 0 ==> PointerCompare(a, c) <= 0
  {
  }

  /** Copying a credential argument and then destroying the copy leaves the
      heap exactly as it was. */
  lemma CopyThenDestroyBalanced(vt: PointerVTable, h: Heap, p: Ptr)
    requires !vt.OtherPointerVTable? && Points(h, p, FamilyOf(vt)) && Valid(h)
    ensures var copied := PointerCopy(vt, h, p);
      && copied.1 == p
      && Points(copied.0, p, FamilyOf(vt)) && CanUnref(copied.0, p)
      && PointerDestroy(vt, copied.0, p) == h
  {
  }

  /** Reference definition of the scan: the first non-NULL `FromArg` in
      index order. */
  function FirstCredentials(args: seq<Arg>, f: Family): Ptr
    requires Adaptable(f)
  {
    if |args| == 0 then None
    else if FromArg(args[0], f).Some? then FromArg(args[0], f)
    else FirstCredentials(args[1..], f)
  }

  /** `FirstCredentials` finds something exactly when some entry yields a
      pointer, and then it is the pointer of the earliest such entry. */
  lemma {:induction false} FirstCredentialsIsFirstMatch(args: seq<Arg>, f: Family)
    requires Adaptable(f)
    ensures FirstCredentials(args, f).None? <==>
      forall i | 0 <= i < |args| :: FromArg(args[i], f).None?
    ensures FirstCredentials(args, f).Some? ==>
      exists i | 0 <= i < |args| ::
        && FromArg(args[i], f) == FirstCredentials(args, f)
        && forall j | 0 <= j < i :: FromArg(args[j], f).None?
  {
    if |args| > 0 && FromArg(args[0], f).None? {
      FirstCredentialsIsFirstMatch(args[1..], f);
      assert forall i | 1 <= i < |args| :: args[i] == args[1..][i - 1];
      if FirstCredentials(args, f).Some? {
        var k :| 0 <= k < |args[1..]|
          && FromArg(args[1..][k], f) == FirstCredentials(args, f)
          && forall j | 0 <= j < k :: FromArg(args[1..][j], f).None?;
        assert FromArg(args[k + 1], f) == FirstCredentials(args, f);
        assert forall j | 0 <= j < k + 1 :: FromArg(args[j], f).None? by {
          forall j | 0 <= j < k + 1
            ensures FromArg(args[j], f).None?
          {
            if j > 0 {
              assert args[j] == args[1..][j - 1];
            }
          }
        }
      }
    } else if |args| > 0 {
      assert FromArg(args[0], f) == FirstCredentials(args, f);
    }
  }

  /** `*_find_in_args`: NULL for a NULL list; otherwise the pointer of the
      first entry whose `FromArg` is non-NULL, or NULL when there is none.
      An entry with the right key and a NULL pointer does not stop the
      scan. */
  method FindInArgs(args: ArgList, f: Family) returns (r: Ptr)
    requires Adaptable(f)
    ensures args.None? ==> r.None?
    ensures args.Some? && r.None? ==>
      forall i | 0 <= i < |args.value| :: FromArg(args.value[i], f).None?
    ensures r.Some? ==> args.Some?
    ensures args.Some? && r.Some? ==>
      exists i | 0 <= i < |args.value| ::
        && FromArg(args.value[i], f) == r
        && forall j | 0 <= j < i :: FromArg(args.value[j], f).None?
    ensures args.Some? ==> r == FirstCredentials(args.value, f)
  {
    if args.None? {
      return None;
    }
    var list := args.value;
    FirstCredentialsIsFirstMatch(list, f);
    var i := 0;
    while i < |list|
      invariant 0 <= i <= |list|
      invariant forall j | 0 <= j < i :: FromArg(list[j], f).None?
    {
      var credentials := FromArg(list[i], f);
      if credentials.Some? {
        return credentials;
      }
      i := i + 1;
    }
    return None;
  }
}
