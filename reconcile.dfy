/**
  * Startup and the polling loop of `main` (main.go:114-184): the applied IPv6
  * snapshot (`initialIPv6Addresses`), the `HostData` handed to the template, and
  * what one tick does to them. Sleeping, logging and the template engine are
  * outside the model: a tick receives the interface table it would read and the
  * result `applyTemplate` would return.
  */
module Reconcile {
  import opened Wrappers
  import opened Compare
  import opened Hostname
  import opened Records
  import opened Addresses

  /** The variables the hosts template sees. */
  datatype HostData = HostData(mainIPv4: string, hostname: string, hostnameExtra: string, ipv6ListTemplate: string)

  /**
    * The loop's state: the snapshot the loop compares against, the current
    * `hostData`, and the `HostData` that `/etc/hosts` was last rendered from.
    */
  datatype LoopState = LoopState(snapshot: seq<string>, data: HostData, written: HostData)

  /** What one tick did; the two failures carry the message the loop logs. */
  datatype TickOutcome = FetchFailed(error: string) | Unchanged | ApplyFailed(error: string) | Updated

  /** The fields fixed at startup agree. */
  predicate SameIdentity(a: HostData, b: HostData)
  {
    a.mainIPv4 == b.mainIPv4 && a.hostname == b.hostname && a.hostnameExtra == b.hostnameExtra
  }

  /** `/etc/hosts` holds the records of the snapshot, rendered with the identity the loop still uses. */
  predicate Consistent(st: LoopState)
  {
    && st.written.ipv6ListTemplate == RecordText(st.snapshot, st.written.hostname, st.written.hostnameExtra)
    && SameIdentity(st.written, st.data)
  }

  /**
    * One iteration of the loop, given the result of `getIPv6Addresses` and of
    * `applyTemplate`. A failed fetch and an equal list change nothing (and the
    * apply result is not consulted); otherwise `hostData` gets the new record
    * text before the apply, and only a successful apply adopts the fetched list
    * as the snapshot.
    */
  function Step(st: LoopState, fetched: Result<seq<string>>, applyResult: Outcome): (r: (LoopState, TickOutcome))
    ensures SameIdentity(r.0.data, st.data)
    ensures Consistent(st) ==> Consistent(r.0)
    ensures r.1.Updated? <==> fetched.Ok? && !SameAddresses(st.snapshot, fetched.value) && applyResult.Pass?
    ensures r.1.Updated? ==> r.0.snapshot == fetched.value && r.0.written == r.0.data
    ensures !r.1.Updated? ==> r.0.snapshot == st.snapshot && r.0.written == st.written
    ensures fetched.Fail? ==> r == (st, FetchFailed(fetched.error))
    ensures fetched.Ok? && SameAddresses(st.snapshot, fetched.value) ==> r == (st, Unchanged)
    ensures fetched.Ok? && !SameAddresses(st.snapshot, fetched.value) && applyResult.Failed? ==>
      && r.1 == ApplyFailed(applyResult.error)
      && r.0.data == st.data.(ipv6ListTemplate := RecordText(fetched.value, st.data.hostname, st.data.hostnameExtra))
  {
    match fetched
    case Fail(e) => (st, FetchFailed(e))
    case Ok(current) =>
      if SameAddresses(st.snapshot, current) then (st, Unchanged)
      else
        var data := st.data.(ipv6ListTemplate := RecordText(current, st.data.hostname, st.data.hostnameExtra));
        match applyResult
        case Failed(e) => (st.(data := data), ApplyFailed(e))
        case Pass => (LoopState(current, data, data), Updated)
  }

  /** A finite run of the loop: the final state and the outcome of every tick. */
  function Ticks(st: LoopState, inputs: seq<(Result<seq<string>>, Outcome)>): (r: (LoopState, seq<TickOutcome>))
    ensures |r.1| == |inputs|
    decreases |inputs|
  {
    if inputs == [] then (st, [])
    else
      var (next, o) := Step(st, inputs[0].0, inputs[0].1);
      var (last, os) := Ticks(next, inputs[1..]);
      (last, [o] + os)
  }

  /** Over any run, `/etc/hosts` stays in step with the snapshot and the startup identity never changes. */
  lemma {:induction false} TicksPreserve(st: LoopState, inputs: seq<(Result<seq<string>>, Outcome)>)
    requires Consistent(st)
    ensures Consistent(Ticks(st, inputs).0)
    ensures SameIdentity(Ticks(st, inputs).0.data, st.data)
    decreases |inputs|
  {
    if inputs != [] {
      TicksPreserve(Step(st, inputs[0].0, inputs[0].1).0, inputs[1..]);
    }
  }

  /** Ticks whose fetched list compares equal to the snapshot leave everything as it is. */
  lemma {:induction false} TicksSettled(st: LoopState, inputs: seq<(Result<seq<string>>, Outcome)>)
    requires forall i | 0 <= i < |inputs| :: inputs[i].0.Ok? && SameAddresses(st.snapshot, inputs[i].0.value)
    ensures Ticks(st, inputs).0 == st
    ensures forall i | 0 <= i < |inputs| :: Ticks(st, inputs).1[i] == Unchanged
    decreases |inputs|
  {
    if inputs != [] {
      assert inputs[0].0.Ok? && SameAddresses(st.snapshot, inputs[0].0.value);
      forall i | 0 <= i < |inputs[1..]|
        ensures inputs[1..][i].0.Ok? && SameAddresses(st.snapshot, inputs[1..][i].0.value)
      {
        assert inputs[1..][i] == inputs[i + 1];
      }
      TicksSettled(st, inputs[1..]);
    }
  }

  /**
    * After a successful update to `current`, later ticks that fetch `current`
    * again, in any order, apply nothing and change nothing.
    */
  lemma {:induction false} UpdateSettles(st: LoopState, current: seq<string>, inputs: seq<(Result<seq<string>>, Outcome)>)
    requires Step(st, Ok(current), Pass).1 == Updated
    requires forall i | 0 <= i < |inputs| :: inputs[i].0.Ok? && multiset(inputs[i].0.value) == multiset(current)
    ensures var next := Step(st, Ok(current), Pass).0;
      && Ticks(next, inputs).0 == next
      && forall i | 0 <= i < |inputs| :: Ticks(next, inputs).1[i] == Unchanged
  {
    var next := Step(st, Ok(current), Pass).0;
    forall i | 0 <= i < |inputs| ensures SameAddresses(next.snapshot, inputs[i].0.value) {
      PermutationInvariant(current, inputs[i].0.value);
    }
    TicksSettled(next, inputs);
  }

  /**
    * After any run, the snapshot is the list fetched by the last tick that
    * updated, or the starting snapshot when no tick updated.
    */
  lemma {:induction false} SnapshotIsLastUpdate(st: LoopState, inputs: seq<(Result<seq<string>>, Outcome)>)
    ensures var (last, os) := Ticks(st, inputs);
      && ((forall i | 0 <= i < |os| :: !os[i].Updated?) ==> last.snapshot == st.snapshot)
      && (forall i | 0 <= i < |os| && os[i].Updated? && (forall j | i < j < |os| :: !os[j].Updated?) ::
            inputs[i].0.Ok? && last.snapshot == inputs[i].0.value)
    decreases |inputs|
  {
    if inputs != [] {
      var (next, o) := Step(st, inputs[0].0, inputs[0].1);
      SnapshotIsLastUpdate(next, inputs[1..]);
      var (last, os) := Ticks(st, inputs);
      var rest := Ticks(next, inputs[1..]).1;
      assert os == [o] + rest;
      forall i | 0 <= i < |os| && os[i].Updated? && (forall j | i < j < |os| :: !os[j].Updated?)
        ensures inputs[i].0.Ok? && last.snapshot == inputs[i].0.value
      {
        if i == 0 {
          assert forall j | 0 <= j < |rest| :: !rest[j].Updated? by {
            forall j | 0 <= j < |rest| ensures !rest[j].Updated? {
              assert rest[j] == os[j + 1];
            }
          }
        } else {
          assert inputs[1..][i - 1] == inputs[i] && rest[i - 1] == os[i];
          forall j | i - 1 < j < |rest| ensures !rest[j].Updated? {
            assert rest[j] == os[j + 1];
          }
        }
      }
      if forall i | 0 <= i < |os| :: !os[i].Updated? {
        assert os[0] == o;
        forall j | 0 <= j < |rest| ensures !rest[j].Updated? {
          assert rest[j] == os[j + 1];
        }
      }
    }
  }

  /**
    * The comparator's blind spot reaches the loop: a snapshot of two addresses and a
    * fetch listing the first one twice compare equal, so the vanished address stays
    * in `/etc/hosts`.
    */
  lemma MissedRemoval(st: LoopState, applyResult: Outcome)
    requires st.snapshot == ["2001:db8::1", "2001:db8::2"]
    ensures var fetched := ["2001:db8::1", "2001:db8::1"];
      && "2001:db8::2" !in fetched
      && Step(st, Ok(fetched), applyResult) == (st, Unchanged)
  {
    DuplicatesBreakSymmetry();
    var fetched := ["2001:db8::1", "2001:db8::1"];
    assert forall a | a in fetched :: a == "2001:db8::1";
  }

  /** The mutable part of `main`: the snapshot and `hostData`, with the name fields fixed at startup. */
  class Reconciler {
    /** `hostname` and `hostnameExtra` of `main`, never reassigned. */
    const hostname: string
    const hostnameExtra: string
    /** `initialIPv6Addresses`: the list last applied to `/etc/hosts`. */
    var snapshot: seq<string>
    var hostData: HostData
    /** The `HostData` that `/etc/hosts` was last rendered from. */
    ghost var written: HostData

    ghost function Current(): LoopState
      reads this
    {
      LoopState(snapshot, hostData, written)
    }

    ghost predicate Valid()
      reads this
    {
      Consistent(Current()) && hostData.hostname == hostname && hostData.hostnameExtra == hostnameExtra
    }

    /** The state right after the initial, successful apply. */
    constructor (initial: seq<string>, data: HostData)
      requires data.ipv6ListTemplate == RecordText(initial, data.hostname, data.hostnameExtra)
      ensures Valid()
      ensures hostname == data.hostname && hostnameExtra == data.hostnameExtra
      ensures Current() == LoopState(initial, data, data)
    {
      hostname := data.hostname;
      hostnameExtra := data.hostnameExtra;
      snapshot := initial;
      hostData := data;
      written := data;
    }

    /** The body of the `for` loop (main.go:155-182), after the sleep. */
    method Tick(table: Result<seq<Interface>>, applyResult: Outcome) returns (outcome: TickOutcome)
      requires Valid()
      modifies this
      ensures Valid()
      ensures (Current(), outcome) == Step(old(Current()), IPv6Addresses(table), applyResult)
    {
      var current := GetIPv6Addresses(table);
      if current.Fail? {
        return FetchFailed(current.error);
      }
      var equal := EqualIPv6Lists(snapshot, current.value);
      if !equal {
        var ipv6ListTemplate := BuildRecordText(current.value, hostname, hostnameExtra);
        hostData := hostData.(ipv6ListTemplate := ipv6ListTemplate);
        if applyResult.Failed? {
          return ApplyFailed(applyResult.error);
        }
        written := hostData;
        snapshot := current.value;
        return Updated;
      }
      return Unchanged;
    }
  }

  /**
    * Startup (main.go:115-149): the main IPv4 address, the hostname pair and the
    * initial IPv6 list, each fatal on error, then the initial apply, also fatal.
    * Each lookup reads the interface table afresh, so the two tables are separate
    * inputs. A failure is the message `log.Fatalf` prints.
    */
  method Start(ipv4Table: Result<seq<Interface>>, osHostname: Result<string>,
               ipv6Table: Result<seq<Interface>>, applyResult: Outcome)
    returns (r: Result<Reconciler>)
    ensures MainIPv4(ipv4Table).Fail? ==>
      r == Fail("Error getting main IPv4 address: " + MainIPv4(ipv4Table).error)
    ensures MainIPv4(ipv4Table).Ok? && osHostname.Fail? ==>
      r == Fail("Error getting hostname information: " + osHostname.error)
    ensures MainIPv4(ipv4Table).Ok? && osHostname.Ok? && IPv6Addresses(ipv6Table).Fail? ==>
      r == Fail("Error getting IPv6 addresses: " + IPv6Addresses(ipv6Table).error)
    ensures MainIPv4(ipv4Table).Ok? && osHostname.Ok? && IPv6Addresses(ipv6Table).Ok? && applyResult.Failed? ==>
      r == Fail("Error applying template: " + applyResult.error)
    ensures r.Ok? <==> MainIPv4(ipv4Table).Ok? && osHostname.Ok? && IPv6Addresses(ipv6Table).Ok? && applyResult.Pass?
    ensures r.Ok? ==>
      var (hostname, hostnameExtra) := HostnameInfo(osHostname).value;
      var initial := IPv6Addresses(ipv6Table).value;
      var data := HostData(MainIPv4(ipv4Table).value, hostname, hostnameExtra,
                           RecordText(initial, hostname, hostnameExtra));
      && fresh(r.value)
      && r.value.Valid()
      && r.value.Current() == LoopState(initial, data, data)
  {
    var hostMainIPv4 := GetMainIPv4(ipv4Table);
    if hostMainIPv4.Fail? {
      return Fail("Error getting main IPv4 address: " + hostMainIPv4.error);
    }
    var info := HostnameInfo(osHostname);
    if info.Fail? {
      return Fail("Error getting hostname information: " + info.error);
    }
    var (hostname, hostnameExtra) := info.value;
    var initial := GetIPv6Addresses(ipv6Table);
    if initial.Fail? {
      return Fail("Error getting IPv6 addresses: " + initial.error);
    }
    var ipv6ListTemplate := BuildRecordText(initial.value, hostname, hostnameExtra);
    var hostData := HostData(hostMainIPv4.value, hostname, hostnameExtra, ipv6ListTemplate);
    if applyResult.Failed? {
      return Fail("Error applying template: " + applyResult.error);
    }
    var reconciler := new Reconciler(initial.value, hostData);
    return Ok(reconciler);
  }
}
