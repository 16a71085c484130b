/**
  * `getIPv6Addresses` and `getMainIPv4` (main.go) over an abstract interface table.
  * Each bound address is either an `*net.IPNet` or some other `net.Addr`; an IPNet's
  * IP is classified by what `To4()` and `To16()` return for it.
  */
module Addresses {
  import opened Wrappers

  /**
    * How Go's `net.IP` classifies an address: `V4` when `To4()` is non-nil (this
    * includes IPv4-mapped IPv6 addresses), `V6` when only `To16()` is non-nil, and
    * `Invalid` when both are nil (an IP slice of any other length).
    */
  datatype IPKind = V4 | V6 | Invalid

  /** `ip.To4() != nil` */
  predicate HasTo4(kind: IPKind) { kind == V4 }

  /** `ip.To16() != nil` */
  predicate HasTo16(kind: IPKind) { kind != Invalid }

  /** An entry of `iface.Addrs()`; `text` is what `ip.String()` prints. */
  datatype IfaceAddr = IPNet(kind: IPKind, text: string) | OtherAddr

  /** One entry of `net.Interfaces()`, holding the result `iface.Addrs()` gives for it. */
  datatype Interface = Interface(addrs: Result<seq<IfaceAddr>>)

  /** The message `getMainIPv4` returns when no interface has an IPv4 address. */
  const NoMainIPv4: string := "No main IPv4 address found"

  /** The texts of the IPNet entries of the given kind, in order. */
  function OfKind(addrs: seq<IfaceAddr>, kind: IPKind): seq<string>
  {
    if addrs == [] then []
    else (if addrs[0].IPNet? && addrs[0].kind == kind then [addrs[0].text] else []) + OfKind(addrs[1..], kind)
  }

  /** The index of the first interface whose address list could not be read, or the table's length. */
  function FirstFailure(ifaces: seq<Interface>): (k: nat)
    ensures k <= |ifaces|
    ensures forall j | 0 <= j < k :: ifaces[j].addrs.Ok?
    ensures k < |ifaces| ==> ifaces[k].addrs.Fail?
  {
    if ifaces == [] || ifaces[0].addrs.Fail? then 0 else 1 + FirstFailure(ifaces[1..])
  }

  /** All addresses of the interfaces, in enumeration order. */
  function Flatten(ifaces: seq<Interface>): seq<IfaceAddr>
    requires forall j | 0 <= j < |ifaces| :: ifaces[j].addrs.Ok?
  {
    if ifaces == [] then [] else Flatten(ifaces[..|ifaces| - 1]) + ifaces[|ifaces| - 1].addrs.value
  }

  /**
    * What `getIPv6Addresses` returns: the table's error, else the error of the first
    * interface whose addresses cannot be read, else every non-IPv4 IP address of
    * every interface in enumeration order. Loopback is not excluded.
    */
  function IPv6Addresses(table: Result<seq<Interface>>): (r: Result<seq<string>>)
    ensures table.Fail? ==> r == Fail(table.error)
    ensures r.Ok? <==> table.Ok? && forall j | 0 <= j < |table.value| :: table.value[j].addrs.Ok?
    ensures table.Ok? && r.Fail? ==>
      exists k | 0 <= k < |table.value| ::
        table.value[k].addrs == Fail(r.error) && forall j | 0 <= j < k :: table.value[j].addrs.Ok?
  {
    match table
    case Fail(e) => Fail(e)
    case Ok(ifaces) =>
      var k := FirstFailure(ifaces);
      if k < |ifaces| then Fail(ifaces[k].addrs.error) else Ok(OfKind(Flatten(ifaces), V6))
  }

  /**
    * What `getMainIPv4` returns: the table's error; else the first IPv4 address
    * among the interfaces before the first unreadable one; else that interface's
    * error; else the "not found" error.
    */
  function MainIPv4(table: Result<seq<Interface>>): (r: Result<string>)
    ensures table.Fail? ==> r == Fail(table.error)
    ensures r.Ok? ==> table.Ok?
    ensures table.Ok? && r.Ok? ==>
      exists i | 0 <= i < |table.value| ::
        && table.value[i].addrs.Ok?
        && IPNet(V4, r.value) in table.value[i].addrs.value
        && forall j | 0 <= j < i :: table.value[j].addrs.Ok?
  {
    match table
    case Fail(e) => Fail(e)
    case Ok(ifaces) =>
      var k := FirstFailure(ifaces);
      var found := OfKind(Flatten(ifaces[..k]), V4);
      if found != [] then
        FoundBeforeFailure(ifaces, k, found[0]);
        Ok(found[0])
      else if k < |ifaces| then Fail(ifaces[k].addrs.error)
      else Fail(NoMainIPv4)
  }

  /** An IPv4 address kept from the interfaces before the first unreadable one is listed by one of them. */
  lemma FoundBeforeFailure(ifaces: seq<Interface>, k: nat, x: string)
    requires k == FirstFailure(ifaces)
    requires x in OfKind(Flatten(ifaces[..k]), V4)
    ensures exists i | 0 <= i < |ifaces| ::
      && ifaces[i].addrs.Ok?
      && IPNet(V4, x) in ifaces[i].addrs.value
      && forall j | 0 <= j < i :: ifaces[j].addrs.Ok?
  {
    var pre := ifaces[..k];
    OfKindMembers(Flatten(pre), V4, x);
    FlattenMembers(pre, IPNet(V4, x));
    var i :| 0 <= i < |pre| && IPNet(V4, x) in pre[i].addrs.value;
    assert pre[i] == ifaces[i];
  }

  /** Filtering distributes over concatenation, so enumeration order is kept. */
  lemma {:induction false} OfKindConcat(a: seq<IfaceAddr>, b: seq<IfaceAddr>, kind: IPKind)
    ensures OfKind(a + b, kind) == OfKind(a, kind) + OfKind(b, kind)
  {
    if a == [] {
      assert a + b == b;
    } else {
      assert (a + b)[1..] == a[1..] + b;
      OfKindConcat(a[1..], b, kind);
    }
  }

  /** An address is kept exactly when an IPNet entry of that kind prints as it. */
  lemma {:induction false} OfKindMembers(addrs: seq<IfaceAddr>, kind: IPKind, x: string)
    ensures x in OfKind(addrs, kind) <==> IPNet(kind, x) in addrs
  {
    if addrs != [] {
      OfKindMembers(addrs[1..], kind, x);
      assert addrs == [addrs[0]] + addrs[1..];
    }
  }

  /** The first kept address comes from the first entry of that kind; none exists when nothing is kept. */
  lemma {:induction false} OfKindFirst(addrs: seq<IfaceAddr>, kind: IPKind)
    ensures OfKind(addrs, kind) == [] <==> forall n | 0 <= n < |addrs| :: !(addrs[n].IPNet? && addrs[n].kind == kind)
    ensures OfKind(addrs, kind) != [] ==>
      exists n | 0 <= n < |addrs| ::
        && addrs[n] == IPNet(kind, OfKind(addrs, kind)[0])
        && forall m | 0 <= m < n :: !(addrs[m].IPNet? && addrs[m].kind == kind)
  {
    if addrs != [] {
      OfKindFirst(addrs[1..], kind);
      if !(addrs[0].IPNet? && addrs[0].kind == kind) {
        if OfKind(addrs, kind) != [] {
          var n :| 0 <= n < |addrs[1..]| && addrs[1..][n] == IPNet(kind, OfKind(addrs[1..], kind)[0])
            && forall m | 0 <= m < n :: !(addrs[1..][m].IPNet? && addrs[1..][m].kind == kind);
          assert addrs[n + 1] == IPNet(kind, OfKind(addrs, kind)[0]);
          forall m | 0 <= m < n + 1 ensures !(addrs[m].IPNet? && addrs[m].kind == kind) {
            if m > 0 { assert addrs[m] == addrs[1..][m - 1]; }
          }
        }
        forall n | 0 < n < |addrs| ensures addrs[n] == addrs[1..][n - 1] { }
      } else {
        assert addrs[0] == IPNet(kind, OfKind(addrs, kind)[0]);
      }
    }
  }

  /** Flattening distributes over concatenation of interface lists. */
  lemma {:induction false} FlattenConcat(a: seq<Interface>, b: seq<Interface>)
    requires forall j | 0 <= j < |a| :: a[j].addrs.Ok?
    requires forall j | 0 <= j < |b| :: b[j].addrs.Ok?
    ensures Flatten(a + b) == Flatten(a) + Flatten(b)
    decreases |b|
  {
    if b == [] {
      assert a + b == a;
    } else {
      var last := |b| - 1;
      assert (a + b)[..|a + b| - 1] == a + b[..last];
      FlattenConcat(a, b[..last]);
    }
  }

  /** An address is in the flattened list exactly when some interface lists it. */
  lemma {:induction false} FlattenMembers(ifaces: seq<Interface>, a: IfaceAddr)
    requires forall j | 0 <= j < |ifaces| :: ifaces[j].addrs.Ok?
    ensures a in Flatten(ifaces) <==> exists i | 0 <= i < |ifaces| :: a in ifaces[i].addrs.value
  {
    if ifaces != [] {
      var init := ifaces[..|ifaces| - 1];
      FlattenMembers(init, a);
      if a in Flatten(init) {
        var i :| 0 <= i < |init| && a in init[i].addrs.value;
        assert a in ifaces[i].addrs.value;
      }
      if exists i | 0 <= i < |ifaces| :: a in ifaces[i].addrs.value {
        var i :| 0 <= i < |ifaces| && a in ifaces[i].addrs.value;
        if i < |init| {
          assert a in init[i].addrs.value;
        }
      }
    }
  }

  /**
    * On success, the IPv6 list holds exactly the addresses some interface reports as a
    * non-IPv4 IP network, and it lists the addresses of each interface after those of
    * the interfaces enumerated before it.
    */
  lemma IPv6AddressesMembers(ifaces: seq<Interface>, x: string)
    requires IPv6Addresses(Ok(ifaces)).Ok?
    ensures forall j | 0 <= j < |ifaces| :: ifaces[j].addrs.Ok?
    ensures x in IPv6Addresses(Ok(ifaces)).value <==>
      exists i | 0 <= i < |ifaces| :: IPNet(V6, x) in ifaces[i].addrs.value
  {
    OfKindMembers(Flatten(ifaces), V6, x);
    FlattenMembers(ifaces, IPNet(V6, x));
  }

  /** On success, the IPv6 list of two tables enumerated one after the other is the concatenation. */
  lemma IPv6AddressesOrder(a: seq<Interface>, b: seq<Interface>)
    requires IPv6Addresses(Ok(a)).Ok? && IPv6Addresses(Ok(b)).Ok?
    ensures IPv6Addresses(Ok(a + b)) == Ok(IPv6Addresses(Ok(a)).value + IPv6Addresses(Ok(b)).value)
  {
    FlattenConcat(a, b);
    OfKindConcat(Flatten(a), Flatten(b), V6);
    assert FirstFailure(a + b) == |a + b| by {
      forall j | 0 <= j < |a + b| ensures (a + b)[j].addrs.Ok? {
        if j >= |a| { assert (a + b)[j] == b[j - |a|]; }
      }
    }
  }

  /** When every interface can be read, the main IPv4 address is the first IPv4 entry of all of them. */
  lemma MainIPv4AllReadable(ifaces: seq<Interface>)
    requires forall j | 0 <= j < |ifaces| :: ifaces[j].addrs.Ok?
    ensures var found := OfKind(Flatten(ifaces), V4);
      MainIPv4(Ok(ifaces)) == if found != [] then Ok(found[0]) else Fail(NoMainIPv4)
  {
    assert FirstFailure(ifaces) == |ifaces|;
    assert ifaces[..|ifaces|] == ifaces;
  }

  /** When every interface can be read, the main IPv4 address is the first IPv4 entry, else "not found". */
  lemma MainIPv4IsFirst(ifaces: seq<Interface>)
    requires forall j | 0 <= j < |ifaces| :: ifaces[j].addrs.Ok?
    ensures var all := Flatten(ifaces);
      && (MainIPv4(Ok(ifaces)).Ok? || MainIPv4(Ok(ifaces)) == Fail(NoMainIPv4))
      && (MainIPv4(Ok(ifaces)) == Fail(NoMainIPv4) <==> forall n | 0 <= n < |all| :: !(all[n].IPNet? && all[n].kind == V4))
      && (MainIPv4(Ok(ifaces)).Ok? ==>
            exists n | 0 <= n < |all| ::
              && all[n] == IPNet(V4, MainIPv4(Ok(ifaces)).value)
              && forall m | 0 <= m < n :: !(all[m].IPNet? && all[m].kind == V4))
  {
    var all := Flatten(ifaces);
    MainIPv4AllReadable(ifaces);
    OfKindFirst(all, V4);
  }

  /** The `for` loops of getIPv6Addresses, with the early error returns. */
  method GetIPv6Addresses(table: Result<seq<Interface>>) returns (r: Result<seq<string>>)
    ensures r == IPv6Addresses(table)
  {
    if table.Fail? {
      return Fail(table.error);
    }
    var ifaces := table.value;
    var ipv6Addresses: seq<string> := [];
    for i := 0 to |ifaces|
      invariant forall j | 0 <= j < i :: ifaces[j].addrs.Ok?
      invariant ipv6Addresses == OfKind(Flatten(ifaces[..i]), V6)
    {
      var iface := ifaces[i];
      if iface.addrs.Fail? {
        return Fail(iface.addrs.error);
      }
      var addrs := iface.addrs.value;
      for j := 0 to |addrs|
        invariant ipv6Addresses == OfKind(Flatten(ifaces[..i]), V6) + OfKind(addrs[..j], V6)
      {
        OfKindConcat(addrs[..j], [addrs[j]], V6);
        assert addrs[..j + 1] == addrs[..j] + [addrs[j]];
        var addr := addrs[j];
        if !addr.IPNet? || HasTo4(addr.kind) {
          continue;
        }
        if HasTo16(addr.kind) {
          ipv6Addresses := ipv6Addresses + [addr.text];
        }
      }
      assert addrs[..|addrs|] == addrs;
      assert ifaces[..i + 1][..i] == ifaces[..i];
      OfKindConcat(Flatten(ifaces[..i]), addrs, V6);
    }
    assert ifaces[..|ifaces|] == ifaces;
    return Ok(ipv6Addresses);
  }

  /** An entry of the wanted kind preceded by none is the first one kept. */
  lemma OfKindHead(addrs: seq<IfaceAddr>, j: nat, kind: IPKind)
    requires j < |addrs| && addrs[j].IPNet? && addrs[j].kind == kind
    requires OfKind(addrs[..j], kind) == []
    ensures OfKind(addrs, kind) != [] && OfKind(addrs, kind)[0] == addrs[j].text
  {
    assert addrs == addrs[..j] + ([addrs[j]] + addrs[j + 1..]);
    OfKindConcat(addrs[..j], [addrs[j]] + addrs[j + 1..], kind);
    OfKindConcat([addrs[j]], addrs[j + 1..], kind);
  }

  /** The addresses of the first `k` interfaces, split around interface `i`. */
  lemma FlattenAround(ifaces: seq<Interface>, i: nat, k: nat)
    requires i < k <= |ifaces|
    requires forall j | 0 <= j < k :: ifaces[j].addrs.Ok?
    ensures Flatten(ifaces[..k]) == Flatten(ifaces[..i]) + (ifaces[i].addrs.value + Flatten(ifaces[i + 1..k]))
  {
    assert ifaces[..k] == ifaces[..i + 1] + ifaces[i + 1..k];
    FlattenConcat(ifaces[..i + 1], ifaces[i + 1..k]);
    assert ifaces[..i + 1][..i] == ifaces[..i];
  }

  /** Interfaces before `i` scanned clean, then entry `j` of interface `i` is the first IPv4 there. */
  lemma MainIPv4Found(ifaces: seq<Interface>, i: nat, j: nat)
    requires i < |ifaces| && ifaces[i].addrs.Ok? && j < |ifaces[i].addrs.value|
    requires forall k | 0 <= k < i :: ifaces[k].addrs.Ok?
    requires OfKind(Flatten(ifaces[..i]), V4) == []
    requires OfKind(ifaces[i].addrs.value[..j], V4) == []
    requires ifaces[i].addrs.value[j].IPNet? && ifaces[i].addrs.value[j].kind == V4
    ensures MainIPv4(Ok(ifaces)) == Ok(ifaces[i].addrs.value[j].text)
  {
    var k := FirstFailure(ifaces);
    var addrs := ifaces[i].addrs.value;
    assert i < k;
    FlattenAround(ifaces, i, k);
    var rest := Flatten(ifaces[i + 1..k]);
    OfKindConcat(Flatten(ifaces[..i]), addrs + rest, V4);
    OfKindConcat(addrs, rest, V4);
    OfKindHead(addrs, j, V4);
  }

  /** The `for` loops of getMainIPv4: the first IPv4 address wins. */
  method GetMainIPv4(table: Result<seq<Interface>>) returns (r: Result<string>)
    ensures r == MainIPv4(table)
  {
    if table.Fail? {
      return Fail(table.error);
    }
    var ifaces := table.value;
    for i := 0 to |ifaces|
      invariant forall j | 0 <= j < i :: ifaces[j].addrs.Ok?
      invariant OfKind(Flatten(ifaces[..i]), V4) == []
    {
      var iface := ifaces[i];
      if iface.addrs.Fail? {
        return Fail(iface.addrs.error);
      }
      var addrs := iface.addrs.value;
      for j := 0 to |addrs|
        invariant OfKind(addrs[..j], V4) == []
      {
        var addr := addrs[j];
        if addr.IPNet? && HasTo4(addr.kind) {
          MainIPv4Found(ifaces, i, j);
          return Ok(addr.text);
        }
        OfKindConcat(addrs[..j], [addr], V4);
        assert addrs[..j + 1] == addrs[..j] + [addr];
      }
      assert addrs[..|addrs|] == addrs;
      assert ifaces[..i + 1][..i] == ifaces[..i];
      OfKindConcat(Flatten(ifaces[..i]), addrs, V4);
    }
    assert ifaces[..|ifaces|] == ifaces;
    return Fail(NoMainIPv4);
  }
}
