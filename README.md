# template_hosts: IPv6 change detection and `/etc/hosts` reconciliation

This Dafny project models the logic in `main.go` of template_hosts. The program
renders a hosts template whose variables are the host's main IPv4 address, its
hostname, its short hostname and one `"<addr> <hostname> <short>"` record per
IPv6 address. At startup it renders the template once. It then polls every ten
seconds and renders again whenever the list of IPv6 addresses compares unequal
to the list it last applied.

Modules, one per part of `main.go`:

- `Wrappers`: `Result` and `Outcome`. They stand in for Go's `(value, error)` and `error` returns.
- `Strings`: `strings.Split` with a one-character separator, and its inverse `Join`.
- `Compare`: the comparator `equalIPv6Lists`. `SameAddresses` is what it decides. `EqualIPv6Lists` is the map-building loop itself.
- `Hostname`: `getHostnameInfo`. The short name is the first `.`-separated field.
- `Records`: the record text that `main` builds with two identical loops. `RecordText` defines it once and `BuildRecordText` is the loop.
- `Addresses`: `getIPv6Addresses` and `getMainIPv4` over an abstract interface table.
  - Each address is an `*net.IPNet` tagged by what `To4()`/`To16()` return for it, or some other `net.Addr`.
  - `IPv6Addresses` and `MainIPv4` are the specification functions. `GetIPv6Addresses` and `GetMainIPv4` are the nested loops.
- `Reconcile`: startup and the polling loop.
  - `Step` specifies one tick and `Ticks` a finite run.
  - The class `Reconciler` holds the applied snapshot (`initialIPv6Addresses` in the source) and `hostData`. Its `Tick` method is the loop body.
  - A ghost field `written` records the `HostData` that `/etc/hosts` was last rendered from. The class invariant says that this file holds exactly the records of the snapshot.

The model follows `main.go`:

- All interfaces are scanned. No interface is read from a configuration file.
- Loopback and link-local addresses are not excluded.
- Only IPv6 changes are tracked. The IPv4 address and the hostname are fixed at startup.
- The first render happens at startup, and its failure is fatal.
- The comparison is not set equality. It holds when the lengths agree and every fetched address occurs in the snapshot, so with duplicates it is asymmetric. `Compare.DuplicatesBreakSymmetry` and `Reconcile.MissedRemoval` show this.
- The file write is a plain overwrite.

## Model

| member | source | states |
|---|---|---|
| Strings.Split | main.go:80 | never returns an empty list; no field contains the separator; joining the fields with the separator gives back the input |
| Strings.SplitJoin | main.go:80 | round trip the other way: splitting a join of separator-free fields returns those fields |
| Strings.FirstField | main.go:80-82 | the first field is a prefix of the input, holds no separator, and is followed by a separator or by the end of the input |
| Hostname.HostnameInfo | main.go:74-86 | an `os.Hostname` error is passed through; otherwise the first component is the hostname and the short name is the text before its first `.` (a prefix, with no `.`, followed by `.` or the end), equal to the hostname when it has no `.` |
| Hostname.ShortNameUnique | main.go:80-85 | those conditions determine the short name: any string meeting them is the one returned |
| Compare.SameAddresses | main.go:187-204 | the reference definition of the comparison: true exactly when the lengths agree and the elements of `list2` form a subset of those of `list1`; a list always compares equal to itself |
| Compare.Lookup | main.go:198 | Go's read of a `map[string]bool`: a missing key reads as false, a present key reads as its value |
| Compare.EqualIPv6Lists | main.go:187-204 | returns true exactly when the lengths agree and every element of `list2` occurs in `list1`; false whenever the lengths differ |
| Compare.PermutationInvariant | main.go:192-201 | lists that are permutations of each other compare equal both ways (in particular the comparison is reflexive) |
| Compare.SetEqualityWhenDistinct | main.go:187-204 | for duplicate-free lists the comparison holds exactly when both lists have the same set of elements |
| Compare.SymmetricWhenDistinct | main.go:192-201 | for duplicate-free lists the comparison is symmetric |
| Compare.DuplicatesBreakSymmetry | main.go:192-201 | `["a","b"]` against `["a","a"]` compares equal but the reverse does not, although the element sets differ |
| Records.RecordText | main.go:133-136 | the record text is empty exactly when the address list is |
| Records.RecordTextConcat | main.go:167-170 | the text of a concatenation of address lists is the concatenation of their texts, so records come out in list order |
| Records.RecordTextLines | main.go:133-136 | with no newline in the inputs, splitting the text at newlines gives one `"<addr> <hostname> <short>"` record per address in order, then an empty field |
| Records.BuildRecordText | main.go:167-170 | the `+=` loop produces exactly the record text of the address list |
| Addresses.FirstFailure | main.go:33-37 | the index of the first interface whose `Addrs()` fails: all earlier ones succeed and that one fails (or it is the table length) |
| Addresses.OfKindConcat | main.go:38-46 | filtering distributes over concatenation, keeping order |
| Addresses.OfKindMembers | main.go:38-46 | an address is kept exactly when an IP network entry of that family prints as it |
| Addresses.OfKindFirst | main.go:63-67 | nothing is kept exactly when no entry has the family; otherwise the first kept address comes from the first such entry |
| Addresses.IPv6Addresses | main.go:26-49 | the reference result of `getIPv6Addresses`: a table error passes through; it succeeds exactly when every interface's `Addrs()` succeeds; otherwise it returns the error of the first interface that fails |
| Addresses.GetIPv6Addresses | main.go:26-49 | returns the table error, else the first interface's `Addrs()` error, else every non-IPv4 IP address of every interface in enumeration order |
| Addresses.IPv6AddressesMembers | main.go:33-47 | on success an address is listed exactly when some interface reports it as a non-IPv4 IP network; loopback is not excluded |
| Addresses.IPv6AddressesOrder | main.go:33-47 | on success the list for two tables enumerated one after the other is the concatenation of their lists |
| Addresses.MainIPv4 | main.go:52-71 | the reference result of `getMainIPv4`: a table error passes through; a returned address is an IPv4 entry of some readable interface, and every interface before it is readable |
| Addresses.FoundBeforeFailure | main.go:58-67 | an IPv4 address kept from the interfaces before the first unreadable one is listed by one of them, and all interfaces before that one are readable |
| Addresses.MainIPv4Found | main.go:58-66 | when the interfaces before `i` hold no IPv4 entry and entry `j` of interface `i` is the first IPv4 there, that address is returned, whatever later interfaces hold or fail with |
| Addresses.MainIPv4AllReadable | main.go:58-70 | when every interface is readable, the result is the first IPv4 entry of all of them, or "No main IPv4 address found" when there is none |
| Addresses.GetMainIPv4 | main.go:52-71 | returns the table error, else the first IPv4 address met before any unreadable interface, else that interface's error, else "No main IPv4 address found" |
| Addresses.MainIPv4IsFirst | main.go:58-70 | when every interface is readable the result is either an address or "not found"; it is "not found" exactly when no entry is IPv4, and otherwise it is the first IPv4 entry in enumeration order |
| Reconcile.Step | main.go:155-182 | a failed fetch or an equal list leaves the whole state unchanged and ignores the apply result; the snapshot changes only on a successful apply, and then to the fetched list; a failed apply reports its error and leaves `hostData` already carrying the new record text; the fixed `hostData` fields never change; `/etc/hosts` stays in step with the snapshot |
| Reconcile.Ticks | main.go:152-183 | a run of the loop yields one outcome per tick |
| Reconcile.TicksPreserve | main.go:138-143 | over any run, `/etc/hosts` holds the records of the snapshot and `MainIPv4`, `Hostname`, `HostnameExtra` keep their startup values |
| Reconcile.TicksSettled | main.go:163 | ticks whose fetched list compares equal to the snapshot change nothing and apply nothing |
| Reconcile.UpdateSettles | main.go:174-181 | after a successful update, fetching the same addresses again in any order applies nothing and changes nothing |
| Reconcile.SnapshotIsLastUpdate | main.go:174-181 | after any run the snapshot is the list fetched by the last updating tick, or the starting snapshot when none updated |
| Reconcile.MissedRemoval | main.go:163 | a snapshot `[x, y]` and a fetch `[x, x]` compare equal, so the tick changes nothing although `y` has disappeared |
| Reconcile.Reconciler.constructor | main.go:138-143 | the state after the initial apply: the snapshot is the initial list and `hostData` carries its record text |
| Reconcile.Reconciler.Tick | main.go:155-182 | one loop iteration: fetches through `GetIPv6Addresses`, compares through `EqualIPv6Lists`, and changes the snapshot and `hostData` exactly as `Step` says, keeping the invariant |
| Reconcile.Start | main.go:114-149 | each of the main IPv4 lookup, the hostname lookup, the IPv6 lookup and the initial apply is fatal on failure with the message `log.Fatalf` prints; on success the loop starts in a consistent state built from their results |

## Left out

- Interface enumeration (`net.Interfaces`, `iface.Addrs`) is an input. IP parsing (`To4`, `To16`, `String`) is replaced by a family tag and the printed text of each address.
- `os.Hostname` is an input to `HostnameInfo` and `Start`.
- `applyTemplate` is an injected `Outcome`. This covers reading `/etc/hosts_template.j2`, the Jinja2 rendering and writing `/etc/hosts`. Its error wrapping is not modelled. Its own failure text is what the model logs.
- A failed write may leave a truncated `/etc/hosts`. The model treats every failed apply as leaving the file as it was.
- `time.Sleep` and the endless `for` loop are left out. `Ticks` models any finite prefix of the loop.
- `log.Printf` is left out. The tick outcome carries the logged error instead.
- `log.Fatalf` and process exit are modelled as `Start` returning `Fail` with the fatal message.
