# NodeAddr: a verified model

`NodeAddr` is a value type from SubstratumNode's `sub_lib`. It describes "this host, reachable on
these ports": one IP address and a list of port numbers. The constructor `new` normalises the
list, so the ports are in ascending order and no port appears twice. Conversion from a socket
endpoint and cloning both go through `new`. The derived deserialiser does not: it fills the
fields as decoded (see "Findings"). On top of that the type offers:

- conversion from a single socket endpoint;
- expansion into one socket endpoint per port;
- a clone that normalises again;
- an equality that compares the address and the normalised lists.

The project has three modules:

- `Net` (`net.dfy`) stands in for the standard library's `IpAddr`, `SocketAddr` and `u16`. A
  `Port` is an integer from 0 to 65535 inclusive. An IP address is a datatype that the model only copies
  and compares; a version 6 address holds exactly eight 16-bit groups. A socket endpoint is an `(ip, port)` pair with projections `.ip` and `.port`.
- `PortList` (`port_list.dfy`) models the normalisation. The vector is copied into an `array`.
  `SortInPlace` sorts it in place, and its contract says "sorted and a permutation".
  `InsertLast`, one step of that sort, leaves the cells after the step untouched.
  `DedupInPlace` removes adjacent repeats in place, as `Vec::dedup` does, and returns the new
  length. Its contract ties the kept prefix to the function `DedupAdjacent` of the old contents;
  `DedupAdjacentProperties` proves what that function keeps.
  Separately, `Normalize` is a reference definition of the normal form: it inserts the values one
  by one into a strictly increasing list. The key lemma `StrictlyIncreasingUnique` says that a
  strictly increasing list is determined by its set of values. From it follow:
  - sort-then-dedup equals `Normalize`;
  - normalisation is idempotent;
  - two lists normalise alike exactly when they hold the same values.
- `NodeAddrs` (`node_addr.dfy`) holds the type itself. `RawNodeAddr(ipAddr, ports)` is the struct
  with any field values. `NodeAddr` is its subset type with a strictly increasing port list: the
  values that `new`, `from` and `clone` produce. `Eq` and `Clone` take any `RawNodeAddr`, as the
  source's do, and state their set-based meaning for normalised values. The accessors
  `ip_addr()` and `ports()` are the projections `.ipAddr` and `.ports`. Values in the model are
  immutable, so returning a copy and returning the field are the same thing.
  - `New` is the imperative constructor: copy, sort, dedup.
  - `NodeAddrOf` is the function that `New` is proved to compute. `FromSocketAddr` uses it, and
    so do the lemmas, because functions cannot call methods.
  - `Clone` calls `New`, as the source does.

## Model

| member | source | states |
|---|---|---|
| `NodeAddrs.New` | sub_lib/src/node_addr.rs:15-24 | the result keeps the given IP; its ports are strictly increasing; a port is in the result exactly when it is in the input; the result is `NodeAddrOf(ip, ports)` |
| `NodeAddrs.NodeAddrOf` | sub_lib/src/node_addr.rs:15-24 | construction keeps the IP and exactly the set of input port values (strictly increasing by the type) |
| `PortList.Normalize` | sub_lib/src/node_addr.rs:16-18 | the normal form of a port list is strictly increasing and holds exactly the input's values |
| `PortList.SortInPlace` | sub_lib/src/node_addr.rs:17 | sorting in place leaves the array sorted ascending and a permutation of its old contents |
| `PortList.InsertLast` | sub_lib/src/node_addr.rs:17 | one insertion step: a sorted prefix of length i becomes a sorted prefix of length i + 1; the cells after i are unchanged; the array is a permutation of its old contents |
| `PortList.DedupAdjacent` | sub_lib/src/node_addr.rs:18 | removing adjacent repeats never lengthens the list and keeps its last value |
| `PortList.DedupAdjacentProperties` | sub_lib/src/node_addr.rs:18 | removing adjacent repeats keeps the set of values, and turns a sorted list into a strictly increasing one |
| `PortList.DedupInPlace` | sub_lib/src/node_addr.rs:18 | in-place dedup leaves `DedupAdjacent` of the old contents in the first `len` cells |
| `PortList.SortThenDedupIsNormal` | sub_lib/src/node_addr.rs:16-18 | dedup of any sorted permutation of the input is the normal form of the input |
| `PortList.StrictlyIncreasingUnique` | sub_lib/src/node_addr.rs:15-18 | two strictly increasing lists with the same set of values are equal |
| `PortList.SameSetIffEqual` | sub_lib/src/node_addr.rs:61-65 | two strictly increasing lists are equal if and only if they hold the same set of values |
| `PortList.NormalizeOfNormal` | sub_lib/src/node_addr.rs:49-53 | normalising an already normal list returns it unchanged |
| `PortList.NormalizeIdempotent` | sub_lib/src/node_addr.rs:49-53 | normalising twice is the same as normalising once |
| `PortList.NormalizeEqualIff` | sub_lib/src/node_addr.rs:105-118 | two port lists have the same normal form if and only if they hold the same set of values |
| `NodeAddrs.FromSocketAddr` | sub_lib/src/node_addr.rs:35-39 | converting endpoint `(ip, port)` gives IP `ip` and port list `[port]` |
| `NodeAddrs.IntoSocketAddrs` | sub_lib/src/node_addr.rs:41-47 | the expansion has one endpoint per port; element i is `(ipAddr, ports[i])`; ports rise strictly along the output |
| `NodeAddrs.FromThenInto` | sub_lib/src/node_addr.rs:35-47 | converting from one endpoint and expanding gives back exactly that endpoint (an endpoint here is an address and a port only) |
| `NodeAddrs.IntoThenCollect` | sub_lib/src/node_addr.rs:41-47 | every expanded endpoint carries the node's IP; constructing from that IP and the endpoints' ports rebuilds the same node address |
| `NodeAddrs.RebuildIsIdentity` | sub_lib/src/node_addr.rs:49-53 | constructing from a node address's own IP and ports yields that node address |
| `NodeAddrs.Clone` | sub_lib/src/node_addr.rs:49-53 | the clone is what construction from the record's IP and ports gives: same IP, same port set; when the record is normalised, the clone is identical to it and equal under `Eq` |
| `NodeAddrs.Eq` | sub_lib/src/node_addr.rs:61-65 | equality holds exactly when the two records are identical; on normalised records, exactly when the IPs are equal and the port sets are equal |
| `NodeAddrs.EqualIffSamePortSet` | sub_lib/src/node_addr.rs:61-65 | two constructions are equal if and only if their IPs are equal and their input port lists hold the same set of values, whatever the order or repeats |
| `NodeAddrs.EqReflexive` | sub_lib/src/node_addr.rs:61-65 | every node address equals itself |
| `NodeAddrs.CreateFromSocketAddrExample` | sub_lib/src/node_addr.rs:73-78 | from `9.8.7.6:543`: IP `9.8.7.6`, ports `[543]` |
| `NodeAddrs.ConvertToSocketAddrsExample` | sub_lib/src/node_addr.rs:81-90 | `2.5.8.1` with `[9, 6]` expands to `[2.5.8.1:6, 2.5.8.1:9]` in that order |
| `NodeAddrs.NormalizeNineSix` | sub_lib/src/node_addr.rs:93-102 | the list `[9, 6]` normalises to `[6, 9]` |
| `NodeAddrs.CloneExample` | sub_lib/src/node_addr.rs:93-102 | cloning `2.5.8.1` with `[9, 6]` gives IP `2.5.8.1` and ports `[6, 9]` |
| `NodeAddrs.DeserializedCloneDiffers` | sub_lib/src/node_addr.rs:49-53 | a record filled as decoded with ports `[9, 6]` has a clone with ports `[6, 9]` that is not equal to it |
| `NodeAddrs.Deserialize` | sub_lib/src/node_addr.rs:8-12 | a deserialiser that goes through construction keeps the decoded IP and port set and yields a normalised value |
| `NodeAddrs.DeserializeKeepsCloneEqual` | sub_lib/src/node_addr.rs:8-12 | with that deserialiser, decoding a node address's own fields gives it back, and every decoded value is equal to its clone |
| `NodeAddrs.CompareExample` | sub_lib/src/node_addr.rs:104-119 | for `1.2.3.4`: `[5, 6]` equals itself, `[6, 5]` and `[5, 6, 5]`; it differs from `1.2.3.5` with `[5, 6]` and from `1.2.3.4` with `[9]` |

## Left out

- The derived `Hash` and `Serialize` implementations and the wire format of `Deserialize` (sub_lib/src/node_addr.rs:8). They are generated by macros for foreign traits, and the file states nothing about them beyond the derive. What the derived `Deserialize` builds, a struct filled field by field without `new`, is modelled as a `RawNodeAddr` (see "Findings").
- NodeAddrs.IntoSocketAddrs, NodeAddrs.IntoThenCollect and the other members that take a `NodeAddr` assume it came from `new`, `from` or `clone`. A record from the derived deserialiser is outside that type. Only `Eq` and `Clone` are stated for any record.
- NodeAddrs.FromThenInto: holds for version 4 endpoints, and for version 6 endpoints whose flow info and scope id are zero. `from` keeps only the address and the port (sub_lib/src/node_addr.rs:37), and `SocketAddr::new` sets both v6 fields to zero (line 44). The modelled `SocketAddr` has no such fields.
- The `Debug` rendering `"<ip>:[p1, p2]"` (sub_lib/src/node_addr.rs:55-59). It depends on the standard library's text formatting of IP addresses. The same goes for parsing addresses from text in the tests: the examples write the addresses as `V4(…)` values instead.
- The internal structure of `IpAddr` and `SocketAddr`: v4/v6 details, scope ids and flow info. Addresses are values that are compared only for equality.
- Rust ownership, borrowing and the cost of copies. A returned `ports()` is a value here, so the copy is implicit.
- The sorting algorithm itself: the standard library's `sort` is a stable merge sort. The model sorts by insertion and proves only what the caller relies on, sorted and a permutation. For `u16` values, stability is not observable.

## Findings

| source | as written | input that shows it | evidently intended | confidence | as-written member | corrected member |
|---|---|---|---|---|---|---|
| sub_lib/src/node_addr.rs:8 | the derived `Deserialize` fills `ports` as decoded, without the sort and dedup of `new` (lines 16-18) | decoded fields `2.5.8.1`, `[9, 6]`: `clone` gives `[6, 9]`, and `eq` (line 63) then says the clone is not equal to the original | every `NodeAddr` holds a normalised port list, so clones are equal and equality is set equality; `NodeAddrs.DeserializeKeepsCloneEqual` proves this for the corrected deserialiser | medium: reachable only from serialised data that no `NodeAddr` produced; not executed | `NodeAddrs.DeserializedCloneDiffers` | `NodeAddrs.Deserialize` |
