# Redis Cluster command-line tools: topology parser and shard analyzer

This project models the core of a set of Redis Cluster command-line tools
written in Go. It covers three pieces.

- **`rcc/cluster.go`.** `ClusterNodes` turns the text reply of
  `CLUSTER NODES` into an ordered list of `ClusterNode` records. It reads
  the id, the `ip:port` address, the flags, the master id, three `uint64`
  counters, the link state and, for masters, the slot tokens. A slot token
  is either a plain `a-b` range or a bracketed `[n-<-id]` / `[n->-id]`
  transition marker. `AssertEmptyNode` decides whether a node may join a
  cluster. It looks at the first `cluster_known_nodes` line of `CLUSTER INFO`
  and, when that count is 1, at the `INFO db0` reply.
- **`rca/cluster.go`.** A second parser that reads only the first four fields of
  each line. Its `AssertEmptyNode` is the same procedure as rcc's.
- **`rcc-count-key-slot/main.go`.** For every master of the topology:
  - `GetMasterNode` resolves a replica to its master.
  - `statsKeyInShard` lists one `(slot, count)` pair per slot of the
    master's ranges, optionally ranks the pairs by count with
    `rankBySlotCount`, and adds up the `keys=` numbers of the `INFO keyspace`
    reply.
  - The `statsMemoryInShard` closure reads `used_memory` from `INFO memory`.
  - `main` prints a report for each shard whose slot count is non-zero.

Modules:

- `Faults` (`faults.dfy`) holds the outcomes of a Go call as a `Result`.
  - A Go panic on an index past the end of a slice becomes
    `IndexOutOfRange(index, length)`.
  - A `strconv` error becomes `NumError(text)`.
  - `os.Exit(1)` becomes `Exit(1)`.
  - A failed Redis request becomes `RequestFailed`.
  - `NodeNotEmpty` is the error `AssertEmptyNode` builds.
  - `Traverse` is the shape every loop "parse each element, the first
    failure aborts" has.
- `GoStrings` (`go_strings.dfy`) models the parts of Go's `strings` and
  `strconv` packages that the core uses: `Split`, `SplitN`, `TrimSpace`,
  single-character `TrimLeft` and `TrimRight`, `HasPrefix`, base-10
  `ParseUint` and `Atoi`. It also models 64-bit integers: wrap-around, the
  `int(uint64)` conversion, and division truncated toward zero.
- `Rcc`, `Rca` and `CountKeySlot` model the three source files.

The loops that build state step by step are Dafny methods, each proved
equal to a specification function:

- the line and flag loops of both `ClusterNodes`, and the slot loop of rcc's;
- the scan in `AssertEmptyNode`;
- the two loops of `GetMasterNode`;
- the enumeration and keyspace loops of `statsKeyInShard`;
- the map-filling loop of `statsMemoryInShard`;
- the flag-label loop and the two loops of `main` over nodes and flags.

The in-place sort `rankBySlotCount` is a method on an array, specified by
its contract: the result is non-increasing and a permutation of the input.
`main`'s loop that prints the first `rank` pairs is a prefix of the pair
list inside the function `EmitShard`. The properties are lemmas about the
specification functions.

The Redis replies are inputs. A reply whose command can fail is an
`Option<string>`, where `None` means the request failed. Every query
issued by `statsKeyInShard` and `statsMemoryInShard` ends in `.Val()`,
which discards the error, so those queries are total oracles in the
`Redis` datatype. Reverse DNS
(`net.LookupAddr`) is an oracle too, and the host falls back to the IP.

## Behaviour kept as the code has it

- **Migration markers.** A `[n-<-id]` token splits into two pieces, but the
  code reads the third one, so it panics (`Rcc.ImportingMarkerPanics`). A
  `[n->-id]` token contains no `-<-`, so the whole body goes to
  `ParseUint` and fails (`Rcc.MigratingMarkerRejected`). The model keeps
  both failures. It does not return a slot with its peer.
- **Bare slot numbers.** A bare slot number `n` panics on the missing second
  bound (`Rcc.SingleSlotTokenPanics`).
- **Exclusive enumeration bound.** Slots are enumerated with an exclusive
  upper bound, `start <= pos < end`, as the loop is written. The range
  `0-16383` therefore yields 16383 pairs and never queries slot 16383
  (`CountKeySlot.FullRangeMissesLastSlot`).
- **Per-slot and keyspace queries.** These go to the address of the node
  given to `statsKeyInShard`. Its client is opened before `GetMasterNode`
  resolves the master. Only the slot ranges come from the master.
- **Unstable ranking.** The model promises a non-increasing order and a
  permutation of the pairs. Equal counts may come out in any order, because
  `sort.Sort` is not stable.
- **Two statements that do not compile.** `main` calls `statsKeyInShard` with
  two arguments where the function takes three, and the enumeration loop
  adds into an undeclared `slotCount`. The model passes the whole topology
  as the first argument. It leaves out the `slotCount` accumulator, whose
  value is never read.
- **`slotStat` stays 0.** `slotStat` is never assigned, so it is returned as
  0. The `slotStat == 0` guard in `main` therefore skips every shard.
  `CountKeySlot.RunReportsNothing` shows that the run prints no shard. It
  either ends empty or stops at the first master whose keyspace reply
  cannot be read. `CountKeySlot.EmitShard` and `CountKeySlot.ReportedAverage`
  model the report for an arbitrary `slotStat`.
- **Slot bounds converted to `int`.** `int(slot.Start)` and `int(slot.End)`
  wrap a bound of 2^63 or more to a negative number, and the model does the
  same. A marker whose slot number is 2^64 - 1 therefore enumerates slot -1:
  its start becomes -1 and its end is 0
  (`CountKeySlot.WrappedMarkerQueriesSlotMinusOne`).
- **64-bit `keysStat`.** `keysStat` is a Go `int`. On a 64-bit platform it
  wraps around, and the model does the same (`CountKeySlot.WrappedSumIsSum`).

## Model

| member | source | states |
|---|---|---|
| Rcc.ClusterNodes | rcc/cluster.go:39-153 | a failed request yields a failure; otherwise the result is the topology of the trimmed reply: one node per line, in order, or the fault of the first line that cannot be read |
| Rcc.ParseLines | rcc/cluster.go:51-152 | the loop over the lines builds the nodes in order and stops at the first line that fails, with no partial result |
| Rcc.ParseNode | rcc/cluster.go:52-150 | filling one node field by field, with its early returns and panics, yields exactly the node the line grammar describes, or that grammar's first fault |
| Rcc.TopologyOneNodePerLine | rcc/cluster.go:49-51 | a successful parse has exactly one node per line of the trimmed text (newlines + 1), in input order, with no de-duplication |
| Rcc.TopologyFailsOnFirstBadLine | rcc/cluster.go:51-151 | the first line that fails to parse makes the whole call fail with that line's fault |
| Rcc.ParsedNodeFields | rcc/cluster.go:53-110 | a parsed node has 8 or more fields. The id is field 0. The IP is field 1 up to its first colon. The port is the next colon piece as a uint64. The flags are field 2 split at commas. Master and slave each hold iff some flag equals that word exactly. The master id is field 3. The counters are fields 4-6 as uint64. The link state is field 7. The host is the first looked-up name, else the IP |
| Rcc.SlotsOfParsedNode | rcc/cluster.go:113-147 | slots are empty unless the node is a master with more than 8 fields; then there is exactly one slot per token from field 8 on, in order |
| Rcc.AcceptedLines | rcc/cluster.go:53-147 | a line is accepted iff it has at least 8 fields, field 1 has a colon followed by a uint64 port, fields 4-6 are uint64s, and, on a master line with more than 8 fields, every token from field 8 on is a valid slot token |
| Rcc.SlotFromToken | rcc/cluster.go:116-141 | a `[`-prefixed token loses its brackets and is cut at `-<-`; it is accepted iff piece 0 is a uint64 and there are at least 3 pieces; it fails with piece 0's number error when piece 0 is not a uint64, else with the panic reading piece 2. Any other token is cut at `-`; it is accepted iff pieces 0 and 1 exist and are uint64s; it fails with piece 0's number error first, else with the panic reading piece 1 when there is no second piece, else with piece 1's number error |
| GoStrings.SplitJoin | rcc/cluster.go:53 | round-trip check on the `strings.Split` model: joining the pieces with the separator gives the text back |
| Rcc.PlainRangeToken | rcc/cluster.go:128-141 | the token `a-b` with numeric a and b yields start a, end b and an empty peer |
| Rcc.SingleSlotTokenPanics | rcc/cluster.go:129-135 | a bare number token indexes past its one piece (index 1 of length 1) |
| Rcc.StripBrackets | rcc/cluster.go:118-119 | trimming `[` on the left and `]` on the right of a bracketed body leaves the body |
| Rcc.MarkerTokenPieces | rcc/cluster.go:117-120 | a bracketed token is read from the pieces of its body split at `-<-` |
| Rcc.ImportingPieces | rcc/cluster.go:120 | the body `n-<-id` splits into exactly two pieces, n and id |
| Rcc.ImportingMarkerPanics | rcc/cluster.go:117-127 | an importing marker `[n-<-id]` fails by reading piece 2 of 2 |
| Rcc.MigratingPieces | rcc/cluster.go:120-121 | the body `n->-id` does not split at `-<-` and is not a number |
| Rcc.MigratingMarkerRejected | rcc/cluster.go:117-125 | a migrating marker `[n->-id]` fails the number parse of its whole body |
| Rcc.SlotTokenShape | rcc/cluster.go:117-141 | an accepted marker has end 0, its start is the number before the first `-<-` and its peer the third piece; an accepted range has an empty peer and both bounds parsed from the pieces around `-` |
| Rcc.FullRangeExample | rcc/cluster.go:128-141 | `0-16383` parses to the range 0..16383 |
| Rcc.ImportingMarkerExample | rcc/cluster.go:117-127 | `[16384-<-abc123]` fails reading piece 2 of 2 |
| Rcc.AssertEmptyNode | rcc/cluster.go:171-200 | scanning the CLUSTER INFO lines gives the emptiness verdict: decided on the first `cluster_known_nodes` line, success when there is none |
| Rcc.FirstKnownNodesLineDecides | rcc/cluster.go:178-197 | only the first `cluster_known_nodes` line decides; later lines are never looked at |
| Rcc.NoKnownNodesLinePasses | rcc/cluster.go:178-199 | without a `cluster_known_nodes` line the check passes |
| Rcc.KnownNodesVerdictCases | rcc/cluster.go:179-196 | the deciding line fails iff its trimmed value is missing or not a uint64, or is 1 while INFO db0 failed or is non-empty; it reports "not empty" iff the value is 1 and db0 is non-empty |
| Rcc.Db0MattersOnlyForLoneNode | rcc/cluster.go:186-195 | the db0 reply can change the verdict only when the deciding line's value is exactly 1 |
| Rca.ClusterNodes | rca/cluster.go:31-83 | a failed request yields a failure; otherwise one record per line of the trimmed reply, in order, or the first line's fault |
| Rca.ParseLines | rca/cluster.go:43-82 | the loop builds the records in order and stops at the first failing line |
| Rca.ParseNode | rca/cluster.go:44-80 | filling one record from fields 0-3 yields the four-field grammar's node with zero counters, or its first fault |
| Rca.AcceptedLines | rca/cluster.go:45-78 | a line is accepted iff it has at least four fields and its address has a numeric port after the first colon; later fields are ignored |
| Rca.ParsedNodeFields | rca/cluster.go:44-78 | id, IP (before the first colon), port, flags, exact-flag roles and master id come from fields 0-3; the counters are zero and the link state empty |
| Rca.AgreesWithRccOnLine | rca/cluster.go:44-78 | on every line rcc accepts, rca yields the same id, IP, host, port, flags, roles and master id |
| Rca.ShortLineOnlyRca | rca/cluster.go:44-78 | a four-field line rca accepts makes rcc fail when it reads field 4 |
| Rca.AgreesWithRccOnTopology | rca/cluster.go:43-82 | on every reply rcc accepts, rca succeeds with the same nodes in the same order |
| Rca.AssertEmptyNode | rca/cluster.go:101-130 | rca's emptiness check gives the same verdict as rcc's on every pair of replies |
| CountKeySlot.FirstWithId | rcc-count-key-slot/main.go:148-153 | the index found holds the id and no earlier node does; none is found only when no node holds it |
| CountKeySlot.GetMasterNode | rcc-count-key-slot/main.go:138-155 | the result is the first node whose id is the replica's master id (the empty id for a non-replica), else the node itself |
| CountKeySlot.MasterOfCases | rcc-count-key-slot/main.go:138-155 | the result is either the input node, when no node has the looked-for id, or the first node that has it |
| CountKeySlot.ReplicaResolvesToItsMaster | rcc-count-key-slot/main.go:142-153 | a `slave`-flagged node whose master id appears in the topology resolves to the first node with that id |
| CountKeySlot.NonReplicaKeepsItself | rcc-count-key-slot/main.go:139-154 | a node without the `slave` flag is returned unchanged when no node has an empty id |
| CountKeySlot.PairsFrom | rcc-count-key-slot/main.go:167-172 | one pair per slot lo <= pos < hi, ascending, each with that slot's count |
| CountKeySlot.AppendRange | rcc-count-key-slot/main.go:165-174 | the inner loop appends one pair per slot start <= pos < end, ascending, each with its count; an empty or reversed range appends nothing |
| CountKeySlot.EnumerateSlots | rcc-count-key-slot/main.go:164-175 | the nested loop appends, range by range, the pairs of start <= pos < end |
| CountKeySlot.SlotPairsMembership | rcc-count-key-slot/main.go:164-175 | a pair is listed iff its value is its slot's count and int(start) <= slot < int(end) for some range; a range with int(end) <= int(start) adds nothing |
| CountKeySlot.WrappedMarkerQueriesSlotMinusOne | rcc-count-key-slot/main.go:165-167 | a marker slot 2^64 - 1 with end 0 converts to the range -1..0 and enumerates exactly slot -1 |
| CountKeySlot.SlotPairsLength | rcc-count-key-slot/main.go:164-175 | the number of pairs is the total width of the non-empty ranges |
| CountKeySlot.FullRangeMissesLastSlot | rcc-count-key-slot/main.go:165-167 | the range 0-16383 yields 16383 pairs and none for slot 16383 |
| CountKeySlot.Swap | rcc-count-key-slot/main.go:238 | the two entries are exchanged and the contents are kept as a multiset |
| CountKeySlot.RankBySlotCount | rcc-count-key-slot/main.go:224-227 | the array ends non-increasing by count and is a permutation of its old contents |
| CountKeySlot.KeysOfLine | rcc-count-key-slot/main.go:186-218 | one keyspace line adds the number after `=` in the first comma field of a `db` record; `#` lines, colon-less lines and non-`db` keys add 0; a missing field panics; a bad keys or expires number exits |
| CountKeySlot.KeysInLines | rcc-count-key-slot/main.go:181-219 | the loop's keysStat is the 64-bit wrapped sum of every line's keys, or the first line's fault |
| CountKeySlot.KeysInKeyspace | rcc-count-key-slot/main.go:184-219 | keysStat of an INFO keyspace reply split at CRLF |
| CountKeySlot.WrappedSumIsSum | rcc-count-key-slot/main.go:208 | the running total is the true sum reduced to 64 bits, and equals it when the sum fits |
| CountKeySlot.LineKeysSource | rcc-count-key-slot/main.go:186-208 | a line adds a non-zero amount only as a `db` record whose first comma field has `=` followed by that integer |
| CountKeySlot.DbLineAddsKeys | rcc-count-key-slot/main.go:197-217 | a `db` record whose keys and expires fields both hold `=` and an integer adds the keys integer |
| CountKeySlot.OtherLinesIgnored | rcc-count-key-slot/main.go:186-197 | lines that are not `db` records add 0 and cannot fail |
| CountKeySlot.DbLineFaults | rcc-count-key-slot/main.go:197-217 | a `db` line panics iff the expires field is missing, the keys field has no `=`, or the keys number parses and the expires field has no `=`; it exits with status 1 iff both fields and the keys `=` are present and the keys text is no integer, or the expires `=` is present and its text is no integer; it fails in no other way |
| CountKeySlot.BadCountExits | rcc-count-key-slot/main.go:202-216 | a `db` line whose keys or expires text is no integer, after lines that all parse, ends the computation with exit status 1, whatever the later lines hold |
| CountKeySlot.KeysStatAppend | rcc-count-key-slot/main.go:185-208 | one more line adds its keys to the (unwrapped) total |
| CountKeySlot.StatsMemoryInShard | rcc-count-key-slot/main.go:78-100 | the map filled from INFO memory yields `used_memory`'s value, or "" when absent |
| CountKeySlot.InfoRecordsDomain | rcc-count-key-slot/main.go:86-98 | a key is in the map iff some line is a non-`#` record with that text before its first colon |
| CountKeySlot.InfoRecordsLastWins | rcc-count-key-slot/main.go:96-97 | a key maps to the rest of the last line recorded for it; later lines overwrite earlier ones |
| CountKeySlot.UsedMemoryMissing | rcc-count-key-slot/main.go:99 | with no `used_memory` record the result is the empty string |
| CountKeySlot.StatsKeyInShard | rcc-count-key-slot/main.go:157-222 | fails iff the keyspace reply does; slotStat is 0; keysStat is the keyspace total of the node's own address; the pairs are the master's slots counted at the node's own address, in enumeration order for rank <= 0, else non-increasing and a permutation of them |
| CountKeySlot.FlagLabel | rcc-count-key-slot/main.go:114-121 | the printed flag label is the flags joined by commas |
| CountKeySlot.EmitShard | rcc-count-key-slot/main.go:109-131 | no report iff slotStat is 0; a report lists the first min(rank, len) pairs (none for rank <= 0) and the truncated average |
| CountKeySlot.ReportedAverage | rcc-count-key-slot/main.go:109-130 | a report exists exactly for non-zero slotStat; its average leaves a remainder smaller than slotStat; at most rank pairs are listed |
| CountKeySlot.NodeReports | rcc-count-key-slot/main.go:104-134 | running statsKeyInShard once per `master` flag yields no report, or the keyspace fault of a master |
| CountKeySlot.ShardReports | rcc-count-key-slot/main.go:103-135 | main's loop over the topology gives the outcomes of all the nodes, stopping at the first fault |
| CountKeySlot.RunReportsNothing | rcc-count-key-slot/main.go:103-135 | the run succeeds iff every master's keyspace reply can be read; it then prints no shard; otherwise it stops with the fault of the first master whose reply cannot be read |

## Left out

- The Redis client calls (`ClusterNodes`, `ClusterInfo`, `Info`,
  `ClusterCountKeysInSlot`) are network I/O. Their replies are inputs or
  oracles.
- The errors that `.Val()` discards in `statsKeyInShard` and
  `statsMemoryInShard` are not
  modelled. Such a reply is whatever the oracle returns.
- `net.LookupAddr` is an oracle. `DescribeIP` in both `cluster.go` files
  depends only on DNS and is not part of this model.
- `usage`, and `main` in every program, are not part of this model, with
  one exception. The loop of rcc-count-key-slot's `main` over nodes and
  flags is modelled by `NodeReports`, `ShardReports`, `EmitShard` and
  `FlagLabel`; its printed values are the `ShardReport` datatype. Left out
  are flag parsing, the help template, the `DEBUG` toggle, and the printing
  itself. Also left out is `main`'s topology fetch through `rcc.ClusterNodes`
  and its exit with status 1 when that call fails: `ShardReports` takes the
  parsed topology as its input.
- Error messages are not modelled. The `errors.Wrap` texts and the text of
  the "node is not empty" error are reduced to the `Fault` that causes them.
- `slotCount` in `statsKeyInShard` is left out: it is undeclared and never
  read.
- `expiresStat` is left out. Only its parse failures, which end the
  program, are modelled.
- CountKeySlot.StatsMemoryInShard is called by `main` only for a shard that
  is reported. The model evaluates the same pure function for every master,
  which makes no difference to the outcome.
- CountKeySlot.RankBySlotCount: promises no order among equal counts,
  because `sort.Sort` is not stable.
- CountKeySlot.KeysStatAppend: is stated for the unwrapped sum. The 64-bit
  total follows from CountKeySlot.WrappedSumIsSum.
- `Atoi` and `ParseUint` are modelled for decimal text. `Atoi` takes an
  optional sign. Both reject values outside their 64-bit range. Go's
  underscores and base prefixes do not apply in base 10.
- Go strings are UTF-8 bytes, but the model's strings are sequences of
  characters. `TrimSpace` removes Unicode white space character by
  character. Invalid UTF-8 is not modelled.
- `int` is taken to be 64 bits wide, as on the platforms Redis Cluster
  runs on.
- `rcc-tree`, `rcc-whoami` and `rcc-add-slave` are not part of this model.
  They only print what the parsers return, or call `AssertEmptyNode` and
  then issue cluster commands. The `app.go` files are not part of this
  model either, because they hold only name and version constants.
