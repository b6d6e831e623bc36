/** rcc-count-key-slot/main.go: per-shard statistics over a parsed topology.

    Every Redis query issued by statsKeyInShard and statsMemoryInShard ends
    in `.Val()`, which drops the error and yields the zero value, so those
    queries are total oracles bundled in `Redis`. The per-slot and keyspace queries go to the address
    of the node handed to statsKeyInShard, before its master is resolved. */
module CountKeySlot {
  import opened Faults
  import opened GoStrings
  import Rcc

  /** A slot and the number of keys it holds. */
  datatype Pair = Pair(key: int64, value: int64)

  datatype Addr = Addr(ip: string, port: uint64)

  /** The `ip:port` a client for `node` is opened on. */
  function AddrOf(node: Rcc.ClusterNode): Addr {
    Addr(node.ip, node.port)
  }

  /** The three queries: CLUSTER COUNTKEYSINSLOT, INFO keyspace, INFO memory. */
  datatype Redis = Redis(
    countKeysInSlot: (Addr, int64) -> int64,
    keyspace: Addr -> string,
    memory: Addr -> string)

  function CountIn(redis: Redis, addr: Addr): int64 -> int64 {
    pos => redis.countKeysInSlot(addr, pos)
  }

  // ------------------------------------------------------------ GetMasterNode

  /** The id GetMasterNode looks for: the master of a replica, else "". */
  function MasterId(node: Rcc.ClusterNode): string {
    if "slave" in node.flags then node.slaveOf else ""
  }

  /** The index of the first node with identifier `id`. */
  function FirstWithId(nodes: seq<Rcc.ClusterNode>, id: string): (r: Option<nat>)
    ensures r.Some? ==> r.value < |nodes| && nodes[r.value].id == id
                        && forall j :: 0 <= j < r.value ==> nodes[j].id != id
    ensures r.None? ==> forall j :: 0 <= j < |nodes| ==> nodes[j].id != id
  {
    if nodes == [] then None
    else if nodes[0].id == id then Some(0)
    else match FirstWithId(nodes[1..], id)
      case None => None
      case Some(k) => Some(k + 1)
  }

  /** The node GetMasterNode returns. */
  function MasterOf(nodes: seq<Rcc.ClusterNode>, node: Rcc.ClusterNode): Rcc.ClusterNode {
    match FirstWithId(nodes, MasterId(node))
    case Some(k) => nodes[k]
    case None => node
  }

  /** GetMasterNode: find the id to look for in the node's flags, then scan
      the topology for the first node carrying it. */
  method GetMasterNode(nodes: seq<Rcc.ClusterNode>, node: Rcc.ClusterNode) returns (master: Rcc.ClusterNode)
    ensures master == MasterOf(nodes, node)
  {
    var masterNodeId := "";
    master := node;
    for i := 0 to |node.flags|
      invariant masterNodeId == "" && "slave" !in node.flags[..i]
    {
      assert node.flags[..i + 1] == node.flags[..i] + [node.flags[i]];
      if node.flags[i] == "slave" {
        masterNodeId := node.slaveOf;
        break;
      }
    }
    assert masterNodeId == MasterId(node) by {
      if masterNodeId == "" && "slave" in node.flags {
        assert node.flags[..|node.flags|] == node.flags;
      }
    }
    for j := 0 to |nodes|
      invariant master == node
      invariant forall k :: 0 <= k < j ==> nodes[k].id != masterNodeId
    {
      if nodes[j].id == masterNodeId {
        master := nodes[j];
        break;
      }
    }
  }

  /** The result is the node itself or the first node carrying the id
      looked for; it is never anything else. */
  lemma MasterOfCases(nodes: seq<Rcc.ClusterNode>, node: Rcc.ClusterNode)
    ensures var m := MasterOf(nodes, node);
      (m == node && forall j :: 0 <= j < |nodes| ==> nodes[j].id != MasterId(node))
      || exists k :: 0 <= k < |nodes| && m == nodes[k] && m.id == MasterId(node)
                     && forall j :: 0 <= j < k ==> nodes[j].id != MasterId(node)
  {
    match FirstWithId(nodes, MasterId(node))
    case Some(k) =>
    case None =>
  }

  /** A replica whose master is in the topology resolves to that master. */
  lemma ReplicaResolvesToItsMaster(nodes: seq<Rcc.ClusterNode>, node: Rcc.ClusterNode, k: nat)
    requires "slave" in node.flags && k < |nodes| && nodes[k].id == node.slaveOf
    requires forall j :: 0 <= j < k ==> nodes[j].id != node.slaveOf
    ensures MasterOf(nodes, node) == nodes[k]
  {
    var r := FirstWithId(nodes, node.slaveOf);
    assert r.Some? && !(r.value < k) && !(k < r.value);
  }

  /** A node without the `slave` flag looks for the empty id: it is its own
      master unless some node's id is empty. */
  lemma NonReplicaKeepsItself(nodes: seq<Rcc.ClusterNode>, node: Rcc.ClusterNode)
    requires "slave" !in node.flags
    requires forall j :: 0 <= j < |nodes| ==> nodes[j].id != ""
    ensures MasterOf(nodes, node) == node
  {
  }

  // ------------------------------------------------------- slot enumeration

  /** The pairs of the slots `lo <= pos < hi`, ascending. */
  function PairsFrom(lo: int64, hi: int64, count: int64 -> int64): (ps: seq<Pair>)
    ensures |ps| == if lo < hi then hi - lo else 0
    ensures forall k :: 0 <= k < |ps| ==> ps[k] == Pair(lo + k, count(lo + k))
    decreases hi - lo
  {
    if hi <= lo then [] else PairsFrom(lo, hi - 1, count) + [Pair(hi - 1, count(hi - 1))]
  }

  /** The pairs of every range in order; the bounds go through Go's
      `int(uint64)` conversion. */
  function SlotPairs(slots: seq<Rcc.Slot>, count: int64 -> int64): seq<Pair> {
    if slots == [] then []
    else
      var last := slots[|slots| - 1];
      SlotPairs(slots[..|slots| - 1], count) + PairsFrom(ToInt(last.start), ToInt(last.end), count)
  }

  /** The inner enumeration loop: one pair per slot `pos` with
      `lo <= pos < hi`, appended in ascending order. */
  method AppendRange(before: seq<Pair>, lo: int64, hi: int64, count: int64 -> int64) returns (pl: seq<Pair>)
    ensures pl == before + PairsFrom(lo, hi, count)
  {
    pl := before;
    var pos := lo;
    while pos < hi
      invariant lo <= pos && (pos <= hi || pos == lo)
      invariant pl == before + PairsFrom(lo, pos, count)
      decreases hi as int - pos as int
    {
      pl := pl + [Pair(pos, count(pos))];
      pos := pos + 1;
    }
  }

  /** The nested enumeration loop of statsKeyInShard. */
  method EnumerateSlots(slots: seq<Rcc.Slot>, count: int64 -> int64) returns (pl: seq<Pair>)
    ensures pl == SlotPairs(slots, count)
  {
    pl := [];
    for k := 0 to |slots|
      invariant pl == SlotPairs(slots[..k], count)
    {
      pl := AppendRange(pl, ToInt(slots[k].start), ToInt(slots[k].end), count);
      assert slots[..k + 1][..k] == slots[..k];
    }
    assert slots[..|slots|] == slots;
  }

  /** A pair is enumerated exactly when its slot lies in some range,
      start included and end excluded, and then its value is that slot's
      count. A range with int(end) <= int(start) adds nothing. */
  lemma {:induction false} SlotPairsMembership(slots: seq<Rcc.Slot>, count: int64 -> int64, p: Pair)
    ensures p in SlotPairs(slots, count) <==>
      p.value == count(p.key)
      && exists i :: 0 <= i < |slots| && ToInt(slots[i].start) <= p.key < ToInt(slots[i].end)
    decreases |slots|
  {
    if slots != [] {
      var init := slots[..|slots| - 1];
      var last := slots[|slots| - 1];
      SlotPairsMembership(init, count, p);
      var ps := PairsFrom(ToInt(last.start), ToInt(last.end), count);
      assert p in ps <==> p.value == count(p.key) && ToInt(last.start) <= p.key < ToInt(last.end) by {
        if ToInt(last.start) <= p.key < ToInt(last.end) && p.value == count(p.key) {
          assert ps[p.key - ToInt(last.start)] == p;
        }
      }
      if exists i :: 0 <= i < |slots| && ToInt(slots[i].start) <= p.key < ToInt(slots[i].end) {
        var i :| 0 <= i < |slots| && ToInt(slots[i].start) <= p.key < ToInt(slots[i].end);
        if i < |slots| - 1 {
          assert init[i] == slots[i];
        }
      }
      forall i | 0 <= i < |init| ensures init[i] == slots[i] {}
    }
  }

  /** The number of pairs is the total width of the non-empty ranges. */
  function Width(slots: seq<Rcc.Slot>): nat {
    if slots == [] then 0
    else
      var last := slots[|slots| - 1];
      Width(slots[..|slots| - 1]) + if ToInt(last.start) < ToInt(last.end) then ToInt(last.end) - ToInt(last.start) else 0
  }

  lemma {:induction false} SlotPairsLength(slots: seq<Rcc.Slot>, count: int64 -> int64)
    ensures |SlotPairs(slots, count)| == Width(slots)
    decreases |slots|
  {
    if slots != [] {
      SlotPairsLength(slots[..|slots| - 1], count);
    }
  }

  /** The end of a range is not enumerated: `0-16383` covers 16383 slots. */
  lemma FullRangeMissesLastSlot(count: int64 -> int64)
    ensures |SlotPairs([Rcc.Slot(0, 16383, "")], count)| == 16383
    ensures Pair(16383, count(16383)) !in SlotPairs([Rcc.Slot(0, 16383, "")], count)
  {
    SlotPairsLength([Rcc.Slot(0, 16383, "")], count);
    SlotPairsMembership([Rcc.Slot(0, 16383, "")], count, Pair(16383, count(16383)));
  }

  /** A bound of 2^63 or more wraps in Go's `int(uint64)`: a marker for slot
      2^64 - 1 (end 0) enumerates slot -1. */
  lemma WrappedMarkerQueriesSlotMinusOne(count: int64 -> int64)
    ensures SlotPairs([Rcc.Slot(0xFFFF_FFFF_FFFF_FFFF, 0, "b")], count) == [Pair(-1, count(-1))]
  {
    var slots := [Rcc.Slot(0xFFFF_FFFF_FFFF_FFFF, 0, "b")];
    assert slots[..0] == [];
    assert ToInt(0xFFFF_FFFF_FFFF_FFFF) == -1;
  }

  // ------------------------------------------------------------------ ranking

  /** PairList.Less */
  predicate Less(p: Pair, q: Pair) {
    p.value < q.value
  }

  /** Ordered as sort.Sort(sort.Reverse(pl)) leaves it: no pair is
      followed by a larger one. */
  predicate NonIncreasing(s: seq<Pair>) {
    forall i, j :: 0 <= i < j < |s| ==> !Less(s[i], s[j])
  }

  /** PairList.Swap */
  method Swap(pl: array<Pair>, i: nat, j: nat)
    requires i < pl.Length && j < pl.Length
    modifies pl
    ensures pl[..] == old(pl[..])[i := old(pl[j])][j := old(pl[i])]
    ensures multiset(pl[..]) == multiset(old(pl[..]))
  {
    pl[i], pl[j] := pl[j], pl[i];
  }

  /** rankBySlotCount: sort the list in place, largest count first. Only
      the order is promised; equal counts may come out in any order. */
  method RankBySlotCount(pl: array<Pair>)
    modifies pl
    ensures NonIncreasing(pl[..])
    ensures multiset(pl[..]) == multiset(old(pl[..]))
  {
    for i := 0 to pl.Length
      invariant NonIncreasing(pl[..i])
      invariant multiset(pl[..]) == multiset(old(pl[..]))
    {
      var j := i;
      while j > 0 && Less(pl[j - 1], pl[j])
        invariant 0 <= j <= i
        invariant forall a, b :: 0 <= a < b <= i && a != j && b != j ==> !Less(pl[a], pl[b])
        invariant forall b :: j < b <= i ==> Less(pl[b], pl[j])
        invariant 0 < j < i ==> !Less(pl[j - 1], pl[j + 1])
        invariant multiset(pl[..]) == multiset(old(pl[..]))
      {
        Swap(pl, j - 1, j);
        j := j - 1;
      }
    }
  }

  // ----------------------------------------------------------- info records

  datatype Record = Record(key: string, value: string)

  /** An INFO line as both parsers read it: `#` lines and lines without a
      `:` are no record; otherwise the key is the text before the first
      `:` and the value the rest. */
  function RecordOf(line: string): Option<Record> {
    if HasPrefix(line, "#") then None
    else
      var record := SplitN(line, ":", 2);
      if |record| < 2 then None else Some(Record(record[0], record[1]))
  }

  /** strconv.Atoi, where a failure ends the program with os.Exit(1). */
  function AtoiOrExit(s: string): Result<int64> {
    match Atoi(s)
    case Some(v) => Ok(v)
    case None => Err(Exit(1))
  }

  /** What one line of INFO keyspace adds to keysStat. A `db` record must
      have a second comma field and `=` in the first two fields, and both
      numbers must parse; only the first number is kept. */
  function LineKeys(line: string): Result<int64> {
    match RecordOf(line)
    case None => Ok(0)
    case Some(Record(key, value)) =>
      if !HasPrefix(key, "db") then Ok(0)
      else
        var kv := SplitN(value, ",", 3);
        var expires :- At(kv, 1);
        var keysStr := SplitN(kv[0], "=", 2);
        var keysText :- At(keysStr, 1);
        var keys :- AtoiOrExit(keysText);
        var expiresStr := SplitN(expires, "=", 2);
        var expiresText :- At(expiresStr, 1);
        var _ :- AtoiOrExit(expiresText);
        Ok(keys)
  }

  function Sum(xs: seq<int64>): int {
    if xs == [] then 0 else Sum(xs[..|xs| - 1]) + xs[|xs| - 1]
  }

  /** keysStat: the keys of every `db` line of an INFO keyspace reply,
      added up in Go's 64-bit int; the first bad line aborts. */
  function KeysStat(text: string): Result<int64> {
    KeysTotal(Split(text, "\r\n"))
  }

  function KeysTotal(lines: seq<string>): Result<int64> {
    var keys :- Traverse(lines, LineKeys);
    Ok(WrappedSum(keys))
  }

  /** Go's `+` on 64-bit int. */
  function Add64(a: int64, b: int64): int64 {
    Wrap64(a + b)
  }

  /** Go's `total += x` over a list, in 64-bit int. */
  function WrappedSum(xs: seq<int64>): int64 {
    if xs == [] then 0 else Add64(WrappedSum(xs[..|xs| - 1]), xs[|xs| - 1])
  }

  /** The running total is the true sum reduced to 64 bits, and exactly the
      sum when that fits. */
  lemma {:induction false} WrappedSumIsSum(xs: seq<int64>)
    ensures WrappedSum(xs) == Wrap64(Sum(xs))
    ensures MinInt64 <= Sum(xs) <= MaxInt64 ==> WrappedSum(xs) == Sum(xs)
    decreases |xs|
  {
    if xs != [] {
      WrappedSumIsSum(xs[..|xs| - 1]);
      WrapAdd(Sum(xs[..|xs| - 1]), xs[|xs| - 1]);
    } else {
      WrapInRange(0);
    }
    if MinInt64 <= Sum(xs) <= MaxInt64 {
      WrapInRange(Sum(xs));
    }
  }

  /** The body of the keyspace loop: the keys one line adds. */
  method KeysOfLine(line: string) returns (r: Result<int64>)
    ensures r == LineKeys(line)
  {
    if HasPrefix(line, "#") {
      return Ok(0);
    }
    var record := SplitN(line, ":", 2);
    if |record| < 2 {
      return Ok(0);
    }
    var key, value := record[0], record[1];
    if !HasPrefix(key, "db") {
      return Ok(0);
    }
    var kv := SplitN(value, ",", 3);
    if |kv| < 2 {
      return Err(IndexOutOfRange(1, |kv|));
    }
    var keys, expires := kv[0], kv[1];
    var keysStr := SplitN(keys, "=", 2);
    if |keysStr| < 2 {
      return Err(IndexOutOfRange(1, |keysStr|));
    }
    var keysv := Atoi(keysStr[1]);
    if keysv.None? {
      return Err(Exit(1));
    }
    var expiresStr := SplitN(expires, "=", 2);
    if |expiresStr| < 2 {
      return Err(IndexOutOfRange(1, |expiresStr|));
    }
    var expiresv := Atoi(expiresStr[1]);
    if expiresv.None? {
      return Err(Exit(1));
    }
    return Ok(keysv.value);
  }

  /** The keyspace loop of statsKeyInShard: keysStat accumulates in Go's
      64-bit int. */
  method KeysInLines(lines: seq<string>) returns (r: Result<int64>)
    ensures r == KeysTotal(lines)
  {
    var keysStat: int64 := 0;
    ghost var done: seq<int64> := [];
    for i := 0 to |lines|
      invariant Traverse(lines[..i], LineKeys) == Ok(done)
      invariant keysStat == WrappedSum(done)
    {
      var keysv := KeysOfLine(lines[i]);
      if keysv.Err? {
        TraversePrefixErr(lines, LineKeys, i, done);
        return Err(keysv.fault);
      }
      TraverseSnoc(lines, LineKeys, i, done);
      assert (done + [keysv.value])[..|done|] == done;
      keysStat := Add64(keysStat, keysv.value);
      done := done + [keysv.value];
    }
    assert lines[..|lines|] == lines;
    return Ok(keysStat);
  }

  /** statsKeyInShard's keysStat for one INFO keyspace reply. */
  method KeysInKeyspace(text: string) returns (r: Result<int64>)
    ensures r == KeysStat(text)
  {
    r := KeysInLines(Split(text, "\r\n"));
  }

  /** A line adds a non-zero count only as a `db` record whose first comma
      field holds `=` followed by that number. */
  lemma LineKeysSource(line: string)
    requires LineKeys(line).Ok? && LineKeys(line).value != 0
    ensures var rec := RecordOf(line);
      && rec.Some? && HasPrefix(rec.value.key, "db")
      && var first := SplitN(rec.value.value, ",", 3)[0];
         |SplitN(first, "=", 2)| == 2 && Atoi(SplitN(first, "=", 2)[1]) == Some(LineKeys(line).value)
  {
  }

  /** A `db` record whose keys and expires fields both carry `=` and an
      integer adds the keys number. */
  lemma DbLineAddsKeys(line: string, keys: int64)
    requires RecordOf(line).Some? && HasPrefix(RecordOf(line).value.key, "db")
    requires var kv := SplitN(RecordOf(line).value.value, ",", 3);
      && |kv| >= 2
      && |SplitN(kv[0], "=", 2)| == 2 && Atoi(SplitN(kv[0], "=", 2)[1]) == Some(keys)
      && |SplitN(kv[1], "=", 2)| == 2 && Atoi(SplitN(kv[1], "=", 2)[1]).Some?
    ensures LineKeys(line) == Ok(keys)
  {
  }

  /** Lines that are not `db` records add nothing and cannot fail. */
  lemma OtherLinesIgnored(line: string)
    requires RecordOf(line).None? || !HasPrefix(RecordOf(line).value.key, "db")
    ensures LineKeys(line) == Ok(0)
  {
  }

  /** A record whose key starts with `db`: the lines that count keys. */
  predicate IsDbRecord(line: string) {
    RecordOf(line).Some? && HasPrefix(RecordOf(line).value.key, "db")
  }

  /** The comma fields of a `db` record's value, at most three. */
  function DbFields(line: string): seq<string>
    requires IsDbRecord(line)
  {
    SplitN(RecordOf(line).value.value, ",", 3)
  }

  /** How a `db` line fails. It panics exactly when the expires field is
      missing, when the keys field has no `=`, or when the keys number parses
      but the expires field has no `=`. It exits exactly when both fields
      and the keys `=` are present and the keys text is no integer, or the
      expires field has its `=` and its text is no integer. Nothing else
      makes it fail. */
  lemma DbLineFaults(line: string)
    requires IsDbRecord(line)
    ensures var kv := DbFields(line);
      (LineKeys(line).Err? && LineKeys(line).fault.IndexOutOfRange?) <==>
        (|kv| < 2 || |SplitN(kv[0], "=", 2)| < 2
         || (Atoi(SplitN(kv[0], "=", 2)[1]).Some? && |SplitN(kv[1], "=", 2)| < 2))
    ensures var kv := DbFields(line);
      LineKeys(line) == Err(Exit(1)) <==>
        (|kv| >= 2 && |SplitN(kv[0], "=", 2)| == 2
         && (Atoi(SplitN(kv[0], "=", 2)[1]).None?
             || (|SplitN(kv[1], "=", 2)| == 2 && Atoi(SplitN(kv[1], "=", 2)[1]).None?)))
    ensures LineKeys(line).Err? ==> LineKeys(line).fault.IndexOutOfRange? || LineKeys(line).fault == Exit(1)
  {
  }

  /** A `db` line whose keys text, or whose expires text, is no integer
      ends the program with exit status 1 when no earlier line failed,
      whatever the later lines hold. */
  lemma BadCountExits(text: string, i: nat)
    requires i < |Split(text, "\r\n")| && IsDbRecord(Split(text, "\r\n")[i])
    requires var kv := DbFields(Split(text, "\r\n")[i]);
      && |kv| >= 2 && |SplitN(kv[0], "=", 2)| == 2
      && (Atoi(SplitN(kv[0], "=", 2)[1]).None?
          || (|SplitN(kv[1], "=", 2)| == 2 && Atoi(SplitN(kv[1], "=", 2)[1]).None?))
    requires forall j :: 0 <= j < i ==> LineKeys(Split(text, "\r\n")[j]).Ok?
    ensures KeysStat(text) == Err(Exit(1))
  {
    DbLineFaults(Split(text, "\r\n")[i]);
    TraverseFirstErr(Split(text, "\r\n"), LineKeys, i);
  }

  /** Adding a line to the reply adds its keys to the total. */
  lemma {:induction false} KeysStatAppend(lines: seq<string>, line: string)
    requires Traverse(lines, LineKeys).Ok? && LineKeys(line).Ok?
    ensures Traverse(lines + [line], LineKeys).Ok?
    ensures Sum(Traverse(lines + [line], LineKeys).value) == Sum(Traverse(lines, LineKeys).value) + LineKeys(line).value
  {
    assert (lines + [line])[..|lines|] == lines;
  }

  /** The left fold of the info-line parser: every record line in turn
      sets its key, so a later line overwrites an earlier one. */
  function InfoRecords(lines: seq<string>): map<string, string> {
    if lines == [] then map[]
    else
      var stat := InfoRecords(lines[..|lines| - 1]);
      match RecordOf(lines[|lines| - 1])
      case None => stat
      case Some(Record(key, value)) => stat[key := value]
  }

  /** statsMemoryInShard's result: the `used_memory` value, or "" as Go's
      map lookup gives for a missing key. */
  function UsedMemory(text: string): string {
    var stat := InfoRecords(Split(text, "\r\n"));
    if "used_memory" in stat then stat["used_memory"] else ""
  }

  /** The statsMemoryInShard closure: fill a map from the INFO memory reply
      of the node's own address. */
  method StatsMemoryInShard(node: Rcc.ClusterNode, redis: Redis) returns (usedMemory: string)
    ensures usedMemory == UsedMemory(redis.memory(AddrOf(node)))
  {
    var stat: map<string, string> := map[];
    var lines := Split(redis.memory(AddrOf(node)), "\r\n");
    for i := 0 to |lines|
      invariant stat == InfoRecords(lines[..i])
    {
      assert lines[..i + 1][..i] == lines[..i];
      var line := lines[i];
      if HasPrefix(line, "#") {
        continue;
      }
      var record := SplitN(line, ":", 2);
      if |record| < 2 {
        continue;
      }
      stat := stat[record[0] := record[1]];
    }
    assert lines[..|lines|] == lines;
    usedMemory := if "used_memory" in stat then stat["used_memory"] else "";
  }

  predicate RecordsKey(line: string, key: string) {
    RecordOf(line).Some? && RecordOf(line).value.key == key
  }

  /** A key is recorded exactly when some line is a record for it. */
  lemma {:induction false} InfoRecordsDomain(lines: seq<string>, key: string)
    ensures key in InfoRecords(lines) <==> exists i :: 0 <= i < |lines| && RecordsKey(lines[i], key)
    decreases |lines|
  {
    if lines != [] {
      var init := lines[..|lines| - 1];
      InfoRecordsDomain(init, key);
      forall i | 0 <= i < |init| ensures init[i] == lines[i] {}
    }
  }

  /** The value recorded for a key is the one of the last line that is a
      record for it; earlier lines for the same key are overwritten. */
  lemma {:induction false} InfoRecordsLastWins(lines: seq<string>, key: string, i: nat)
    requires i < |lines| && RecordsKey(lines[i], key)
    requires forall j :: i < j < |lines| ==> !RecordsKey(lines[j], key)
    ensures key in InfoRecords(lines) && InfoRecords(lines)[key] == RecordOf(lines[i]).value.value
    decreases |lines|
  {
    var init := lines[..|lines| - 1];
    if i < |lines| - 1 {
      assert init[i] == lines[i];
      forall j | i < j < |init| ensures !RecordsKey(init[j], key) {
        assert init[j] == lines[j];
      }
      InfoRecordsLastWins(init, key, i);
      assert !RecordsKey(lines[|lines| - 1], key);
    }
  }

  /** With no `used_memory` record the result is the empty string. */
  lemma UsedMemoryMissing(text: string)
    requires forall j :: 0 <= j < |Split(text, "\r\n")| ==> !RecordsKey(Split(text, "\r\n")[j], "used_memory")
    ensures UsedMemory(text) == ""
  {
    InfoRecordsDomain(Split(text, "\r\n"), "used_memory");
  }

  // --------------------------------------------------------- statsKeyInShard

  datatype ShardStats = ShardStats(slotStat: int64, keysStat: int64, pl: seq<Pair>)

  /** statsKeyInShard, with the topology passed as `nodes`. The client is
      opened on `node`'s own address; the slots counted are those of its
      master; slotStat is never assigned and stays 0. */
  method StatsKeyInShard(nodes: seq<Rcc.ClusterNode>, node: Rcc.ClusterNode, rank: int64, redis: Redis)
    returns (r: Result<ShardStats>)
    ensures r.Err? <==> KeysStat(redis.keyspace(AddrOf(node))).Err?
    ensures r.Err? ==> r.fault == KeysStat(redis.keyspace(AddrOf(node))).fault
    ensures r.Ok? ==>
      var pairs := SlotPairs(MasterOf(nodes, node).slots, CountIn(redis, AddrOf(node)));
      && r.value.slotStat == 0
      && r.value.keysStat == KeysStat(redis.keyspace(AddrOf(node))).value
      && (rank <= 0 ==> r.value.pl == pairs)
      && (rank > 0 ==> NonIncreasing(r.value.pl) && multiset(r.value.pl) == multiset(pairs))
  {
    var addr := AddrOf(node);
    var master := GetMasterNode(nodes, node);
    var pl := EnumerateSlots(master.slots, CountIn(redis, addr));
    if rank > 0 {
      var list := new Pair[|pl|](k requires 0 <= k < |pl| => pl[k]);
      assert list[..] == pl;
      RankBySlotCount(list);
      pl := list[..];
    }
    var keysStat := KeysInKeyspace(redis.keyspace(addr));
    if keysStat.Err? {
      return Err(keysStat.fault);
    }
    return Ok(ShardStats(0, keysStat.value, pl));
  }

  // -------------------------------------------------------------- main loop

  /** One shard's report line and its ranked slots. */
  datatype ShardReport = ShardReport(
    id: string, host: string, port: uint64, flags: string,
    slots: int64, count: int64, avg: int64, usedMemory: string, top: seq<Pair>)

  /** The flag list as printed: the flags joined by commas. */
  method FlagLabel(flags: seq<string>) returns (shown: string)
    ensures shown == Join(flags, ",")
  {
    shown := "";
    for i := 0 to |flags|
      invariant i < |flags| ==> shown == if i == 0 then "" else Join(flags[..i], ",") + ","
      invariant i == |flags| ==> shown == Join(flags, ",")
    {
      JoinSnoc(flags[..i], flags[i], ",");
      assert flags[..i + 1] == flags[..i] + [flags[i]];
      assert flags[..|flags|] == flags;
      if |flags| - 1 != i {
        shown := shown + flags[i] + ",";
      } else {
        shown := shown + flags[i];
      }
    }
  }

  /** What main prints for a master after statsKeyInShard: nothing when
      slotStat is 0; otherwise the totals, the average in Go's truncating
      division, and the first `rank` pairs. */
  function EmitShard(node: Rcc.ClusterNode, stats: ShardStats, rank: int64, usedMemory: string): (report: Option<ShardReport>)
    ensures report.None? <==> stats.slotStat == 0
    ensures report.Some? ==>
      var n := if rank <= 0 then 0 else if rank < |stats.pl| then rank as int else |stats.pl|;
      && report.value.top == stats.pl[..n]
      && report.value.avg == GoQuo(stats.keysStat, stats.slotStat)
  {
    if stats.slotStat == 0 then None
    else
      var n := if rank <= 0 then 0 else if rank < |stats.pl| then rank as int else |stats.pl|;
      Some(ShardReport(node.id, node.host, node.port, Join(node.flags, ","), stats.slotStat,
                       stats.keysStat, GoQuo(stats.keysStat, stats.slotStat), usedMemory, stats.pl[..n]))
  }

  function Emitted<T>(o: Option<T>): seq<T> {
    match o
    case None => []
    case Some(x) => [x]
  }

  predicate KeyspaceOk(node: Rcc.ClusterNode, redis: Redis) {
    KeysStat(redis.keyspace(AddrOf(node))).Ok?
  }

  /** What one node contributes to main's run: a master whose INFO
      keyspace reply cannot be read stops the run with that fault; every
      other node contributes no report. */
  function NodeOutcome(node: Rcc.ClusterNode, redis: Redis): Result<seq<ShardReport>> {
    if "master" in node.flags then
      match KeysStat(redis.keyspace(AddrOf(node)))
      case Ok(_) => Ok([])
      case Err(f) => Err(f)
    else Ok([])
  }

  function Outcomes(redis: Redis): Rcc.ClusterNode -> Result<seq<ShardReport>> {
    node => NodeOutcome(node, redis)
  }

  /** The outcome of main's loop over the topology: the first fault, or
      the concatenation of what every node contributes. */
  function RunOutcome(cluster: seq<Rcc.ClusterNode>, redis: Redis): Result<seq<ShardReport>> {
    var parts :- Traverse(cluster, Outcomes(redis));
    Ok(Flatten(parts))
  }

  function Flatten(parts: seq<seq<ShardReport>>): seq<ShardReport> {
    if parts == [] then [] else Flatten(parts[..|parts| - 1]) + parts[|parts| - 1]
  }

  /** main's inner loop: statsKeyInShard runs once for every `master` flag
      of the node, and the guard drops every shard it returns. */
  method NodeReports(cluster: seq<Rcc.ClusterNode>, node: Rcc.ClusterNode, rank: int64, redis: Redis)
    returns (r: Result<seq<ShardReport>>)
    ensures r == NodeOutcome(node, redis)
  {
    var reports: seq<ShardReport> := [];
    for k := 0 to |node.flags|
      invariant reports == []
      invariant "master" in node.flags[..k] ==> KeyspaceOk(node, redis)
    {
      assert node.flags[..k + 1] == node.flags[..k] + [node.flags[k]];
      if node.flags[k] == "master" {
        var stats := StatsKeyInShard(cluster, node, rank, redis);
        if stats.Err? {
          return Err(stats.fault);
        }
        reports := reports + Emitted(EmitShard(node, stats.value, rank, UsedMemory(redis.memory(AddrOf(node)))));
      }
    }
    assert node.flags[..|node.flags|] == node.flags;
    return Ok(reports);
  }

  /** main's loop over the topology. */
  method ShardReports(cluster: seq<Rcc.ClusterNode>, rank: int64, redis: Redis) returns (r: Result<seq<ShardReport>>)
    ensures r == RunOutcome(cluster, redis)
  {
    var reports: seq<ShardReport> := [];
    ghost var parts: seq<seq<ShardReport>> := [];
    for i := 0 to |cluster|
      invariant Traverse(cluster[..i], Outcomes(redis)) == Ok(parts)
      invariant reports == Flatten(parts)
    {
      var shard := NodeReports(cluster, cluster[i], rank, redis);
      if shard.Err? {
        TraversePrefixErr(cluster, Outcomes(redis), i, parts);
        return Err(shard.fault);
      }
      TraverseSnoc(cluster, Outcomes(redis), i, parts);
      assert (parts + [shard.value])[..|parts|] == parts;
      reports := reports + shard.value;
      parts := parts + [shard.value];
    }
    assert cluster[..|cluster|] == cluster;
    return Ok(reports);
  }

  /** Flattening outcomes that are all empty yields nothing. */
  lemma {:induction false} FlattenEmpty(parts: seq<seq<ShardReport>>)
    requires forall k :: 0 <= k < |parts| ==> parts[k] == []
    ensures Flatten(parts) == []
  {
    if parts != [] {
      FlattenEmpty(parts[..|parts| - 1]);
    }
  }

  /** Since slotStat is always 0, no shard is ever reported: the run either
      ends with nothing printed, exactly when every master's INFO keyspace
      reply can be read, or stops with the fault of the first master whose
      reply cannot. */
  lemma RunReportsNothing(cluster: seq<Rcc.ClusterNode>, redis: Redis)
    ensures RunOutcome(cluster, redis).Ok? <==>
      forall i :: 0 <= i < |cluster| && "master" in cluster[i].flags ==> KeyspaceOk(cluster[i], redis)
    ensures RunOutcome(cluster, redis).Ok? ==> RunOutcome(cluster, redis).value == []
    ensures RunOutcome(cluster, redis).Err? ==> exists i :: (0 <= i < |cluster| && "master" in cluster[i].flags
      && KeysStat(redis.keyspace(AddrOf(cluster[i]))) == Err(RunOutcome(cluster, redis).fault)
      && forall j :: 0 <= j < i && "master" in cluster[j].flags ==> KeyspaceOk(cluster[j], redis))
  {
    var t := Traverse(cluster, Outcomes(redis));
    if t.Ok? {
      forall k | 0 <= k < |t.value| ensures t.value[k] == [] {
        assert Outcomes(redis)(cluster[k]) == Ok(t.value[k]);
      }
      FlattenEmpty(t.value);
      forall i | 0 <= i < |cluster| && "master" in cluster[i].flags ensures KeyspaceOk(cluster[i], redis) {
        assert Outcomes(redis)(cluster[i]).Ok?;
      }
    } else {
      var i :| 0 <= i < |cluster| && Outcomes(redis)(cluster[i]) == Err(t.fault)
        && forall j :: 0 <= j < i ==> Outcomes(redis)(cluster[j]).Ok?;
      forall j | 0 <= j < i && "master" in cluster[j].flags ensures KeyspaceOk(cluster[j], redis) {
        assert Outcomes(redis)(cluster[j]).Ok?;
      }
      assert "master" in cluster[i].flags;
    }
  }

  /** Had slotStat been set, the guard would still keep the division safe:
      a report exists only for a non-zero slot count, and its average is
      the truncated quotient. */
  lemma ReportedAverage(node: Rcc.ClusterNode, stats: ShardStats, rank: int64, usedMemory: string)
    requires stats.slotStat != 0
    requires stats.keysStat != MinInt64 || stats.slotStat != -1
    ensures EmitShard(node, stats, rank, usedMemory).Some?
    ensures var avg := EmitShard(node, stats, rank, usedMemory).value.avg;
      Abs(stats.keysStat - avg * stats.slotStat) < Abs(stats.slotStat)
    ensures |EmitShard(node, stats, rank, usedMemory).value.top| <= if rank < 0 then 0 else rank as int
  {
  }
}
