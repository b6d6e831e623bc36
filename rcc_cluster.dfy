/** rcc/cluster.go: the parser for the `CLUSTER NODES` reply, with the
    slot-token grammar of master lines, and the emptiness precondition a
    node must meet before it joins a cluster.

    The Redis replies are inputs (`None` when the command itself failed)
    and the reverse DNS lookup is an oracle. */
module Rcc {
  import opened Faults
  import opened GoStrings

  /** One slot token of a master line: a range `start-end` (`from` empty),
      or a bracketed transition marker (`end` 0, `from` the peer). */
  datatype Slot = Slot(start: uint64, end: uint64, from: string)

  datatype ClusterNode = ClusterNode(
    id: string,
    ip: string,
    host: string,
    port: uint64,
    flags: seq<string>,
    slave: bool,
    master: bool,
    slaveOf: string,
    pingSent: uint64,
    pongRecv: uint64,
    configEpoch: uint64,
    linkState: string,        // "connected" or "disconnected"
    slots: seq<Slot>)

  /** net.LookupAddr: `None` when the lookup fails, otherwise the names. */
  type Resolver = string -> Option<seq<string>>

  /** The host recorded for `ip`: the first name found, else `ip` itself. */
  function HostOf(ip: string, lookup: Resolver): string {
    match lookup(ip)
    case Some(names) => if |names| == 0 then ip else names[0]
    case None => ip
  }

  /** strconv.ParseUint(s, 10, 64), failing with the offending text. */
  function Uint(s: string): Result<uint64> {
    match ParseUint(s)
    case Some(v) => Ok(v)
    case None => Err(NumError(s))
  }

  /** The lines of a reply: trimmed, then cut at every newline. */
  function Lines(text: string): seq<string> {
    Split(TrimSpace(text), "\n")
  }

  // ------------------------------------------------------------ the grammar

  /** One slot token, as the code reads it. A `[`-prefixed token loses its
      brackets and is cut at "-<-"; the peer is taken from the THIRD piece.
      Any other token is cut at "-" and both bounds must be numbers. The
      first piece is read first, so its fault decides. */
  function SlotFromToken(token: string): (r: Result<Slot>)
    ensures HasPrefix(token, "[") ==>
      var pieces := Split(TrimRightChar(TrimLeftChar(token, '['), ']'), "-<-");
      && (r.Ok? <==> ParseUint(pieces[0]).Some? && |pieces| >= 3)
      && (ParseUint(pieces[0]).None? ==> r == Err(NumError(pieces[0])))
      && (ParseUint(pieces[0]).Some? && |pieces| < 3 ==> r == Err(IndexOutOfRange(2, |pieces|)))
    ensures !HasPrefix(token, "[") ==>
      var pieces := Split(token, "-");
      && (r.Ok? <==> ParseUint(pieces[0]).Some? && |pieces| >= 2 && ParseUint(pieces[1]).Some?)
      && (ParseUint(pieces[0]).None? ==> r == Err(NumError(pieces[0])))
      && (ParseUint(pieces[0]).Some? && |pieces| < 2 ==> r == Err(IndexOutOfRange(1, |pieces|)))
      && (ParseUint(pieces[0]).Some? && |pieces| >= 2 && ParseUint(pieces[1]).None? ==> r == Err(NumError(pieces[1])))
  {
    if HasPrefix(token, "[") then
      MarkerSlot(Split(TrimRightChar(TrimLeftChar(token, '['), ']'), "-<-"))
    else
      RangeSlot(Split(token, "-"))
  }

  /** A marker's pieces: the slot number first, the peer third. */
  function MarkerSlot(s: seq<string>): Result<Slot>
    requires |s| >= 1
  {
    var start :- Uint(s[0]);
    var from :- At(s, 2);
    Ok(Slot(start, 0, from))
  }

  /** A range's pieces: both bounds, as numbers. */
  function RangeSlot(s: seq<string>): Result<Slot>
    requires |s| >= 1
  {
    var start :- Uint(s[0]);
    var endText :- At(s, 1);
    var end :- Uint(endText);
    Ok(Slot(start, end, ""))
  }

  /** One line of the reply:
      `id ip:port flags slaveof ping-sent pong-recv config-epoch link-state slot...`
      Fields are read in this order and the first one missing or not a
      number decides the fault. Slot tokens are read for masters only. */
  function NodeFromLine(line: string, lookup: Resolver): Result<ClusterNode> {
    var rows := Split(line, " ");
    var address :- At(rows, 1);
    var ip := Split(address, ":")[0];
    var portText :- At(Split(address, ":"), 1);
    var port :- Uint(portText);
    var flagField :- At(rows, 2);
    var flags := Split(flagField, ",");
    var slaveOf :- At(rows, 3);
    var pingText :- At(rows, 4);
    var pingSent :- Uint(pingText);
    var pongText :- At(rows, 5);
    var pongRecv :- Uint(pongText);
    var epochText :- At(rows, 6);
    var configEpoch :- Uint(epochText);
    var linkState :- At(rows, 7);
    var master := "master" in flags;
    var slots :- if master && |rows| > 8 then Traverse(rows[8..], SlotFromToken) else Ok([]);
    Ok(ClusterNode(rows[0], ip, HostOf(ip, lookup), port, flags, "slave" in flags, master,
                   slaveOf, pingSent, pongRecv, configEpoch, linkState, slots))
  }

  function NodeParser(lookup: Resolver): string -> Result<ClusterNode> {
    line => NodeFromLine(line, lookup)
  }

  /** The topology a `CLUSTER NODES` reply describes: one node per line, in
      order, or the fault of the first line that cannot be read. */
  function Topology(reply: Option<string>, lookup: Resolver): Result<seq<ClusterNode>> {
    match reply
    case None => Err(RequestFailed)
    case Some(text) => Traverse(Lines(text), NodeParser(lookup))
  }

  // ------------------------------------------------------------ the parser

  /** The body of ClusterNodes' loop: fill one node field by field. */
  method ParseNode(line: string, lookup: Resolver) returns (r: Result<ClusterNode>)
    ensures r == NodeFromLine(line, lookup)
  {
    var rows := Split(line, " ");
    var id := rows[0];
    if |rows| < 2 {
      return Err(IndexOutOfRange(1, |rows|));
    }
    var address := Split(rows[1], ":");
    var ip := address[0];
    var host := HostOf(ip, lookup);
    if |address| < 2 {
      return Err(IndexOutOfRange(1, |address|));
    }
    var port := ParseUint(address[1]);
    if port.None? {
      return Err(NumError(address[1]));
    }
    if |rows| < 3 {
      return Err(IndexOutOfRange(2, |rows|));
    }
    var flags := Split(rows[2], ",");
    var master, slave := false, false;
    for i := 0 to |flags|
      invariant master <==> "master" in flags[..i]
      invariant slave <==> "slave" in flags[..i]
    {
      assert flags[..i + 1] == flags[..i] + [flags[i]];
      if flags[i] == "master" {
        master := true;
      } else if flags[i] == "slave" {
        slave := true;
      }
    }
    assert flags[..|flags|] == flags;
    if |rows| < 4 {
      return Err(IndexOutOfRange(3, |rows|));
    }
    var slaveOf := rows[3];
    if |rows| < 5 {
      return Err(IndexOutOfRange(4, |rows|));
    }
    var pingSent := ParseUint(rows[4]);
    if pingSent.None? {
      return Err(NumError(rows[4]));
    }
    if |rows| < 6 {
      return Err(IndexOutOfRange(5, |rows|));
    }
    var pongRecv := ParseUint(rows[5]);
    if pongRecv.None? {
      return Err(NumError(rows[5]));
    }
    if |rows| < 7 {
      return Err(IndexOutOfRange(6, |rows|));
    }
    var configEpoch := ParseUint(rows[6]);
    if configEpoch.None? {
      return Err(NumError(rows[6]));
    }
    if |rows| < 8 {
      return Err(IndexOutOfRange(7, |rows|));
    }
    var linkState := rows[7];
    var slots: seq<Slot> := [];
    if master && |rows| > 8 {
      var tokens := rows[8..];
      for j := 0 to |tokens|
        invariant Traverse(tokens[..j], SlotFromToken) == Ok(slots)
      {
        var slot := SlotFromToken(tokens[j]);
        if slot.Err? {
          TraversePrefixErr(tokens, SlotFromToken, j, slots);
          return Err(slot.fault);
        }
        TraverseSnoc(tokens, SlotFromToken, j, slots);
        slots := slots + [slot.value];
      }
      assert tokens[..|tokens|] == tokens;
    }
    return Ok(ClusterNode(id, ip, host, port.value, flags, slave, master, slaveOf,
                          pingSent.value, pongRecv.value, configEpoch.value, linkState, slots));
  }

  /** ClusterNodes' loop: parse the lines in order, appending each node,
      and give up on the first line that fails. */
  method ParseLines(lines: seq<string>, lookup: Resolver) returns (cluster: Result<seq<ClusterNode>>)
    ensures cluster == Traverse(lines, NodeParser(lookup))
  {
    var nodes: seq<ClusterNode> := [];
    for i := 0 to |lines|
      invariant Traverse(lines[..i], NodeParser(lookup)) == Ok(nodes)
    {
      var node := ParseNode(lines[i], lookup);
      if node.Err? {
        TraversePrefixErr(lines, NodeParser(lookup), i, nodes);
        return Err(node.fault);
      }
      TraverseSnoc(lines, NodeParser(lookup), i, nodes);
      nodes := nodes + [node.value];
    }
    assert lines[..|lines|] == lines;
    return Ok(nodes);
  }

  /** ClusterNodes: ask for the reply, then parse it line by line. */
  method ClusterNodes(reply: Option<string>, lookup: Resolver) returns (cluster: Result<seq<ClusterNode>>)
    ensures cluster == Topology(reply, lookup)
  {
    if reply.None? {
      return Err(RequestFailed);
    }
    cluster := ParseLines(Lines(reply.value), lookup);
  }

  // ------------------------------------------------- properties of the parser

  /** A successful parse has exactly one node per line of the trimmed reply
      (one more than the newlines in it), in input order, with nothing
      merged or dropped. */
  lemma TopologyOneNodePerLine(text: string, lookup: Resolver)
    requires Topology(Some(text), lookup).Ok?
    ensures var nodes := Topology(Some(text), lookup).value;
      && |nodes| == |Lines(text)| == multiset(TrimSpace(text))['\n'] + 1
      && forall i :: 0 <= i < |nodes| ==> NodeFromLine(Lines(text)[i], lookup) == Ok(nodes[i])
  {
    SplitCount(TrimSpace(text), '\n');
  }

  /** The whole reply is rejected as soon as one line is, with that line's
      fault; no partial topology exists. */
  lemma TopologyFailsOnFirstBadLine(text: string, lookup: Resolver, i: nat)
    requires i < |Lines(text)| && NodeFromLine(Lines(text)[i], lookup).Err?
    requires forall j :: 0 <= j < i ==> NodeFromLine(Lines(text)[j], lookup).Ok?
    ensures Topology(Some(text), lookup) == Err(NodeFromLine(Lines(text)[i], lookup).fault)
  {
    TraverseFirstErr(Lines(text), NodeParser(lookup), i);
  }

  /** What a parsed node holds, field by field. Every numeric field parsed
      as an unsigned 64-bit decimal; the roles come from exact flags and are
      independent of each other; the host falls back to the IP. */
  lemma ParsedNodeFields(line: string, lookup: Resolver, n: ClusterNode)
    requires NodeFromLine(line, lookup) == Ok(n)
    ensures var rows := Split(line, " ");
      && |rows| >= 8
      && n.id == rows[0]
      && |Split(rows[1], ":")| >= 2
      && n.ip == Split(rows[1], ":")[0] && Index(n.ip, ":") == -1
      && ParseUint(Split(rows[1], ":")[1]) == Some(n.port)
      && n.flags == Split(rows[2], ",")
      && (n.master <==> exists k :: 0 <= k < |n.flags| && n.flags[k] == "master")
      && (n.slave <==> exists k :: 0 <= k < |n.flags| && n.flags[k] == "slave")
      && n.slaveOf == rows[3]
      && ParseUint(rows[4]) == Some(n.pingSent)
      && ParseUint(rows[5]) == Some(n.pongRecv)
      && ParseUint(rows[6]) == Some(n.configEpoch)
      && n.linkState == rows[7]
      && (lookup(n.ip).None? || lookup(n.ip) == Some([]) ==> n.host == n.ip)
      && (lookup(n.ip).Some? && lookup(n.ip).value != [] ==> n.host == lookup(n.ip).value[0])
  {
    SplitPartsLackSep(Split(line, " ")[1], ":", 0);
  }

  /** Slots come only from a master line with more than eight fields: one
      per token from field 8 on, in order. Every other node has none. */
  lemma SlotsOfParsedNode(line: string, lookup: Resolver, n: ClusterNode)
    requires NodeFromLine(line, lookup) == Ok(n)
    ensures var rows := Split(line, " ");
      && (!n.master || |rows| <= 8 ==> n.slots == [])
      && (n.master && |rows| > 8 ==>
            |n.slots| == |rows| - 8
            && forall k :: 0 <= k < |n.slots| ==> SlotFromToken(rows[8 + k]) == Ok(n.slots[k]))
  {
    var rows := Split(line, " ");
    if n.master && |rows| > 8 {
      forall k | 0 <= k < |n.slots| ensures SlotFromToken(rows[8 + k]) == Ok(n.slots[k]) {
        assert rows[8..][k] == rows[8 + k];
      }
    }
  }

  /** Which lines the grammar accepts: eight fields, an address with a
      numeric port, three numeric counters and, on a master line with slot
      tokens, every token a valid slot. Nothing else about the line is
      checked. */
  lemma AcceptedLines(line: string, lookup: Resolver)
    ensures var rows := Split(line, " ");
      NodeFromLine(line, lookup).Ok? <==>
        && |rows| >= 8
        && |Split(rows[1], ":")| >= 2 && IsNumber(Split(rows[1], ":")[1])
        && IsNumber(rows[4]) && IsNumber(rows[5]) && IsNumber(rows[6])
        && ("master" in Split(rows[2], ",") && |rows| > 8 ==>
              forall k :: 8 <= k < |rows| ==> SlotFromToken(rows[k]).Ok?)
  {
    var rows := Split(line, " ");
    if |rows| > 8 {
      forall k | 0 <= k < |rows[8..]| ensures rows[8..][k] == rows[8 + k] {
      }
    }
  }

  // ------------------------------------------------- properties of the tokens

  /** A base-10 numeral that fits in 64 bits. */
  predicate IsNumber(s: string) {
    ParseUint(s).Some?
  }

  /** Characters a node id may hold for the marker lemmas below: none of
      the grammar's punctuation. */
  predicate PlainId(id: string) {
    forall j :: 0 <= j < |id| ==> id[j] != '-' && id[j] != '<' && id[j] != ']'
  }

  /** `a-b` is the stable range from a to b. */
  lemma PlainRangeToken(a: string, b: string)
    requires IsNumber(a) && IsNumber(b)
    ensures SlotFromToken(a + "-" + b) == Ok(Slot(DecimalValue(a), DecimalValue(b), ""))
  {
    var token := a + "-" + b;
    assert token[0] == a[0] && IsDigit(a[0]);
    NoPrefixByFirstChar(token, "[");
    SplitAfterClearPrefix(a, "-", b);
    NoIndexWithoutChar(b, "-", '-');
    SplitWithoutSep(b, "-");
    assert Split(token, "-") == [a, b];
    assert Uint(a) == Ok(DecimalValue(a));
    assert Uint(b) == Ok(DecimalValue(b));
  }

  /** A bare slot number `n` has no second bound: the code indexes past the
      end of the split and panics. */
  lemma SingleSlotTokenPanics(n: string)
    requires IsNumber(n)
    ensures SlotFromToken(n) == Err(IndexOutOfRange(1, 1))
  {
    assert IsDigit(n[0]);
    NoPrefixByFirstChar(n, "[");
    NoIndexWithoutChar(n, "-", '-');
    SplitWithoutSep(n, "-");
  }

  /** The brackets of a marker are stripped: `[` + body + `]` becomes body
      when body neither starts with `[` nor ends with `]`. */
  lemma StripBrackets(body: string)
    requires |body| > 0 && body[0] != '[' && body[|body| - 1] != ']'
    ensures TrimRightChar(TrimLeftChar("[" + body + "]", '['), ']') == body
  {
    var token := "[" + body + "]";
    assert token[1] == body[0];
    TrimLeftOne(token, '[');
    var left := body + "]";
    assert token[1..] == left;
    assert left[|left| - 2] == body[|body| - 1];
    TrimRightOne(left, ']');
    assert left[..|left| - 1] == body;
  }

  /** A bracketed token is read from the pieces of its body. */
  lemma MarkerTokenPieces(body: string)
    requires |body| > 0 && body[0] != '[' && body[|body| - 1] != ']'
    ensures SlotFromToken("[" + body + "]") == MarkerSlot(Split(body, "-<-"))
  {
    assert HasPrefix("[" + body + "]", "[");
    StripBrackets(body);
  }

  /** The body of an importing marker is cut into the number and the id. */
  lemma ImportingPieces(n: string, id: string)
    requires IsNumber(n) && PlainId(id)
    ensures Split(n + "-<-" + id, "-<-") == [n, id]
  {
    SplitAfterClearPrefix(n, "-<-", id);
    NoIndexWithoutChar(id, "-<-", '-');
    SplitWithoutSep(id, "-<-");
  }

  /** An importing marker `[n-<-id]` splits into two pieces, so reading the
      third one panics: the marker form never yields a slot with its peer. */
  lemma ImportingMarkerPanics(n: string, id: string)
    requires IsNumber(n) && PlainId(id)
    ensures SlotFromToken("[" + n + "-<-" + id + "]") == Err(IndexOutOfRange(2, 2))
  {
    var body := n + "-<-" + id;
    assert "[" + n + "-<-" + id + "]" == "[" + body + "]";
    assert body[0] == n[0];
    assert body[|body| - 1] == if id == [] then '-' else id[|id| - 1];
    MarkerTokenPieces(body);
    ImportingPieces(n, id);
    assert Uint(n) == Ok(DecimalValue(n));
  }

  /** The body of a migrating marker holds no "-<-" and is no number. */
  lemma MigratingPieces(n: string, id: string)
    requires IsNumber(n) && PlainId(id)
    ensures Split(n + "->-" + id, "-<-") == [n + "->-" + id]
    ensures Uint(n + "->-" + id) == Err(NumError(n + "->-" + id))
  {
    var body := n + "->-" + id;
    assert forall j :: 0 <= j < |body| ==> body[j] != '<';
    NoIndexWithoutChar(body, "-<-", '<');
    SplitWithoutSep(body, "-<-");
    assert !IsDigit(body[|n|]);
  }

  /** A migrating marker `[n->-id]` holds no "-<-", so its start is the
      whole body, which is not a number. */
  lemma MigratingMarkerRejected(n: string, id: string)
    requires IsNumber(n) && PlainId(id)
    ensures SlotFromToken("[" + n + "->-" + id + "]") == Err(NumError(n + "->-" + id))
  {
    var body := n + "->-" + id;
    assert "[" + n + "->-" + id + "]" == "[" + body + "]";
    assert body[0] == n[0];
    assert body[|body| - 1] == if id == [] then '-' else id[|id| - 1];
    MarkerTokenPieces(body);
    MigratingPieces(n, id);
  }

  /** What any accepted token yields: a marker always has end 0 and its
      start is the number before the first "-<-"; a range has an empty
      peer and both bounds read from the pieces around the first "-". */
  lemma SlotTokenShape(token: string, s: Slot)
    requires SlotFromToken(token) == Ok(s)
    ensures HasPrefix(token, "[") ==>
      var pieces := Split(TrimRightChar(TrimLeftChar(token, '['), ']'), "-<-");
      s.end == 0 && ParseUint(pieces[0]) == Some(s.start) && |pieces| >= 3 && s.from == pieces[2]
    ensures !HasPrefix(token, "[") ==>
      var pieces := Split(token, "-");
      && s.from == "" && |pieces| >= 2
      && ParseUint(pieces[0]) == Some(s.start) && ParseUint(pieces[1]) == Some(s.end)
  {
    if HasPrefix(token, "[") {
      MarkerSlotShape(Split(TrimRightChar(TrimLeftChar(token, '['), ']'), "-<-"), s);
    } else {
      RangeSlotShape(Split(token, "-"), s);
    }
  }

  lemma MarkerSlotShape(pieces: seq<string>, s: Slot)
    requires |pieces| >= 1 && MarkerSlot(pieces) == Ok(s)
    ensures s.end == 0 && ParseUint(pieces[0]) == Some(s.start) && |pieces| >= 3 && s.from == pieces[2]
  {
  }

  lemma RangeSlotShape(pieces: seq<string>, s: Slot)
    requires |pieces| >= 1 && RangeSlot(pieces) == Ok(s)
    ensures s.from == "" && |pieces| >= 2
    ensures ParseUint(pieces[0]) == Some(s.start) && ParseUint(pieces[1]) == Some(s.end)
  {
  }

  /** The full range of a single-master cluster parses. */
  lemma FullRangeExample()
    ensures SlotFromToken("0-16383") == Ok(Slot(0, 16383, ""))
  {
    assert DecimalValue("0") == 0;
    assert DecimalValue("16383") == 16383 by {
      assert "16383"[..4] == "1638" && "1638"[..3] == "163" && "163"[..2] == "16" && "16"[..1] == "1";
    }
    assert "0" + "-" + "16383" == "0-16383";
    PlainRangeToken("0", "16383");
  }

  /** An importing marker as the server writes it panics the parser. */
  lemma ImportingMarkerExample()
    ensures SlotFromToken("[16384-<-abc123]") == Err(IndexOutOfRange(2, 2))
  {
    assert "[" + "16384" + "-<-" + "abc123" + "]" == "[16384-<-abc123]";
    assert DecimalValue("16384") == 16384 by {
      assert "16384"[..4] == "1638" && "1638"[..3] == "163" && "163"[..2] == "16" && "16"[..1] == "1";
    }
    ImportingMarkerPanics("16384", "abc123");
  }

  // ------------------------------------------------ the emptiness precondition

  predicate IsKnownNodesLine(line: string) {
    Split(line, ":")[0] == "cluster_known_nodes"
  }

  /** The number on a `cluster_known_nodes` line, if it has one. */
  function KnownNodesValue(line: string): Option<uint64> {
    var row := Split(line, ":");
    if |row| < 2 then None else ParseUint(TrimSpace(row[1]))
  }

  /** The decision taken on the first `cluster_known_nodes` line; the
      `INFO db0` reply is looked at only when the count is 1. */
  function KnownNodesVerdict(line: string, db0: Option<string>): Result<()> {
    var text :- At(Split(line, ":"), 1);
    var known :- Uint(TrimSpace(text));
    if known != 1 then Ok(())
    else match db0
      case None => Err(RequestFailed)
      case Some(keys) => if keys != "" then Err(NodeNotEmpty) else Ok(())
  }

  function InfoVerdict(lines: seq<string>, db0: Option<string>): Result<()> {
    if lines == [] then Ok(())
    else if IsKnownNodesLine(lines[0]) then KnownNodesVerdict(lines[0], db0)
    else InfoVerdict(lines[1..], db0)
  }

  /** AssertEmptyNode's verdict on a `CLUSTER INFO` reply and an `INFO db0`
      reply. */
  function EmptinessVerdict(clusterInfo: Option<string>, db0: Option<string>): Result<()> {
    match clusterInfo
    case None => Err(RequestFailed)
    case Some(text) => InfoVerdict(Lines(text), db0)
  }

  /** AssertEmptyNode: scan the `CLUSTER INFO` lines and decide on the first
      one whose key is `cluster_known_nodes`. */
  method AssertEmptyNode(clusterInfo: Option<string>, db0: Option<string>) returns (err: Result<()>)
    ensures err == EmptinessVerdict(clusterInfo, db0)
  {
    if clusterInfo.None? {
      return Err(RequestFailed);
    }
    var lines := Lines(clusterInfo.value);
    for i := 0 to |lines|
      invariant InfoVerdict(lines[i..], db0) == EmptinessVerdict(clusterInfo, db0)
    {
      assert lines[i..][0] == lines[i] && lines[i..][1..] == lines[i + 1..];
      var row := Split(lines[i], ":");
      if row[0] == "cluster_known_nodes" {
        if |row| < 2 {
          return Err(IndexOutOfRange(1, |row|));
        }
        var value := ParseUint(TrimSpace(row[1]));
        if value.None? {
          return Err(NumError(TrimSpace(row[1])));
        }
        if value.value == 1 {
          if db0.None? {
            return Err(RequestFailed);
          }
          if db0.value != "" {
            return Err(NodeNotEmpty);
          }
        }
        return Ok(());
      }
    }
    return Ok(());
  }

  /** Line `i` is the first `cluster_known_nodes` line. */
  predicate DecidingLine(lines: seq<string>, i: nat) {
    i < |lines| && IsKnownNodesLine(lines[i])
    && forall j :: 0 <= j < i ==> !IsKnownNodesLine(lines[j])
  }

  /** Only the first `cluster_known_nodes` line counts; later ones and all
      other lines are ignored. */
  lemma {:induction false} FirstKnownNodesLineDecides(lines: seq<string>, db0: Option<string>, i: nat)
    requires DecidingLine(lines, i)
    ensures InfoVerdict(lines, db0) == KnownNodesVerdict(lines[i], db0)
    decreases i
  {
    if i > 0 {
      assert !IsKnownNodesLine(lines[0]);
      assert DecidingLine(lines[1..], i - 1) by {
        assert lines[1..][i - 1] == lines[i];
        forall j | 0 <= j < i - 1 ensures !IsKnownNodesLine(lines[1..][j]) {
          assert lines[1..][j] == lines[j + 1];
        }
      }
      FirstKnownNodesLineDecides(lines[1..], db0, i - 1);
    }
  }

  /** Without a `cluster_known_nodes` line the check passes. */
  lemma {:induction false} NoKnownNodesLinePasses(lines: seq<string>, db0: Option<string>)
    requires forall j :: 0 <= j < |lines| ==> !IsKnownNodesLine(lines[j])
    ensures InfoVerdict(lines, db0) == Ok(())
    decreases |lines|
  {
    if lines != [] {
      assert !IsKnownNodesLine(lines[0]);
      forall j | 0 <= j < |lines| - 1 ensures !IsKnownNodesLine(lines[1..][j]) {
        assert lines[1..][j] == lines[j + 1];
      }
      NoKnownNodesLinePasses(lines[1..], db0);
    }
  }

  /** The decision on the deciding line: it fails exactly when the count is
      missing or not a number, or is 1 while `INFO db0` failed or is not
      empty. A count other than 1 passes, so a node that already knows
      other nodes is accepted. */
  lemma KnownNodesVerdictCases(line: string, db0: Option<string>)
    ensures KnownNodesVerdict(line, db0).Err? <==>
      KnownNodesValue(line).None? || (KnownNodesValue(line) == Some(1) && db0 != Some(""))
    ensures KnownNodesVerdict(line, db0) == Err(NodeNotEmpty) <==>
      KnownNodesValue(line) == Some(1) && db0.Some? && db0.value != ""
  {
  }

  /** A count other than 1 is decided without the `INFO db0` reply. */
  lemma KnownNodesVerdictIgnoresDb0(line: string, db0: Option<string>, other: Option<string>)
    requires KnownNodesValue(line) != Some(1)
    ensures KnownNodesVerdict(line, db0) == KnownNodesVerdict(line, other)
  {
  }

  /** The deciding line of the lines after a non-matching first line is
      the deciding line of the whole. */
  lemma DecidingLineShift(lines: seq<string>, i: nat)
    requires lines != [] && !IsKnownNodesLine(lines[0]) && DecidingLine(lines[1..], i)
    ensures DecidingLine(lines, i + 1) && lines[i + 1] == lines[1..][i]
  {
    forall j | 0 < j <= i ensures !IsKnownNodesLine(lines[j]) {
      assert lines[j] == lines[1..][j - 1];
    }
  }

  /** The `INFO db0` reply can change the verdict only when the deciding
      line reports a count of exactly 1. */
  lemma {:induction false} Db0MattersOnlyForLoneNode(lines: seq<string>, db0: Option<string>, other: Option<string>)
    requires InfoVerdict(lines, db0) != InfoVerdict(lines, other)
    ensures exists i: nat :: DecidingLine(lines, i) && KnownNodesValue(lines[i]) == Some(1)
    decreases |lines|
  {
    assert lines != [];
    if IsKnownNodesLine(lines[0]) {
      if KnownNodesValue(lines[0]) != Some(1) {
        KnownNodesVerdictIgnoresDb0(lines[0], db0, other);
        assert false;
      }
      assert DecidingLine(lines, 0);
    } else {
      Db0MattersOnlyForLoneNode(lines[1..], db0, other);
      var i: nat :| DecidingLine(lines[1..], i) && KnownNodesValue(lines[1..][i]) == Some(1);
      DecidingLineShift(lines, i);
    }
  }
}
