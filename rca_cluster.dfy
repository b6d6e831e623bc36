/** rca/cluster.go: a shorter `CLUSTER NODES` parser, which reads
    only the first four fields of a line, and the same emptiness
    precondition as rcc/cluster.go. */
module Rca {
  import opened Faults
  import opened GoStrings
  import Rcc

  /** The node record of this package. The counters and the link state are
      declared but never filled, so they keep Go's zero values. */
  datatype ClusterNode = ClusterNode(
    id: string,
    ip: string,
    host: string,
    port: uint64,
    flags: seq<string>,
    slave: bool,
    master: bool,
    slaveOf: string,
    pingSent: uint64,
    pongRecv: uint64,
    configEpoch: uint64,
    linkState: string)

  /** One line of the reply: id, address, flags and master id are read,
      in this order; anything after the fourth field is ignored. */
  function NodeFromLine(line: string, lookup: Rcc.Resolver): Result<ClusterNode> {
    var rows := Split(line, " ");
    var address :- At(rows, 1);
    var ip := Split(address, ":")[0];
    var portText :- At(Split(address, ":"), 1);
    var port :- Rcc.Uint(portText);
    var flagField :- At(rows, 2);
    var flags := Split(flagField, ",");
    var slaveOf :- At(rows, 3);
    Ok(ClusterNode(rows[0], ip, Rcc.HostOf(ip, lookup), port, flags, "slave" in flags, "master" in flags,
                   slaveOf, 0, 0, 0, ""))
  }

  function NodeParser(lookup: Rcc.Resolver): string -> Result<ClusterNode> {
    line => NodeFromLine(line, lookup)
  }

  /** The topology a reply describes: one node per line, or the fault of
      the first line that cannot be read. */
  function Topology(reply: Option<string>, lookup: Rcc.Resolver): Result<seq<ClusterNode>> {
    match reply
    case None => Err(RequestFailed)
    case Some(text) => Traverse(Rcc.Lines(text), NodeParser(lookup))
  }

  /** The body of ClusterNodes' loop: fill one node field by field. */
  method ParseNode(line: string, lookup: Rcc.Resolver) returns (r: Result<ClusterNode>)
    ensures r == NodeFromLine(line, lookup)
  {
    var rows := Split(line, " ");
    var id := rows[0];
    if |rows| < 2 {
      return Err(IndexOutOfRange(1, |rows|));
    }
    var address := Split(rows[1], ":");
    var ip := address[0];
    var host := Rcc.HostOf(ip, lookup);
    if |address| < 2 {
      return Err(IndexOutOfRange(1, |address|));
    }
    var port := ParseUint(address[1]);
    if port.None? {
      return Err(NumError(address[1]));
    }
    if |rows| < 3 {
      return Err(IndexOutOfRange(2, |rows|));
    }
    var flags := Split(rows[2], ",");
    var master, slave := false, false;
    for i := 0 to |flags|
      invariant master <==> "master" in flags[..i]
      invariant slave <==> "slave" in flags[..i]
    {
      assert flags[..i + 1] == flags[..i] + [flags[i]];
      if flags[i] == "master" {
        master := true;
      } else if flags[i] == "slave" {
        slave := true;
      }
    }
    assert flags[..|flags|] == flags;
    if |rows| < 4 {
      return Err(IndexOutOfRange(3, |rows|));
    }
    return Ok(ClusterNode(id, ip, host, port.value, flags, slave, master, rows[3], 0, 0, 0, ""));
  }

  /** ClusterNodes' loop over the lines of the reply. */
  method ParseLines(lines: seq<string>, lookup: Rcc.Resolver) returns (cluster: Result<seq<ClusterNode>>)
    ensures cluster == Traverse(lines, NodeParser(lookup))
  {
    var nodes: seq<ClusterNode> := [];
    for i := 0 to |lines|
      invariant Traverse(lines[..i], NodeParser(lookup)) == Ok(nodes)
    {
      var node := ParseNode(lines[i], lookup);
      if node.Err? {
        TraversePrefixErr(lines, NodeParser(lookup), i, nodes);
        return Err(node.fault);
      }
      TraverseSnoc(lines, NodeParser(lookup), i, nodes);
      nodes := nodes + [node.value];
    }
    assert lines[..|lines|] == lines;
    return Ok(nodes);
  }

  method ClusterNodes(reply: Option<string>, lookup: Rcc.Resolver) returns (cluster: Result<seq<ClusterNode>>)
    ensures cluster == Topology(reply, lookup)
  {
    if reply.None? {
      return Err(RequestFailed);
    }
    cluster := ParseLines(Rcc.Lines(reply.value), lookup);
  }

  /** This package's AssertEmptyNode is the same procedure as rcc's. */
  method AssertEmptyNode(clusterInfo: Option<string>, db0: Option<string>) returns (err: Result<()>)
    ensures err == Rcc.EmptinessVerdict(clusterInfo, db0)
  {
    err := Rcc.AssertEmptyNode(clusterInfo, db0);
  }

  // ------------------------------------------------------------- properties

  /** A line is accepted exactly when it has four fields and its address
      carries a numeric port; nothing after the fourth field is looked at. */
  lemma AcceptedLines(line: string, lookup: Rcc.Resolver)
    ensures var rows := Split(line, " ");
      NodeFromLine(line, lookup).Ok? <==>
        |rows| >= 4 && |Split(rows[1], ":")| >= 2 && ParseUint(Split(rows[1], ":")[1]).Some?
  {
  }

  /** What an rca node holds: the first four fields, the roles from the
      exact flags, and zero counters. */
  lemma ParsedNodeFields(line: string, lookup: Rcc.Resolver, n: ClusterNode)
    requires NodeFromLine(line, lookup) == Ok(n)
    ensures var rows := Split(line, " ");
      && n.id == rows[0]
      && n.ip == Split(rows[1], ":")[0]
      && ParseUint(Split(rows[1], ":")[1]) == Some(n.port)
      && n.flags == Split(rows[2], ",")
      && (n.master <==> exists k :: 0 <= k < |n.flags| && n.flags[k] == "master")
      && (n.slave <==> exists k :: 0 <= k < |n.flags| && n.flags[k] == "slave")
      && n.slaveOf == rows[3]
      && n.pingSent == 0 && n.pongRecv == 0 && n.configEpoch == 0 && n.linkState == ""
  {
  }

  /** An rcc node seen through this package's record: the counters and the
      link state dropped, the slots forgotten. */
  function Project(n: Rcc.ClusterNode): ClusterNode {
    ClusterNode(n.id, n.ip, n.host, n.port, n.flags, n.slave, n.master, n.slaveOf, 0, 0, 0, "")
  }

  /** Every line rcc accepts, rca accepts too, with the same four fields. */
  lemma AgreesWithRccOnLine(line: string, lookup: Rcc.Resolver)
    requires Rcc.NodeFromLine(line, lookup).Ok?
    ensures NodeFromLine(line, lookup) == Ok(Project(Rcc.NodeFromLine(line, lookup).value))
  {
    Rcc.ParsedNodeFields(line, lookup, Rcc.NodeFromLine(line, lookup).value);
  }

  /** rca accepts lines rcc rejects: a four-field line lacks what rcc
      reads next. */
  lemma ShortLineOnlyRca(line: string, lookup: Rcc.Resolver)
    requires NodeFromLine(line, lookup).Ok? && |Split(line, " ")| == 4
    ensures Rcc.NodeFromLine(line, lookup) == Err(IndexOutOfRange(4, 4))
  {
  }

  /** On a reply rcc accepts, both packages see the same nodes in the same
      order. */
  lemma AgreesWithRccOnTopology(text: string, lookup: Rcc.Resolver)
    requires Rcc.Topology(Some(text), lookup).Ok?
    ensures Topology(Some(text), lookup).Ok?
    ensures var rcc := Rcc.Topology(Some(text), lookup).value;
      var rca := Topology(Some(text), lookup).value;
      |rca| == |rcc| && forall i :: 0 <= i < |rca| ==> rca[i] == Project(rcc[i])
  {
    var lines := Rcc.Lines(text);
    var rcc := Rcc.Topology(Some(text), lookup).value;
    forall i | 0 <= i < |lines| ensures NodeParser(lookup)(lines[i]) == Ok(Project(rcc[i])) {
      assert Rcc.NodeParser(lookup)(lines[i]) == Ok(rcc[i]);
      AgreesWithRccOnLine(lines[i], lookup);
    }
  }
}
