/**
 * The graph a build returns, as a pure function of the inventory document.
 *
 * `Build` is the reference: the deduplicated concatenation of everything the
 * six passes emit, with the VPC id in front. `AccumulatedNodes` and
 * `AccumulatedEdges` are the builder's arrays just before `uniq`, where every
 * pass except the two bulk pushes goes through the membership-checked insert;
 * `AccumulatedGraph` proves that deduplicating them gives `Build`.
 */
module GraphSpec {
  import opened Wrappers
  import opened AwsInventory
  import opened Dedup
  import opened GraphPasses

  /** The returned graph: `{nodes: ..., edges: ...}`. */
  datatype Graph = Graph(nodes: seq<Id>, edges: seq<Edge>)

  /** A build that cannot reach its passes: no document was loaded and the subnet pass dereferences nil. */
  datatype BuildError = InventoryNotLoaded

  /** Everything the passes offer as nodes, in pass order. */
  function EmittedNodes(inv: Inventory): seq<Id> {
    SubnetPassNodes(inv.subnets)
    + SecurityGroupPassNodes(inv.securityGroups)
    + InterfacePassNodes(inv.networkInterfaces)
    + AclPassNodes(inv.networkAcls)
    + GatewayPassNodes(inv.internetGateways)
    + RouteTablePassNodes(inv.routeTables)
  }

  /** Everything the passes offer as edges, in pass order. */
  function EmittedEdges(inv: Inventory): seq<Edge> {
    SubnetPassEdges(inv.subnets)
    + SecurityGroupPassEdges(inv.securityGroups)
    + InterfacePassEdges(inv.networkInterfaces)
    + AclPassEdges(inv.networkAcls)
    + GatewayPassEdges(inv.internetGateways)
    + RouteTablePassEdges(inv.routeTables)
  }

  /**
   * The result of a build on `data` for VPC `vpcId`: an error when no document
   * is loaded; otherwise the VPC id and every emitted node, and every emitted
   * edge, each without duplicates and nothing else.
   */
  function Build(data: Option<Inventory>, vpcId: string): (r: Result<Graph, BuildError>)
    ensures r.Failure? <==> data.None?
    ensures r.Success? ==> NoDuplicates(r.value.nodes) && NoDuplicates(r.value.edges)
    ensures r.Success? ==> Some(vpcId) in r.value.nodes
    ensures r.Success? ==> forall x :: x in r.value.nodes <==> x == Some(vpcId) || x in EmittedNodes(data.value)
    ensures r.Success? ==> forall e :: e in r.value.edges <==> e in EmittedEdges(data.value)
  {
    match data
    case None => Failure(InventoryNotLoaded)
    case Some(inv) => Success(Graph(Uniq([Some(vpcId)] + EmittedNodes(inv)), Uniq(EmittedEdges(inv))))
  }

  /** `@nodes` just before `uniq`: seeded with the VPC id, then the six passes in order. */
  function AccumulatedNodes(inv: Inventory, vpcId: string): seq<Id> {
    var afterSubnets := InsertAll([Some(vpcId)], SubnetPassNodes(inv.subnets));
    var afterBulk := afterSubnets + SecurityGroupPassNodes(inv.securityGroups)
                     + InterfacePassNodes(inv.networkInterfaces);
    var afterAcls := InsertAll(afterBulk, AclPassNodes(inv.networkAcls));
    var afterGateways := InsertAll(afterAcls, GatewayPassNodes(inv.internetGateways));
    InsertAll(afterGateways, RouteTablePassNodes(inv.routeTables))
  }

  /** `@edges` just before `uniq`: every pass inserts with the membership check. */
  function AccumulatedEdges(inv: Inventory): seq<Edge> {
    var afterSubnets := InsertAll([], SubnetPassEdges(inv.subnets));
    var afterGroups := InsertAll(afterSubnets, SecurityGroupPassEdges(inv.securityGroups));
    var afterInterfaces := InsertAll(afterGroups, InterfacePassEdges(inv.networkInterfaces));
    var afterAcls := InsertAll(afterInterfaces, AclPassEdges(inv.networkAcls));
    var afterGateways := InsertAll(afterAcls, GatewayPassEdges(inv.internetGateways));
    InsertAll(afterGateways, RouteTablePassEdges(inv.routeTables))
  }

  /** If `s` and `t` deduplicate alike, so do `s` extended by insertions of `xs` and `t + xs`, and `s + xs` and `t + xs`. */
  lemma UniqExtend<T(!new)>(s: seq<T>, t: seq<T>, xs: seq<T>)
    requires Uniq(s) == Uniq(t)
    ensures Uniq(InsertAll(s, xs)) == Uniq(t + xs)
    ensures Uniq(s + xs) == Uniq(t + xs)
  {
    UniqInsertAll(s, xs);
    UniqInsertAll(t, xs);
  }

  lemma AppendAssoc<T>(a: seq<T>, b: seq<T>, c: seq<T>)
    ensures a + (b + c) == (a + b) + c
  {
  }

  /** The shape of `@nodes`: membership-checked subnets, two bulk pushes, then three checked passes. */
  lemma NodeStagesUniq<T(!new)>(n0: seq<T>, n1: seq<T>, n2: seq<T>, n3: seq<T>, n4: seq<T>, n5: seq<T>, n6: seq<T>)
    ensures Uniq(InsertAll(InsertAll(InsertAll(InsertAll(n0, n1) + n2 + n3, n4), n5), n6))
         == Uniq(n0 + (n1 + n2 + n3 + n4 + n5 + n6))
  {
    var a1 := InsertAll(n0, n1);
    var a3 := a1 + n2 + n3;
    var a4 := InsertAll(a3, n4);
    var a5 := InsertAll(a4, n5);
    UniqExtend(n0, n0, n1);
    UniqExtend(a1, n0 + n1, n2);
    UniqExtend(a1 + n2, n0 + n1 + n2, n3);
    UniqExtend(a3, n0 + n1 + n2 + n3, n4);
    UniqExtend(a4, n0 + n1 + n2 + n3 + n4, n5);
    UniqExtend(a5, n0 + n1 + n2 + n3 + n4 + n5, n6);
    AppendAssoc(n0, n1, n2);
    AppendAssoc(n0, n1 + n2, n3);
    AppendAssoc(n0, n1 + n2 + n3, n4);
    AppendAssoc(n0, n1 + n2 + n3 + n4, n5);
    AppendAssoc(n0, n1 + n2 + n3 + n4 + n5, n6);
  }

  /** The shape of `@edges`: six membership-checked passes from empty. */
  lemma EdgeStagesUniq<T(!new)>(e1: seq<T>, e2: seq<T>, e3: seq<T>, e4: seq<T>, e5: seq<T>, e6: seq<T>)
    ensures Uniq(InsertAll(InsertAll(InsertAll(InsertAll(InsertAll(InsertAll([], e1), e2), e3), e4), e5), e6))
         == Uniq(e1 + e2 + e3 + e4 + e5 + e6)
  {
    var e0: seq<T> := [];
    var b1 := InsertAll(e0, e1);
    var b2 := InsertAll(b1, e2);
    var b3 := InsertAll(b2, e3);
    var b4 := InsertAll(b3, e4);
    var b5 := InsertAll(b4, e5);
    UniqExtend(e0, e0, e1);
    assert e0 + e1 == e1;
    UniqExtend(b1, e1, e2);
    UniqExtend(b2, e1 + e2, e3);
    UniqExtend(b3, e1 + e2 + e3, e4);
    UniqExtend(b4, e1 + e2 + e3 + e4, e5);
    UniqExtend(b5, e1 + e2 + e3 + e4 + e5, e6);
  }

  /** Deduplicating the builder's node array gives the VPC id and then every emitted node, deduplicated. */
  lemma AccumulatedNodesUniq(inv: Inventory, vpcId: string)
    ensures Uniq(AccumulatedNodes(inv, vpcId)) == Uniq([Some(vpcId)] + EmittedNodes(inv))
  {
    NodeStagesUniq([Some(vpcId)], SubnetPassNodes(inv.subnets), SecurityGroupPassNodes(inv.securityGroups),
                   InterfacePassNodes(inv.networkInterfaces), AclPassNodes(inv.networkAcls),
                   GatewayPassNodes(inv.internetGateways), RouteTablePassNodes(inv.routeTables));
  }

  /** Deduplicating the builder's edge array gives every emitted edge, deduplicated. */
  lemma AccumulatedEdgesUniq(inv: Inventory)
    ensures Uniq(AccumulatedEdges(inv)) == Uniq(EmittedEdges(inv))
  {
    EdgeStagesUniq(SubnetPassEdges(inv.subnets), SecurityGroupPassEdges(inv.securityGroups),
                   InterfacePassEdges(inv.networkInterfaces), AclPassEdges(inv.networkAcls),
                   GatewayPassEdges(inv.internetGateways), RouteTablePassEdges(inv.routeTables));
  }

  /** Deduplicating the builder's arrays gives exactly the reference graph. */
  lemma AccumulatedGraph(inv: Inventory, vpcId: string)
    ensures Build(Some(inv), vpcId) == Success(Graph(Uniq(AccumulatedNodes(inv, vpcId)), Uniq(AccumulatedEdges(inv))))
  {
    AccumulatedNodesUniq(inv, vpcId);
    AccumulatedEdgesUniq(inv);
  }

  /**
   * The edges of a built graph are exactly those the six passes must produce,
   * record by record.
   */
  lemma GraphEdgesExactly(inv: Inventory, vpcId: string, e: Edge)
    ensures e in Build(Some(inv), vpcId).value.edges <==>
      || (exists i :: 0 <= i < |inv.subnets| && e == (inv.subnets[i].subnetId, inv.subnets[i].cidrBlock))
      || (exists i :: 0 <= i < |inv.securityGroups| && GroupLinks(inv.securityGroups[i], e))
      || (exists i :: 0 <= i < |inv.networkInterfaces| && InterfaceLinks(inv.networkInterfaces[i], e))
      || (exists i :: 0 <= i < |inv.networkAcls| && AclLinks(inv.networkAcls[i], e))
      || (exists i :: 0 <= i < |inv.internetGateways| && HasAttachment(inv.internetGateways[i])
                      && e == (inv.internetGateways[i].internetGatewayId,
                               inv.internetGateways[i].attachments.value[0].vpcId))
      || (exists i :: 0 <= i < |inv.routeTables| && RouteTableLinks(inv.routeTables[i], e))
  {
    var x: Id := None;
    SubnetPassExactly(inv.subnets, x, e);
    SecurityGroupPassExactly(inv.securityGroups, x, e);
    InterfacePassExactly(inv.networkInterfaces, x, e);
    AclPassExactly(inv.networkAcls, x, e);
    GatewayPassExactly(inv.internetGateways, x, e);
    RouteTablePassExactly(inv.routeTables, x, e);
  }

  /**
   * The nodes of a built graph are exactly the VPC id and the identifiers the
   * six passes must produce, record by record.
   */
  lemma GraphNodesExactly(inv: Inventory, vpcId: string, x: Id)
    ensures x in Build(Some(inv), vpcId).value.nodes <==>
      || x == Some(vpcId)
      || (exists i :: 0 <= i < |inv.subnets| && (x == inv.subnets[i].subnetId || x == inv.subnets[i].cidrBlock))
      || (exists i :: 0 <= i < |inv.securityGroups| && x == inv.securityGroups[i].groupId)
      || (exists i :: 0 <= i < |inv.networkInterfaces| && x == inv.networkInterfaces[i].networkInterfaceId)
      || (exists i :: 0 <= i < |inv.networkAcls| && x == inv.networkAcls[i].networkAclId)
      || (exists i :: 0 <= i < |inv.internetGateways| && x == inv.internetGateways[i].internetGatewayId)
      || (exists i :: 0 <= i < |inv.routeTables| && RouteTableNames(inv.routeTables[i], x))
  {
    var e: Edge := (None, None);
    SubnetPassExactly(inv.subnets, x, e);
    SecurityGroupPassExactly(inv.securityGroups, x, e);
    InterfacePassExactly(inv.networkInterfaces, x, e);
    AclPassExactly(inv.networkAcls, x, e);
    GatewayPassExactly(inv.internetGateways, x, e);
    RouteTablePassExactly(inv.routeTables, x, e);
  }

  /** Every subnet appears with its CIDR block as nodes, linked by an edge. */
  lemma SubnetInGraph(inv: Inventory, vpcId: string, i: nat)
    requires i < |inv.subnets|
    ensures inv.subnets[i].subnetId in Build(Some(inv), vpcId).value.nodes
    ensures inv.subnets[i].cidrBlock in Build(Some(inv), vpcId).value.nodes
    ensures (inv.subnets[i].subnetId, inv.subnets[i].cidrBlock) in Build(Some(inv), vpcId).value.edges
  {
    GraphNodesExactly(inv, vpcId, inv.subnets[i].subnetId);
    GraphNodesExactly(inv, vpcId, inv.subnets[i].cidrBlock);
    GraphEdgesExactly(inv, vpcId, (inv.subnets[i].subnetId, inv.subnets[i].cidrBlock));
  }

  /** A document with one subnet and nothing else. */
  function OneSubnet(): Inventory {
    Inventory([Subnet(Some("s-1"), Some("10.0.1.0/24"))], [], [], [], [], [])
  }

  lemma OneSubnetEmits()
    ensures EmittedNodes(OneSubnet()) == [Some("s-1"), Some("10.0.1.0/24")]
    ensures EmittedEdges(OneSubnet()) == [(Some("s-1"), Some("10.0.1.0/24"))]
  {
    var inv := OneSubnet();
    var s := inv.subnets[0];
    assert inv.subnets == [] + [s];
    FlatMapSnoc([], NodesOfSubnet, s);
    FlatMapSnoc([], EdgesOfSubnet, s);
    assert SubnetPassNodes(inv.subnets) == [s.subnetId, s.cidrBlock];
    assert SubnetPassEdges(inv.subnets) == [(s.subnetId, s.cidrBlock)];
    assert SecurityGroupPassNodes(inv.securityGroups) == [] && SecurityGroupPassEdges(inv.securityGroups) == [];
    assert InterfacePassNodes(inv.networkInterfaces) == [] && InterfacePassEdges(inv.networkInterfaces) == [];
    assert AclPassNodes(inv.networkAcls) == [] && AclPassEdges(inv.networkAcls) == [];
    assert GatewayPassNodes(inv.internetGateways) == [] && GatewayPassEdges(inv.internetGateways) == [];
    assert RouteTablePassNodes(inv.routeTables) == [] && RouteTablePassEdges(inv.routeTables) == [];
  }

  /**
   * In the model, one subnet gives the VPC id, the subnet and its block as nodes, and one
   * edge. Ruby's arrays differ here: with no ACL, gateway or route-table record, no later
   * `add_node` flattens the two empty arrays pushed for the groups and the interfaces, so
   * its `uniq` keeps one `[]` among the nodes.
   */
  lemma OneSubnetGraph()
    ensures Build(Some(OneSubnet()), "vpc-1")
         == Success(Graph([Some("vpc-1"), Some("s-1"), Some("10.0.1.0/24")], [(Some("s-1"), Some("10.0.1.0/24"))]))
  {
    OneSubnetEmits();
    var ns: seq<Id> := [Some("vpc-1"), Some("s-1"), Some("10.0.1.0/24")];
    var es: seq<Edge> := [(Some("s-1"), Some("10.0.1.0/24"))];
    assert [Some("vpc-1")] + EmittedNodes(OneSubnet()) == ns;
    assert NoDuplicates(ns);
    UniqOfDistinct(ns);
    UniqOfDistinct(es);
  }

  /** A route that names both a gateway and an instance produces the gateway edge only. */
  lemma GatewayWinsOverInstance(rtId: Id)
    ensures EdgesOfRouteTable(RouteTable(rtId, [], [Route(Some("igw-1"), Some("i-1"), None, None)]))
         == [(rtId, Some("igw-1"))]
  {
    var route := Route(Some("igw-1"), Some("i-1"), None, None);
    var rt := RouteTable(rtId, [], [route]);
    RouteTargetPriority(route);
    FlatMapSnoc([], RouteTargets, route);
    assert [] + [route] == rt.routes;
    assert TargetsOfRouteTable(rt) == [Some("igw-1")];
  }

  /** A group in the VPC with one IPv4 rule links to the VPC and to the block. */
  lemma GroupWithIpv4Rule()
    ensures EdgesOfGroup(SecurityGroup(Some("sg-1"), Some("vpc-1"), [Rule(None, Some("0.0.0.0/0"), None)]))
         == [(Some("sg-1"), Some("vpc-1")), (Some("sg-1"), Some("0.0.0.0/0"))]
  {
    var rule := Rule(None, Some("0.0.0.0/0"), None);
    FlatMapSnoc([], RuleTargets, rule);
    assert [] + [rule] == [rule];
  }
}
