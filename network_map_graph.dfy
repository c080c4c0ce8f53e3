/**
 * The graph builder `AWSNetworkMapGraph` as a class over its two accumulators.
 *
 * `nodes` and `edges` are the instance arrays the Ruby object mutates in place;
 * `data` is the loaded inventory document, `None` while nothing is loaded.
 * Each `Load...` pass walks its category with the same loops and tests as the
 * source; the body of each `each` block over one record is a method of its
 * own. Every one of them is proved to leave the accumulators equal to the
 * membership-checked insertion (or, for the two bulk pushes, the plain
 * append) of what `GraphPasses` says it emits.
 */
module NetworkMapGraph {
  import opened Wrappers
  import opened AwsInventory
  import opened Dedup
  import opened GraphPasses
  import opened GraphSpec

  /** A record's contribution closes: the pass so far now covers one more record. */
  lemma RecordDone<T, U>(records: seq<T>, i: nat, f: T -> seq<U>)
    requires i < |records|
    ensures FlatMap(records[..i + 1], f) == FlatMap(records[..i], f) + f(records[i])
  {
    assert records[..i + 1] == records[..i] + [records[i]];
    FlatMapSnoc(records[..i], f, records[i]);
  }

  /** Inserting what records `..i` emit and then what record `i` emits is inserting what records `..i + 1` emit. */
  lemma PassStep<T, U(!new)>(start: seq<U>, records: seq<T>, i: nat, f: T -> seq<U>)
    requires i < |records|
    ensures InsertAll(InsertAll(start, FlatMap(records[..i], f)), f(records[i]))
            == InsertAll(start, FlatMap(records[..i + 1], f))
  {
    RecordDone(records, i, f);
    InsertAllAppend(start, FlatMap(records[..i], f), f(records[i]));
  }

  /** Edges from one source to `ts` and then to `more` are the edges from it to `ts + more`. */
  lemma FanExtend(start: seq<Edge>, source: Id, ts: seq<Id>, more: seq<Id>)
    ensures InsertAll(InsertAll(start, Fan(source, ts)), Fan(source, more)) == InsertAll(start, Fan(source, ts + more))
  {
    InsertAllAppend(start, Fan(source, ts), Fan(source, more));
    FanAppend(source, ts, more);
  }

  /** One more edge from `source` to `t`, inserted after the edges to `ts`. */
  lemma FanInsert(start: seq<Edge>, source: Id, ts: seq<Id>, t: Id)
    ensures Insert(InsertAll(start, Fan(source, ts)), (source, t)) == InsertAll(start, Fan(source, ts + [t]))
  {
    InsertAllSnoc(start, Fan(source, ts), (source, t));
    FanSnoc(source, ts, t);
  }

  /** A route's contribution, case by case in the order the builder tests the fields. */
  lemma RouteTargetsChain(route: Route)
    ensures RouteTargets(route) ==
      if route.gatewayId.Some? then [route.gatewayId]
      else if route.instanceId.Some? then [route.instanceId]
      else if route.networkInterfaceId.Some? then [route.networkInterfaceId]
      else if route.vpcPeeringConnectionId.Some? then [route.vpcPeeringConnectionId]
      else []
  {
    RouteTargetPriority(route);
  }

  /** A run of one insertion is that insertion. */
  lemma InsertOne<T(!new)>(s: seq<T>, x: T)
    ensures InsertAll(s, [x]) == Insert(s, x)
  {
    InsertAllSnoc(s, [], x);
  }

  /** Inserting a single node and a single edge from `source` to it. */
  lemma SingleTarget(nodes: seq<Id>, edges: seq<Edge>, source: Id, t: Id)
    ensures InsertAll(nodes, [t]) == Insert(nodes, t)
    ensures InsertAll(edges, Fan(source, [t])) == Insert(edges, (source, t))
  {
    InsertOne(nodes, t);
    FanInsert(edges, source, [], t);
  }

  /** A gateway's edge list, spelled out: its one edge exactly when it has an attachment. */
  lemma GatewayEdgesShape(igw: InternetGateway)
    ensures EdgesOfGateway(igw) ==
      if HasAttachment(igw) then [(igw.internetGatewayId, igw.attachments.value[0].vpcId)] else []
  {
  }

  /** An edge added only when `c` holds is one insertion of the edges to the targets present. */
  lemma OptionalEdge(before: seq<Edge>, after: seq<Edge>, source: Id, c: bool, t: Id)
    requires after == if c then Insert(before, (source, t)) else before
    ensures after == InsertAll(before, Fan(source, if c then [t] else []))
  {
    assert Fan(source, []) == [];
    if c {
      assert [] + [t] == [t];
      FanInsert(before, source, [], t);
    }
  }

  class AWSNetworkMapGraph {
    var nodes: seq<Id>
    var edges: seq<Edge>
    var data: Option<Inventory>

    /** A fresh builder: empty accumulators, no document. */
    constructor ()
      ensures nodes == [] && edges == [] && data == None
    {
      nodes := [];
      edges := [];
      data := None;
    }

    /**
     * Load the document: `file` is `<vpc>_network_map.json` as parsed, or
     * `None` when that file does not exist, in which case nothing is loaded.
     */
    method LoadMap(file: Option<Inventory>)
      modifies this`data
      ensures data == (if file.Some? then file else old(data))
    {
      if file.Some? {
        data := file;
      }
    }

    /**
     * `add_node`: append unless already present. The node is present
     * afterwards, nothing is removed, and a present node changes nothing.
     * (`flatten!` has nothing to flatten in a flat sequence.)
     */
    method AddNode(node: Id)
      modifies this`nodes
      ensures nodes == Insert(old(nodes), node)
      ensures node in nodes && old(nodes) <= nodes && |nodes| <= |old(nodes)| + 1
      ensures old(node in nodes) ==> nodes == old(nodes)
    {
      if node !in nodes {
        nodes := nodes + [node];
      }
    }

    /**
     * `add_edge`: append the ordered pair unless that same pair is present.
     * The reverse pair is a different value and is not matched.
     */
    method AddEdge(edge: Edge)
      modifies this`edges
      ensures edges == Insert(old(edges), edge)
      ensures edge in edges && old(edges) <= edges && |edges| <= |old(edges)| + 1
      ensures old(edge in edges) ==> edges == old(edges)
    {
      if edge !in edges {
        edges := edges + [edge];
      }
    }

    /** `_load_subnets`: per subnet, its id and CIDR block as nodes and the edge between them. */
    method LoadSubnets()
      requires data.Some?
      modifies this`nodes, this`edges
      ensures nodes == InsertAll(old(nodes), SubnetPassNodes(data.value.subnets))
      ensures edges == InsertAll(old(edges), SubnetPassEdges(data.value.subnets))
    {
      var subnets := data.value.subnets;
      ghost var nodes0, edges0 := nodes, edges;
      var i := 0;
      while i < |subnets|
        invariant 0 <= i <= |subnets|
        invariant nodes == InsertAll(nodes0, FlatMap(subnets[..i], NodesOfSubnet))
        invariant edges == InsertAll(edges0, FlatMap(subnets[..i], EdgesOfSubnet))
      {
        LoadSubnet(subnets[i]);
        PassStep(nodes0, subnets, i, NodesOfSubnet);
        PassStep(edges0, subnets, i, EdgesOfSubnet);
        i := i + 1;
      }
      assert subnets[..i] == subnets;
    }

    /** The block over one subnet: its id, its CIDR block, then the edge between them. */
    method LoadSubnet(subnet: Subnet)
      modifies this`nodes, this`edges
      ensures nodes == InsertAll(old(nodes), NodesOfSubnet(subnet))
      ensures edges == InsertAll(old(edges), EdgesOfSubnet(subnet))
    {
      assert NodesOfSubnet(subnet) == [subnet.subnetId] + [subnet.cidrBlock];
      InsertOne(nodes, subnet.subnetId);
      InsertAllSnoc(nodes, [subnet.subnetId], subnet.cidrBlock);
      InsertOne(edges, (subnet.subnetId, subnet.cidrBlock));
      AddNode(subnet.subnetId);
      AddNode(subnet.cidrBlock);
      AddEdge((subnet.subnetId, subnet.cidrBlock));
    }

    /** The block over one rule of group `groupId`: an edge to each of its targets that is present. */
    method LoadRule(groupId: Id, rule: Rule)
      modifies this`edges
      ensures edges == InsertAll(old(edges), Fan(groupId, RuleTargets(rule)))
    {
      ghost var hasRef, hasIpv4, hasIpv6 := rule.referencedGroupInfo.Some?, rule.cidrIpv4.Some?, rule.cidrIpv6.Some?;
      ghost var refTarget: Id := if hasRef then rule.referencedGroupInfo.value.groupId else None;
      ghost var byRef: seq<Id> := if hasRef then [refTarget] else [];
      ghost var byIpv4: seq<Id> := if hasIpv4 then [rule.cidrIpv4] else [];
      ghost var byIpv6: seq<Id> := if hasIpv6 then [rule.cidrIpv6] else [];
      ghost var edges0 := edges;
      if rule.referencedGroupInfo.Some? {
        var targetGroupId := rule.referencedGroupInfo.value.groupId;
        AddEdge((groupId, targetGroupId));
      }
      OptionalEdge(edges0, edges, groupId, hasRef, refTarget);
      ghost var edges1 := edges;
      if rule.cidrIpv4.Some? {
        AddEdge((groupId, rule.cidrIpv4));
      }
      OptionalEdge(edges1, edges, groupId, hasIpv4, rule.cidrIpv4);
      ghost var edges2 := edges;
      if rule.cidrIpv6.Some? {
        AddEdge((groupId, rule.cidrIpv6));
      }
      OptionalEdge(edges2, edges, groupId, hasIpv6, rule.cidrIpv6);
      FanExtend(edges0, groupId, byRef, byIpv4);
      FanExtend(edges0, groupId, byRef + byIpv4, byIpv6);
      assert RuleTargets(rule) == byRef + byIpv4 + byIpv6;
    }

    /** The inner loop of a group's block: each rule's edges, in order. */
    method LoadRules(groupId: Id, rules: seq<Rule>)
      modifies this`edges
      ensures edges == InsertAll(old(edges), Fan(groupId, FlatMap(rules, RuleTargets)))
    {
      ghost var edges0 := edges;
      var j := 0;
      while j < |rules|
        invariant 0 <= j <= |rules|
        invariant edges == InsertAll(edges0, Fan(groupId, FlatMap(rules[..j], RuleTargets)))
      {
        LoadRule(groupId, rules[j]);
        FanExtend(edges0, groupId, FlatMap(rules[..j], RuleTargets), RuleTargets(rules[j]));
        RecordDone(rules, j, RuleTargets);
        j := j + 1;
      }
      assert rules[..j] == rules;
    }

    /** The block over one security group: the edge to its VPC when present, then each rule's edges. */
    method LoadSecurityGroup(sg: SecurityGroup)
      modifies this`edges
      ensures edges == InsertAll(old(edges), EdgesOfGroup(sg))
    {
      ghost var edges0 := edges;
      if sg.vpcId.Some? {
        AddEdge((sg.groupId, sg.vpcId));
      }
      OptionalEdge(edges0, edges, sg.groupId, sg.vpcId.Some?, sg.vpcId);
      LoadRules(sg.groupId, sg.rules);
      FanExtend(edges0, sg.groupId, if sg.vpcId.Some? then [sg.vpcId] else [], FlatMap(sg.rules, RuleTargets));
    }

    /**
     * `_load_security_groups`: every group id pushed in bulk, without the
     * membership check; then, per group, its block.
     */
    method LoadSecurityGroups()
      requires data.Some?
      modifies this`nodes, this`edges
      ensures nodes == old(nodes) + SecurityGroupPassNodes(data.value.securityGroups)
      ensures edges == InsertAll(old(edges), SecurityGroupPassEdges(data.value.securityGroups))
    {
      var groups := data.value.securityGroups;
      nodes := nodes + SecurityGroupPassNodes(groups);
      ghost var edges0 := edges;
      var i := 0;
      while i < |groups|
        invariant 0 <= i <= |groups|
        invariant nodes == old(nodes) + SecurityGroupPassNodes(groups)
        invariant edges == InsertAll(edges0, FlatMap(groups[..i], EdgesOfGroup))
      {
        LoadSecurityGroup(groups[i]);
        PassStep(edges0, groups, i, EdgesOfGroup);
        i := i + 1;
      }
      assert groups[..i] == groups;
    }

    /** The block over one interface: with no test of the target, an edge to each group, to the subnet and to the VPC. */
    method LoadNetworkInterface(ni: NetworkInterface)
      modifies this`edges
      ensures edges == InsertAll(old(edges), EdgesOfInterface(ni))
    {
      ghost var edges0 := edges;
      ghost var byGroups := FlatMap(ni.groups, GroupRefTarget);
      LoadInterfaceGroups(ni.networkInterfaceId, ni.groups);
      AddEdge((ni.networkInterfaceId, ni.subnetId));
      FanInsert(edges0, ni.networkInterfaceId, byGroups, ni.subnetId);
      AddEdge((ni.networkInterfaceId, ni.vpcId));
      FanInsert(edges0, ni.networkInterfaceId, byGroups + [ni.subnetId], ni.vpcId);
      assert byGroups + [ni.subnetId] + [ni.vpcId] == TargetsOfInterface(ni);
    }

    /** The inner loop of an interface's block: an edge to each attached group, with no test of the target. */
    method LoadInterfaceGroups(interfaceId: Id, groups: seq<GroupRef>)
      modifies this`edges
      ensures edges == InsertAll(old(edges), Fan(interfaceId, FlatMap(groups, GroupRefTarget)))
    {
      ghost var edges0 := edges;
      var j := 0;
      while j < |groups|
        invariant 0 <= j <= |groups|
        invariant edges == InsertAll(edges0, Fan(interfaceId, FlatMap(groups[..j], GroupRefTarget)))
      {
        var sg := groups[j];
        AddEdge((interfaceId, sg.groupId));
        FanInsert(edges0, interfaceId, FlatMap(groups[..j], GroupRefTarget), sg.groupId);
        RecordDone(groups, j, GroupRefTarget);
        j := j + 1;
      }
      assert groups[..j] == groups;
    }

    /**
     * `_load_network_interfaces`: every interface id pushed in bulk, without
     * the membership check; then, per interface, its block.
     */
    method LoadNetworkInterfaces()
      requires data.Some?
      modifies this`nodes, this`edges
      ensures nodes == old(nodes) + InterfacePassNodes(data.value.networkInterfaces)
      ensures edges == InsertAll(old(edges), InterfacePassEdges(data.value.networkInterfaces))
    {
      var interfaces := data.value.networkInterfaces;
      nodes := nodes + InterfacePassNodes(interfaces);
      ghost var edges0 := edges;
      var i := 0;
      while i < |interfaces|
        invariant 0 <= i <= |interfaces|
        invariant nodes == old(nodes) + InterfacePassNodes(interfaces)
        invariant edges == InsertAll(edges0, FlatMap(interfaces[..i], EdgesOfInterface))
      {
        LoadNetworkInterface(interfaces[i]);
        PassStep(edges0, interfaces, i, EdgesOfInterface);
        i := i + 1;
      }
      assert interfaces[..i] == interfaces;
    }

    /** The block over one ACL: its id as a node, then, with no test of the target, an edge to its VPC and to each associated subnet. */
    method LoadAcl(acl: NetworkAcl)
      modifies this`nodes, this`edges
      ensures nodes == InsertAll(old(nodes), NodesOfAcl(acl))
      ensures edges == InsertAll(old(edges), EdgesOfAcl(acl))
    {
      InsertOne(nodes, acl.networkAclId);
      SingleTarget(nodes, edges, acl.networkAclId, acl.vpcId);
      ghost var edges0 := edges;
      AddNode(acl.networkAclId);
      AddEdge((acl.networkAclId, acl.vpcId));
      LoadAclAssociations(acl.networkAclId, acl.associations);
      FanExtend(edges0, acl.networkAclId, [acl.vpcId], FlatMap(acl.associations, AssociatedSubnet));
    }

    /** The inner loop of an ACL's block: an edge to each associated subnet, with no test of the target. */
    method LoadAclAssociations(aclId: Id, associations: seq<Association>)
      modifies this`edges
      ensures edges == InsertAll(old(edges), Fan(aclId, FlatMap(associations, AssociatedSubnet)))
    {
      ghost var edges0 := edges;
      var j := 0;
      while j < |associations|
        invariant 0 <= j <= |associations|
        invariant edges == InsertAll(edges0, Fan(aclId, FlatMap(associations[..j], AssociatedSubnet)))
      {
        var assoc := associations[j];
        AddEdge((aclId, assoc.subnetId));
        FanInsert(edges0, aclId, FlatMap(associations[..j], AssociatedSubnet), assoc.subnetId);
        RecordDone(associations, j, AssociatedSubnet);
        j := j + 1;
      }
      assert associations[..j] == associations;
    }

    /** `_load_network_acl`: per ACL, its block. */
    method LoadNetworkAcl()
      requires data.Some?
      modifies this`nodes, this`edges
      ensures nodes == InsertAll(old(nodes), AclPassNodes(data.value.networkAcls))
      ensures edges == InsertAll(old(edges), AclPassEdges(data.value.networkAcls))
    {
      var acls := data.value.networkAcls;
      ghost var nodes0, edges0 := nodes, edges;
      var i := 0;
      while i < |acls|
        invariant 0 <= i <= |acls|
        invariant nodes == InsertAll(nodes0, FlatMap(acls[..i], NodesOfAcl))
        invariant edges == InsertAll(edges0, FlatMap(acls[..i], EdgesOfAcl))
      {
        LoadAcl(acls[i]);
        PassStep(nodes0, acls, i, NodesOfAcl);
        PassStep(edges0, acls, i, EdgesOfAcl);
        i := i + 1;
      }
      assert acls[..i] == acls;
    }

    /**
     * `_load_internet_gateway`: per gateway its id as a node and, only when it
     * has at least one attachment, one edge to the first attachment's VPC.
     */
    method LoadInternetGateway()
      requires data.Some?
      modifies this`nodes, this`edges
      ensures nodes == InsertAll(old(nodes), GatewayPassNodes(data.value.internetGateways))
      ensures edges == InsertAll(old(edges), GatewayPassEdges(data.value.internetGateways))
    {
      var gateways := data.value.internetGateways;
      ghost var nodes0, edges0 := nodes, edges;
      var i := 0;
      while i < |gateways|
        invariant 0 <= i <= |gateways|
        invariant nodes == InsertAll(nodes0, FlatMap(gateways[..i], NodesOfGateway))
        invariant edges == InsertAll(edges0, FlatMap(gateways[..i], EdgesOfGateway))
      {
        LoadGateway(gateways[i]);
        PassStep(nodes0, gateways, i, NodesOfGateway);
        PassStep(edges0, gateways, i, EdgesOfGateway);
        i := i + 1;
      }
      assert gateways[..i] == gateways;
    }

    /** The block over one gateway: its id, then the edge to its first attachment's VPC if any. */
    method LoadGateway(igw: InternetGateway)
      modifies this`nodes, this`edges
      ensures nodes == InsertAll(old(nodes), NodesOfGateway(igw))
      ensures edges == InsertAll(old(edges), EdgesOfGateway(igw))
    {
      GatewayEdgesShape(igw);
      InsertOne(nodes, igw.internetGatewayId);
      AddNode(igw.internetGatewayId);
      if igw.attachments.Some? && |igw.attachments.value| != 0 {
        InsertOne(edges, (igw.internetGatewayId, igw.attachments.value[0].vpcId));
        AddEdge((igw.internetGatewayId, igw.attachments.value[0].vpcId));
      }
    }

    /**
     * The block over one route of table `routeTableId`: the first present of
     * gateway, instance, interface and peering connection becomes a node and
     * the target of an edge; a route with none of them adds nothing.
     */
    method LoadRoute(routeTableId: Id, route: Route)
      modifies this`nodes, this`edges
      ensures nodes == InsertAll(old(nodes), RouteTargets(route))
      ensures edges == InsertAll(old(edges), Fan(routeTableId, RouteTargets(route)))
    {
      RouteTargetsChain(route);
      ghost var nodes0, edges0 := nodes, edges;
      if route.gatewayId.Some? {
        AddNode(route.gatewayId);
        AddEdge((routeTableId, route.gatewayId));
        SingleTarget(nodes0, edges0, routeTableId, route.gatewayId);
      } else if route.instanceId.Some? {
        AddNode(route.instanceId);
        AddEdge((routeTableId, route.instanceId));
        SingleTarget(nodes0, edges0, routeTableId, route.instanceId);
      } else if route.networkInterfaceId.Some? {
        AddNode(route.networkInterfaceId);
        AddEdge((routeTableId, route.networkInterfaceId));
        SingleTarget(nodes0, edges0, routeTableId, route.networkInterfaceId);
      } else if route.vpcPeeringConnectionId.Some? {
        AddNode(route.vpcPeeringConnectionId);
        AddEdge((routeTableId, route.vpcPeeringConnectionId));
        SingleTarget(nodes0, edges0, routeTableId, route.vpcPeeringConnectionId);
      }
    }

    /**
     * The block over one route table: its id as a node, an edge to each
     * associated subnet that has an id, then each route's block.
     */
    method LoadRouteTable(rt: RouteTable)
      modifies this`nodes, this`edges
      ensures nodes == InsertAll(old(nodes), NodesOfRouteTable(rt))
      ensures edges == InsertAll(old(edges), EdgesOfRouteTable(rt))
    {
      ghost var nodes0, edges0 := nodes, edges;
      InsertOne(nodes0, rt.routeTableId);
      AddNode(rt.routeTableId);
      LoadRouteTableAssociations(rt.routeTableId, rt.associations);
      LoadRoutes(rt.routeTableId, rt.routes);
      InsertAllAppend(nodes0, [rt.routeTableId], FlatMap(rt.routes, RouteTargets));
      FanExtend(edges0, rt.routeTableId, FlatMap(rt.associations, PresentSubnet), FlatMap(rt.routes, RouteTargets));
    }

    /** The first inner loop of a table's block: an edge to each associated subnet that has an id. */
    method LoadRouteTableAssociations(routeTableId: Id, associations: seq<Association>)
      modifies this`edges
      ensures edges == InsertAll(old(edges), Fan(routeTableId, FlatMap(associations, PresentSubnet)))
    {
      ghost var edges0 := edges;
      var j := 0;
      while j < |associations|
        invariant 0 <= j <= |associations|
        invariant edges == InsertAll(edges0, Fan(routeTableId, FlatMap(associations[..j], PresentSubnet)))
      {
        LoadRouteTableAssociation(routeTableId, associations[j]);
        FanExtend(edges0, routeTableId, FlatMap(associations[..j], PresentSubnet), PresentSubnet(associations[j]));
        RecordDone(associations, j, PresentSubnet);
        j := j + 1;
      }
      assert associations[..j] == associations;
    }

    /** The block over one association of a table: an edge to its subnet, only when it has an id. */
    method LoadRouteTableAssociation(routeTableId: Id, assoc: Association)
      modifies this`edges
      ensures edges == InsertAll(old(edges), Fan(routeTableId, PresentSubnet(assoc)))
    {
      ghost var before := edges;
      if assoc.subnetId.Some? {
        AddEdge((routeTableId, assoc.subnetId));
      }
      OptionalEdge(before, edges, routeTableId, assoc.subnetId.Some?, assoc.subnetId);
    }

    /** The second inner loop of a table's block: each route's node and edge, in order. */
    method LoadRoutes(routeTableId: Id, routes: seq<Route>)
      modifies this`nodes, this`edges
      ensures nodes == InsertAll(old(nodes), FlatMap(routes, RouteTargets))
      ensures edges == InsertAll(old(edges), Fan(routeTableId, FlatMap(routes, RouteTargets)))
    {
      ghost var nodes0, edges0 := nodes, edges;
      var k := 0;
      while k < |routes|
        invariant 0 <= k <= |routes|
        invariant nodes == InsertAll(nodes0, FlatMap(routes[..k], RouteTargets))
        invariant edges == InsertAll(edges0, Fan(routeTableId, FlatMap(routes[..k], RouteTargets)))
      {
        LoadRoute(routeTableId, routes[k]);
        PassStep(nodes0, routes, k, RouteTargets);
        FanExtend(edges0, routeTableId, FlatMap(routes[..k], RouteTargets), RouteTargets(routes[k]));
        RecordDone(routes, k, RouteTargets);
        k := k + 1;
      }
      assert routes[..k] == routes;
    }

    /** `_load_route_tables`: per route table, its block. */
    method LoadRouteTables()
      requires data.Some?
      modifies this`nodes, this`edges
      ensures nodes == InsertAll(old(nodes), RouteTablePassNodes(data.value.routeTables))
      ensures edges == InsertAll(old(edges), RouteTablePassEdges(data.value.routeTables))
    {
      var tables := data.value.routeTables;
      ghost var nodes0, edges0 := nodes, edges;
      var i := 0;
      while i < |tables|
        invariant 0 <= i <= |tables|
        invariant nodes == InsertAll(nodes0, FlatMap(tables[..i], NodesOfRouteTable))
        invariant edges == InsertAll(edges0, FlatMap(tables[..i], EdgesOfRouteTable))
      {
        LoadRouteTable(tables[i]);
        PassStep(nodes0, tables, i, NodesOfRouteTable);
        PassStep(edges0, tables, i, EdgesOfRouteTable);
        i := i + 1;
      }
      assert tables[..i] == tables;
    }

    /**
     * `build_map`: load the document if none is loaded, reset both
     * accumulators, seed the nodes with the VPC id, run the six passes in
     * order and return both arrays deduplicated. Without a document the first
     * pass dereferences nil; the build then fails with the accumulators as
     * the reset left them.
     */
    method BuildMap(vpcId: string, file: Option<Inventory>) returns (r: Result<Graph, BuildError>)
      modifies this
      ensures data == (if old(data).Some? then old(data) else file)
      ensures r == Build(data, vpcId)
      ensures data.None? ==> nodes == [Some(vpcId)] && edges == []
      ensures data.Some? ==> nodes == AccumulatedNodes(data.value, vpcId) && edges == AccumulatedEdges(data.value)
    {
      if data.None? {
        LoadMap(file);
      }
      nodes := [];
      edges := [];
      nodes := nodes + [Some(vpcId)];
      assert nodes == [Some(vpcId)];
      if data.None? {
        r := Failure(InventoryNotLoaded);
        return;
      }
      ghost var inv := data.value;
      LoadSubnets();
      LoadSecurityGroups();
      LoadNetworkInterfaces();
      LoadNetworkAcl();
      LoadInternetGateway();
      LoadRouteTables();
      assert nodes == AccumulatedNodes(inv, vpcId);
      assert edges == AccumulatedEdges(inv);
      AccumulatedGraph(inv, vpcId);
      r := Success(Graph(Uniq(nodes), Uniq(edges)));
    }
  }

  /**
   * Two builds on one instance: once a document is loaded, the second build
   * returns exactly the first one's graph, whatever the first left in the
   * accumulators and whatever file the second would read.
   */
  method RebuildIsStable(g: AWSNetworkMapGraph, vpcId: string, file: Option<Inventory>, laterFile: Option<Inventory>)
    returns (first: Result<Graph, BuildError>, second: Result<Graph, BuildError>)
    modifies g
    ensures first.Success? ==> second == first
  {
    first := g.BuildMap(vpcId, file);
    second := g.BuildMap(vpcId, laterFile);
  }
}
