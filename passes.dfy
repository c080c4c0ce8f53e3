/**
 * What each derivation pass of the graph builder emits, as pure functions.
 *
 * A pass walks its category in order and, for every record, offers some
 * identifiers to `add_node` and some pairs to `add_edge`. `XOf` functions give
 * what one record contributes; `XPassNodes`/`XPassEdges` concatenate that over
 * the category. Beside each pass stands a predicate saying, record by record,
 * which nodes and edges the pass must produce, and a lemma proving that the
 * emitted sequences contain exactly those.
 */
module GraphPasses {
  import opened Wrappers
  import opened AwsInventory
  import opened Dedup

  // ---------------------------------------------------------------------------
  // Iteration helpers
  // ---------------------------------------------------------------------------

  /** The concatenation of `f(x)` for every `x` of `xs`, in order. */
  function FlatMap<T, U>(xs: seq<T>, f: T -> seq<U>): seq<U>
    decreases |xs|
  {
    if |xs| == 0 then [] else FlatMap(xs[..|xs| - 1], f) + f(xs[|xs| - 1])
  }

  lemma FlatMapSnoc<T, U>(xs: seq<T>, f: T -> seq<U>, x: T)
    ensures FlatMap(xs + [x], f) == FlatMap(xs, f) + f(x)
  {
    assert (xs + [x])[..|xs|] == xs;
  }

  /** `u` is emitted over `xs` exactly when some element of `xs` emits it. */
  lemma {:induction false} FlatMapMembers<T, U>(xs: seq<T>, f: T -> seq<U>, u: U)
    ensures u in FlatMap(xs, f) <==> exists i :: 0 <= i < |xs| && u in f(xs[i])
    decreases |xs|
  {
    if |xs| > 0 {
      var init, last := xs[..|xs| - 1], xs[|xs| - 1];
      FlatMapMembers(init, f, u);
      if u in FlatMap(xs, f) {
        if u in FlatMap(init, f) {
          var i :| 0 <= i < |init| && u in f(init[i]);
          assert xs[i] == init[i];
        } else {
          assert u in f(xs[|xs| - 1]);
        }
      }
      if exists i :: 0 <= i < |xs| && u in f(xs[i]) {
        var i :| 0 <= i < |xs| && u in f(xs[i]);
        if i < |init| {
          assert init[i] == xs[i];
        }
      }
    }
  }

  /** The edges from `source` to each of `targets`, in the order of `targets`. */
  function Fan(source: Id, targets: seq<Id>): (es: seq<Edge>)
    ensures |es| == |targets|
    ensures forall k :: 0 <= k < |es| ==> es[k] == (source, targets[k])
  {
    seq(|targets|, k requires 0 <= k < |targets| => (source, targets[k]))
  }

  lemma FanMembers(source: Id, targets: seq<Id>, e: Edge)
    ensures e in Fan(source, targets) <==> e.0 == source && e.1 in targets
  {
    var es := Fan(source, targets);
    if e.0 == source && e.1 in targets {
      var k :| 0 <= k < |targets| && targets[k] == e.1;
      assert es[k] == e;
    }
  }

  lemma FanSnoc(source: Id, targets: seq<Id>, t: Id)
    ensures Fan(source, targets + [t]) == Fan(source, targets) + [(source, t)]
  {
  }

  lemma FanAppend(source: Id, a: seq<Id>, b: seq<Id>)
    ensures Fan(source, a + b) == Fan(source, a) + Fan(source, b)
  {
  }

  // ---------------------------------------------------------------------------
  // Subnets (network_map_graph.rb:66-71)
  // ---------------------------------------------------------------------------

  function NodesOfSubnet(s: Subnet): seq<Id> { [s.subnetId, s.cidrBlock] }

  function EdgesOfSubnet(s: Subnet): seq<Edge> { [(s.subnetId, s.cidrBlock)] }

  function SubnetPassNodes(subnets: seq<Subnet>): seq<Id> { FlatMap(subnets, NodesOfSubnet) }

  function SubnetPassEdges(subnets: seq<Subnet>): seq<Edge> { FlatMap(subnets, EdgesOfSubnet) }

  /** Every subnet yields its id and its CIDR block as nodes, and the edge between them. */
  lemma SubnetPassExactly(subnets: seq<Subnet>, x: Id, e: Edge)
    ensures x in SubnetPassNodes(subnets) <==>
              exists i :: 0 <= i < |subnets| && (x == subnets[i].subnetId || x == subnets[i].cidrBlock)
    ensures e in SubnetPassEdges(subnets) <==>
              exists i :: 0 <= i < |subnets| && e == (subnets[i].subnetId, subnets[i].cidrBlock)
  {
    FlatMapMembers(subnets, NodesOfSubnet, x);
    FlatMapMembers(subnets, EdgesOfSubnet, e);
  }

  // ---------------------------------------------------------------------------
  // Security groups (network_map_graph.rb:85-104)
  // ---------------------------------------------------------------------------

  function NodesOfGroup(sg: SecurityGroup): seq<Id> { [sg.groupId] }

  /** The targets one rule contributes: referenced group, IPv4 block, IPv6 block, each only if present. */
  function RuleTargets(rule: Rule): seq<Id> {
    (if rule.referencedGroupInfo.Some? then [rule.referencedGroupInfo.value.groupId] else [])
    + (if rule.cidrIpv4.Some? then [rule.cidrIpv4] else [])
    + (if rule.cidrIpv6.Some? then [rule.cidrIpv6] else [])
  }

  function TargetsOfGroup(sg: SecurityGroup): seq<Id> {
    (if sg.vpcId.Some? then [sg.vpcId] else []) + FlatMap(sg.rules, RuleTargets)
  }

  function EdgesOfGroup(sg: SecurityGroup): seq<Edge> { Fan(sg.groupId, TargetsOfGroup(sg)) }

  /** The ids pushed in bulk at the start of the pass, one per group. */
  function SecurityGroupPassNodes(sgs: seq<SecurityGroup>): seq<Id> { FlatMap(sgs, NodesOfGroup) }

  function SecurityGroupPassEdges(sgs: seq<SecurityGroup>): seq<Edge> { FlatMap(sgs, EdgesOfGroup) }

  /** `t` is a target a rule links its group to. */
  predicate RuleReaches(rule: Rule, t: Id) {
    || (rule.referencedGroupInfo.Some? && t == rule.referencedGroupInfo.value.groupId)
    || (rule.cidrIpv4.Some? && t == rule.cidrIpv4)
    || (rule.cidrIpv6.Some? && t == rule.cidrIpv6)
  }

  /** The edges a security group must produce. */
  predicate GroupLinks(sg: SecurityGroup, e: Edge) {
    && e.0 == sg.groupId
    && (|| (sg.vpcId.Some? && e.1 == sg.vpcId)
        || exists j :: 0 <= j < |sg.rules| && RuleReaches(sg.rules[j], e.1))
  }

  lemma GroupEdgesExactly(sg: SecurityGroup, e: Edge)
    ensures e in EdgesOfGroup(sg) <==> GroupLinks(sg, e)
  {
    FanMembers(sg.groupId, TargetsOfGroup(sg), e);
    FlatMapMembers(sg.rules, RuleTargets, e.1);
  }

  /**
   * Every group id is a node; the pass adds (group, VPC) only when the VPC id
   * is present, and per rule an edge to the referenced group only when the
   * rule references one and to each CIDR block only when present. Nothing else.
   */
  lemma SecurityGroupPassExactly(sgs: seq<SecurityGroup>, x: Id, e: Edge)
    ensures x in SecurityGroupPassNodes(sgs) <==> exists i :: 0 <= i < |sgs| && x == sgs[i].groupId
    ensures e in SecurityGroupPassEdges(sgs) <==> exists i :: 0 <= i < |sgs| && GroupLinks(sgs[i], e)
  {
    FlatMapMembers(sgs, NodesOfGroup, x);
    FlatMapMembers(sgs, EdgesOfGroup, e);
    forall i | 0 <= i < |sgs| ensures e in EdgesOfGroup(sgs[i]) <==> GroupLinks(sgs[i], e) {
      GroupEdgesExactly(sgs[i], e);
    }
  }

  // ---------------------------------------------------------------------------
  // Network interfaces (network_map_graph.rb:121-129)
  // ---------------------------------------------------------------------------

  function NodesOfInterface(ni: NetworkInterface): seq<Id> { [ni.networkInterfaceId] }

  function GroupRefTarget(g: GroupRef): seq<Id> { [g.groupId] }

  /** Attached groups, then subnet, then VPC: none of them is tested for presence. */
  function TargetsOfInterface(ni: NetworkInterface): seq<Id> {
    FlatMap(ni.groups, GroupRefTarget) + [ni.subnetId, ni.vpcId]
  }

  function EdgesOfInterface(ni: NetworkInterface): seq<Edge> {
    Fan(ni.networkInterfaceId, TargetsOfInterface(ni))
  }

  /** The ids pushed in bulk at the start of the pass, one per interface. */
  function InterfacePassNodes(nis: seq<NetworkInterface>): seq<Id> { FlatMap(nis, NodesOfInterface) }

  function InterfacePassEdges(nis: seq<NetworkInterface>): seq<Edge> { FlatMap(nis, EdgesOfInterface) }

  /** The edges an interface must produce, whether or not the target is nil. */
  predicate InterfaceLinks(ni: NetworkInterface, e: Edge) {
    && e.0 == ni.networkInterfaceId
    && (|| e.1 == ni.subnetId
        || e.1 == ni.vpcId
        || exists j :: 0 <= j < |ni.groups| && e.1 == ni.groups[j].groupId)
  }

  lemma InterfaceEdgesExactly(ni: NetworkInterface, e: Edge)
    ensures e in EdgesOfInterface(ni) <==> InterfaceLinks(ni, e)
  {
    FanMembers(ni.networkInterfaceId, TargetsOfInterface(ni), e);
    FlatMapMembers(ni.groups, GroupRefTarget, e.1);
  }

  /** Every interface id is a node; an interface links to each attached group, its subnet and its VPC, unconditionally. */
  lemma InterfacePassExactly(nis: seq<NetworkInterface>, x: Id, e: Edge)
    ensures x in InterfacePassNodes(nis) <==> exists i :: 0 <= i < |nis| && x == nis[i].networkInterfaceId
    ensures e in InterfacePassEdges(nis) <==> exists i :: 0 <= i < |nis| && InterfaceLinks(nis[i], e)
  {
    FlatMapMembers(nis, NodesOfInterface, x);
    FlatMapMembers(nis, EdgesOfInterface, e);
    forall i | 0 <= i < |nis| ensures e in EdgesOfInterface(nis[i]) <==> InterfaceLinks(nis[i], e) {
      InterfaceEdgesExactly(nis[i], e);
    }
  }

  // ---------------------------------------------------------------------------
  // Network ACLs (network_map_graph.rb:135-143)
  // ---------------------------------------------------------------------------

  function NodesOfAcl(acl: NetworkAcl): seq<Id> { [acl.networkAclId] }

  function AssociatedSubnet(a: Association): seq<Id> { [a.subnetId] }

  /** VPC, then every associated subnet: none of them is tested for presence. */
  function TargetsOfAcl(acl: NetworkAcl): seq<Id> {
    [acl.vpcId] + FlatMap(acl.associations, AssociatedSubnet)
  }

  function EdgesOfAcl(acl: NetworkAcl): seq<Edge> { Fan(acl.networkAclId, TargetsOfAcl(acl)) }

  function AclPassNodes(acls: seq<NetworkAcl>): seq<Id> { FlatMap(acls, NodesOfAcl) }

  function AclPassEdges(acls: seq<NetworkAcl>): seq<Edge> { FlatMap(acls, EdgesOfAcl) }

  /** The edges an ACL must produce, whether or not the target is nil. */
  predicate AclLinks(acl: NetworkAcl, e: Edge) {
    && e.0 == acl.networkAclId
    && (|| e.1 == acl.vpcId
        || exists j :: 0 <= j < |acl.associations| && e.1 == acl.associations[j].subnetId)
  }

  lemma AclEdgesExactly(acl: NetworkAcl, e: Edge)
    ensures e in EdgesOfAcl(acl) <==> AclLinks(acl, e)
  {
    FanMembers(acl.networkAclId, TargetsOfAcl(acl), e);
    FlatMapMembers(acl.associations, AssociatedSubnet, e.1);
  }

  /** Every ACL id is a node; an ACL links to its VPC and to each associated subnet, unconditionally. */
  lemma AclPassExactly(acls: seq<NetworkAcl>, x: Id, e: Edge)
    ensures x in AclPassNodes(acls) <==> exists i :: 0 <= i < |acls| && x == acls[i].networkAclId
    ensures e in AclPassEdges(acls) <==> exists i :: 0 <= i < |acls| && AclLinks(acls[i], e)
  {
    FlatMapMembers(acls, NodesOfAcl, x);
    FlatMapMembers(acls, EdgesOfAcl, e);
    forall i | 0 <= i < |acls| ensures e in EdgesOfAcl(acls[i]) <==> AclLinks(acls[i], e) {
      AclEdgesExactly(acls[i], e);
    }
  }

  // ---------------------------------------------------------------------------
  // Internet gateways (network_map_graph.rb:146-151)
  // ---------------------------------------------------------------------------

  function NodesOfGateway(igw: InternetGateway): seq<Id> { [igw.internetGatewayId] }

  predicate HasAttachment(igw: InternetGateway) {
    igw.attachments.Some? && |igw.attachments.value| > 0
  }

  /** The VPC of the first attachment, when there is one. */
  function TargetsOfGateway(igw: InternetGateway): seq<Id> {
    if HasAttachment(igw) then [igw.attachments.value[0].vpcId] else []
  }

  /**
   * One edge to the first attachment's VPC when the gateway has an attachment,
   * none otherwise.
   */
  function EdgesOfGateway(igw: InternetGateway): (es: seq<Edge>)
    ensures |es| == (if HasAttachment(igw) then 1 else 0)
    ensures forall e :: e in es <==> HasAttachment(igw) && e == (igw.internetGatewayId, igw.attachments.value[0].vpcId)
  {
    var es := Fan(igw.internetGatewayId, TargetsOfGateway(igw));
    assert HasAttachment(igw) ==> es == [(igw.internetGatewayId, igw.attachments.value[0].vpcId)];
    es
  }

  function GatewayPassNodes(igws: seq<InternetGateway>): seq<Id> { FlatMap(igws, NodesOfGateway) }

  function GatewayPassEdges(igws: seq<InternetGateway>): seq<Edge> { FlatMap(igws, EdgesOfGateway) }

  /** Attachments after the first do not matter. */
  lemma LaterAttachmentsIgnored(igw: InternetGateway, first: Attachment, rest: seq<Attachment>)
    requires igw.attachments == Some([first] + rest)
    ensures EdgesOfGateway(igw) == [(igw.internetGatewayId, first.vpcId)]
  {
  }

  /** Every gateway id is a node; a gateway links only to the VPC of its first attachment, if any. */
  lemma GatewayPassExactly(igws: seq<InternetGateway>, x: Id, e: Edge)
    ensures x in GatewayPassNodes(igws) <==> exists i :: 0 <= i < |igws| && x == igws[i].internetGatewayId
    ensures e in GatewayPassEdges(igws) <==>
              exists i :: 0 <= i < |igws| && HasAttachment(igws[i])
                          && e == (igws[i].internetGatewayId, igws[i].attachments.value[0].vpcId)
  {
    FlatMapMembers(igws, NodesOfGateway, x);
    FlatMapMembers(igws, EdgesOfGateway, e);
  }

  // ---------------------------------------------------------------------------
  // Route tables (network_map_graph.rb:156-179)
  // ---------------------------------------------------------------------------

  /** The first present id of `ids`, or `None` when all are absent. */
  function FirstPresent(ids: seq<Id>): (r: Id)
    ensures r.None? <==> forall k :: 0 <= k < |ids| ==> ids[k].None?
    ensures r.Some? ==> exists k :: 0 <= k < |ids| && ids[k] == r && forall m :: 0 <= m < k ==> ids[m].None?
  {
    if |ids| == 0 then None
    else if ids[0].Some? then ids[0]
    else
      var r := FirstPresent(ids[1..]);
      assert r.Some? ==> exists k :: 1 <= k < |ids| && ids[k] == r && forall m :: 0 <= m < k ==> ids[m].None? by {
        if r.Some? {
          var k :| 0 <= k < |ids[1..]| && ids[1..][k] == r && forall m :: 0 <= m < k ==> ids[1..][m].None?;
          assert forall m :: 0 <= m < k + 1 ==> ids[m].None? by {
            forall m | 0 <= m < k + 1 ensures ids[m].None? {
              if m > 0 { assert ids[m] == ids[1..][m - 1]; }
            }
          }
        }
      }
      r
  }

  /** The route's target fields in priority order. */
  function TargetFields(route: Route): seq<Id> {
    [route.gatewayId, route.instanceId, route.networkInterfaceId, route.vpcPeeringConnectionId]
  }

  /** The target a route resolves to: the first present field in priority order. */
  function RouteTarget(route: Route): Id { FirstPresent(TargetFields(route)) }

  /** The priority order spelled out: gateway, then instance, then interface, then peering connection. */
  lemma RouteTargetPriority(route: Route)
    ensures route.gatewayId.Some? ==> RouteTarget(route) == route.gatewayId
    ensures route.gatewayId.None? && route.instanceId.Some? ==> RouteTarget(route) == route.instanceId
    ensures (route.gatewayId.None? && route.instanceId.None? && route.networkInterfaceId.Some?)
              ==> RouteTarget(route) == route.networkInterfaceId
    ensures (route.gatewayId.None? && route.instanceId.None? && route.networkInterfaceId.None?)
              ==> RouteTarget(route) == route.vpcPeeringConnectionId
  {
    var f := TargetFields(route);
    var t := RouteTarget(route);
    if t.Some? {
      var k :| 0 <= k < |f| && f[k] == t && forall m :: 0 <= m < k ==> f[m].None?;
      assert f[0] == route.gatewayId && f[1] == route.instanceId;
      assert f[2] == route.networkInterfaceId && f[3] == route.vpcPeeringConnectionId;
    } else {
      assert f[0].None? && f[1].None? && f[2].None? && f[3].None?;
      assert f[3] == route.vpcPeeringConnectionId;
    }
  }

  /** What one route contributes, as node and as edge target. */
  function RouteTargets(route: Route): (ts: seq<Id>)
    ensures |ts| <= 1
    ensures |ts| == 0 <==> forall k :: 0 <= k < 4 ==> TargetFields(route)[k].None?
  {
    if RouteTarget(route).Some? then [RouteTarget(route)] else []
  }

  /** An association edge only for an association with a subnet id. */
  function PresentSubnet(a: Association): seq<Id> {
    if a.subnetId.Some? then [a.subnetId] else []
  }

  function NodesOfRouteTable(rt: RouteTable): seq<Id> {
    [rt.routeTableId] + FlatMap(rt.routes, RouteTargets)
  }

  function TargetsOfRouteTable(rt: RouteTable): seq<Id> {
    FlatMap(rt.associations, PresentSubnet) + FlatMap(rt.routes, RouteTargets)
  }

  function EdgesOfRouteTable(rt: RouteTable): seq<Edge> {
    Fan(rt.routeTableId, TargetsOfRouteTable(rt))
  }

  function RouteTablePassNodes(rts: seq<RouteTable>): seq<Id> { FlatMap(rts, NodesOfRouteTable) }

  function RouteTablePassEdges(rts: seq<RouteTable>): seq<Edge> { FlatMap(rts, EdgesOfRouteTable) }

  /** `t` is the resolved target of some route of the table. */
  predicate RoutesReach(rt: RouteTable, t: Id) {
    exists j :: 0 <= j < |rt.routes| && RouteTarget(rt.routes[j]).Some? && t == RouteTarget(rt.routes[j])
  }

  /** The nodes a route table must produce. */
  predicate RouteTableNames(rt: RouteTable, x: Id) {
    x == rt.routeTableId || RoutesReach(rt, x)
  }

  /** The edges a route table must produce. */
  predicate RouteTableLinks(rt: RouteTable, e: Edge) {
    && e.0 == rt.routeTableId
    && (|| (exists j :: 0 <= j < |rt.associations| && rt.associations[j].subnetId.Some?
                         && e.1 == rt.associations[j].subnetId)
        || RoutesReach(rt, e.1))
  }

  lemma RouteTableExactly(rt: RouteTable, x: Id, e: Edge)
    ensures x in NodesOfRouteTable(rt) <==> RouteTableNames(rt, x)
    ensures e in EdgesOfRouteTable(rt) <==> RouteTableLinks(rt, e)
  {
    FlatMapMembers(rt.routes, RouteTargets, x);
    FanMembers(rt.routeTableId, TargetsOfRouteTable(rt), e);
    FlatMapMembers(rt.associations, PresentSubnet, e.1);
    FlatMapMembers(rt.routes, RouteTargets, e.1);
  }

  /**
   * Every route-table id is a node; a table links to each associated subnet
   * that has an id, and every route adds one node and one edge to its first
   * present target, or nothing when it has none.
   */
  lemma RouteTablePassExactly(rts: seq<RouteTable>, x: Id, e: Edge)
    ensures x in RouteTablePassNodes(rts) <==> exists i :: 0 <= i < |rts| && RouteTableNames(rts[i], x)
    ensures e in RouteTablePassEdges(rts) <==> exists i :: 0 <= i < |rts| && RouteTableLinks(rts[i], e)
  {
    FlatMapMembers(rts, NodesOfRouteTable, x);
    FlatMapMembers(rts, EdgesOfRouteTable, e);
    forall i | 0 <= i < |rts|
      ensures x in NodesOfRouteTable(rts[i]) <==> RouteTableNames(rts[i], x)
      ensures e in EdgesOfRouteTable(rts[i]) <==> RouteTableLinks(rts[i], e)
    {
      RouteTableExactly(rts[i], x, e);
    }
  }
}
