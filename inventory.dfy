/**
 * The inventory document of one VPC, as the graph builder reads it.
 *
 * Each record keeps only the fields the builder looks at. A string-valued
 * field is an `Id`: `None` is Ruby's `nil`, which is what a missing key or a
 * JSON `null` reads as, and which the builder passes on into nodes and edges
 * wherever it does not test the field first.
 */
module AwsInventory {
  import opened Wrappers

  /** An identifier or address block, or `nil`. */
  type Id = Option<string>

  /** An ordered (source, target) pair; (a, b) and (b, a) are different edges. */
  type Edge = (Id, Id)

  datatype Subnet = Subnet(subnetId: Id, cidrBlock: Id)

  /** A reference to a security group: `ReferencedGroupInfo` of a rule, or an entry of an interface's `Groups`. */
  datatype GroupRef = GroupRef(groupId: Id)

  /** A security-group rule; `referencedGroupInfo` is `None` when the rule names no other group. */
  datatype Rule = Rule(referencedGroupInfo: Option<GroupRef>, cidrIpv4: Id, cidrIpv6: Id)

  datatype SecurityGroup = SecurityGroup(groupId: Id, vpcId: Id, rules: seq<Rule>)

  datatype NetworkInterface = NetworkInterface(
    networkInterfaceId: Id, groups: seq<GroupRef>, subnetId: Id, vpcId: Id)

  /** A subnet association of a network ACL or of a route table. */
  datatype Association = Association(subnetId: Id)

  datatype NetworkAcl = NetworkAcl(networkAclId: Id, vpcId: Id, associations: seq<Association>)

  datatype Attachment = Attachment(vpcId: Id)

  /** `attachments` is `None` when the gateway record has no `Attachments` key. */
  datatype InternetGateway = InternetGateway(internetGatewayId: Id, attachments: Option<seq<Attachment>>)

  datatype Route = Route(
    gatewayId: Id, instanceId: Id, networkInterfaceId: Id, vpcPeeringConnectionId: Id)

  datatype RouteTable = RouteTable(routeTableId: Id, associations: seq<Association>, routes: seq<Route>)

  /** The six categories of the document, each an ordered sequence of records. */
  datatype Inventory = Inventory(
    subnets: seq<Subnet>,
    securityGroups: seq<SecurityGroup>,
    networkInterfaces: seq<NetworkInterface>,
    networkAcls: seq<NetworkAcl>,
    internetGateways: seq<InternetGateway>,
    routeTables: seq<RouteTable>)
}
