# AWS network map graph builder, modelled in Dafny

This project models `AWSNetworkMapGraph`, the part of `aws_resources_mapper` that turns
the inventory document of one VPC into a directed graph. The document lists subnets,
security groups, network interfaces, network ACLs, internet gateways and route tables.
The graph's nodes are resource identifiers. Its edges are ordered (source, target) pairs
of identifiers.

The builder is an object with two growing arrays, `@nodes` and `@edges`. The model is
therefore a class, `NetworkMapGraph.AWSNetworkMapGraph`, with the fields
`nodes: seq<Id>`, `edges: seq<Edge>` and `data: Option<Inventory>`. An `Id` is
`Option<string>`, where `None` is Ruby's `nil`.

- `add_node` and `add_edge` become `AddNode` and `AddEdge`.
- The six `_load_*` passes become methods that walk their category with `while` loops and
  call `AddNode`/`AddEdge` exactly as the Ruby blocks do. The body of each `each` block
  over one record is a method of its own (`LoadSubnet`, `LoadRule`, `LoadAcl`, ...), and
  so is each inner `each` loop (`LoadRules`, `LoadAclAssociations`, `LoadRoutes`, ...).
- `build_map` becomes `BuildMap`. It resets both accumulators, seeds the nodes with the VPC
  id, runs the six passes in the source's order and returns both arrays deduplicated.

Each method is proved against pure specification functions:

- `Dedup.Insert` is one membership-checked append. `Dedup.InsertAll` is a run of them.
- `Dedup.Uniq` is Ruby's `Array#uniq`.
- `GraphPasses` gives, per pass, what each record offers as nodes and edges. It also
  proves, record by record, which nodes and edges a pass produces: exactly those, and
  nothing else.
- `GraphSpec.Build` is the reference graph: the deduplicated concatenation of everything
  the passes offer, with the VPC id in front. `GraphSpec.AccumulatedGraph` proves that
  deduplicating the builder's actual arrays gives exactly `Build`. This holds even though
  two passes push ids in bulk without the membership check.

Files:

- `wrappers.dfy`: `Option` and `Result`.
- `inventory.dfy`: the document's records.
- `dedup.dfy`: insertion and `uniq`.
- `passes.dfy`: what each pass emits.
- `graph.dfy`: the reference graph and its properties.
- `network_map_graph.dfy`: the class.

The model follows `network_map_graph.rb` as written:

- the VPC id passed to `build_map` is the first node;
- an interface's and an ACL's edges are added even when the target is `nil`, and a subnet
  without an id still adds `nil` as a node;
- the group and interface ids are pushed in bulk, without the membership check;
- a build with no loaded document fails.

## Model

| member | source | states |
|---|---|---|
| NetworkMapGraph.AWSNetworkMapGraph.constructor | network_map_graph.rb:4-8 | a new builder has empty node and edge arrays and no document |
| NetworkMapGraph.AWSNetworkMapGraph.LoadMap | network_map_graph.rb:10-19 | the document is replaced when the file exists, otherwise the previous document (or none) is kept |
| NetworkMapGraph.AWSNetworkMapGraph.AddNode | network_map_graph.rb:46-50 | the node is present afterwards; nothing is removed or reordered; at most one element is added; an already present node changes nothing |
| NetworkMapGraph.AWSNetworkMapGraph.AddEdge | network_map_graph.rb:52-54 | the ordered pair is present afterwards; nothing is removed; at most one element is added; the identical pair already present changes nothing |
| NetworkMapGraph.AWSNetworkMapGraph.BuildMap | network_map_graph.rb:21-43 | loads only when no document is loaded; the result is exactly the reference graph `Build`, whatever the arrays held before (the reset); without a document the build fails, with nodes `[vpc]` and no edges; otherwise the arrays equal the accumulated node and edge sequences |
| NetworkMapGraph.RebuildIsStable | network_map_graph.rb:21-43 | once a build succeeds, a second build on the same object returns the same graph, whatever file it would read; this holds because `BuildMap` ensures `r == Build(data, vpcId)`, which does not depend on what the arrays held before |
| NetworkMapGraph.AWSNetworkMapGraph.LoadSubnets | network_map_graph.rb:66-71 | the arrays grow by membership-checked insertion of each subnet's id and CIDR block, and of the edge between them, in document order |
| NetworkMapGraph.AWSNetworkMapGraph.LoadSubnet | network_map_graph.rb:68-70 | one subnet inserts its id, then its CIDR block, then the (id, block) edge |
| NetworkMapGraph.AWSNetworkMapGraph.LoadSecurityGroups | network_map_graph.rb:85-104 | all group ids are appended in bulk without the membership check; the edges grow by checked insertion of each group's edges in order |
| NetworkMapGraph.AWSNetworkMapGraph.LoadSecurityGroup | network_map_graph.rb:87-103 | one group adds the VPC edge only if its VPC id is present, then each rule's edges in order |
| NetworkMapGraph.AWSNetworkMapGraph.LoadRules | network_map_graph.rb:90-103 | the rules of one group add their edges by checked insertion, rule after rule |
| NetworkMapGraph.AWSNetworkMapGraph.LoadRule | network_map_graph.rb:90-102 | one rule adds edges to the referenced group, the IPv4 block and the IPv6 block, each only when present, in that order |
| NetworkMapGraph.AWSNetworkMapGraph.LoadNetworkInterfaces | network_map_graph.rb:121-129 | all interface ids are appended in bulk without the membership check; the edges grow by checked insertion of each interface's edges |
| NetworkMapGraph.AWSNetworkMapGraph.LoadNetworkInterface | network_map_graph.rb:123-128 | one interface adds an edge to each attached group, then to its subnet and its VPC, with no presence test |
| NetworkMapGraph.AWSNetworkMapGraph.LoadInterfaceGroups | network_map_graph.rb:124-126 | an edge from the interface to each attached group, in order, without testing the group id |
| NetworkMapGraph.AWSNetworkMapGraph.LoadNetworkAcl | network_map_graph.rb:135-143 | the arrays grow by checked insertion of each ACL's id and edges, in order |
| NetworkMapGraph.AWSNetworkMapGraph.LoadAcl | network_map_graph.rb:136-142 | one ACL adds its id, then unconditional edges to its VPC and to each associated subnet |
| NetworkMapGraph.AWSNetworkMapGraph.LoadAclAssociations | network_map_graph.rb:139-141 | an edge from the ACL to each association's subnet, in order, without testing the subnet id |
| NetworkMapGraph.AWSNetworkMapGraph.LoadInternetGateway | network_map_graph.rb:146-151 | the arrays grow by checked insertion of each gateway's id and its edges, in order |
| NetworkMapGraph.AWSNetworkMapGraph.LoadGateway | network_map_graph.rb:148-149 | one gateway adds its id, and an edge to the first attachment's VPC only when the attachment list exists and is non-empty |
| NetworkMapGraph.AWSNetworkMapGraph.LoadRouteTables | network_map_graph.rb:156-179 | the arrays grow by checked insertion of each table's nodes and edges, in order |
| NetworkMapGraph.AWSNetworkMapGraph.LoadRouteTable | network_map_graph.rb:157-178 | one table adds its id, an edge to each association with a subnet id, then each route's node and edge |
| NetworkMapGraph.AWSNetworkMapGraph.LoadRouteTableAssociations | network_map_graph.rb:160-162 | an edge from the table to each association's subnet, skipping associations without a subnet id |
| NetworkMapGraph.AWSNetworkMapGraph.LoadRouteTableAssociation | network_map_graph.rb:161 | one association adds the edge to its subnet exactly when the subnet id is present |
| NetworkMapGraph.AWSNetworkMapGraph.LoadRoutes | network_map_graph.rb:163-177 | the routes of one table each add their node and edge by checked insertion, in order |
| NetworkMapGraph.AWSNetworkMapGraph.LoadRoute | network_map_graph.rb:163-176 | one route adds, as a node and as an edge target, the first present of gateway, instance, interface and peering connection; a route with none adds nothing |
| NetworkMapGraph.RouteTargetsChain | network_map_graph.rb:164-176 | a route's contribution is the if/elsif chain over the four fields, in the source's order |
| NetworkMapGraph.PassStep | network_map_graph.rb:67 | inserting the first `i` records' offers and then record `i`'s is inserting the first `i + 1` records' offers |
| Dedup.Insert | network_map_graph.rb:47 | the element is present afterwards; the old sequence is a prefix; membership is old membership plus the element; a present element leaves the sequence unchanged |
| Dedup.InsertAll | network_map_graph.rb:47 | a run of insertions keeps the old sequence as prefix, and its members are the old members and the inserted ones |
| Dedup.InsertKeepsDistinct | network_map_graph.rb:47 | a membership-checked insertion into a duplicate-free sequence leaves it duplicate-free |
| Dedup.InsertAllKeepsDistinct | network_map_graph.rb:47 | so does a run of them |
| Dedup.InsertRepeated | network_map_graph.rb:46-54 | inserting the same element any positive number of times is inserting it once (idempotence) |
| Dedup.ReverseKept | network_map_graph.rb:52-54 | (a, b) and (b, a) are both kept: an ordered pair is not matched by its reverse |
| Dedup.Uniq | network_map_graph.rb:38 | the result has no duplicates, is no longer than the input, and has exactly the input's members |
| Dedup.UniqInsertAll | network_map_graph.rb:38 | after `uniq`, a run of checked insertions is indistinguishable from plain appends |
| Dedup.UniqOfDistinct | network_map_graph.rb:38 | `uniq` of a duplicate-free sequence is the sequence itself |
| Dedup.UniqIdempotent | network_map_graph.rb:38 | `uniq` is idempotent |
| Dedup.UniqRepeat | network_map_graph.rb:38 | a repeated element appended at the end leaves `uniq` unchanged |
| GraphSpec.Build | network_map_graph.rb:21-43 | fails exactly when no document is loaded; otherwise the nodes and edges have no duplicates, the VPC id is a node, and the nodes (edges) are exactly the VPC id and the emitted nodes (the emitted edges) |
| GraphSpec.AccumulatedNodes | network_map_graph.rb:28-38 | the definition of `@nodes` when `uniq` runs: the VPC id, checked insertion of the subnet pass, plain appends of the group and interface ids (lines 86, 122), then checked insertion of the ACL, gateway and route-table passes; `BuildMap` ends in this state |
| GraphSpec.AccumulatedEdges | network_map_graph.rb:26-38 | the definition of `@edges` when `uniq` runs: checked insertion of all six passes' edges from empty, in pass order; `BuildMap` ends in this state |
| GraphSpec.AccumulatedGraph | network_map_graph.rb:28-38 | deduplicating the builder's arrays at the end of the passes gives exactly `Build`, although the bulk pushes skip the check |
| GraphSpec.AccumulatedNodesUniq | network_map_graph.rb:28-38 | `uniq` of the accumulated nodes is `uniq` of the VPC id followed by every emitted node |
| GraphSpec.AccumulatedEdgesUniq | network_map_graph.rb:30-38 | `uniq` of the accumulated edges is `uniq` of every emitted edge |
| GraphSpec.UniqExtend | network_map_graph.rb:30-38 | if two sequences deduplicate alike, they still do after the same checked insertions or appends |
| GraphSpec.NodeStagesUniq | network_map_graph.rb:28-38 | the builder's node sequence (checked pass, two bulk pushes, three checked passes) deduplicates like the plain concatenation |
| GraphSpec.EdgeStagesUniq | network_map_graph.rb:30-38 | the builder's edge sequence (six checked passes from empty) deduplicates like the plain concatenation |
| GraphSpec.GraphEdgesExactly | network_map_graph.rb:30-38 | an edge is in the built graph if and only if some record of some pass must produce it |
| GraphSpec.GraphNodesExactly | network_map_graph.rb:28-38 | a node is in the built graph if and only if it is the VPC id or some record of some pass must produce it |
| GraphSpec.SubnetInGraph | network_map_graph.rb:66-71 | every subnet's id and CIDR block are nodes of the built graph, and the edge between them is an edge of it |
| GraphSpec.OneSubnetEmits | network_map_graph.rb:66-71 | a one-subnet document emits the subnet id and its block, and one edge |
| GraphSpec.OneSubnetGraph | network_map_graph.rb:21-43 | in the model, a one-subnet document builds to the VPC id, the subnet and its block, and one edge; Ruby would also return one empty array `[]` among the nodes (see "Nested arrays" under Left out) |
| GraphSpec.GatewayWinsOverInstance | network_map_graph.rb:164-169 | a route naming both a gateway and an instance yields only the gateway edge |
| GraphSpec.GroupWithIpv4Rule | network_map_graph.rb:88-98 | a group in a VPC with one IPv4 rule links to the VPC and to the block, in that order |
| GraphPasses.FlatMapMembers | network_map_graph.rb:67 | an element is emitted over a category if and only if some record emits it |
| GraphPasses.Fan | network_map_graph.rb:125-128 | the edges from one source keep the targets' order and length |
| GraphPasses.FanMembers | network_map_graph.rb:125-128 | an edge is among them if and only if it starts at the source and ends at one of the targets |
| GraphPasses.SubnetPassExactly | network_map_graph.rb:66-71 | the subnet pass offers exactly each subnet's id and block as nodes, and exactly the (id, block) edges |
| GraphPasses.RuleTargets | network_map_graph.rb:91-102 | the definition of one rule's targets: the referenced group's id if the rule references one, then the IPv4 block and the IPv6 block, each only if present; `GroupEdgesExactly` proves which edges result |
| GraphPasses.TargetsOfGroup | network_map_graph.rb:88-103 | the definition of one group's targets: its VPC only if present, then every rule's targets in order; characterised by `GroupEdgesExactly` |
| GraphPasses.GroupEdgesExactly | network_map_graph.rb:88-103 | a group's edges are exactly the VPC edge when the VPC id is present and, per rule, the edges to the present referenced group and blocks |
| GraphPasses.SecurityGroupPassExactly | network_map_graph.rb:85-104 | the group pass offers exactly the group ids as nodes and exactly the edges some group must produce |
| GraphPasses.TargetsOfInterface | network_map_graph.rb:124-128 | the definition of one interface's targets: every attached group's id, then the subnet, then the VPC, none tested; characterised by `InterfaceEdgesExactly` |
| GraphPasses.InterfaceEdgesExactly | network_map_graph.rb:124-128 | an interface's edges are exactly those to its groups, subnet and VPC, nil or not |
| GraphPasses.InterfacePassExactly | network_map_graph.rb:121-129 | the interface pass offers exactly the interface ids and exactly the edges some interface must produce |
| GraphPasses.TargetsOfAcl | network_map_graph.rb:138-141 | the definition of one ACL's targets: its VPC, then every association's subnet, none tested; characterised by `AclEdgesExactly` |
| GraphPasses.AclEdgesExactly | network_map_graph.rb:138-141 | an ACL's edges are exactly those to its VPC and to each associated subnet, nil or not |
| GraphPasses.AclPassExactly | network_map_graph.rb:135-143 | the ACL pass offers exactly the ACL ids and exactly the edges some ACL must produce |
| GraphPasses.TargetsOfGateway | network_map_graph.rb:149 | the definition of a gateway's targets: the first attachment's VPC when the attachment list exists and is non-empty, nothing otherwise; characterised by `EdgesOfGateway` |
| GraphPasses.EdgesOfGateway | network_map_graph.rb:149 | a gateway has one edge, to its first attachment's VPC, when it has an attachment, and none otherwise |
| GraphPasses.LaterAttachmentsIgnored | network_map_graph.rb:149 | only the first attachment determines the edge; later ones are ignored |
| GraphPasses.GatewayPassExactly | network_map_graph.rb:146-151 | the gateway pass offers exactly the gateway ids and exactly the first-attachment edges of gateways that have one |
| GraphPasses.FirstPresent | network_map_graph.rb:164-176 | the result is absent if and only if every field is; otherwise it is a field that no earlier field precedes being present |
| GraphPasses.RouteTarget | network_map_graph.rb:164-176 | the definition of a route's target: the first present of its gateway, instance, interface and peering-connection fields; `RouteTargetPriority` proves that order |
| GraphPasses.RouteTargetPriority | network_map_graph.rb:164-176 | gateway wins; then instance; then interface; then peering connection |
| GraphPasses.RouteTargets | network_map_graph.rb:163-176 | a route contributes at most one target; none exactly when all four fields are nil |
| GraphPasses.TargetsOfRouteTable | network_map_graph.rb:158-177 | the definition of a table's edge targets: each association's subnet id when present, then each route's target; characterised by `RouteTableExactly` |
| GraphPasses.RouteTableExactly | network_map_graph.rb:158-177 | a table's nodes are its id and its routes' targets; its edges are those to associations with a subnet id and to routes' targets |
| GraphPasses.RouteTablePassExactly | network_map_graph.rb:156-179 | the route-table pass offers exactly the nodes and edges some table must produce |

## Left out

- Reading and parsing `<vpc>_network_map.json` (lines 11-15): `LoadMap` takes the parsed
  document as a parameter, `None` when the file does not exist. The "File not found"
  message (line 17) is not modelled.
- JSON parse errors and values of the wrong JSON type (for example a `false` CIDR field)
  are not modelled. Every identifier is a string or `nil`.
- `persist_on_file` (lines 181-186) and the call at line 40 that writes the graph file.
  Writing files is output only and does not change the returned graph.
- `to_s` (lines 56-63), which only formats text.
- `network_map.rb`, `main.rb` and `iam_map.rb` are not part of this model. They are the
  collector that writes the inventory document, the command-line entry point and an
  unrelated IAM mapper.
- Nested arrays in `@nodes`. Ruby's bulk pushes at lines 86 and 122 append one array
  each, and only the next `add_node` call flattens `@nodes`. The model keeps `nodes` flat
  throughout.
  - This differs in two ways. First, a document with no ACL, gateway or route-table
    records leaves those arrays unflattened when `uniq` runs, so Ruby returns nested
    arrays among the nodes. With no groups or no interfaces, the pushed array is `[]`:
    for the one-subnet document of `GraphSpec.OneSubnetGraph`, Ruby returns the nodes
    `["vpc-1", "s-1", "10.0.1.0/24", []]`.
  - Second, the first `add_node` after the bulk pushes does not see ids inside the nested
    arrays. `Dedup.UniqInsertAll` shows that whether an insertion's membership check sees
    an element or not makes no difference after `uniq`, so this second difference does
    not change the returned graph.
- A category, or a record's `Rules`, `Groups`, `Associations` or `Routes`, that is `nil` or
  missing makes Ruby raise. The model's records always carry these sequences, so these
  error paths are not represented. Only a missing document is, as `InventoryNotLoaded`.
- BuildMap: when no document is loaded, Ruby raises from inside the first pass. The
  model returns `Failure(InventoryNotLoaded)` with the arrays as the reset left them.
