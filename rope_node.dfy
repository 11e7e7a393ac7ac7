/**
  The node layout of the rope: `rope_skip_node` (a skip size and a link),
  `rope_node` (a fixed-size byte buffer, the number of bytes in use, a
  height and one skip entry per level) and the configuration constants.

  Nodes live in an arena, a map from node ids to node values; a link is
  the id of the node it points to, and `None` is the null pointer. The
  head node, stored inline in the rope, has the id `HEAD`.
 */
module RopeNodes {

  import opened Utf8

  /** ROPE_NODE_STR_SIZE: the capacity of a node's byte buffer. */
  const NODE_STR_SIZE: nat := 136

  /** ROPE_MAX_HEIGHT: the largest height a node may have. */
  const MAX_HEIGHT: nat := 60

  /** The largest `uint16_t`; a node's byte count must fit one. */
  const UINT16_MAX: nat := 0xFFFF

  type uint16 = x: int | 0 <= x < 0x1_0000

  type NodeId = nat

  /** The id of the head node, which lives as long as the rope. */
  const HEAD: NodeId := 0

  datatype Option<T> = None | Some(value: T)

  /** rope_skip_node: the characters from this node's start to the start of `next`, and the link itself. */
  datatype SkipEntry = SkipEntry(skipSize: nat, next: Option<NodeId>)

  /** rope_node: a byte buffer, the bytes in use, the height, and `height` skip entries. */
  datatype Node = Node(str: seq<uint8>, numBytes: uint16, height: uint8, nexts: seq<SkipEntry>)

  /** One level of an update path: a node and the characters from its start to the point of interest. */
  datatype IterEntry = IterEntry(node: NodeId, skipSize: nat)

  /** The layout constraints of one node. */
  ghost predicate NodeOk(n: Node) {
    && |n.str| == NODE_STR_SIZE
    && n.numBytes <= NODE_STR_SIZE
    && 1 <= n.height as nat <= MAX_HEIGHT
    && |n.nexts| == n.height as nat
    && ValidUtf8(n.str[..n.numBytes])
  }

  /** The bytes of a node that are in use. */
  function InUse(n: Node): seq<uint8>
    requires n.numBytes <= |n.str|
  {
    n.str[..n.numBytes]
  }

  /** The capacity of a node fits its 16-bit byte count, as the configuration demands. */
  lemma StrSizeFits()
    ensures NODE_STR_SIZE <= UINT16_MAX
  {}

  /** A copy of `nodes` in which the level-`L` entry of node `id` is `e`. */
  function SetEntry(nodes: map<NodeId, Node>, id: NodeId, L: nat, e: SkipEntry): map<NodeId, Node>
    requires id in nodes && L < |nodes[id].nexts|
  {
    nodes[id := nodes[id].(nexts := nodes[id].nexts[L := e])]
  }
}
