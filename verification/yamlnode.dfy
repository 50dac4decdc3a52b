/**
 * The decoded YAML document tree, as the decoder's node type presents it to
 * the generator: a kind, a tag and literal value for scalars, ordered
 * children for collections, and the three comments attached to every node.
 */
module YamlNode {

  /** The comment before a node, the comment on its line, and the one after it. */
  datatype Comments = Comments(head: string, line: string, foot: string)

  datatype Node =
    | Scalar(tag: string, value: string, comments: Comments)
    | Sequence(items: seq<Node>, comments: Comments)
      /** Key/value pairs in document order. */
    | Mapping(pairs: seq<(Node, Node)>, comments: Comments)
      /** Any other kind; under a mapping this is an alias `*name`, whose
          literal value is the anchor's name. */
    | Other(value: string, comments: Comments)

  /** The key that asks YAML to merge another mapping in. */
  const MergeKey: string := "<<"

  /** The node's literal value; collections have none. */
  function Value(n: Node): string {
    match n
    case Scalar(_, value, _) => value
    case Other(value, _) => value
    case _ => ""
  }

  /** The length of the decoder's flat child list: a mapping stores its keys
      and values alternately. */
  function ContentLength(n: Node): nat {
    match n
    case Sequence(items, _) => |items|
    case Mapping(pairs, _) => 2 * |pairs|
    case _ => 0
  }

  /** The children of `n` read two at a time as key and value, the way the
      generator walks any node's child list. */
  function Pairs(n: Node): (r: seq<(Node, Node)>)
    requires ContentLength(n) % 2 == 0
    ensures |r| == ContentLength(n) / 2
  {
    match n
    case Mapping(pairs, _) => pairs
    case Sequence(items, _) =>
      seq(|items| / 2, k requires 0 <= k < |items| / 2 => (items[2 * k], items[2 * k + 1]))
    case _ => []
  }

  /** Keys and values read from a node are proper parts of it. */
  lemma PairSmaller(n: Node, j: nat)
    requires ContentLength(n) % 2 == 0 && j < |Pairs(n)|
    ensures Pairs(n)[j].0 < n && Pairs(n)[j].1 < n
  {
    match n
    case Mapping(pairs, _) =>
      var pair := pairs[j];
      assert pair in pairs;
      assert Pairs(n)[j] == pair;
    case Sequence(items, _) =>
      SequencePair(n, j);
      var k := 2 * j;
      assert items[k] in items && items[k + 1] in items;
  }

  /** The `j`-th pair of a sequence is its elements `2j` and `2j + 1`. */
  lemma SequencePair(n: Node, j: nat)
    requires n.Sequence? && ContentLength(n) % 2 == 0 && j < |Pairs(n)|
    ensures 2 * j + 1 < |n.items| && Pairs(n)[j] == (n.items[2 * j], n.items[2 * j + 1])
  {
  }
}
