/** A node of the Huffman tree: a character, a frequency and two children
    that may be missing (null). The same record serves for leaves and for
    merged nodes; a merged node carries the character '\0'
    (Character.MIN_VALUE) as its sentinel. Fields are never reassigned after
    construction, so a node is a value. */
module HuffmanNode {
  import opened JavaInt

  datatype Option<T> = None | Some(value: T)

  /** Character.MIN_VALUE: the character of every merged node. */
  const Sentinel: char := '\0'

  datatype Node = Node(c: char, f: int, left: Option<Node>, right: Option<Node>)

  /** `new Node(c, f)`: a node with no children. */
  function Leaf(c: char, f: int): (n: Node)
    ensures n.c == c && n.f == f && n.left == None && n.right == None
  {
    Node(c, f, None, None)
  }

  /** `new Node(c, f, left, right)`: every field is stored as given. */
  function MakeNode(c: char, f: int, left: Option<Node>, right: Option<Node>): (n: Node)
    ensures n.c == c && n.f == f && n.left == left && n.right == right
  {
    Node(c, f, left, right)
  }

  /** `new Node()`: every field at Java's default, the character being the
      sentinel. */
  function EmptyNode(): (n: Node)
    ensures n.c == Sentinel && n.f == 0 && n.left == None && n.right == None
  {
    Node(Sentinel, 0, None, None)
  }

  /** A node counts as a leaf exactly when its character is not the sentinel. */
  predicate IsLeaf(n: Node)
  {
    n.c != Sentinel
  }

  /** `a.equals(o)`: the other reference is a node (not null) with the same
      character and frequency; the children are not compared. */
  function Equals(a: Node, o: Option<Node>): (eq: bool)
    ensures o == None ==> !eq
    ensures o.Some? ==> (eq <==> a.c == o.value.c && a.f == o.value.f)
  {
    match o
    case None => false
    case Some(b) => a.c == b.c && a.f == b.f
  }

  /** `hashCode()`: 31 * c + f in Java int arithmetic. */
  function HashCode(n: Node): (h: int)
    ensures InRange(h)
    ensures Wrap32(h - (31 * (n.c as int) + n.f)) == 0
    ensures InRange(31 * (n.c as int) + n.f) ==> h == 31 * (n.c as int) + n.f
  {
    Wrap32(31 * (n.c as int) + n.f)
  }

  /** Equal nodes have equal hash codes. */
  lemma EqualsHashCode(a: Node, b: Node)
    requires Equals(a, Some(b))
    ensures HashCode(a) == HashCode(b)
  {
  }

  /** `equals` is reflexive, symmetric and transitive, and ignores children. */
  lemma EqualsEquivalence(a: Node, b: Node, d: Node)
    ensures Equals(a, Some(a))
    ensures Equals(a, Some(b)) == Equals(b, Some(a))
    ensures Equals(a, Some(b)) && Equals(b, Some(d)) ==> Equals(a, Some(d))
    ensures Equals(a, Some(Node(a.c, a.f, b.left, d.right)))
  {
  }

  /** The no-argument node is classified as a merged node, not a leaf. */
  lemma EmptyNodeNotLeaf()
    ensures !IsLeaf(EmptyNode())
  {
  }
}
