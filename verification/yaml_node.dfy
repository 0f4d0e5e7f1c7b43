/** The node tree the deserializer builds. The node class itself is not part
    of this model; this is the minimal interface the parser relies on: a
    value tagged by one of the seven kinds of include/fkYAML/NodeType.hpp, an
    anchor property and a YAML version tag. The C++ code walks the tree with
    raw pointers; here a node inside the tree is named by its path from the
    root. */
module YamlNode {
  import opened Wrappers
  import OrderedMap

  /** The node kinds of include/fkYAML/NodeType.hpp. */
  datatype NodeType = Sequence | Mapping | NullObject | Boolean | Integer | FloatNumber | String

  datatype YamlVersion = Ver11 | Ver12

  /** No anchor, an anchor `&name` on the node, or the marker `alias_of`
      leaves on a copy of a node anchored as `name`. */
  datatype AnchorProp = NoAnchor | Anchor(name: string) | Alias(name: string)

  const INT64_MIN: int := -0x8000_0000_0000_0000
  const INT64_MAX: int := 0x7FFF_FFFF_FFFF_FFFF

  /** The node's integer type, std::int64_t. */
  type int64 = i: int | INT64_MIN <= i <= INT64_MAX

  datatype Node = Node(value: Value, anchor: AnchorProp, version: YamlVersion)

  /** Floating-point values are kept as their text. */
  datatype Value =
    | SeqValue(items: seq<Node>)
    | MapValue(entries: OrderedMap.OMap<string, Node>)
    | NullValue
    | BoolValue(b: bool)
    | IntValue(i: int64)
    | FloatValue(text: string)
    | StrValue(s: string)

  /** Version of a node that was never stamped (the node class's default). */
  const DEFAULT_VERSION: YamlVersion := Ver12

  function TypeOf(n: Node): NodeType {
    match n.value
    case SeqValue(_) => Sequence
    case MapValue(_) => Mapping
    case NullValue => NullObject
    case BoolValue(_) => Boolean
    case IntValue(_) => Integer
    case FloatValue(_) => FloatNumber
    case StrValue(_) => String
  }

  /** A freshly constructed node holding `v`. */
  function Make(v: Value): Node {
    Node(v, NoAnchor, DEFAULT_VERSION)
  }

  /** The copy `alias_of` makes of an anchored node. */
  function AliasOf(n: Node): Node {
    match n.anchor
    case Anchor(name) => n.(anchor := Alias(name))
    case _ => n
  }

  /** Every mapping in the tree has unique keys. */
  predicate WellFormed(n: Node)
    decreases n
  {
    match n.value
    case SeqValue(items) => forall i :: 0 <= i < |items| ==> WellFormed(items[i])
    case MapValue(entries) =>
      && OrderedMap.UniqueKeys(entries)
      && forall i :: 0 <= i < |entries| ==> WellFormed(entries[i].1)
    case _ => true
  }

  /** One step down the tree: a sequence index or a mapping key. */
  datatype Step = Index(i: nat) | Key(k: string)

  type Path = seq<Step>

  function Child(n: Node, s: Step): Option<Node> {
    match (n.value, s)
    case (SeqValue(items), Index(i)) => if i < |items| then Some(items[i]) else None
    case (MapValue(entries), Key(k)) =>
      var j := OrderedMap.Find(entries, k);
      if j < |entries| then Some(entries[j].1) else None
    case _ => None
  }

  /** The node a path leads to, if it leads anywhere. */
  function Get(n: Node, p: Path): Option<Node>
    decreases |p|
  {
    if p == [] then Some(n)
    else match Child(n, p[0])
      case None => None
      case Some(c) => Get(c, p[1..])
  }

  predicate ValidPath(n: Node, p: Path) {
    Get(n, p).Some?
  }

  /** Two containers of one kind with the same size and, for mappings, the
      same key at every position. */
  predicate SameLayout(n: Node, m: Node) {
    match (n.value, m.value)
    case (SeqValue(a), SeqValue(b)) => |a| == |b|
    case (MapValue(a), MapValue(b)) => OrderedMap.SameKeys(a, b)
    case _ => false
  }

  /** Replaces the child a step leads to. The container keeps its size and
      key order, and every other step leads where it led before. */
  function ReplaceChild(n: Node, s: Step, c: Node): (r: Node)
    requires Child(n, s).Some?
    ensures Child(r, s) == Some(c)
    ensures TypeOf(r) == TypeOf(n) && r.anchor == n.anchor && r.version == n.version
    ensures SameLayout(n, r)
    ensures forall s' :: s' != s ==> Child(r, s') == Child(n, s')
  {
    match (n.value, s)
    case (SeqValue(items), Index(i)) => n.(value := SeqValue(items[i := c]))
    case (MapValue(entries), Key(k)) =>
      var j := OrderedMap.Find(entries, k);
      var entries' := entries[j := (k, c)];
      assert OrderedMap.SameKeys(entries, entries');
      assert forall k' :: OrderedMap.Find(entries', k') == OrderedMap.Find(entries, k') by {
        forall k' ensures OrderedMap.Find(entries', k') == OrderedMap.Find(entries, k') {
          OrderedMap.FindSameKeys(entries', entries, k');
        }
      }
      n.(value := MapValue(entries'))
  }

  /** Writes `f` at the end of a valid path; the pointer assignment
      `*m_current_node = value` of the C++ code. */
  function Update(n: Node, p: Path, f: Node): (r: Node)
    requires ValidPath(n, p)
    ensures Get(r, p) == Some(f)
    ensures p != [] ==> TypeOf(r) == TypeOf(n) && r.anchor == n.anchor && r.version == n.version
    decreases |p|
  {
    if p == [] then f
    else
      var c := Child(n, p[0]).value;
      var r := ReplaceChild(n, p[0], Update(c, p[1..], f));
      assert Child(r, p[0]) == Some(Update(c, p[1..], f));
      r
  }

  /** Neither path is a prefix of the other: they part at some step. */
  predicate Diverge(p: Path, q: Path)
    decreases |p|
  {
    |p| > 0 && |q| > 0 && (p[0] != q[0] || Diverge(p[1..], q[1..]))
  }

  /** Writing at `p` leaves every node off the path where it was: a path
      that parts from `p` leads to the same node before and after. */
  lemma {:induction false} UpdateFrame(n: Node, p: Path, f: Node, q: Path)
    requires ValidPath(n, p) && Diverge(p, q)
    ensures Get(Update(n, p, f), q) == Get(n, q)
    decreases |p|
  {
    var c := Child(n, p[0]).value;
    var r := Update(n, p, f);
    assert r == ReplaceChild(n, p[0], Update(c, p[1..], f));
    if p[0] != q[0] {
      assert Child(r, q[0]) == Child(n, q[0]);
    } else {
      UpdateFrame(c, p[1..], f, q[1..]);
    }
  }

  lemma {:induction false} GetAppend(n: Node, p: Path, s: Step)
    requires ValidPath(n, p)
    ensures Get(n, p + [s]) == Child(Get(n, p).value, s)
    decreases |p|
  {
    if p != [] {
      assert (p + [s])[0] == p[0];
      assert (p + [s])[1..] == p[1..] + [s];
      GetAppend(Child(n, p[0]).value, p[1..], s);
    }
  }

  /** Writing at a child of `p` replaces that child in the node at `p`. */
  lemma {:induction false} UpdateLast(n: Node, p: Path, s: Step, f: Node)
    requires ValidPath(n, p) && Child(Get(n, p).value, s).Some?
    ensures ValidPath(n, p + [s])
    ensures Get(Update(n, p + [s], f), p) == Some(ReplaceChild(Get(n, p).value, s, f))
    decreases |p|
  {
    GetAppend(n, p, s);
    if p == [] {
      assert [s][1..] == [];
    } else {
      assert (p + [s])[0] == p[0];
      assert (p + [s])[1..] == p[1..] + [s];
      UpdateLast(Child(n, p[0]).value, p[1..], s, f);
    }
  }

  /** Every prefix of a valid path is valid. */
  lemma {:induction false} PrefixValid(n: Node, p: Path, k: nat)
    requires ValidPath(n, p)
    requires k <= |p|
    ensures ValidPath(n, p[..k])
    decreases |p|
  {
    if k > 0 {
      assert p[..k][0] == p[0];
      assert p[..k][1..] == p[1..][..k - 1];
      PrefixValid(Child(n, p[0]).value, p[1..], k - 1);
    }
  }

  /** Writing below a node keeps the node itself, its kind and its
      properties: every proper prefix of the written path still leads to a
      node of the same kind. This is why the ancestors kept on the node stack
      stay meaningful while the current node changes. */
  lemma {:induction false} UpdateKeepsPrefix(n: Node, p: Path, f: Node, k: nat)
    requires ValidPath(n, p)
    requires k < |p|
    ensures ValidPath(n, p[..k])
    ensures ValidPath(Update(n, p, f), p[..k])
    ensures TypeOf(Get(Update(n, p, f), p[..k]).value) == TypeOf(Get(n, p[..k]).value)
    decreases |p|
  {
    PrefixValid(n, p, k);
    if k > 0 {
      var c := Child(n, p[0]).value;
      assert p[..k][0] == p[0];
      assert p[..k][1..] == p[1..][..k - 1];
      UpdateKeepsPrefix(c, p[1..], f, k - 1);
    }
  }

  lemma {:induction false} ChildWellFormed(n: Node, s: Step)
    requires WellFormed(n)
    requires Child(n, s).Some?
    ensures WellFormed(Child(n, s).value)
  {
  }

  /** Writing a well-formed node into a well-formed tree keeps it well
      formed. */
  lemma {:induction false} UpdateWellFormed(n: Node, p: Path, f: Node)
    requires ValidPath(n, p)
    requires WellFormed(n) && WellFormed(f)
    ensures WellFormed(Update(n, p, f))
    decreases |p|
  {
    if p != [] {
      var c := Child(n, p[0]).value;
      ChildWellFormed(n, p[0]);
      UpdateWellFormed(c, p[1..], f);
      var c' := Update(c, p[1..], f);
      var r := ReplaceChild(n, p[0], c');
      match (n.value, p[0])
      case (SeqValue(items), Index(i)) =>
        assert r.value.items == items[i := c'];
      case (MapValue(entries), Key(k)) =>
        var j := OrderedMap.Find(entries, k);
        assert r.value.entries == entries[j := (k, c')];
        assert forall t :: 0 <= t < |entries| ==> r.value.entries[t].0 == entries[t].0;
    }
  }

  /** Every node reachable in a well-formed tree is well formed. */
  lemma {:induction false} GetWellFormed(n: Node, p: Path)
    requires ValidPath(n, p)
    requires WellFormed(n)
    ensures WellFormed(Get(n, p).value)
    decreases |p|
  {
    if p != [] {
      ChildWellFormed(n, p[0]);
      GetWellFormed(Child(n, p[0]).value, p[1..]);
    }
  }
}
