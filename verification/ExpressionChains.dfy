/** Expressions built from a name by attributes and calls, and the dotted chain the tool
    reads off them. */
module ExpressionChains {
  import opened PythonTree

  /** What a chain starts from: a name, a mapping at a literal key, or some other expression. */
  datatype Base = Named(id: string, ctx: Context) | Keyed(mapping: Node, key: string) | Opaque(node: Node)

  datatype Link = Dot(attr: string) | Applied(positional: nat, arguments: seq<Node>)

  predicate IsBase(b: Base) {
    match b
    case Named(_, _) => true
    case Keyed(_, key) => key != ""
    case Opaque(n) =>
      !n.kind.Name? && !n.kind.Attribute? && !n.kind.Call? && (n.kind.Subscript? ==> |n.children| == 2 && !IsKeyed(n))
  }

  /** A subscript by a literal text that is not empty. */
  predicate IsKeyed(n: Node) {
    n.kind.Subscript? && |n.children| == 2 && n.children[1].kind.Constant? && n.children[1].kind.isText && n.children[1].kind.text != ""
  }

  /** The expression: the base, then each link in turn. */
  function Built(b: Base, links: seq<Link>): Node {
    if links == [] then
      match b
      case Named(id, ctx) => Node(Name(id, ctx), [])
      case Keyed(mapping, key) => Node(Subscript, [mapping, Node(Constant(true, key), [])])
      case Opaque(n) => n
    else
      var inner := Built(b, links[..|links| - 1]);
      match links[|links| - 1]
      case Dot(attr) => Node(Attribute(attr), [inner])
      case Applied(positional, arguments) => Node(Call(positional), [inner] + arguments)
  }

  /** The name or key it starts from, then the attributes in the order they are written. */
  function Parts(b: Base, links: seq<Link>): seq<string> {
    (match b case Named(id, _) => [id] case Keyed(_, key) => [key] case Opaque(_) => []) + Attributes(links)
  }

  function Attributes(links: seq<Link>): seq<string> {
    if links == [] then [] else (if links[0].Dot? then [links[0].attr] else []) + Attributes(links[1..])
  }

  lemma {:induction false} AttributesLast(links: seq<Link>)
    requires links != []
    ensures var last := links[|links| - 1];
      Attributes(links) == Attributes(links[..|links| - 1]) + if last.Dot? then [last.attr] else []
  {
    if |links| > 1 {
      AttributesLast(links[1..]);
      assert links[1..][..|links| - 2] == links[..|links| - 1][1..];
    } else {
      assert links[1..] == [] && links[..0] == [];
    }
  }

  /** The chain that is read holds exactly the parts, calls anywhere between them left out. */
  lemma {:induction false} ChainOfBuilt(b: Base, links: seq<Link>)
    requires IsBase(b)
    ensures AttributeChain(Built(b, links)) == Parts(b, links)
    decreases |links|
  {
    if links == [] {
      match b
      case Named(id, _) => assert [id] + [] == [id];
      case Keyed(_, key) => assert [key] + [] == [key];
      case Opaque(n) => assert AttributeChain(n) == [];
    } else {
      var init, last := links[..|links| - 1], links[|links| - 1];
      ChainOfBuilt(b, init);
      AttributesLast(links);
      var inner := Built(b, init);
      if last.Dot? {
        assert AttributeChain(Built(b, links)) == AttributeChain(inner) + [last.attr];
      } else {
        assert ([inner] + last.arguments)[0] == inner && AttributeChain(Built(b, links)) == AttributeChain(inner);
        assert Attributes(links) == Attributes(init);
      }
    }
  }

  /** In Python's grammar an attribute has one value, a call a callee, a subscript a value and
      an index, and names and constants stand alone. */
  predicate IsSpelled(n: Node) {
    match n.kind
    case Name(_, _) => n.children == []
    case Attribute(_) => |n.children| == 1 && IsSpelled(n.children[0])
    case Call(_) => n.children != [] && IsSpelled(n.children[0])
    case Subscript => |n.children| == 2 && (n.children[1].kind.Constant? ==> n.children[1].children == [])
    case _ => true
  }

  /** Every expression is built in this way. */
  lemma {:induction false} TakenApart(n: Node) returns (b: Base, links: seq<Link>)
    requires IsSpelled(n)
    ensures IsBase(b) && Built(b, links) == n
  {
    match n.kind
    case Name(id, ctx) => b, links := Named(id, ctx), [];
    case Attribute(attr) =>
      b, links := TakenApart(n.children[0]);
      links := OneMoreLink(b, links, Dot(attr));
      assert n.children == [n.children[0]];
    case Call(positional) =>
      b, links := TakenApart(n.children[0]);
      links := OneMoreLink(b, links, Applied(positional, n.children[1..]));
      assert n.children == [n.children[0]] + n.children[1..];
    case Subscript =>
      if IsKeyed(n) {
        b, links := Keyed(n.children[0], n.children[1].kind.text), [];
        assert n.children == [n.children[0], Node(Constant(true, n.children[1].kind.text), [])];
      } else {
        b, links := Opaque(n), [];
      }
    case _ => b, links := Opaque(n), [];
  }

  lemma OneMoreLink(b: Base, links: seq<Link>, last: Link) returns (more: seq<Link>)
    ensures more == links + [last] && Built(b, more) ==
      if last.Dot? then Node(Attribute(last.attr), [Built(b, links)]) else Node(Call(last.positional), [Built(b, links)] + last.arguments)
  {
    more := links + [last];
    assert more[..|more| - 1] == links;
  }

  /** The expression is a chain of these parts. */
  ghost predicate HasParts(n: Node, parts: seq<string>) {
    exists b, links :: IsBase(b) && Built(b, links) == n && Parts(b, links) == parts
  }

  /** It is a chain of its attribute chain, and of no other parts. */
  lemma PartsAreChain(n: Node, parts: seq<string>)
    requires IsSpelled(n)
    ensures HasParts(n, parts) <==> parts == AttributeChain(n)
  {
    var b, links := TakenApart(n);
    ChainOfBuilt(b, links);
    if HasParts(n, parts) {
      var c, more :| IsBase(c) && Built(c, more) == n && Parts(c, more) == parts;
      ChainOfBuilt(c, more);
    }
  }
}
