/** The part of Python's syntax tree the scanner reads. A node is named by its
    path from the root, which plays the part of `id(node)` in the source. */
module PythonTree {

  datatype Context = Load | Store | Del

  datatype Kind =
    | Module
    | FunctionDef(name: string, parameters: seq<string>)  // plain or async
    | Lambda(parameters: seq<string>)
    | ClassDef(name: string)
    | Name(id: string, ctx: Context)
    | Attribute(attr: string)          // children[0] is the value
    | Call(positional: nat)            // children[0] is the callee, then the positional arguments
    | Sequence                         // a list or tuple display; the children are the elements
    | Constant(isText: bool, text: string)
    | Assign(targets: nat)             // children[..targets] are the targets, then the value
    | Import                           // the children are Alias nodes
    | ImportFrom(source: string, level: nat)
    | Alias(name: string, asName: string)  // asName == "" when there is none
    | Subscript                        // children are the value and the slice
    | Capture(name: string)            // an except handler or a match pattern that names what it catches
    | Comprehension                    // binds its targets for itself, and no others
    | Walrus                           // children[0] is the target, bound outside any comprehension
    | Other

  datatype Node = Node(kind: Kind, children: seq<Node>)

  type Path = seq<nat>

  datatype Located = Located(path: Path, node: Node)

  /** A node whose body is a scope of its own. */
  predicate IsScope(n: Node) { n.kind.FunctionDef? || n.kind.Lambda? || n.kind.ClassDef? }

  predicate ValidPath(n: Node, p: Path) {
    p == [] || (p[0] < |n.children| && ValidPath(n.children[p[0]], p[1..]))
  }

  function At(n: Node, p: Path): Node
    requires ValidPath(n, p)
  {
    if p == [] then n else At(n.children[p[0]], p[1..])
  }

  /** The module, or a nested scope, at path `p`. */
  predicate ScopeAt(n: Node, p: Path) { ValidPath(n, p) && (p == [] || IsScope(At(n, p))) }

  function Size(n: Node): (s: nat)
    ensures s >= 1
  {
    1 + SizeOfChildren(n, |n.children|)
  }

  function SizeOfChildren(n: Node, k: nat): nat
    requires k <= |n.children|
    decreases n, k
  {
    if k == 0 then 0 else SizeOfChildren(n, k - 1) + Size(n.children[k - 1])
  }

  function Kids(l: Located): (r: seq<Located>)
    ensures |r| == |l.node.children|
    ensures forall i | 0 <= i < |r| :: r[i] == Located(l.path + [i], l.node.children[i])
  {
    seq(|l.node.children|, i requires 0 <= i < |l.node.children| => Located(l.path + [i], l.node.children[i]))
  }

  // ----- Reading expressions -----

  /** The dotted name an expression spells, walking through calls. */
  function AttributeChain(n: Node): seq<string> {
    match n.kind
    case Attribute(attr) => (if n.children == [] then [] else AttributeChain(n.children[0])) + [attr]
    case Call(_) => if n.children == [] then [] else AttributeChain(n.children[0])
    case Name(id, _) => [id]
    case Subscript =>
      if |n.children| < 2 then []
      else
        var slice := n.children[1].kind;
        if slice.Constant? && slice.isText && slice.text != "" then [slice.text] else []
    case _ => []
  }

  /** The names an assignment's plain targets bind. */
  function TargetNames(n: Node): seq<string>
    requires n.kind.Assign?
  {
    NamesOf(n.children[..if n.kind.targets <= |n.children| then n.kind.targets else |n.children|])
  }

  function NamesOf(ns: seq<Node>): seq<string> {
    if ns == [] then []
    else (if ns[0].kind.Name? then [ns[0].kind.id] else []) + NamesOf(ns[1..])
  }

  /** The kind of the assigned value, or Other for a malformed assignment. */
  function AssignedValue(n: Node): Node
    requires n.kind.Assign?
  {
    if n.kind.targets < |n.children| then n.children[n.kind.targets] else Node(Other, [])
  }

  function CallArguments(n: Node): seq<Node>
    requires n.kind.Call?
  {
    if n.kind.positional < |n.children| then n.children[1..1 + n.kind.positional]
    else if n.children == [] then []
    else n.children[1..]
  }

  /** `text.split(".")[0]` */
  function Root(s: string): string {
    if s == [] || s[0] == '.' then [] else [s[0]] + Root(s[1..])
  }

  function BoundAs(alias: Kind): string
    requires alias.Alias?
  {
    if alias.asName != "" then alias.asName else alias.name
  }
}
