/** Qualified names of the functions of a module. */
module FunctionNames {
  // A visitor that keeps the enclosing scope on a stack, the plain recursion it amounts to, and what the
  // names say about where a function is defined.

  import opened Separators

  /** Text without the separators of a qualified name. */
  predicate Plain(s: string) { s != "" && '.' !in s && ':' !in s }

  const LOCALS := "<locals>"

  predicate IsIdentifier(s: string) { Plain(s) && '<' !in s }

  type Identifier = s: string | IsIdentifier(s) witness "f"

  /** First and last line of a definition. */
  type Span = s: (nat, nat) | s.0 <= s.1 witness (0, 0)

  datatype Node =
    | Function(name: Identifier, span: Span, children: seq<Node>)
    | Class(name: Identifier, children: seq<Node>)
    | Other(children: seq<Node>)

  type Measurement = (string, nat)

  function LineCount(span: Span): nat { span.1 - span.0 + 1 }

  /** str.join with dots. */
  function Dotted(parts: seq<string>): string {
    if parts == [] then ""
    else if |parts| == 1 then parts[0]
    else Dotted(parts[..|parts| - 1]) + "." + parts[|parts| - 1]
  }

  // ---- The visitor -------------------------------------------------------------------------

  /** What a node adds to the scope of its children. */
  function Adds(node: Node): seq<string> {
    match node
    case Function(name, _, _) => [name, LOCALS]
    case Class(name, _) => [name]
    case Other(_) => []
  }

  function QualifiedNames(scope: seq<string>, node: Node): seq<Measurement>
    decreases node, |node.children| + 1
  {
    (if node.Function? then [(Dotted(scope + [node.name]), LineCount(node.span))] else [])
    + NamesWithin(scope + Adds(node), node, |node.children|)
  }

  /** The names within the first n children. */
  function NamesWithin(scope: seq<string>, node: Node, n: nat): seq<Measurement>
    requires n <= |node.children|
    decreases node, n
  {
    if n == 0 then [] else NamesWithin(scope, node, n - 1) + QualifiedNames(scope, node.children[n - 1])
  }

  lemma NamesWithinNext(scope: seq<string>, node: Node, n: nat, listed: seq<Measurement>, before: seq<Measurement>,
                        names: seq<Measurement>)
    requires n < |node.children|
    requires before == NamesWithin(scope, node, n) && names == QualifiedNames(scope, node.children[n])
    ensures listed + NamesWithin(scope, node, n + 1) == listed + before + names
  {
    NamesWithinStep(scope, node, n);
    assert listed + (before + names) == listed + before + names;
  }

  lemma NamesWithinStep(scope: seq<string>, node: Node, n: nat)
    requires n < |node.children|
    ensures NamesWithin(scope, node, n + 1) == NamesWithin(scope, node, n) + QualifiedNames(scope, node.children[n])
  {
  }

  class FunctionCollector {
    var lengths: seq<Measurement>
    var scope: seq<string>

    constructor ()
      ensures lengths == [] && scope == []
    {
      lengths, scope := [], [];
    }

    /** Lists the functions of the subtree, and leaves the scope as it was. */
    method Visit(node: Node)
      modifies this
      ensures lengths == old(lengths) + QualifiedNames(old(scope), node)
      ensures scope == old(scope)
      decreases node, 2
    {
      match node
      case Function(_, _, _) => VisitFunction(node);
      case Class(_, _) => VisitClass(node);
      case Other(_) =>
        assert scope + [] == scope;
        GenericVisit(node);
    }

    method VisitFunction(node: Node)
      requires node.Function?
      modifies this
      ensures lengths == old(lengths) + QualifiedNames(old(scope), node)
      ensures scope == old(scope)
      decreases node, 1
    {
      var qualified := Dotted(scope + [node.name]);
      lengths := lengths + [(qualified, LineCount(node.span))];
      scope := scope + [node.name, LOCALS];
      GenericVisit(node);
      scope := scope[..|scope| - 2];
    }

    method VisitClass(node: Node)
      requires node.Class?
      modifies this
      ensures lengths == old(lengths) + QualifiedNames(old(scope), node)
      ensures scope == old(scope)
      decreases node, 1
    {
      scope := scope + [node.name];
      GenericVisit(node);
      scope := scope[..|scope| - 1];
    }

    /** Visits the children in the scope that is current. */
    method GenericVisit(node: Node)
      modifies this
      ensures lengths == old(lengths) + NamesWithin(old(scope), node, |node.children|)
      ensures scope == old(scope)
      decreases node, 0
    {
      for i := 0 to |node.children|
        invariant lengths == old(lengths) + NamesWithin(old(scope), node, i)
        invariant scope == old(scope)
      {
        ghost var before := NamesWithin(old(scope), node, i);
        Visit(node.children[i]);
        NamesWithinNext(old(scope), node, i, old(lengths), before, QualifiedNames(old(scope), node.children[i]));
      }
    }
  }

  // ---- Every definition, wherever it is nested ----------------------------------------------

  /** Following the child positions in place from the node leads to a function with these parts and lines. */
  predicate Defines(node: Node, place: seq<nat>, parts: seq<string>, lines: nat) {
    if place == [] then node.Function? && parts == [node.name] && lines == node.span.1 - node.span.0 + 1
    else
      && place[0] < |node.children|
      && |Adds(node)| <= |parts|
      && parts[..|Adds(node)|] == Adds(node)
      && Defines(node.children[place[0]], place[1..], parts[|Adds(node)|..], lines)
  }

  ghost predicate DefinedAt(node: Node, scope: seq<string>, m: Measurement, place: seq<nat>, parts: seq<string>) {
    Defines(node, place, parts, m.1) && m.0 == Dotted(scope + parts)
  }

  lemma InEither(a: seq<Measurement>, b: seq<Measurement>, m: Measurement)
    ensures m in a + b <==> m in a || m in b
  {
  }

  lemma {:induction false} NamedInChild(scope: seq<string>, node: Node, n: nat, m: Measurement) returns (child: nat)
    requires n <= |node.children| && m in NamesWithin(scope, node, n)
    ensures child < n && m in QualifiedNames(scope, node.children[child])
  {
    InEither(NamesWithin(scope, node, n - 1), QualifiedNames(scope, node.children[n - 1]), m);
    if m in QualifiedNames(scope, node.children[n - 1]) {
      child := n - 1;
    } else {
      child := NamedInChild(scope, node, n - 1, m);
    }
  }

  lemma {:induction false} NamedIsDefined(scope: seq<string>, node: Node, m: Measurement)
    returns (place: seq<nat>, parts: seq<string>)
    requires m in QualifiedNames(scope, node)
    ensures DefinedAt(node, scope, m, place, parts)
    decreases node
  {
    if node.Function? && m == (Dotted(scope + [node.name]), LineCount(node.span)) {
      place, parts := [], [node.name];
    } else {
      var child := NamedInChild(scope + Adds(node), node, |node.children|, m);
      var rest, below := NamedIsDefined(scope + Adds(node), node.children[child], m);
      place, parts := [child] + rest, Adds(node) + below;
      DefinedThrough(scope, node, child, m, rest, below);
    }
  }

  lemma DefinedThrough(scope: seq<string>, node: Node, child: nat, m: Measurement, rest: seq<nat>, below: seq<string>)
    requires child < |node.children| && DefinedAt(node.children[child], scope + Adds(node), m, rest, below)
    ensures DefinedAt(node, scope, m, [child] + rest, Adds(node) + below)
  {
    assert scope + (Adds(node) + below) == scope + Adds(node) + below;
  }

  lemma {:induction false} DefinedIsNamed(scope: seq<string>, node: Node, m: Measurement, place: seq<nat>,
                                          parts: seq<string>)
    requires DefinedAt(node, scope, m, place, parts)
    ensures m in QualifiedNames(scope, node)
    decreases place
  {
    if place != [] {
      var below := parts[|Adds(node)|..];
      assert scope + parts == scope + Adds(node) + below;
      DefinedIsNamed(scope + Adds(node), node.children[place[0]], m, place[1..], below);
      ChildWithin(scope + Adds(node), node, place[0], |node.children|, m);
    }
  }

  lemma {:induction false} ChildWithin(scope: seq<string>, node: Node, child: nat, n: nat, m: Measurement)
    requires child < n <= |node.children| && m in QualifiedNames(scope, node.children[child])
    ensures m in NamesWithin(scope, node, n)
  {
    if child < n - 1 {
      ChildWithin(scope, node, child, n - 1, m);
    }
  }

  /** The visitor lists exactly the functions defined anywhere in the module. */
  lemma NamesIff(node: Node, m: Measurement)
    ensures m in QualifiedNames([], node) <==> exists place, parts :: DefinedAt(node, [], m, place, parts)
  {
    if m in QualifiedNames([], node) {
      var place, parts := NamedIsDefined([], node, m);
    }
    if exists place, parts :: DefinedAt(node, [], m, place, parts) {
      var place, parts :| DefinedAt(node, [], m, place, parts);
      DefinedIsNamed([], node, m, place, parts);
    }
  }

  // ---- What a key says about a function ------------------------------------------------------

  predicate AllPlain(parts: seq<string>) { forall i :: 0 <= i < |parts| ==> Plain(parts[i]) }

  lemma HasDot(parts: seq<string>)
    requires |parts| > 1
    ensures '.' in Dotted(parts)
  {
    assert Dotted(parts)[|Dotted(parts[..|parts| - 1])|] == '.';
  }

  /** A qualified name determines its parts. */
  lemma {:induction false} DottedInjective(p: seq<string>, q: seq<string>)
    requires AllPlain(p) && AllPlain(q) && p != [] && q != []
    requires Dotted(p) == Dotted(q)
    ensures p == q
  {
    var m, n := |p| - 1, |q| - 1;
    if m > 0 && n > 0 {
      LastSeparator(Dotted(p[..m]), p[m], Dotted(q[..n]), q[n], '.');
      DottedInjective(p[..m], q[..n]);
      assert p == p[..m] + [p[m]] && q == q[..n] + [q[n]];
    } else if m > 0 {
      HasDot(p);
    } else if n > 0 {
      HasDot(q);
    }
  }

  lemma {:induction false} DottedHasNoColon(parts: seq<string>)
    requires AllPlain(parts)
    ensures ':' !in Dotted(parts)
  {
    if |parts| > 1 {
      DottedHasNoColon(parts[..|parts| - 1]);
    }
  }

  function Key(path: string, qualified: string): string { path + "::" + qualified }

  /** Keys are equal exactly when both the file and the enclosing definitions are the same. */
  lemma KeyIff(path: string, p: seq<string>, other: string, q: seq<string>)
    requires AllPlain(p) && AllPlain(q) && p != [] && q != []
    ensures Key(path, Dotted(p)) == Key(other, Dotted(q)) <==> path == other && p == q
  {
    if Key(path, Dotted(p)) == Key(other, Dotted(q)) {
      DottedHasNoColon(p);
      DottedHasNoColon(q);
      assert Key(path, Dotted(p)) == (path + ":") + ":" + Dotted(p);
      assert Key(other, Dotted(q)) == (other + ":") + ":" + Dotted(q);
      LastSeparator(path + ":", Dotted(p), other + ":", Dotted(q), ':');
      assert path == (path + ":")[..|path|] && other == (other + ":")[..|other|];
      DottedInjective(p, q);
    }
  }

  /** The parts of a definition are plain: identifiers, and markers after the name of a function. */
  lemma {:induction false} DefinedPartsPlain(node: Node, place: seq<nat>, parts: seq<string>, lines: nat)
    requires Defines(node, place, parts, lines)
    ensures parts != [] && AllPlain(parts) && IsIdentifier(parts[|parts| - 1])
  {
    if place != [] {
      var k := |Adds(node)|;
      DefinedPartsPlain(node.children[place[0]], place[1..], parts[k..], lines);
      assert parts == Adds(node) + parts[k..];
    }
  }

  /** A function nested in a function never shares a key with a method of a class. */
  lemma NestedIsNoMethod(path: string, p: seq<string>, f: Identifier, other: string, q: seq<string>, c: Identifier,
                         g: Identifier)
    requires AllPlain(p) && AllPlain(q)
    ensures Key(path, Dotted(p + [f, LOCALS, g])) != Key(other, Dotted(q + [c, g]))
  {
    var nested, direct := p + [f, LOCALS, g], q + [c, g];
    assert nested[|nested| - 2] == LOCALS && direct[|direct| - 2] == c;
    assert LOCALS[0] == '<';
    KeyIff(path, nested, other, direct);
  }

  lemma LeafNames(scope: seq<string>, name: Identifier, span: Span)
    requires scope != []
    ensures QualifiedNames(scope, Function(name, span, []))
         == [(Dotted(scope) + "." + name, span.1 - span.0 + 1)]
  {
    DottedSnoc(scope, name);
  }

  lemma MethodNames(c: Identifier, f: Identifier, span: Span, g: Identifier, inner: Span)
    ensures QualifiedNames([c], Function(f, span, [Function(g, inner, [])]))
         == [(c + "." + f, span.1 - span.0 + 1), (c + "." + f + "." + LOCALS + "." + g, inner.1 - inner.0 + 1)]
  {
    var leaf := Function(g, inner, []);
    var node := Function(f, span, [leaf]);
    DottedSnoc([c], f);
    DottedSnoc([c, f], LOCALS);
    assert [c] + [f] == [c, f] && [c, f] + [LOCALS] == [c, f, LOCALS] && [c] + Adds(node) == [c, f, LOCALS];
    LeafNames([c, f, LOCALS], g, inner);
    NamesWithinStep([c, f, LOCALS], node, 0);
  }

  /** The names of a class with a method that defines a function. */
  lemma ClassNames(c: Identifier, f: Identifier, span: Span, g: Identifier, inner: Span)
    ensures QualifiedNames([], Class(c, [Function(f, span, [Function(g, inner, [])])]))
         == [(c + "." + f, span.1 - span.0 + 1), (c + "." + f + "." + "<locals>" + "." + g, inner.1 - inner.0 + 1)]
  {
    var node := Class(c, [Function(f, span, [Function(g, inner, [])])]);
    MethodNames(c, f, span, g, inner);
    assert [] + Adds(node) == [c];
    NamesWithinStep([c], node, 0);
  }

  lemma DottedSnoc(parts: seq<string>, part: string)
    requires parts != []
    ensures Dotted(parts + [part]) == Dotted(parts) + "." + part
  {
    assert (parts + [part])[..|parts|] == parts;
  }
}
