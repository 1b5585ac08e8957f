/** The recursive cloner `getChildrenRecursively`: walk the element children
    depth first, normalise each one, build its own subtree, and only then
    append it to the clone parent. */
module Cloner {
  import opened Xml
  import opened Normalizer

  /** The clone of one element: its normalised self, followed by the clones of
      its element children. */
  function CloneOf(e: Node): (r: Node)
    requires e.Element?
    ensures r.Element? && r.name == e.name
    ensures r.ns == if IsMarked(e) then Some(Namespace(e.ns.value.uri, "")) else e.ns
    decreases e, 1
  {
    var d := Normalized(e);
    d.(children := d.children + CloneAll(e.children))
  }

  /** The clones of the element nodes of `s`, in order; other nodes are skipped. */
  function CloneAll(s: seq<Node>): (r: seq<Node>)
    ensures |r| == |ChildElements(s)|
    ensures forall i :: 0 <= i < |r| ==> r[i].Element?
    decreases s, 0
  {
    if s == [] then []
    else (if s[0].Element? then [CloneOf(s[0])] else []) + CloneAll(s[1..])
  }

  lemma {:induction false} CloneAllAppend(a: seq<Node>, b: seq<Node>)
    ensures CloneAll(a + b) == CloneAll(a) + CloneAll(b)
  {
    if a == [] {
      assert a + b == b;
    } else {
      calc {
        CloneAll(a + b);
        { assert a + b != [] && (a + b)[0] == a[0] && (a + b)[1..] == a[1..] + b; }
        (if a[0].Element? then [CloneOf(a[0])] else []) + CloneAll(a[1..] + b);
        { CloneAllAppend(a[1..], b); }
        (if a[0].Element? then [CloneOf(a[0])] else []) + CloneAll(a[1..]) + CloneAll(b);
      }
    }
  }

  /** The i-th clone is the clone of the i-th element child: order is kept. */
  lemma {:induction false} CloneAllAt(s: seq<Node>, i: nat)
    requires i < |ChildElements(s)|
    ensures ChildElements(s)[i].Element? && CloneAll(s)[i] == CloneOf(ChildElements(s)[i])
  {
    FilterKinds(s);
    if !s[0].Element? {
      CloneAllAt(s[1..], i);
    } else if i > 0 {
      CloneAllAt(s[1..], i - 1);
    }
  }

  /** Cloning only the element children gives the same clones as cloning all
      children (the skip of non-elements and `getChildElements` agree). */
  lemma {:induction false} CloneAllOfElements(s: seq<Node>)
    ensures CloneAll(ChildElements(s)) == CloneAll(s)
  {
    if s != [] {
      CloneAllOfElements(s[1..]);
      var head := if s[0].Element? then [s[0]] else [];
      CloneAllAppend(head, ChildElements(s[1..]));
    }
  }

  /** An element with no element children is cloned as its normalised self
      (the second branch of the source's `if`). */
  lemma LeafClone(e: Node)
    requires e.Element? && ChildElements(e.children) == []
    ensures CloneOf(e) == Normalized(e)
  {
    CloneAllOfElements(e.children);
    assert CloneAll(e.children) == [];
  }

  /** Shape of a clone: a rebuilt element (marked, or missing its name or
      namespace) has as element children exactly the clones of the source's
      element children, one per child in order; the element returned itself
      keeps its original element children and gets the clones after them. */
  lemma CloneShape(e: Node)
    requires e.Element?
    ensures ChildElements(CloneOf(e).children)
         == (if HasQualifiedName(e) && !IsMarked(e) then ChildElements(e.children) else []) + CloneAll(e.children)
  {
    var clones := CloneAll(e.children);
    assert CloneOf(e).children == Normalized(e).children + clones;
    ChildElementsAppend(Normalized(e).children, clones);
    ChildElementsOfElements(clones);
    NormalizedElementChildren(e);
  }

  /** A clone keeps the local name, the namespace URI and, when the names are
      unique, every attribute of its source in order. */
  lemma CloneAttributes(e: Node)
    requires e.Element? && UniqueNames(e.attrs)
    ensures CloneOf(e).name == e.name && CloneOf(e).attrs == e.attrs
    ensures CloneOf(e).ns.Some? <==> e.ns.Some?
    ensures CloneOf(e).ns.Some? ==> CloneOf(e).ns.value.uri == e.ns.value.uri
  {
    NormalizedFidelity(e);
  }

  /** The text of an unmarked element is read and appended to that same
      element, so its clone carries that text twice; the clones appended
      after it add no text of their own. */
  lemma UnmarkedTextRepeated(e: Node)
    requires e.Element? && HasQualifiedName(e) && !IsMarked(e)
    ensures TextOf(CloneOf(e).children) == TextOf(e.children) + TextOf(e.children)
  {
    var n := Normalized(e).children;
    var clones := CloneAll(e.children);
    assert CloneOf(e).children == n + clones;
    TextOfAppend(n, clones);
    TextOfElements(clones);
    NormalizedText(e);
  }

  /** An unmarked element is its own clone: all its original children stay in
      front, so an element below it that carries the marker survives next to
      its rebuilt copy. */
  lemma UnmarkedKeepsOriginalChildren(e: Node)
    requires e.Element? && HasQualifiedName(e) && !IsMarked(e)
    ensures |CloneOf(e).children| >= |e.children|
    ensures CloneOf(e).children[..|e.children|] == e.children
  {
    var clones := CloneAll(e.children);
    NormalizedChildren(e);
    assert CloneOf(e).children == Normalized(e).children + clones;
  }

  /** One more node of the walk: the clones grow by the clone of that node
      when it is an element, and by nothing otherwise. */
  lemma CloneAllSnoc(s: seq<Node>, i: nat)
    requires i < |s|
    ensures CloneAll(s[..i + 1]) == CloneAll(s[..i]) + if s[i].Element? then [CloneOf(s[i])] else []
  {
    assert s[..i + 1] == s[..i] + [s[i]];
    CloneAllAppend(s[..i], [s[i]]);
    assert [s[i]][1..] == [];
  }

  /** The loop step of `getChildrenRecursively`: appending the clone of the
      i-th node (or nothing, when it is not an element) extends the clones of
      the first i nodes to the first i + 1. */
  lemma WalkStep(root: Node, nodes: seq<Node>, i: nat, r: Node)
    requires root.Element? && i < |nodes|
    requires r == root.(children := root.children + CloneAll(nodes[..i]))
    ensures nodes[i].Element? ==>
              AddChild(r, CloneOf(nodes[i])) == root.(children := root.children + CloneAll(nodes[..i + 1]))
    ensures !nodes[i].Element? ==> r == root.(children := root.children + CloneAll(nodes[..i + 1]))
  {
    CloneAllSnoc(nodes, i);
    if nodes[i].Element? {
      assert root.children + CloneAll(nodes[..i + 1]) == root.children + CloneAll(nodes[..i]) + [CloneOf(nodes[i])];
    }
  }

  /** The clone of an element is its normalised self with the clones of its
      element children appended. */
  lemma CloneOfParts(e: Node)
    requires e.Element?
    ensures var d := Normalized(e); CloneOf(e) == d.(children := d.children + CloneAll(ChildElements(e.children)))
  {
    CloneAllOfElements(e.children);
  }

  /** `getChildrenRecursively(fac, root, complexElement)`: each element of
      `nodes` is normalised, its own element children are cloned into it by the
      recursive call, and the finished clone is appended to `root`. */
  method GetChildrenRecursively(root: Node, nodes: seq<Node>) returns (r: Node)
    requires root.Element?
    ensures r == root.(children := root.children + CloneAll(nodes))
    decreases SizeAll(nodes)
  {
    r := root;
    var i := 0;
    while i < |nodes|
      invariant 0 <= i <= |nodes|
      invariant r == root.(children := root.children + CloneAll(nodes[..i]))
    {
      var next := nodes[i];
      WalkStep(root, nodes, i, r);
      if next.Element? {
        var duplicate := CreateNewElement(next);
        var grandchildren := ChildElements(next.children);
        CloneOfParts(next);
        if grandchildren != [] {
          ChildForestSmaller(nodes, i);
          duplicate := GetChildrenRecursively(duplicate, grandchildren);
          assert duplicate == CloneOf(next);
          r := AddChild(r, duplicate);
        } else {
          assert duplicate == CloneOf(next);
          r := AddChild(r, duplicate);
        }
      }
      i := i + 1;
    }
    assert nodes[..i] == nodes;
  }
}
