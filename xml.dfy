/** The slice of the Axiom object model that the mediator touches, as values:
    elements with an optional local name and namespace (Java null becomes None),
    attributes in insertion order, and child nodes of three kinds. */
module Xml {

  datatype Option<+T> = None | Some(value: T)

  /** An OMNamespace: a namespace URI and the prefix bound to it. */
  datatype Namespace = Namespace(uri: string, prefix: string)

  /** An OMAttribute, identified by its name. */
  datatype Attribute = Attribute(name: string, value: string)

  /** An OMNode: an element, a text node, or any other node kind (comment,
      processing instruction, ...) that the mediator never looks inside. */
  datatype Node =
    | Element(name: Option<string>, ns: Option<Namespace>, attrs: seq<Attribute>, children: seq<Node>)
    | Text(text: string)
    | Other

  /** `parent.addChild(child)`: the child becomes the last child of the parent. */
  function AddChild(parent: Node, child: Node): (r: Node)
    requires parent.Element?
    ensures r.Element? && r.name == parent.name && r.ns == parent.ns && r.attrs == parent.attrs
    ensures |r.children| == |parent.children| + 1
    ensures r.children[..|parent.children|] == parent.children && r.children[|parent.children|] == child
  {
    parent.(children := parent.children + [child])
  }

  /** `getChildElements()`: the element children, in document order. */
  function ChildElements(s: seq<Node>): (r: seq<Node>)
    ensures |r| <= |s|
  {
    if s == [] then []
    else (if s[0].Element? then [s[0]] else []) + ChildElements(s[1..])
  }

  /** The children that are not elements (text and other nodes), in document order. */
  function NonElements(s: seq<Node>): (r: seq<Node>)
    ensures |r| <= |s|
  {
    if s == [] then []
    else (if s[0].Element? then [] else [s[0]]) + NonElements(s[1..])
  }

  /** The first filter keeps only elements, the second only other nodes. */
  lemma {:induction false} FilterKinds(s: seq<Node>)
    ensures forall i :: 0 <= i < |ChildElements(s)| ==> ChildElements(s)[i].Element?
    ensures forall i :: 0 <= i < |NonElements(s)| ==> !NonElements(s)[i].Element?
  {
    if s != [] {
      FilterKinds(s[1..]);
    }
  }

  lemma {:induction false} ChildElementsAppend(a: seq<Node>, b: seq<Node>)
    ensures ChildElements(a + b) == ChildElements(a) + ChildElements(b)
    ensures NonElements(a + b) == NonElements(a) + NonElements(b)
  {
    ElementsAppend(a, b);
    OthersAppend(a, b);
  }

  lemma {:induction false} ElementsAppend(a: seq<Node>, b: seq<Node>)
    ensures ChildElements(a + b) == ChildElements(a) + ChildElements(b)
  {
    if a == [] {
      assert a + b == b;
    } else {
      var head := if a[0].Element? then [a[0]] else [];
      calc {
        ChildElements(a + b);
        { assert a + b != [] && (a + b)[0] == a[0] && (a + b)[1..] == a[1..] + b; }
        head + ChildElements(a[1..] + b);
        { ElementsAppend(a[1..], b); }
        head + ChildElements(a[1..]) + ChildElements(b);
      }
    }
  }

  lemma {:induction false} OthersAppend(a: seq<Node>, b: seq<Node>)
    ensures NonElements(a + b) == NonElements(a) + NonElements(b)
  {
    if a == [] {
      assert a + b == b;
    } else {
      var head := if a[0].Element? then [] else [a[0]];
      calc {
        NonElements(a + b);
        { assert a + b != [] && (a + b)[0] == a[0] && (a + b)[1..] == a[1..] + b; }
        head + NonElements(a[1..] + b);
        { OthersAppend(a[1..], b); }
        head + NonElements(a[1..]) + NonElements(b);
      }
    }
  }

  /** Filtering a sequence that holds only elements changes nothing. */
  lemma {:induction false} ChildElementsOfElements(s: seq<Node>)
    requires forall i :: 0 <= i < |s| ==> s[i].Element?
    ensures ChildElements(s) == s
    ensures NonElements(s) == []
  {
    if s != [] {
      ChildElementsOfElements(s[1..]);
    }
  }

  /** Filtering a sequence that holds no element keeps all of it as non-elements. */
  lemma {:induction false} NonElementsOfNonElements(s: seq<Node>)
    requires forall i :: 0 <= i < |s| ==> !s[i].Element?
    ensures NonElements(s) == s
    ensures ChildElements(s) == []
  {
    if s != [] {
      NonElementsOfNonElements(s[1..]);
    }
  }

  /** `getText()`: the concatenation of the text children of an element. */
  function TextOf(children: seq<Node>): string
  {
    if children == [] then ""
    else (if children[0].Text? then children[0].text else "") + TextOf(children[1..])
  }

  lemma {:induction false} TextOfAppend(a: seq<Node>, b: seq<Node>)
    ensures TextOf(a + b) == TextOf(a) + TextOf(b)
  {
    if a == [] {
      assert a + b == b;
    } else {
      assert (a + b)[1..] == a[1..] + b;
      TextOfAppend(a[1..], b);
    }
  }

  /** A sequence of elements holds no text of its own. */
  lemma {:induction false} TextOfElements(s: seq<Node>)
    requires forall i :: 0 <= i < |s| ==> s[i].Element?
    ensures TextOf(s) == ""
  {
    if s != [] {
      TextOfElements(s[1..]);
    }
  }

  /** Java `s.startsWith(p)`. */
  predicate StartsWith(s: string, p: string)
  {
    |p| <= |s| && s[..|p|] == p
  }

  /** Java `s.replace(target, replacement)` for a non-empty target: every
      occurrence of `target`, scanned left to right without overlap, is
      replaced by `replacement`. */
  function Replace(s: string, target: string, replacement: string): string
    requires |target| > 0
    decreases |s|
  {
    if |s| < |target| then s
    else if s[..|target|] == target then replacement + Replace(s[|target|..], target, replacement)
    else [s[0]] + Replace(s[1..], target, replacement)
  }

  /** Replacing a whole non-empty string by `replacement` yields `replacement`. */
  lemma ReplaceWhole(s: string, replacement: string)
    requires |s| > 0
    ensures Replace(s, s, replacement) == replacement
  {
    assert s[..|s|] == s;
    assert s[|s|..] == "";
    assert Replace("", s, replacement) == "";
  }

  /** Number of nodes in a tree, used as a termination measure. */
  function Size(n: Node): nat
  {
    match n
    case Element(_, _, _, children) => 1 + SizeAll(children)
    case _ => 1
  }

  function SizeAll(s: seq<Node>): nat
  {
    if s == [] then 0 else Size(s[0]) + SizeAll(s[1..])
  }

  lemma {:induction false} SizeAllAt(s: seq<Node>, i: nat)
    requires i < |s|
    ensures Size(s[i]) <= SizeAll(s)
  {
    if i > 0 {
      SizeAllAt(s[1..], i - 1);
    }
  }

  lemma {:induction false} SizeAllChildElements(s: seq<Node>)
    ensures SizeAll(ChildElements(s)) <= SizeAll(s)
  {
    if s != [] {
      SizeAllChildElements(s[1..]);
      var head := if s[0].Element? then [s[0]] else [];
      SizeAllAppend(head, ChildElements(s[1..]));
    }
  }

  lemma {:induction false} SizeAllAppend(a: seq<Node>, b: seq<Node>)
    ensures SizeAll(a + b) == SizeAll(a) + SizeAll(b)
  {
    if a == [] {
      assert a + b == b;
    } else {
      assert (a + b)[1..] == a[1..] + b;
      SizeAllAppend(a[1..], b);
    }
  }

  /** The element children of the i-th node form a smaller forest than the whole
      sequence: the recursion of the cloner terminates. */
  lemma ChildForestSmaller(s: seq<Node>, i: nat)
    requires i < |s| && s[i].Element?
    ensures SizeAll(ChildElements(s[i].children)) < SizeAll(s)
  {
    SizeAllAt(s, i);
    SizeAllChildElements(s[i].children);
  }
}
