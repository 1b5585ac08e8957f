/** The entry point `mediate`: when the SOAP body carries a fault whose detail
    has element children, clone those children under a synthetic root, each
    marked element rebuilt with an empty prefix, and, if the root received any
    element, swap the clones in for the detail's element children. Below an
    unmarked element the original children stay, so a marked descendant there
    keeps its prefix. */
module Mediator {
  import opened Xml
  import opened Normalizer
  import opened Cloner

  /** CLONED_ROOT: local name of the container the clones are built under. */
  const ClonedRoot: string := "ClonedDetail"

  /** The fault's `Detail` element: the node the mediator changes in place. */
  class Detail {
    var children: seq<Node>

    constructor (children: seq<Node>)
      ensures this.children == children
    {
      this.children := children;
    }

    /** The detach loop: every element child is detached; text and other
        nodes stay, in their order. */
    method DetachElements()
      modifies this
      ensures children == NonElements(old(children))
    {
      var original := children;
      var i, j := 0, 0;
      while j < |original|
        invariant j <= |original|
        invariant children == NonElements(original[..j]) + original[j..]
        invariant i == |NonElements(original[..j])|
      {
        DetachStep(original, j, children);
        if original[j].Element? {
          children := children[..i] + children[i + 1..];
        } else {
          i := i + 1;
        }
        j := j + 1;
      }
      assert original[..j] == original;
    }

    /** The attach loop: the element children of `clonedRoot` are added after
        the detail's remaining children, in order. */
    method AttachChildren(clonedRoot: Node)
      requires clonedRoot.Element?
      modifies this
      ensures children == old(children) + ChildElements(clonedRoot.children)
    {
      var clonedChildren := ChildElements(clonedRoot.children);
      var i := 0;
      while i < |clonedChildren|
        invariant 0 <= i <= |clonedChildren|
        invariant children == old(children) + clonedChildren[..i]
      {
        assert clonedChildren[..i + 1] == clonedChildren[..i] + [clonedChildren[i]];
        children := children + [clonedChildren[i]];
        i := i + 1;
      }
      assert clonedChildren[..i] == clonedChildren;
    }
  }

  /** Removing the first node after a prefix `a` of `a + b` leaves `a + b[1..]`. */
  lemma RemoveAfter(a: seq<Node>, b: seq<Node>)
    requires b != []
    ensures (a + b)[|a|] == b[0]
    ensures (a + b)[..|a|] + (a + b)[|a| + 1..] == a + b[1..]
  {
    assert (a + b)[..|a|] == a;
    assert (a + b)[|a| + 1..] == b[1..];
  }

  /** The non-elements among the first j + 1 nodes. */
  lemma NonElementsSnoc(s: seq<Node>, j: nat)
    requires j < |s|
    ensures NonElements(s[..j + 1]) == NonElements(s[..j]) + if s[j].Element? then [] else [s[j]]
  {
    assert s[..j + 1] == s[..j] + [s[j]];
    OthersAppend(s[..j], [s[j]]);
    assert [s[j]][1..] == [];
  }

  /** The step of the detach loop: the node at position i of the detail is the
      j-th original child; removing it when it is an element, or stepping over
      it otherwise, moves one original child into the processed part. */
  lemma DetachStep(original: seq<Node>, j: nat, children: seq<Node>)
    requires j < |original| && children == NonElements(original[..j]) + original[j..]
    ensures |NonElements(original[..j])| < |children|
    ensures children[|NonElements(original[..j])|] == original[j]
    ensures original[j].Element? ==>
              var i := |NonElements(original[..j])|;
              children[..i] + children[i + 1..] == NonElements(original[..j + 1]) + original[j + 1..]
    ensures !original[j].Element? ==> children == NonElements(original[..j + 1]) + original[j + 1..]
  {
    var done := NonElements(original[..j]);
    var rest := original[j..];
    RemoveAfter(done, rest);
    NonElementsSnoc(original, j);
    assert rest == [original[j]] + original[j + 1..];
    if !original[j].Element? {
      assert done + rest == (done + [original[j]]) + original[j + 1..];
    }
  }

  datatype Fault = Fault(detail: Detail)

  /** The message envelope; `hasFault()` is `fault.Some?`. */
  datatype Envelope = Envelope(fault: Option<Fault>)

  /** The children of a detail after mediation: when it has element children,
      they are replaced by their clones after the nodes that are not elements;
      otherwise nothing changes. */
  function Mediated(children: seq<Node>): (r: seq<Node>)
    ensures NonElements(r) == NonElements(children)
    ensures ChildElements(r) == CloneAll(children)
    ensures ChildElements(children) == [] ==> r == children
    ensures ChildElements(children) != [] ==> r == NonElements(children) + CloneAll(children)
  {
    var elements := ChildElements(children);
    CloneAllOfElements(children);
    ChildElementsOfElements(CloneAll(children));
    FilterKinds(children);
    NonElementsOfNonElements(NonElements(children));
    ChildElementsAppend(NonElements(children), CloneAll(children));
    if elements != [] then
      var clonedRoot := Element(Some(ClonedRoot), None, [], CloneAll(elements));
      if ChildElements(clonedRoot.children) != [] then
        NonElements(children) + ChildElements(clonedRoot.children)
      else
        children
    else
      children
  }

  /** The inner guard never fails: each element child yields exactly one clone,
      so the clone root is non-empty whenever the detail has an element child. */
  lemma SwapGuardRedundant(children: seq<Node>)
    ensures ChildElements(CloneAll(ChildElements(children))) != [] <==> ChildElements(children) != []
  {
    CloneAllOfElements(children);
    ChildElementsOfElements(CloneAll(children));
  }

  /** `mediate`: the fault check, the clone, the guarded detach/attach swap;
      it always reports success. */
  method Mediate(envelope: Envelope) returns (handled: bool)
    modifies if envelope.fault.Some? then {envelope.fault.value.detail} else {}
    ensures handled
    ensures envelope.fault.Some? ==>
              envelope.fault.value.detail.children == Mediated(old(envelope.fault.value.detail.children))
  {
    if envelope.fault.Some? {
      var detailNode := envelope.fault.value.detail;
      var complexElement := ChildElements(detailNode.children);
      if complexElement != [] {
        var clonedRoot := Element(Some(ClonedRoot), None, [], []);
        clonedRoot := GetChildrenRecursively(clonedRoot, complexElement);
        assert clonedRoot.children == CloneAll(complexElement);
        if ChildElements(clonedRoot.children) != [] {
          detailNode.DetachElements();
          detailNode.AttachChildren(clonedRoot);
        }
      }
    }
    handled := true;
  }

  /** A detail holding `<axis2ns1:Code xmlns:axis2ns1="urn:x">Err</axis2ns1:Code>`
      ends up holding `<Code xmlns="urn:x">Err</Code>`. */
  lemma MarkedCodeScenario()
    ensures Mediated([Element(Some("Code"), Some(Namespace("urn:x", "axis2ns1")), [], [Text("Err")])])
         == [Element(Some("Code"), Some(Namespace("urn:x", "")), [], [Text("Err")])]
  {
    var code := Element(Some("Code"), Some(Namespace("urn:x", "axis2ns1")), [], [Text("Err")]);
    assert IsMarked(code) by {
      assert "axis2ns1"[..|Marker|] == Marker;
    }
    assert TextOf(code.children) == "Err";
    assert CloneAll(code.children) == [];
    assert CloneOf(code) == Element(Some("Code"), Some(Namespace("urn:x", "")), [], [Text("Err")]);
    assert CloneAll([code]) == [CloneOf(code)];
  }

  /** A detail holding `<m:Reason xmlns:m="urn:y" lang="en">Bad</m:Reason>` and
      `<axis2ns2:Extra xmlns:axis2ns2="urn:z"/>`: the reason is the element
      itself, with its attribute, and its text is appended once more; the extra
      element loses its prefix. */
  lemma UnmarkedReasonScenario()
    ensures Mediated([Element(Some("Reason"), Some(Namespace("urn:y", "m")), [Attribute("lang", "en")], [Text("Bad")]),
                      Element(Some("Extra"), Some(Namespace("urn:z", "axis2ns2")), [], [])])
         == [Element(Some("Reason"), Some(Namespace("urn:y", "m")), [Attribute("lang", "en")], [Text("Bad"), Text("Bad")]),
             Element(Some("Extra"), Some(Namespace("urn:z", "")), [], [])]
  {
    var reason := Element(Some("Reason"), Some(Namespace("urn:y", "m")), [Attribute("lang", "en")], [Text("Bad")]);
    var extra := Element(Some("Extra"), Some(Namespace("urn:z", "axis2ns2")), [], []);
    assert !IsMarked(reason);
    assert IsMarked(extra) by {
      assert "axis2ns2"[..|Marker|] == Marker;
    }
    assert TextOf(reason.children) == "Bad";
    assert CloneAll(reason.children) == [];
    PutAllOntoSelf(reason.attrs, 1);
    assert reason.attrs[..1] == reason.attrs;
    assert CloneOf(reason) == Element(Some("Reason"), Some(Namespace("urn:y", "m")), [Attribute("lang", "en")], [Text("Bad"), Text("Bad")]);
    assert CloneOf(extra) == Element(Some("Extra"), Some(Namespace("urn:z", "")), [], []);
    var both := [reason, extra];
    assert both[1..] == [extra];
    assert CloneAll([extra]) == [CloneOf(extra)];
    assert CloneAll(both) == [CloneOf(reason), CloneOf(extra)];
    assert NonElements(both) == [];
  }

  /** A marked element below an unmarked one survives mediation with its
      prefix: `<m:Outer xmlns:m="urn:a"><axis2ns3:A xmlns:axis2ns3="urn:b"/></m:Outer>`
      comes out holding the original `axis2ns3:A` followed by its rebuilt copy. */
  lemma MarkedBelowUnmarkedSurvives()
    ensures var a := Element(Some("A"), Some(Namespace("urn:b", "axis2ns3")), [], []);
            var outer := Element(Some("Outer"), Some(Namespace("urn:a", "m")), [], [a]);
            IsMarked(a) && !IsMarked(outer) &&
            Mediated([outer]) == [Element(Some("Outer"), Some(Namespace("urn:a", "m")), [],
                                          [a, Element(Some("A"), Some(Namespace("urn:b", "")), [], [])])]
  {
    var a := Element(Some("A"), Some(Namespace("urn:b", "axis2ns3")), [], []);
    var outer := Element(Some("Outer"), Some(Namespace("urn:a", "m")), [], [a]);
    assert IsMarked(a) by {
      assert "axis2ns3"[..|Marker|] == Marker;
    }
    assert !IsMarked(outer);
    assert Normalized(a) == Element(Some("A"), Some(Namespace("urn:b", "")), [], []);
    assert CloneOf(a) == Normalized(a);
    assert TextOf(outer.children) == "" by {
      assert outer.children[1..] == [];
    }
    assert Normalized(outer) == outer;
    assert CloneAll(outer.children) == [CloneOf(a)] by {
      assert outer.children[1..] == [];
    }
    assert CloneOf(outer) == outer.(children := [a, CloneOf(a)]);
    assert CloneAll([outer]) == [CloneOf(outer)];
    assert NonElements([outer]) == [];
  }
}
