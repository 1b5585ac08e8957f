/** The per-element normaliser of Axis2NSPrefixRemoveMediator: decide whether
    an element's namespace prefix carries the synthetic marker, build the
    element that stands for it, then put the source's attributes and text
    onto that element. */
module Normalizer {
  import opened Xml

  /** AXIS2_NAMESPACE_PREFIX: the marker an intermediary puts in front of its prefixes. */
  const Marker: string := "axis2ns"

  /** Both the local name and the namespace are present (neither is Java null). */
  predicate HasQualifiedName(e: Node)
    requires e.Element?
  {
    e.name.Some? && e.ns.Some?
  }

  /** The element's namespace prefix starts with the marker. */
  predicate IsMarked(e: Node)
    requires e.Element?
  {
    HasQualifiedName(e) && StartsWith(e.ns.value.prefix, Marker)
  }

  /** `setNameSpaces`: a marked element is rebuilt with the same local name and
      URI under a namespace whose prefix is `prefix.replace(prefix, "")`; an
      element missing its name or namespace is rebuilt as it is; any other
      element is returned itself. */
  function SetNameSpaces(e: Node): (r: Node)
    requires e.Element?
    ensures r.Element? && r.name == e.name
    ensures r.ns.Some? <==> e.ns.Some?
    ensures r.ns.Some? ==> r.ns.value.uri == e.ns.value.uri
    ensures IsMarked(e) ==> r.ns.value.prefix == "" && r.attrs == [] && r.children == []
    ensures !IsMarked(e) ==> r.ns == e.ns
    ensures HasQualifiedName(e) && !IsMarked(e) ==> r == e
    ensures !HasQualifiedName(e) ==> r.attrs == [] && r.children == []
  {
    if HasQualifiedName(e) then
      var prefix := e.ns.value.prefix;
      if StartsWith(prefix, Marker) then
        ReplaceWhole(prefix, "");
        Element(e.name, Some(Namespace(e.ns.value.uri, Replace(prefix, prefix, ""))), [], [])
      else
        e
    else
      Element(e.name, e.ns, [], [])
  }

  /** The element that comes out of the normaliser never carries the marker,
      so normalising it again is the identity. */
  lemma SetNameSpacesIdempotent(e: Node)
    requires e.Element?
    ensures !IsMarked(SetNameSpaces(e))
    ensures SetNameSpaces(SetNameSpaces(e)) == SetNameSpaces(e)
  {
    var r := SetNameSpaces(e);
    if IsMarked(e) {
      assert !StartsWith(r.ns.value.prefix, Marker);
    }
  }

  // ---------------------------------------------------------------- attributes

  /** No two attributes share a name. */
  ghost predicate UniqueNames(attrs: seq<Attribute>)
  {
    forall i, j :: 0 <= i < j < |attrs| ==> attrs[i].name != attrs[j].name
  }

  /** `addAttribute`: an attribute whose name is already there takes that
      place; a new name goes to the end (insertion-ordered map keyed by name). */
  function Put(attrs: seq<Attribute>, a: Attribute): seq<Attribute>
  {
    if attrs == [] then [a]
    else if attrs[0].name == a.name then [a] + attrs[1..]
    else [attrs[0]] + Put(attrs[1..], a)
  }

  /** Put every attribute of `src`, first to last. */
  function PutAll(attrs: seq<Attribute>, src: seq<Attribute>): seq<Attribute>
  {
    if src == [] then attrs
    else Put(PutAll(attrs, src[..|src| - 1]), src[|src| - 1])
  }

  /** An attribute whose name is not there yet goes to the end. */
  lemma {:induction false} PutFresh(attrs: seq<Attribute>, a: Attribute)
    requires forall i :: 0 <= i < |attrs| ==> attrs[i].name != a.name
    ensures Put(attrs, a) == attrs + [a]
  {
    if attrs != [] {
      assert attrs[0].name != a.name;
      PutFresh(attrs[1..], a);
      assert [attrs[0]] + (attrs[1..] + [a]) == attrs + [a];
    }
  }

  /** Putting an attribute over the one holding its name in a list of unique
      names overwrites exactly that slot. */
  lemma {:induction false} PutAt(attrs: seq<Attribute>, j: nat, a: Attribute)
    requires j < |attrs| && attrs[j].name == a.name
    requires forall i :: 0 <= i < j ==> attrs[i].name != a.name
    ensures Put(attrs, a) == attrs[j := a]
  {
    if j > 0 {
      PutAt(attrs[1..], j - 1, a);
      assert [attrs[0]] + attrs[1..][j - 1 := a] == attrs[j := a];
    }
  }

  /** Onto an element with no attributes, `setAttributes` copies a list with
      unique names exactly: same names, values and order. */
  lemma {:induction false} PutAllOntoEmpty(src: seq<Attribute>)
    requires UniqueNames(src)
    ensures PutAll([], src) == src
  {
    if src != [] {
      var init := src[..|src| - 1];
      assert UniqueNames(init);
      PutAllOntoEmpty(init);
      assert forall i :: 0 <= i < |init| ==> init[i].name != src[|src| - 1].name;
      PutFresh(init, src[|src| - 1]);
      assert init + [src[|src| - 1]] == src;
    }
  }

  /** Re-putting an element's own attributes onto it leaves them as they are. */
  lemma {:induction false} PutAllOntoSelf(attrs: seq<Attribute>, k: nat)
    requires UniqueNames(attrs) && k <= |attrs|
    ensures PutAll(attrs, attrs[..k]) == attrs
  {
    if k > 0 {
      assert attrs[..k][..k - 1] == attrs[..k - 1];
      PutAllOntoSelf(attrs, k - 1);
      PutAt(attrs, k - 1, attrs[k - 1]);
      assert attrs[k - 1 := attrs[k - 1]] == attrs;
    }
  }

  /** `setAttributes(element, tempElement)`: every attribute of the source is
      added to the target, in the source's order. */
  method SetAttributes(source: Node, target: Node) returns (r: Node)
    requires source.Element? && target.Element?
    ensures r == target.(attrs := PutAll(target.attrs, source.attrs))
  {
    r := target;
    var i := 0;
    while i < |source.attrs|
      invariant 0 <= i <= |source.attrs|
      invariant r == target.(attrs := PutAll(target.attrs, source.attrs[..i]))
    {
      assert source.attrs[..i + 1][..i] == source.attrs[..i];
      r := r.(attrs := Put(r.attrs, source.attrs[i]));
      i := i + 1;
    }
    assert source.attrs[..i] == source.attrs;
  }

  // ---------------------------------------------------------------------- text

  /** `setTextValues`: a text node carrying exactly the text is appended when
      the text is neither null nor empty; otherwise nothing changes. */
  function SetTextValues(target: Node, text: Option<string>): (r: Node)
    requires target.Element?
    ensures r.Element? && r.name == target.name && r.ns == target.ns && r.attrs == target.attrs
    ensures |r.children| >= |target.children| && r.children[..|target.children|] == target.children
    ensures |r.children| == |target.children| + 1 <==> text.Some? && text.value != ""
    ensures |r.children| == |target.children| + 1 ==> r.children[|target.children|] == Text(text.value)
    ensures |r.children| != |target.children| + 1 ==> r == target
  {
    if text.Some? && text.value != "" then AddChild(target, Text(text.value)) else target
  }

  // ------------------------------------------------------------------- element

  /** The element `createNewOMElement` returns, as a function of its argument. */
  function Normalized(e: Node): (r: Node)
    requires e.Element?
    ensures r.Element? && r.name == e.name
  {
    var named := SetNameSpaces(e);
    SetTextValues(named.(attrs := PutAll(named.attrs, e.attrs)), Some(TextOf(e.children)))
  }

  /** `createNewOMElement`: read the text, settle the name and namespace, then
      put the attributes and the text. */
  method CreateNewElement(e: Node) returns (r: Node)
    requires e.Element?
    ensures r == Normalized(e)
  {
    var elementText := Some(TextOf(e.children));
    r := SetNameSpaces(e);
    r := SetAttributes(e, r);
    r := SetTextValues(r, elementText);
  }

  /** What the normaliser keeps of an element with unique attribute names: its
      local name, its namespace URI, its attributes in order, and its text; the
      prefix becomes "" exactly when it carried the marker. */
  lemma NormalizedFidelity(e: Node)
    requires e.Element? && UniqueNames(e.attrs)
    ensures Normalized(e).Element? && Normalized(e).name == e.name
    ensures Normalized(e).ns == if IsMarked(e) then Some(Namespace(e.ns.value.uri, "")) else e.ns
    ensures Normalized(e).attrs == e.attrs
    ensures TextOf(Normalized(e).children) == if HasQualifiedName(e) && !IsMarked(e)
                                              then TextOf(e.children) + TextOf(e.children)
                                              else TextOf(e.children)
  {
    NormalizedText(e);
    if HasQualifiedName(e) && !IsMarked(e) {
      PutAllOntoSelf(e.attrs, |e.attrs|);
      assert e.attrs[..|e.attrs|] == e.attrs;
    } else {
      PutAllOntoEmpty(e.attrs);
    }
  }

  /** The text the normaliser's result holds: the source's text, once more
      after the original text on the path that returns the element itself. */
  lemma NormalizedText(e: Node)
    requires e.Element?
    ensures TextOf(Normalized(e).children) == if HasQualifiedName(e) && !IsMarked(e)
                                              then TextOf(e.children) + TextOf(e.children)
                                              else TextOf(e.children)
  {
    var t := TextOf(e.children);
    var kept := if HasQualifiedName(e) && !IsMarked(e) then e.children else [];
    NormalizedChildren(e);
    if t != "" {
      assert TextOf([Text(t)]) == t by {
        assert [Text(t)][1..] == [];
      }
      TextOfAppend(kept, [Text(t)]);
    } else {
      assert kept + [] == kept;
    }
  }

  /** A rebuilt element (marked, or missing its name or namespace) holds no
      child but the text node; the element returned itself keeps all its
      children and gets the text node after them. */
  lemma NormalizedChildren(e: Node)
    requires e.Element?
    ensures var t := TextOf(e.children);
            var added := if t != "" then [Text(t)] else [];
            Normalized(e).children == (if HasQualifiedName(e) && !IsMarked(e) then e.children else []) + added
  {
  }

  /** The element children the normaliser's result starts with: none for a
      rebuilt element, the original ones for the element returned itself. */
  lemma NormalizedElementChildren(e: Node)
    requires e.Element?
    ensures ChildElements(Normalized(e).children)
         == if HasQualifiedName(e) && !IsMarked(e) then ChildElements(e.children) else []
  {
    var t := TextOf(e.children);
    var added := if t != "" then [Text(t)] else [];
    var kept := if HasQualifiedName(e) && !IsMarked(e) then e.children else [];
    NormalizedChildren(e);
    ChildElementsAppend(kept, added);
    assert ChildElements(added) == [] by {
      if t != "" {
        assert added == [Text(t)];
      }
    }
  }
}
