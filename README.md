# Axis2 namespace-prefix removal mediator, in Dafny

This project models `Axis2NSPrefixRemoveMediator`, a Synapse mediator that
tidies the `Detail` element of a SOAP fault (section 4.4 of the W3C SOAP 1.1
Note). An intermediary may re-serialise the detail's elements under synthetic
prefixes that start with `axis2ns`. The mediator clones the detail's element
children under a container named `ClonedDetail`. Each element whose prefix
starts with the marker is rebuilt with an empty prefix, keeping its local name
and namespace URI. Attributes and text are put back onto the result. The
clones then replace the detail's element children. An element without the
marker is not rebuilt: it keeps its original children, so a marked element
below it keeps its prefix.

The XML tree is a value: `Xml.Node` is an element (optional local name,
optional namespace of URI and prefix, attributes, children), a text node, or
any other node kind. Java `null` is `Option.None`.

- `xml.dfy` (module `Xml`): the tree; `getChildElements`, `getText` and
  `addChild`; Java's `String.startsWith` and `String.replace`.
- `normalizer.dfy` (module `Normalizer`): `setNameSpaces`, `setAttributes`,
  `setTextValues` and `createNewOMElement`.
- `cloner.dfy` (module `Cloner`): the specification functions `CloneOf` and
  `CloneAll`, and `getChildrenRecursively` as a looping, recursive method
  proved against them.
- `mediator.dfy` (module `Mediator`): the mutable `Detail` holder with the
  detach and attach loops, and `mediate`, proved against the function
  `Mediated`.

The code does less than its purpose suggests, and the model follows the code:

- **The marker branch empties the whole prefix.** Line 188 calls
  `prefix.replace(prefix, "")`, so `axis2ns1` becomes `""`, not `1`. It does
  not remove every occurrence of the marker inside the prefix. `Xml.Replace`
  is Java's `String.replace`, and `Xml.ReplaceWhole` proves the result is the
  empty prefix.
- **An unmarked element is returned as it is.** `setNameSpaces` hands back
  the original element (line 196). Lines 135 and 137 then re-add that
  element's attributes and append its own text to it once more. At the value
  level the "clone" of an unmarked element is therefore the element itself,
  with all its original children, a second copy of its text, and then the
  clones of its element children. `Cloner.UnmarkedTextRepeated` and
  `Mediator.UnmarkedReasonScenario` state this. Such an element does not come
  out unchanged.
- **A marked element below an unmarked one keeps its prefix.** The unmarked
  parent keeps its original children (`Cloner.UnmarkedKeepsOriginalChildren`),
  so the marked child stays in it with its `axis2ns` prefix, followed by its
  rebuilt copy. `Mediator.MarkedBelowUnmarkedSurvives` shows this on a
  two-level detail. A marked element is gone from the result only when every
  element between it and the detail is rebuilt.
- **The swap always happens once the detail has an element child.** Every
  element child yields exactly one clone, so the guard at line 68 holds
  whenever the guard at line 57 holds (`Mediator.SwapGuardRedundant`). An
  already-normalised detail is therefore still rebuilt rather than left
  alone.
- **The first guard is about element children.** Line 57 asks
  `getChildElements().hasNext()`. A detail holding only text is left alone.

## Model

| member | source | states |
|---|---|---|
| `Xml.ReplaceWhole` | TestMediatorClass/src/main/java/org/wso2/sample/mediator/Axis2NSPrefixRemoveMediator.java:188 | `p.replace(p, r)` on a non-empty prefix `p` yields `r`, so the marker branch produces the empty prefix |
| `Normalizer.SetNameSpaces` | TestMediatorClass/src/main/java/org/wso2/sample/mediator/Axis2NSPrefixRemoveMediator.java:177-197 | keeps the local name and namespace URI; when name and namespace are present and the prefix starts with `axis2ns`, builds a fresh element with prefix `""`; when the prefix does not start with it, returns its argument itself; when name or namespace is missing, builds a fresh element with the same name and namespace and makes no prefix test |
| `Normalizer.SetNameSpacesIdempotent` | TestMediatorClass/src/main/java/org/wso2/sample/mediator/Axis2NSPrefixRemoveMediator.java:182-196 | the normaliser's result never carries the marker, so normalising it again changes nothing |
| `Normalizer.PutAllOntoEmpty` | TestMediatorClass/src/main/java/org/wso2/sample/mediator/Axis2NSPrefixRemoveMediator.java:162-168 | adding all attributes of an element with unique names onto a fresh element copies them exactly, in iteration order, with no renaming or filtering |
| `Normalizer.PutAllOntoSelf` | TestMediatorClass/src/main/java/org/wso2/sample/mediator/Axis2NSPrefixRemoveMediator.java:135 | re-adding an element's own attributes onto that same element (the unmarked path) leaves its attributes as they were |
| `Normalizer.SetAttributes` | TestMediatorClass/src/main/java/org/wso2/sample/mediator/Axis2NSPrefixRemoveMediator.java:162-168 | the loop adds each source attribute to the target in order; the target's attributes become the keyed insertion of the source list, and nothing else about the target changes |
| `Normalizer.SetTextValues` | TestMediatorClass/src/main/java/org/wso2/sample/mediator/Axis2NSPrefixRemoveMediator.java:149-155 | a text child is appended exactly when the text is non-null and non-empty, and it carries exactly that string; otherwise the element is unchanged; name, namespace and attributes are never touched |
| `Normalizer.CreateNewElement` | TestMediatorClass/src/main/java/org/wso2/sample/mediator/Axis2NSPrefixRemoveMediator.java:127-141 | reads the text first, then sets the namespace, the attributes and the text; the result is the normaliser's specification `Normalized` |
| `Normalizer.NormalizedFidelity` | TestMediatorClass/src/main/java/org/wso2/sample/mediator/Axis2NSPrefixRemoveMediator.java:127-141 | for unique attribute names: same local name, namespace rewritten to URI plus `""` exactly when marked and otherwise unchanged, same attributes in order; the text is kept, and doubled on the unmarked path |
| `Normalizer.NormalizedChildren` | TestMediatorClass/src/main/java/org/wso2/sample/mediator/Axis2NSPrefixRemoveMediator.java:130-137 | a rebuilt element holds only the text node, and only when the text is non-empty; the element returned itself keeps its children and gets the text node after them |
| `Normalizer.NormalizedElementChildren` | TestMediatorClass/src/main/java/org/wso2/sample/mediator/Axis2NSPrefixRemoveMediator.java:133-137 | before its subtree is cloned, a rebuilt element has no element children; the element returned itself keeps its original element children |
| `Cloner.CloneAll` | TestMediatorClass/src/main/java/org/wso2/sample/mediator/Axis2NSPrefixRemoveMediator.java:97-116 | nodes that are not elements are skipped; there are exactly as many clones as element children, and every clone is an element |
| `Cloner.CloneOf` | TestMediatorClass/src/main/java/org/wso2/sample/mediator/Axis2NSPrefixRemoveMediator.java:104-113 | a clone keeps its source's local name; its namespace becomes URI plus `""` when the source is marked and is unchanged otherwise |
| `Cloner.CloneAllAt` | TestMediatorClass/src/main/java/org/wso2/sample/mediator/Axis2NSPrefixRemoveMediator.java:97-116 | the i-th clone is the clone of the i-th element child, so source order is kept at every level |
| `Cloner.CloneAllOfElements` | TestMediatorClass/src/main/java/org/wso2/sample/mediator/Axis2NSPrefixRemoveMediator.java:100-107 | cloning only the element children (`getChildElements`) gives the same clones as cloning every child with the `instanceof` skip |
| `Cloner.LeafClone` | TestMediatorClass/src/main/java/org/wso2/sample/mediator/Axis2NSPrefixRemoveMediator.java:111-114 | an element with no element children is still cloned and attached, as its normalised self |
| `Cloner.CloneShape` | TestMediatorClass/src/main/java/org/wso2/sample/mediator/Axis2NSPrefixRemoveMediator.java:104-113 | the element children of a rebuilt clone are exactly the clones of the source's element children, one each and in order; an element returned itself keeps its original element children and has the clones after them |
| `Cloner.CloneAttributes` | TestMediatorClass/src/main/java/org/wso2/sample/mediator/Axis2NSPrefixRemoveMediator.java:104 | for unique attribute names, a clone keeps its source's local name, namespace URI and attributes in order |
| `Cloner.UnmarkedTextRepeated` | TestMediatorClass/src/main/java/org/wso2/sample/mediator/Axis2NSPrefixRemoveMediator.java:104-113 | an unmarked element's clone carries its text twice, because the text is appended to the original element; the clones of its element children add no text |
| `Cloner.UnmarkedKeepsOriginalChildren` | TestMediatorClass/src/main/java/org/wso2/sample/mediator/Axis2NSPrefixRemoveMediator.java:104-113 | the clone of an unmarked element starts with all of that element's original children, unchanged, including marked ones |
| `Cloner.GetChildrenRecursively` | TestMediatorClass/src/main/java/org/wso2/sample/mediator/Axis2NSPrefixRemoveMediator.java:95-119 | the loop with its recursive call appends to `root` the complete clones of the element nodes, in order; each clone's subtree is built before it is attached |
| `Mediator.Detail.DetachElements` | TestMediatorClass/src/main/java/org/wso2/sample/mediator/Axis2NSPrefixRemoveMediator.java:71-74 | every element child of the detail is detached; its other children stay, in order |
| `Mediator.Detail.AttachChildren` | TestMediatorClass/src/main/java/org/wso2/sample/mediator/Axis2NSPrefixRemoveMediator.java:77-80 | the clone root's element children are appended to the detail in order, after what it already holds |
| `Mediator.Mediated` | TestMediatorClass/src/main/java/org/wso2/sample/mediator/Axis2NSPrefixRemoveMediator.java:57-82 | after mediation the detail's non-element children are unchanged; its element children are exactly the clones of the old ones; when the detail had an element child, the result is its non-element children in order followed by all the clones in order; a detail with no element child is untouched |
| `Mediator.SwapGuardRedundant` | TestMediatorClass/src/main/java/org/wso2/sample/mediator/Axis2NSPrefixRemoveMediator.java:57-68 | the clone root has an element child if and only if the detail has one, so the swap guard at line 68 never fails |
| `Mediator.Mediate` | TestMediatorClass/src/main/java/org/wso2/sample/mediator/Axis2NSPrefixRemoveMediator.java:46-86 | always returns true; with no fault nothing can change (empty frame); with a fault the detail's children become `Mediated` of the old ones |
| `Mediator.MarkedCodeScenario` | TestMediatorClass/src/main/java/org/wso2/sample/mediator/Axis2NSPrefixRemoveMediator.java:182-191 | a detail with `<axis2ns1:Code xmlns:axis2ns1="urn:x">Err</axis2ns1:Code>` ends up with `<Code xmlns="urn:x">Err</Code>` |
| `Mediator.MarkedBelowUnmarkedSurvives` | TestMediatorClass/src/main/java/org/wso2/sample/mediator/Axis2NSPrefixRemoveMediator.java:57-82 | a detail holding unmarked `m:Outer` with a marked child `axis2ns3:A` comes out with `m:Outer` holding the original `axis2ns3:A` and then its rebuilt copy with prefix `""` |
| `Mediator.UnmarkedReasonScenario` | TestMediatorClass/src/main/java/org/wso2/sample/mediator/Axis2NSPrefixRemoveMediator.java:127-141 | an unmarked `m:Reason` keeps its prefix and `lang` attribute and gets its text twice; a marked empty sibling `Extra` comes out with prefix `""` and no children |

## Left out

- Axiom and Synapse plumbing: `OMAbstractFactory`, `OMFactory`, `QName`, `MessageContext`, `AbstractMediator`, and the `SOAPBody`/`SOAPFault` lookup. These are foreign object-model calls. The envelope is a datatype holding an optional fault; the fault holds the `Detail` object.
- Identity, aliasing and re-parenting: elements are values. Axiom's `addChild` also moves a node out of its old parent. On the unmarked path that moves the original element out of the detail and into the clone root.
- Cloner.CloneOf, Cloner.CloneShape, Cloner.UnmarkedKeepsOriginalChildren, Cloner.UnmarkedTextRepeated, Mediator.MarkedBelowUnmarkedSurvives: where the source moves a node, the model keeps it and appends a copy; these members all rest on that value-level reading. For an unmarked child of an unmarked element, line 110 or 113 attaches the child itself to its own parent. Axiom then detaches it and re-adds it at the end, so the parent holds one copy of it (text doubled) where the model holds the original and its clone. The model walks a fixed list of children and does not capture what the parent's live child iterator then does. The iterator may visit the moved child again or skip a sibling. When line 107 recurses with an unmarked element as its own root, the iterator also reaches the rebuilt copies appended to that same element: those now have prefix `""`, so they are normalised again and their text appended once more. Two unmarked element children of an unmarked element keep moving behind each other, so the loop at line 97 need not end. The model terminates and holds each clone once.
- Normalizer.SetAttributes: `addAttribute` is modelled as an insertion-ordered map keyed by attribute name. An existing name keeps its place and takes the new value; a new name goes to the end. This is how Axiom stores attributes, but its code is not part of this model. Attributes are identified by local name only; attribute namespaces are not modelled.
- A null `getPrefix()` at line 186 is not modelled: `Namespace.prefix` is a plain string. In the source it throws a NullPointerException from `startsWith`, a runtime failure rather than specified behaviour.
- A null `getDetail()` at line 55 is not modelled. It throws a NullPointerException, which is a runtime failure rather than specified behaviour.
- `getText()` never returns null in Axiom, so `createNewOMElement` always passes a present text. The null check of `setTextValues` is still modelled through its `Option` argument.
- XML serialisation and wire-level byte equality of the envelope are not modelled.
