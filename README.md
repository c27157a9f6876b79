# rrlib_xml: the element-tree view, in Dafny

This project models the in-memory part of the rrlib_xml Java library.
`XMLNode` is a handle on one element of a DOM document. It offers tree edits
(adding and removing child elements, setting and removing text content),
text and attribute reads, typed attribute getters (int, long, boolean)
with their setters, navigation (parent, an iterator over the element
children, the child count) and structural comparison. `XMLDocument` owns the
DOM document and installs its single root element.

The DOM itself is modelled as an arena (`Dom.Dom`):

- Every element has an id, a tag, an attribute map and an ordered child list.
- Each entry of the child list is an element id or a text string.
- A `parent` map records every element whose parentNode is an element.
- `top` lists the element children of the Document node.
- Element children always carry larger ids than their parent. The node view
  only attaches new or imported elements, so this holds; it makes the value
  of a subtree (`Dom.SubtreeOf`, what `isEqualNode` compares) a well-founded
  definition.

The DOM calls the library makes are methods of `Dom.Dom`: createElement,
appendChild, createTextNode + appendChild, removeChild, setAttribute,
removeAttribute and importNode. Each is proved to keep the arena's
invariant (`Dom.Dom.Valid`).

The modules:

- `Errors`: the exceptions, as `Result` and `Outcome` values.
- `Values`: Integer.parseInt / Long.parseLong with a radix, Integer.toString,
  and the boolean literals with String.toLowerCase and String.trim.
- `Dom`: the arena.
- `Node`: the attribute getters, as functions of an attribute map, and the
  classes `XmlNode` and `ChildIterator`.
- `Document`: the class `XmlDocument`.

Where the code and its doc comments disagree, the model follows the code:

- `addChildNode(String)` (XMLNode.java:118-122) appends the new element even
  when the node has text content. Its comment (XMLNode.java:109-112)
  announces an XMLException for that case, but the code never throws it.
- `addChildNode(XMLNode, boolean)` (XMLNode.java:141-145) goes through
  `Document.importNode`, which always builds a new element: a copy of the
  whole subtree when `copy` is true, and of the element and its attributes
  alone when it is false. The original node is never moved, unlike what the
  comment at XMLNode.java:127-134 describes, and no exception is raised for
  a node inside its own subtree (`Node.XmlNode.AddExistingChildNode`).
- `addRootNode(name)` (XMLDocument.java:162-170) always names the element
  `root` and ignores `name`, whereas its comment (XMLDocument.java:150-160)
  promises the given name (`Document.XmlDocument.AddRootNode`).
- `removeChildNode` (XMLNode.java:156-158) is documented to throw an
  XMLException for a node that is not a child. The code calls
  `Node.removeChild`, which raises a DOMException NOT_FOUND_ERR instead
  (`Errors.DomNotFound`).
- `getStringAttribute` (XMLNode.java:259-265) tests for `null`, but
  `Element.getAttribute` returns "" for a missing attribute. The model
  therefore reads a missing attribute as "" and refuses it together with
  the empty value.

## Model

| member | source | states |
|---|---|---|
| `Node.XmlNode.AddChildNode` | XMLNode.java:118-122 | a new element `name`, with no attributes or children, is appended as the last child, so it is the last element children() yields and the text content is unchanged; the earlier children, every other element and the root stay as they were; no text check is made |
| `Dom.AppendElementChild` | XMLNode.java:118-122 | appending an element child adds it at the end of the element children and leaves the text children and the text content as they were |
| `Node.XmlNode.AddExistingChildNode` | XMLNode.java:141-145 | a new element is appended as the last child; its subtree equals the old subtree of `n` when `copy` holds, and equals `n`'s tag and attributes with no children otherwise; every other existing element is unchanged, and `n` remains a valid node |
| `Node.XmlNode.RemoveChildNode` | XMLNode.java:156-158 | succeeds iff `n` is an element child of this node in the same document; on success the child list is the old one without `n`, in the same order, and `n` has no parent; on failure it reports NOT_FOUND and nothing changes |
| `Node.XmlNode.HasTextContent` | XMLNode.java:171-178 | always true, because getTextContent never throws |
| `Node.XmlNode.GetTextContent` | XMLNode.java:188-197 | returns the data of the first text child, or "" when there is none |
| `Dom.FirstTextIsContent` | XMLNode.java:188-197 | the text content is the data of the text child that comes before every other text child |
| `Dom.NoTextNoContent` | XMLNode.java:196 | a node without text children has the empty text content |
| `Node.XmlNode.SetContent` | XMLNode.java:206-216 | fails with an XMLException iff the node has an element child, and then nothing changes; otherwise the child list becomes exactly one text child, `content`, which getTextContent then returns |
| `Node.XmlNode.FirstTextIndex` | XMLNode.java:222-229 | finds the first text child, or reports that there is none |
| `Node.XmlNode.RemoveTextContent` | XMLNode.java:221-231 | the child list becomes the old one with every text child taken out, and the element children keep their order; no other element changes |
| `Dom.RemoveOneText` | XMLNode.java:225-227 | removing one text child keeps the list without texts and the element children, and leaves one text fewer (the measure that ends the repetition) |
| `Dom.WithoutTextsIdempotent` | XMLNode.java:221-231 | removing the text content a second time changes nothing |
| `Dom.WithoutTextsIsElements` | XMLNode.java:221-231 | what is left after removing the text is exactly the element children, in order, with no text |
| `Dom.NoElementsLeavesNothing` | XMLNode.java:206-216 | a node without element children has an empty child list once its text is removed |
| `Dom.WithoutRefRemoves` | XMLNode.java:156-158 | after a removal the child is no longer listed, and every other child still is |
| `Dom.RemoveRefAt` | XMLNode.java:156-158 | when a child list names each element once, taking out the entry at the child's position is the same as removing that child |
| `Node.GetStringAttribute` | XMLNode.java:259-265 | fails with an XMLException iff the attribute is missing or empty; otherwise returns its value |
| `Node.SetThenGetString` | XMLNode.java:476-488 | after setAttribute(name, s), getStringAttribute(name) returns `s` when `s` is non-empty and fails when it is empty |
| `Node.RemoveThenGet` | XMLNode.java:495-497 | after removeAttribute(name), hasAttribute(name) is false and getStringAttribute(name) fails |
| `Node.OtherAttributesKept` | XMLNode.java:486-497 | setting or removing one attribute does not change what any other name reads |
| `Node.GetIntAttributeWithBase` | XMLNode.java:298-300 | succeeds iff the attribute is present and non-empty, is a sign and digits of the base, and denotes a number in the int range; the result is that number. A missing or empty attribute gives an XMLException; any other failure is a NumberFormatException |
| `Node.GetIntAttribute` | XMLNode.java:280-282 | base 10: succeeds iff the value is a sign and decimal digits that denote a number in the int range, and returns that number; the failures are XMLException or NumberFormatException |
| `Node.GetLongLongIntAttributeWithBase` | XMLNode.java:333-335 | succeeds iff the attribute is present and non-empty, is a sign and digits of the base, and denotes a number in the long range; the result is that number. A missing or empty attribute gives an XMLException; any other failure is a NumberFormatException |
| `Node.GetLongLongIntAttribute` | XMLNode.java:315-317 | base 10: succeeds iff the value is a sign and decimal digits that denote a number in the long range, and returns that number; the failures are XMLException or NumberFormatException |
| `Node.GetIntegerRefusesNonDigit` | XMLNode.java:280-282 | a value with a non-digit after its first character, such as "1x" or "abc", is refused by getIntAttribute and getLongLongIntAttribute with a NumberFormatException |
| `Node.GetIntegerRefusesBareSign` | XMLNode.java:315-317 | a value that is a sign alone, "-" or "+", is refused by both integer getters with a NumberFormatException |
| `Node.SetLongThenGetInt` | XMLNode.java:280-282 | a long outside the int range, such as 2147483648, stored with setAttribute is refused by getIntAttribute and read back by getLongLongIntAttribute |
| `Node.SetThenGetInt` | XMLNode.java:446-448 | an int stored with setAttribute(name, Object) (its toString) is read back unchanged by getIntAttribute |
| `Node.SetThenGetLong` | XMLNode.java:446-448 | a long stored with setAttribute(name, Object) is read back unchanged by getLongLongIntAttribute |
| `Node.SetThenGetIntWithBase` | XMLNode.java:298-300 | a number in the int range written in any base from 2 to 36 is read back by getIntAttribute with that base |
| `Node.GetBoolAttribute` | XMLNode.java:412-420 | a success is the boolean whose literal equals the lower-cased, trimmed value; when that form is "true" or "false" the getter returns that boolean; every failure is an XMLException |
| `Node.SetThenGetBool` | XMLNode.java:461-463 | a boolean stored with setAttribute(name, boolean) is read back unchanged by getBoolAttribute |
| `Node.GetBoolAttributeRefusesDigit` | XMLNode.java:412-420 | a one-digit value such as "1" is refused with an XMLException rather than read as a boolean |
| `Values.ParseBoolAcceptsPaddedWord` | XMLNode.java:413-418 | any mix of upper and lower case of "true" or "false", with any blank padding on either side, is accepted |
| `Values.ParseFormatBool` | XMLNode.java:461-463 | parsing the stored literal "true" or "false" returns the boolean that was written |
| `Values.ParseInteger` | XMLNode.java:299 | succeeds iff the radix is in 2..36 and the string is an optional sign followed by at least one digit of the radix, denoting a number in the requested range; the result is that number, and every failure is a NumberFormatException |
| `Values.ParseIntegerRefusesNonDigit` | XMLNode.java:299 | a character that is not a digit of the radix, anywhere after the first position, makes parseInt fail |
| `Values.ParseIntegerRefusesNoDigits` | XMLNode.java:334 | the empty string, "-" and "+" are refused |
| `Values.ParseIntegerRefusesOverflow` | XMLNode.java:299 | a number outside the requested range is refused even in its own toString form, so "2147483648" is no int |
| `Values.FormatIntegerValue` | XMLNode.java:447 | what toString prints is an optional minus sign and digits that denote exactly the number printed |
| `Values.FormatInteger` | XMLNode.java:447 | toString prints a well-formed number in the radix, with a leading minus sign exactly for negative numbers and never a plus sign |
| `Values.ParseBool` | XMLNode.java:413-419 | succeeds iff the lower-cased, trimmed value is "true" or "false", returning the boolean whose literal that is; every failure is an XMLException |
| `Values.FormatBool` | XMLNode.java:462 | the stored literal has no blank at either end and no upper-case letter, so lower-casing and trimming leave it as it is |
| `Node.HasAttribute` | XMLNode.java:243-245 | true exactly when removing the attribute would change the node's attribute map |
| `Values.ParseFormatInteger` | XMLNode.java:446-448 | parsing the toString form of any number in range, in the same radix, returns that number |
| `Values.MagnitudeOfDigitString` | XMLNode.java:446-448 | the digits printed for a natural number have that number as their value |
| `Values.DigitString` | XMLNode.java:446-448 | the printed digits are non-empty, all valid in the radix, and start without a sign |
| `Values.TrimStartOfPadded` | XMLNode.java:413 | trimming removes exactly a blank prefix |
| `Values.TrimEndOfPadded` | XMLNode.java:413 | trimming removes exactly a blank suffix |
| `Node.XmlNode.SetAttribute` | XMLNode.java:476-478 | the attribute map gains or replaces `name` with `value`; nothing else changes |
| `Node.XmlNode.SetBoolAttribute` | XMLNode.java:461-463 | the attribute `name` is set to "true" or "false", and getBoolAttribute then returns the same boolean |
| `Node.XmlNode.SetIntegerAttribute` | XMLNode.java:446-448 | the attribute `name` is set to the decimal toString of the number, and the int or long getter then returns that number |
| `Node.XmlNode.RemoveAttribute` | XMLNode.java:495-497 | `name` leaves the attribute map, which is otherwise unchanged; removing a missing attribute is not an error |
| `Node.XmlNode.GetParent` | XMLNode.java:425-430 | non-null iff the node has an element parent; the result is that parent, and this node is one of its children |
| `Node.XmlNode.Children` | XMLNode.java:508-510 | the iterator starts with exactly the element children, in document order, skipping text |
| `Node.ChildIterator.constructor` | XMLNode.java:520 | a new iterator is positioned on the first element child, with all element children still to come |
| `Node.ChildIterator.NextElement` | XMLNode.java:522-530 | finds the first element child at or after a position, or none; the element children still to come are the same from either position |
| `Node.ChildIterator.HasNext` | XMLNode.java:544-546 | true iff elements remain to be yielded |
| `Node.ChildIterator.Next` | XMLNode.java:537-541 | yields the first remaining element and drops it from the remaining ones; on an exhausted iterator it fails with a null dereference and nothing changes |
| `Node.ChildIterator.Remove` | XMLNode.java:549-551 | always fails: removal is not supported |
| `Node.XmlNode.ChildCount` | XMLNode.java:562-568 | counting what the iterator yields gives the number of element children |
| `Dom.ElementIdsMember` | XMLNode.java:518-557 | an id is among the iterated children iff an element child with that id is in the child list |
| `Dom.CountsAddUp` | XMLNode.java:562-568 | the element children and the text children together make up the whole child list |
| `Node.XmlNode.NodeEquals` | XMLNode.java:589-591 | equal nodes have the same tag, the same attributes, the same text content and the same number of element children |
| `Dom.EqualSubtreesAgree` | XMLNode.java:589-591 | two elements with equal subtree values agree on tag, attributes, text content and element count |
| `Dom.Dom.CreateElement` | XMLNode.java:119 | a new detached element with the given tag and attributes and no children; nothing else changes |
| `Dom.Dom.AppendChild` | XMLNode.java:120 | the detached element becomes the last child of the parent, and the parent map records the new edge |
| `Dom.Dom.AppendText` | XMLNode.java:215 | a text child is appended as the last child |
| `Dom.Dom.RemoveAt` | XMLNode.java:226 | the child at the index leaves the list; a removed element loses its parent entry |
| `Dom.Dom.IndexOfChild` | XMLNode.java:157 | finds the position of an element child |
| `Dom.Dom.RemoveChild` | XMLNode.java:157 | succeeds iff the element is a child of the parent; the element then leaves the list and becomes detached; otherwise NOT_FOUND and nothing changes |
| `Dom.Dom.SetAttribute` | XMLNode.java:487 | the attribute map of one element gains or replaces the name |
| `Dom.Dom.RemoveAttribute` | XMLNode.java:496 | the name leaves the attribute map of one element |
| `Dom.Dom.ImportNode` | XMLNode.java:142 | builds a new detached element whose subtree is a copy of the source's (deep) or its tag and attributes alone (shallow); existing elements are kept |
| `Dom.Dom.Plant` | XMLNode.java:142 | builds new elements whose subtree value is exactly the given one, extending the arena without changing existing elements |
| `Dom.Dom.PlantKid` | XMLNode.java:142 | appends to a new element a copy of one child value |
| `Dom.Dom.PlantChars` | XMLNode.java:142 | appends to a new element a copy of one text child: its subtree value gains that text at the end, and no other element changes |
| `Dom.Dom.PlantBranch` | XMLNode.java:142 | appends to a new element a deep copy of one element child: its subtree value gains that subtree at the end, and the elements that existed before are kept |
| `Dom.BranchAppended` | XMLNode.java:142 | attaching a freshly built element as the last child adds exactly its subtree value to the parent's children and changes no other existing element |
| `Dom.Dom.AppendToDocument` | XMLDocument.java:167 | the detached element becomes the one element child of the document |
| `Dom.SubtreeFrame` | XMLNode.java:589-591 | a subtree's value depends only on the elements from its root id upwards |
| `Node.XmlNode.constructor` | XMLNode.java:61-64 | the handle holds the given document and element |
| `Dom.Dom.constructor` | XMLDocument.java:68 | a new DOM document has no nodes |
| `Document.XmlDocument.constructor` | XMLDocument.java:64-72 | the empty document has no elements and no root |
| `Document.XmlDocument.GetRootNode` | XMLDocument.java:145-147 | null iff the document has no element; otherwise the root is the document's one element and has no element parent |
| `Document.XmlDocument.AddRootNode` | XMLDocument.java:162-170 | with a root already present, fails with an XMLException and changes nothing; otherwise a new element named "root", with no attributes or children, becomes the document's one element and the remembered root |
| `Document.AddRootNodeTwice` | XMLDocument.java:162-170 | a second addRootNode always fails, and a root installed by the first has the tag "root" whatever name was given |

## Left out

- Parsing and serialisation are not modelled: the constructors that parse a file or an InputSource, writeToFile, writeToStream and getXMLDump. They are JAXP calls plus file and stream I/O.
- getFloatAttribute and getDoubleAttribute are not modelled, because floating-point parsing is done by the JDK.
- `Values.ParseInteger`: digits and letters are ASCII only. Character.digit also accepts other Unicode digits.
- `Values.ParseBool`: String.toLowerCase is modelled for ASCII letters only; there is no locale-dependent or Unicode case mapping.
- Name checks are not modelled. The DOM refuses invalid element and attribute names with INVALID_CHARACTER_ERR; the model accepts any name.
- `Node.XmlNode.SetIntegerAttribute` covers setAttribute(String, Object) for boxed Integer and Long values only. Other objects' toString is code outside this model, and a null object (a NullPointerException) is not modelled.
- The failing path of the XMLDocument() constructor (XMLDocument.java:69-71) is not modelled. There, a ParserConfigurationException from the JAXP factory configuration is printed and swallowed, and every later call then throws a NullPointerException. The model's constructor always yields an empty document.
- Null arguments to the node methods are not modelled, nor are the NullPointerExceptions they raise.
- `Node.XmlNode.ChildCount`: the Java int counter would wrap past 2^31 - 1 children. The model counts with an unbounded natural number.
- The iterator's `iterator()` method (XMLNode.java:554-556), which returns the iterator itself, has no model. Changing the tree while an iterator is in use is not modelled either.
- `Dom.Dom.AppendChild` and `Dom.Dom.AppendToDocument` accept only detached elements. The node view never passes anything else, so the DOM's move-on-append and HIERARCHY_REQUEST_ERR cases are not modelled.
- Elements are never freed from the arena: a removed element stays in it as a detached element, where the Java garbage collector would reclaim it.
- The element and attribute-node objects of the DOM, namespaces, and node kinds other than elements and text (comments, processing instructions) are not modelled.
