/**
 * The node view over the DOM arena: an XmlNode is a handle on one element
 * of a document.  Tree edits go through the document's DOM calls; the
 * attribute getters are pure functions of the element's attribute map.
 */
module Node {
  import opened Errors
  import opened Values
  import opened Dom

  // ------------------------------------------------------------ attribute getters

  /** hasAttribute: exactly when removeAttribute(name) would change the attribute map. */
  predicate HasAttribute(attrs: map<string, string>, name: string): (b: bool)
    ensures b <==> attrs - {name} != attrs
  {
    name in attrs
  }

  /**
   * getStringAttribute: Element.getAttribute yields "" for an absent
   * attribute, and an empty value is refused like a missing one.
   */
  function GetStringAttribute(attrs: map<string, string>, name: string): (r: Result<string>)
    ensures r.Success? <==> HasAttribute(attrs, name) && attrs[name] != ""
    ensures r.Success? ==> r.value == attrs[name]
    ensures r.Failure? ==> r.error == XmlException
  {
    var s := if name in attrs then attrs[name] else "";
    if s == "" then Failure(XmlException) else Success(s)
  }

  /** getIntAttribute(name, base): Integer.parseInt of the string value. */
  function GetIntAttributeWithBase(attrs: map<string, string>, name: string, base: int): (r: Result<int>)
    ensures r.Success? <==>
      && GetStringAttribute(attrs, name).Success?
      && WellFormedInteger(attrs[name], base)
      && INT_MIN <= IntegerValue(attrs[name], base) <= INT_MAX
    ensures r.Success? ==> r.value == IntegerValue(attrs[name], base) && INT_MIN <= r.value <= INT_MAX
    ensures r.Failure? ==> (r.error == XmlException <==> GetStringAttribute(attrs, name).Failure?)
    ensures r.Failure? ==> r.error == XmlException || r.error == NumberFormatException
  {
    match GetStringAttribute(attrs, name)
    case Failure(e) => Failure(e)
    case Success(s) => ParseInteger(s, base, INT_MIN, INT_MAX)
  }

  /** getIntAttribute(name): base 10. */
  function GetIntAttribute(attrs: map<string, string>, name: string): (r: Result<int>)
    ensures r.Success? <==>
      && GetStringAttribute(attrs, name).Success?
      && WellFormedInteger(attrs[name], 10)
      && INT_MIN <= IntegerValue(attrs[name], 10) <= INT_MAX
    ensures r.Success? ==> r.value == IntegerValue(attrs[name], 10) && INT_MIN <= r.value <= INT_MAX
    ensures r.Failure? ==> r.error == XmlException || r.error == NumberFormatException
  {
    GetIntAttributeWithBase(attrs, name, 10)
  }

  /** getLongLongIntAttribute(name, base): Long.parseLong of the string value. */
  function GetLongLongIntAttributeWithBase(attrs: map<string, string>, name: string, base: int): (r: Result<int>)
    ensures r.Success? <==>
      && GetStringAttribute(attrs, name).Success?
      && WellFormedInteger(attrs[name], base)
      && LONG_MIN <= IntegerValue(attrs[name], base) <= LONG_MAX
    ensures r.Success? ==> r.value == IntegerValue(attrs[name], base) && LONG_MIN <= r.value <= LONG_MAX
    ensures r.Failure? ==> (r.error == XmlException <==> GetStringAttribute(attrs, name).Failure?)
    ensures r.Failure? ==> r.error == XmlException || r.error == NumberFormatException
  {
    match GetStringAttribute(attrs, name)
    case Failure(e) => Failure(e)
    case Success(s) => ParseInteger(s, base, LONG_MIN, LONG_MAX)
  }

  /** getLongLongIntAttribute(name): base 10. */
  function GetLongLongIntAttribute(attrs: map<string, string>, name: string): (r: Result<int>)
    ensures r.Success? <==>
      && GetStringAttribute(attrs, name).Success?
      && WellFormedInteger(attrs[name], 10)
      && LONG_MIN <= IntegerValue(attrs[name], 10) <= LONG_MAX
    ensures r.Success? ==> r.value == IntegerValue(attrs[name], 10) && LONG_MIN <= r.value <= LONG_MAX
    ensures r.Failure? ==> r.error == XmlException || r.error == NumberFormatException
  {
    GetLongLongIntAttributeWithBase(attrs, name, 10)
  }

  /**
   * getBoolAttribute: the value, lower-cased and trimmed, must be exactly
   * "true" or "false"; every other value, and a missing one, is an
   * XMLException.
   */
  function GetBoolAttribute(attrs: map<string, string>, name: string): (r: Result<bool>)
    ensures r.Success? ==> HasAttribute(attrs, name) && FormatBool(r.value) == Trim(ToLower(attrs[name]))
    ensures r.Failure? ==> r.error == XmlException
    ensures HasAttribute(attrs, name) && Trim(ToLower(attrs[name])) == FormatBool(true) ==> r == Success(true)
    ensures HasAttribute(attrs, name) && Trim(ToLower(attrs[name])) == FormatBool(false) ==> r == Success(false)
  {
    match GetStringAttribute(attrs, name)
    case Failure(e) => Failure(e)
    case Success(s) => ParseBool(s)
  }

  // ------------------------------------------------------------ setting, then getting

  /** setAttribute(name, s) followed by getStringAttribute(name). */
  lemma SetThenGetString(attrs: map<string, string>, name: string, value: string)
    ensures value != "" ==> GetStringAttribute(attrs[name := value], name) == Success(value)
    ensures value == "" ==> GetStringAttribute(attrs[name := value], name) == Failure(XmlException)
  {
  }

  /** removeAttribute(name) followed by hasAttribute / getStringAttribute. */
  lemma RemoveThenGet(attrs: map<string, string>, name: string)
    ensures !HasAttribute(attrs - {name}, name)
    ensures GetStringAttribute(attrs - {name}, name) == Failure(XmlException)
  {
  }

  /** Setting or removing one attribute leaves every other attribute as it was. */
  lemma OtherAttributesKept(attrs: map<string, string>, name: string, value: string, other: string)
    requires other != name
    ensures GetStringAttribute(attrs[name := value], other) == GetStringAttribute(attrs, other)
    ensures GetStringAttribute(attrs - {name}, other) == GetStringAttribute(attrs, other)
  {
  }

  /** setAttribute(name, b) followed by getBoolAttribute(name). */
  lemma SetThenGetBool(attrs: map<string, string>, name: string, b: bool)
    ensures GetBoolAttribute(attrs[name := FormatBool(b)], name) == Success(b)
  {
    ParseFormatBool(b);
  }

  /** The digit strings "0" to "9" are not booleans: "1" is refused, not read as true. */
  lemma GetBoolAttributeRefusesDigit(attrs: map<string, string>, name: string, d: char)
    requires '0' <= d <= '9'
    ensures GetBoolAttribute(attrs[name := [d]], name) == Failure(XmlException)
  {
    var s := [d];
    DigitNormalised(s);
    ParseBoolOfShortWord(s);
    assert GetStringAttribute(attrs[name := s], name) == Success(s);
  }

  lemma DigitNormalised(s: string)
    requires |s| == 1 && '0' <= s[0] <= '9'
    ensures |Trim(ToLower(s))| == 1
  {
    DigitIsLower(s[0]);
    assert s == [s[0]];
    TrimUnpadded(s);
  }

  /** An int written with setAttribute (toString) is read back by getIntAttribute. */
  lemma SetThenGetInt(attrs: map<string, string>, name: string, v: int)
    requires INT_MIN <= v <= INT_MAX
    ensures GetIntAttribute(attrs[name := FormatInteger(v, 10)], name) == Success(v)
  {
    ParseFormatInteger(v, 10, INT_MIN, INT_MAX);
  }

  /** A long written with setAttribute (toString) is read back by getLongLongIntAttribute. */
  lemma SetThenGetLong(attrs: map<string, string>, name: string, v: int)
    requires LONG_MIN <= v <= LONG_MAX
    ensures GetLongLongIntAttribute(attrs[name := FormatInteger(v, 10)], name) == Success(v)
  {
    ParseFormatInteger(v, 10, LONG_MIN, LONG_MAX);
  }

  /** A number written in any base is read back by the getter for that base. */
  lemma SetThenGetIntWithBase(attrs: map<string, string>, name: string, v: int, base: int)
    requires INT_MIN <= v <= INT_MAX && MIN_RADIX <= base <= MAX_RADIX
    ensures GetIntAttributeWithBase(attrs[name := FormatInteger(v, base)], name, base) == Success(v)
  {
    ParseFormatInteger(v, base, INT_MIN, INT_MAX);
  }

  /** A value with a non-digit after its first character, such as "1x", is no number. */
  lemma GetIntegerRefusesNonDigit(attrs: map<string, string>, name: string, value: string, k: nat)
    requires 0 < k < |value| && Digit(value[k], 10) < 0
    ensures GetIntAttribute(attrs[name := value], name) == Failure(NumberFormatException)
    ensures GetLongLongIntAttribute(attrs[name := value], name) == Failure(NumberFormatException)
  {
    ParseIntegerRefusesNonDigit(value, 10, INT_MIN, INT_MAX, k);
    ParseIntegerRefusesNonDigit(value, 10, LONG_MIN, LONG_MAX, k);
  }

  /** A sign alone is no number, whichever getter reads it. */
  lemma GetIntegerRefusesBareSign(attrs: map<string, string>, name: string, sign: string)
    requires sign == "-" || sign == "+"
    ensures GetIntAttribute(attrs[name := sign], name) == Failure(NumberFormatException)
    ensures GetLongLongIntAttribute(attrs[name := sign], name) == Failure(NumberFormatException)
  {
    ParseIntegerRefusesNoDigits(sign, 10, INT_MIN, INT_MAX);
    ParseIntegerRefusesNoDigits(sign, 10, LONG_MIN, LONG_MAX);
  }

  /**
   * A long outside the int range, written with setAttribute, is refused by
   * getIntAttribute and read back by getLongLongIntAttribute.
   */
  lemma SetLongThenGetInt(attrs: map<string, string>, name: string, v: int)
    requires LONG_MIN <= v < INT_MIN || INT_MAX < v <= LONG_MAX
    ensures GetIntAttribute(attrs[name := FormatInteger(v, 10)], name) == Failure(NumberFormatException)
    ensures GetLongLongIntAttribute(attrs[name := FormatInteger(v, 10)], name) == Success(v)
  {
    ParseIntegerRefusesOverflow(v, 10, INT_MIN, INT_MAX);
    ParseFormatInteger(v, 10, LONG_MIN, LONG_MAX);
  }

  // ------------------------------------------------------------ the node handle

  /** A handle on the element `node` of the document tree `doc`. */
  class XmlNode {
    const doc: Dom
    const node: Id

    constructor(doc: Dom, node: Id)
      ensures this.doc == doc && this.node == node
    {
      this.doc := doc;
      this.node := node;
    }

    ghost predicate Valid()
      reads doc
    {
      doc.Valid() && node in doc.elems
    }

    /** The child list of the element. */
    function Kids(): seq<Item>
      reads doc
      requires Valid()
    {
      doc.elems[node].kids
    }

    /** The attribute map of the element, which the getters above read. */
    function Attributes(): map<string, string>
      reads doc
      requires Valid()
    {
      doc.elems[node].attrs
    }

    function Subtree(): Tree
      reads doc
      requires Valid()
    {
      doc.Subtree(node)
    }

    /**
     * addChildNode(name): a new element `name` without attributes or
     * children, appended as the last child.  There is no check for text
     * content: an element with text gets the child all the same.
     */
    method AddChildNode(name: string) returns (r: XmlNode)
      requires Valid()
      modifies doc
      ensures Valid() && r.Valid() && fresh(r) && r.doc == doc
      ensures r.node !in old(doc.elems)
      ensures doc.elems[r.node] == Element(name, map[], [])
      ensures doc.elems[node] == old(doc.elems[node]).(kids := old(Kids()) + [ElementRef(r.node)])
      ensures ElementIds(Kids()) == ElementIds(old(Kids())) + [r.node] && TextContent(Kids()) == TextContent(old(Kids()))
      ensures doc.elems - {node, r.node} == old(doc.elems) - {node}
      ensures doc.parent == old(doc.parent)[r.node := node] && doc.top == old(doc.top)
    {
      AppendElementChild(Kids(), doc.next);
      ghost var before := doc.elems;
      var e := doc.CreateElement(name, map[]);
      doc.AppendChild(node, e);
      assert doc.elems == before[e := Element(name, map[], [])][node := before[node].(kids := before[node].kids + [ElementRef(e)])];
      assert doc.elems - {node, e} == before - {node};
      r := new XmlNode(doc, e);
    }

    /**
     * addChildNode(n, copy): importNode(n, copy) appended as the last child.
     * The appended element is always new: a copy of the whole subtree of `n`
     * when `copy` holds, of its tag and attributes alone when it does not;
     * `n` itself stays where it was.
     */
    method AddExistingChildNode(n: XmlNode, copy: bool) returns (r: XmlNode)
      requires Valid() && n.Valid()
      modifies doc
      ensures Valid() && n.Valid() && r.Valid() && fresh(r) && r.doc == doc
      ensures r.node !in old(doc.elems)
      ensures doc.elems[node] == old(doc.elems[node]).(kids := old(Kids()) + [ElementRef(r.node)])
      ensures ElementIds(Kids()) == ElementIds(old(Kids())) + [r.node] && TextContent(Kids()) == TextContent(old(Kids()))
      ensures copy ==> r.Subtree() == old(n.Subtree())
      ensures !copy ==> r.Subtree() == Tree(old(n.doc.elems[n.node].tag), old(n.Attributes()), [])
      ensures forall k | k in old(doc.elems) && k != node :: k in doc.elems && doc.elems[k] == old(doc.elems[k])
      ensures r.node in doc.parent && doc.parent[r.node] == node && doc.top == old(doc.top)
    {
      ghost var e0 := doc.elems;
      var e := doc.ImportNode(n.doc, n.node, copy);
      AppendElementChild(old(Kids()), e);
      ghost var e1, n1 := doc.elems, doc.next;
      assert node < e;
      doc.AppendChild(node, e);
      assert doc.elems == e1[node := doc.elems[node]];
      assert forall k | k in e1 && k != node :: k in doc.elems && doc.elems[k] == e1[k];
      SubtreeFrame(e1, n1, doc.elems, doc.next, e);
      r := new XmlNode(doc, e);
    }

    /**
     * removeChildNode: fails with NOT_FOUND_ERR unless `n` is an element
     * child of this node in the same document; otherwise `n` leaves the
     * child list and the other children keep their order.
     */
    method RemoveChildNode(n: XmlNode) returns (o: Outcome)
      requires Valid()
      modifies doc
      ensures Valid()
      ensures o.Pass? <==> n.doc == doc && ElementRef(n.node) in old(Kids())
      ensures o.Fail? ==> o.error == DomNotFound && unchanged(doc)
      ensures o.Pass? ==> Kids() == WithoutRef(old(Kids()), n.node) && ElementRef(n.node) !in Kids()
      ensures o.Pass? ==> doc.elems[node] == old(doc.elems[node]).(kids := Kids())
      ensures o.Pass? ==> doc.elems - {node} == old(doc.elems) - {node} && n.node !in doc.parent
      ensures doc.top == old(doc.top)
    {
      if n.doc != doc {
        return Fail(DomNotFound);
      }
      o := doc.RemoveChild(node, n.node);
      WithoutRefRemoves(old(Kids()), n.node);
    }

    /** getTextContent: the data of the first text child, or "" when there is none. */
    method GetTextContent() returns (s: string)
      requires Valid()
      ensures s == TextContent(Kids())
    {
      var kids := Kids();
      var i := 0;
      while i < |kids|
        invariant 0 <= i <= |kids|
        invariant TextContent(kids[i..]) == TextContent(kids)
      {
        if kids[i].Text? {
          return kids[i].data;
        }
        assert kids[i..][1..] == kids[i + 1..];
        i := i + 1;
      }
      return "";
    }

    /** hasTextContent: getTextContent never throws, so this is always true. */
    method HasTextContent() returns (b: bool)
      requires Valid()
      ensures b
    {
      var _ := GetTextContent();
      return true;
    }

    /** The index of the first text child, if there is one. */
    method FirstTextIndex() returns (r: Option<nat>)
      requires Valid()
      ensures r.Some? ==> r.value < |Kids()| && Kids()[r.value].Text?
      ensures r.Some? ==> forall j | 0 <= j < r.value :: !Kids()[j].Text?
      ensures r.None? <==> TextCount(Kids()) == 0
    {
      var kids := Kids();
      var i := 0;
      while i < |kids|
        invariant 0 <= i <= |kids|
        invariant forall j | 0 <= j < i :: !kids[j].Text?
        invariant TextCount(kids[i..]) == TextCount(kids)
      {
        if kids[i].Text? {
          assert TextCount(kids[i..]) > 0;
          return Some(i);
        }
        assert kids[i..][1..] == kids[i + 1..];
        i := i + 1;
      }
      return None;
    }

    /**
     * removeTextContent: takes out the first text child and starts again,
     * until there is none; the element children stay, in their order.
     */
    method RemoveTextContent()
      requires Valid()
      modifies doc
      ensures Valid()
      ensures Kids() == WithoutTexts(old(Kids()))
      ensures doc.elems[node] == old(doc.elems[node]).(kids := Kids())
      ensures doc.elems - {node} == old(doc.elems) - {node}
      ensures doc.parent == old(doc.parent) && doc.top == old(doc.top) && doc.next == old(doc.next)
    {
      var i: Option<nat> := FirstTextIndex();
      while i.Some?
        invariant Valid()
        invariant WithoutTexts(Kids()) == WithoutTexts(old(Kids()))
        invariant i.Some? ==> i.value < |Kids()| && Kids()[i.value].Text?
        invariant i.None? <==> TextCount(Kids()) == 0
        invariant doc.elems[node] == old(doc.elems[node]).(kids := Kids())
        invariant doc.elems - {node} == old(doc.elems) - {node}
        invariant doc.parent == old(doc.parent) && doc.top == old(doc.top) && doc.next == old(doc.next)
        decreases TextCount(Kids())
      {
        ghost var before, e0 := Kids(), doc.elems;
        RemoveOneText(before, i.value);
        doc.RemoveAt(node, i.value);
        assert Kids() == before[..i.value] + before[i.value + 1..];
        UpdateOutside(e0, node, doc.elems[node]);
        i := FirstTextIndex();
      }
      WithoutTextsNoText(Kids());
    }

    /**
     * setContent: refused with an XMLException when the element has an
     * element child; otherwise every text child is replaced by the one text
     * `content`.
     */
    method SetContent(content: string) returns (o: Outcome)
      requires Valid()
      modifies doc
      ensures Valid()
      ensures o.Fail? <==> ElementIds(old(Kids())) != []
      ensures o.Fail? ==> o.error == XmlException && unchanged(doc)
      ensures o.Pass? ==> Kids() == [Text(content)] && TextContent(Kids()) == content
      ensures o.Pass? ==> doc.elems[node] == old(doc.elems[node]).(kids := Kids())
      ensures o.Pass? ==> doc.elems - {node} == old(doc.elems) - {node}
      ensures doc.parent == old(doc.parent) && doc.top == old(doc.top)
    {
      var kids := Kids();
      var i := 0;
      while i < |kids|
        invariant 0 <= i <= |kids|
        invariant ElementIds(kids[i..]) == ElementIds(kids)
      {
        if kids[i].ElementRef? {
          return Fail(XmlException);
        }
        assert kids[i..][1..] == kids[i + 1..];
        i := i + 1;
      }
      RemoveTextContent();
      NoElementsLeavesNothing(kids);
      doc.AppendText(node, content);
      o := Pass;
    }

    /** setAttribute(name, String value). */
    method SetAttribute(name: string, value: string)
      requires Valid()
      modifies doc
      ensures Valid()
      ensures Attributes() == old(Attributes())[name := value]
      ensures doc.elems == old(doc.elems)[node := old(doc.elems[node]).(attrs := Attributes())]
      ensures doc.parent == old(doc.parent) && doc.top == old(doc.top)
    {
      doc.SetAttribute(node, name, value);
    }

    /** setAttribute(name, boolean value): stored as "true" or "false". */
    method SetBoolAttribute(name: string, value: bool)
      requires Valid()
      modifies doc
      ensures Valid()
      ensures Attributes() == old(Attributes())[name := FormatBool(value)]
      ensures GetBoolAttribute(Attributes(), name) == Success(value)
      ensures doc.elems == old(doc.elems)[node := old(doc.elems[node]).(attrs := Attributes())]
      ensures doc.parent == old(doc.parent) && doc.top == old(doc.top)
    {
      SetAttribute(name, FormatBool(value));
      SetThenGetBool(old(Attributes()), name, value);
    }

    /** setAttribute(name, Object o) for a boxed Integer or Long: stored as its toString. */
    method SetIntegerAttribute(name: string, value: int)
      requires Valid()
      modifies doc
      ensures Valid()
      ensures Attributes() == old(Attributes())[name := FormatInteger(value, 10)]
      ensures LONG_MIN <= value <= LONG_MAX ==> GetLongLongIntAttribute(Attributes(), name) == Success(value)
      ensures INT_MIN <= value <= INT_MAX ==> GetIntAttribute(Attributes(), name) == Success(value)
      ensures doc.elems == old(doc.elems)[node := old(doc.elems[node]).(attrs := Attributes())]
      ensures doc.parent == old(doc.parent) && doc.top == old(doc.top)
    {
      SetAttribute(name, FormatInteger(value, 10));
      if LONG_MIN <= value <= LONG_MAX {
        SetThenGetLong(old(Attributes()), name, value);
      }
      if INT_MIN <= value <= INT_MAX {
        SetThenGetInt(old(Attributes()), name, value);
      }
    }

    /** removeAttribute: removing a missing attribute is not an error. */
    method RemoveAttribute(name: string)
      requires Valid()
      modifies doc
      ensures Valid()
      ensures Attributes() == old(Attributes()) - {name}
      ensures !HasAttribute(Attributes(), name)
      ensures doc.elems == old(doc.elems)[node := old(doc.elems[node]).(attrs := Attributes())]
      ensures doc.parent == old(doc.parent) && doc.top == old(doc.top)
    {
      doc.RemoveAttribute(node, name);
    }

    /**
     * getParent: the parent element, or null when the parent is the
     * document itself (the root) or there is none (a detached element).
     */
    method GetParent() returns (p: XmlNode?)
      requires Valid()
      ensures p != null <==> node in doc.parent
      ensures p != null ==> fresh(p) && p.doc == doc && p.node == doc.parent[node]
      ensures p != null ==> p.Valid() && ElementRef(node) in p.Kids()
    {
      if node in doc.parent {
        p := new XmlNode(doc, doc.parent[node]);
      } else {
        p := null;
      }
    }

    /** children: an iterator over the element children, text skipped. */
    method Children() returns (it: ChildIterator)
      requires Valid()
      ensures fresh(it) && it.Valid() && it.owner == this
      ensures it.Remaining() == ElementIds(Kids())
    {
      it := new ChildIterator(this);
    }

    /** childCount: the number of elements children() yields. */
    method ChildCount() returns (c: nat)
      requires Valid()
      ensures c == |ElementIds(Kids())|
    {
      var it := Children();
      c := 0;
      var more := it.HasNext();
      while more
        invariant fresh(it) && it.Valid() && it.owner == this
        invariant more <==> it.Remaining() != []
        invariant c + |it.Remaining()| == |ElementIds(Kids())|
        decreases |it.Remaining()|
      {
        var _ := it.Next();
        c := c + 1;
        more := it.HasNext();
      }
    }

    /**
     * nodeEquals (isEqualNode): equal subtree values.  Equal nodes have the
     * same tag, attributes, text content and number of element children.
     */
    function NodeEquals(other: XmlNode): (b: bool)
      reads doc, other.doc
      requires Valid() && other.Valid()
      ensures b ==> doc.elems[node].tag == other.doc.elems[other.node].tag
      ensures b ==> Attributes() == other.Attributes()
      ensures b ==> TextContent(Kids()) == TextContent(other.Kids())
      ensures b ==> |ElementIds(Kids())| == |ElementIds(other.Kids())|
    {
      var b := Subtree() == other.Subtree();
      if b then
        EqualSubtreesAgree(doc.elems, doc.next, node, other.doc.elems, other.doc.next, other.node);
        b
      else b
    }
  }

  // ------------------------------------------------------------ the child iterator

  /**
   * ConstChildIterator: `next` is the element child that next() yields,
   * `at` its index in the owner's child list (the length of the list when
   * `next` is null).
   */
  class ChildIterator {
    const owner: XmlNode
    var next: XmlNode?
    var at: nat

    ghost predicate Valid()
      reads this, owner.doc
    {
      && owner.Valid()
      && at <= |owner.Kids()|
      && (next == null <==> at == |owner.Kids()|)
      && (next != null ==> next.doc == owner.doc && owner.Kids()[at] == ElementRef(next.node))
    }

    /** The elements still to be yielded, in document order. */
    ghost function Remaining(): seq<Id>
      reads this, owner.doc
      requires Valid()
    {
      ElementIds(owner.Kids()[at..])
    }

    constructor(owner: XmlNode)
      requires owner.Valid()
      ensures Valid() && this.owner == owner
      ensures Remaining() == ElementIds(owner.Kids())
    {
      this.owner := owner;
      var n, pos := NextElement(owner, 0);
      next, at := n, pos;
      assert owner.Kids()[0..] == owner.Kids();
    }

    /**
     * getNextNode: the first element child at or after index `from`, and its
     * index; null and the length of the list when there is none.
     */
    static method NextElement(owner: XmlNode, from: nat) returns (n: XmlNode?, pos: nat)
      requires owner.Valid() && from <= |owner.Kids()|
      ensures from <= pos <= |owner.Kids()|
      ensures n == null <==> pos == |owner.Kids()|
      ensures n != null ==> fresh(n) && n.doc == owner.doc && owner.Kids()[pos] == ElementRef(n.node)
      ensures ElementIds(owner.Kids()[from..]) == ElementIds(owner.Kids()[pos..])
    {
      var kids := owner.Kids();
      pos := from;
      while pos < |kids|
        invariant from <= pos <= |kids|
        invariant ElementIds(kids[from..]) == ElementIds(kids[pos..])
      {
        if kids[pos].ElementRef? {
          n := new XmlNode(owner.doc, kids[pos].id);
          return;
        }
        assert kids[pos..][1..] == kids[pos + 1..];
        pos := pos + 1;
      }
      n := null;
    }

    /** hasNext. */
    method HasNext() returns (b: bool)
      requires Valid()
      ensures b <==> Remaining() != []
    {
      b := next != null;
      if b {
        assert owner.Kids()[at..][0] == ElementRef(next.node);
      }
    }

    /**
     * next: yields the first remaining element and moves past it; on an
     * exhausted iterator it dereferences null.
     */
    method Next() returns (r: Result<XmlNode>)
      requires Valid()
      modifies this
      ensures Valid()
      ensures old(Remaining()) == [] ==> r == Failure(NullPointer) && unchanged(this)
      ensures old(Remaining()) != [] ==> r.Success? && r.value.doc == owner.doc
      ensures old(Remaining()) != [] ==> r.value.node == old(Remaining())[0] && Remaining() == old(Remaining())[1..]
    {
      if next == null {
        return Failure(NullPointer);
      }
      var kids := owner.Kids();
      assert kids[at..] == [kids[at]] + kids[at + 1..];
      var current := next;
      var n, pos := NextElement(owner, at + 1);
      next, at := n, pos;
      r := Success(current);
    }

    /** remove: not supported. */
    method Remove() returns (o: Outcome)
      ensures o == Fail(UnsupportedOperation)
    {
      o := Fail(UnsupportedOperation);
    }
  }
}
