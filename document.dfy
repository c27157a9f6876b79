/**
 * The document object: it owns a DOM tree and remembers the node view of
 * its root element, which can be installed only once.
 */
module Document {
  import opened Errors
  import opened Dom
  import opened Node

  class XmlDocument {
    const document: Dom
    var rootNode: XmlNode?

    /**
     * The remembered root is the one element child of the DOM document, and
     * without a remembered root the DOM document has no element child.
     */
    ghost predicate Valid()
      reads this, document
    {
      && document.Valid()
      && (rootNode == null ==> document.top == [])
      && (rootNode != null ==> rootNode.doc == document && rootNode.Valid() && document.top == [rootNode.node])
    }

    /** The empty document: no node at all, and no root. */
    constructor()
      ensures Valid() && fresh(document)
      ensures rootNode == null && document.elems == map[]
    {
      document := new Dom();
      rootNode := null;
    }

    /**
     * getRootNode: null exactly when the document has no element yet; the
     * root has no element parent.
     */
    method GetRootNode() returns (r: XmlNode?)
      requires Valid()
      ensures r == rootNode
      ensures r == null <==> document.top == []
      ensures r != null ==> r.Valid() && r.doc == document && document.top == [r.node]
      ensures r != null ==> r.node !in document.parent
    {
      r := rootNode;
    }

    /**
     * addRootNode: refused with an XMLException when a root exists, which
     * then stays as it was.  Otherwise a new element becomes the element
     * child of the document and the remembered root.  The element is always
     * named "root": the `name` argument is not used.
     */
    method AddRootNode(name: string) returns (r: Result<XmlNode>)
      requires Valid()
      modifies this, document
      ensures Valid()
      ensures old(rootNode) != null ==> r == Failure(XmlException) && rootNode == old(rootNode) && unchanged(document)
      ensures old(rootNode) == null ==> r.Success? && rootNode == r.value && fresh(r.value) && r.value.doc == document
      ensures old(rootNode) == null ==> r.value.node !in old(document.elems)
      ensures old(rootNode) == null ==> document.elems == old(document.elems)[r.value.node := Element("root", map[], [])]
      ensures old(rootNode) == null ==> document.top == [r.value.node] && document.parent == old(document.parent)
    {
      if rootNode != null {
        return Failure(XmlException);
      }
      var root := document.CreateElement("root", map[]);
      document.AppendToDocument(root);
      rootNode := new XmlNode(document, root);
      r := Success(rootNode);
    }
  }

  /**
   * Two addRootNode calls on one document: the second always fails, and
   * the root that remains is an element named "root" whatever names were
   * passed.
   */
  method AddRootNodeTwice(d: XmlDocument, first: string, second: string) returns (a: Result<XmlNode>, b: Result<XmlNode>)
    requires d.Valid()
    modifies d, d.document
    ensures d.Valid()
    ensures b == Failure(XmlException)
    ensures a.Success? ==> d.rootNode == a.value && d.document.elems[a.value.node].tag == "root"
    ensures a.Failure? ==> d.rootNode == old(d.rootNode)
  {
    a := d.AddRootNode(first);
    b := d.AddRootNode(second);
  }
}
