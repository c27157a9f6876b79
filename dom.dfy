/**
 * The DOM tree that an XML document owns, modelled as an arena: every
 * element has an id, a tag, an attribute map and an ordered list of
 * children, each child being an element (by id) or a text node.  The class
 * `Dom` holds the arena and offers the handful of DOM Level 2 Core calls
 * the node view is built on: createElement, createTextNode + appendChild,
 * appendChild, removeChild, setAttribute, removeAttribute and importNode.
 */
module Dom {
  import opened Errors

  /** Elements are named by their index in the arena. */
  type Id = nat

  /** One entry of an element's child list. */
  datatype Item = ElementRef(id: Id) | Text(data: string)

  datatype Element = Element(tag: string, attrs: map<string, string>, kids: seq<Item>)

  /** The value of a subtree: what DOM's isEqualNode compares. */
  datatype Tree = Tree(tag: string, attrs: map<string, string>, kids: seq<TreeItem>)
  datatype TreeItem = Branch(tree: Tree) | Chars(data: string)

  // ------------------------------------------------------------ child lists

  /** The element children, in document order, skipping text. */
  function ElementIds(kids: seq<Item>): seq<Id>
  {
    if kids == [] then []
    else (if kids[0].ElementRef? then [kids[0].id] else []) + ElementIds(kids[1..])
  }

  function TextCount(kids: seq<Item>): nat
  {
    if kids == [] then 0
    else (if kids[0].Text? then 1 else 0) + TextCount(kids[1..])
  }

  /** The child list with every text node taken out. */
  function WithoutTexts(kids: seq<Item>): seq<Item>
  {
    if kids == [] then []
    else (if kids[0].Text? then [] else [kids[0]]) + WithoutTexts(kids[1..])
  }

  /** The child list with the element `c` taken out. */
  function WithoutRef(kids: seq<Item>, c: Id): seq<Item>
  {
    if kids == [] then []
    else (if kids[0] == ElementRef(c) then [] else [kids[0]]) + WithoutRef(kids[1..], c)
  }

  /** The data of the first text child, or "" when there is none. */
  function TextContent(kids: seq<Item>): string
  {
    if kids == [] then ""
    else if kids[0].Text? then kids[0].data
    else TextContent(kids[1..])
  }

  /** No element occurs twice in one child list. */
  predicate NoDupRefs(kids: seq<Item>)
  {
    forall i, j | 0 <= i < j < |kids| :: kids[i].ElementRef? && kids[j].ElementRef? ==> kids[i].id != kids[j].id
  }

  lemma {:induction false} ElementIdsAppend(a: seq<Item>, b: seq<Item>)
    ensures ElementIds(a + b) == ElementIds(a) + ElementIds(b)
  {
    if a == [] {
      assert a + b == b;
    } else {
      var head := if a[0].ElementRef? then [a[0].id] else [];
      assert (a + b)[0] == a[0] && (a + b)[1..] == a[1..] + b;
      calc {
        ElementIds(a + b);
        head + ElementIds(a[1..] + b);
        { ElementIdsAppend(a[1..], b); }
        head + (ElementIds(a[1..]) + ElementIds(b));
        (head + ElementIds(a[1..])) + ElementIds(b);
      }
    }
  }

  lemma {:induction false} TextCountAppend(a: seq<Item>, b: seq<Item>)
    ensures TextCount(a + b) == TextCount(a) + TextCount(b)
  {
    if a == [] {
      assert a + b == b;
    } else {
      var head := if a[0].Text? then 1 else 0;
      assert (a + b)[0] == a[0] && (a + b)[1..] == a[1..] + b;
      calc {
        TextCount(a + b);
        head + TextCount(a[1..] + b);
        { TextCountAppend(a[1..], b); }
        head + TextCount(a[1..]) + TextCount(b);
      }
    }
  }

  lemma {:induction false} WithoutTextsAppend(a: seq<Item>, b: seq<Item>)
    ensures WithoutTexts(a + b) == WithoutTexts(a) + WithoutTexts(b)
  {
    if a == [] {
      assert a + b == b;
    } else {
      var head := if a[0].Text? then [] else [a[0]];
      assert (a + b)[0] == a[0] && (a + b)[1..] == a[1..] + b;
      calc {
        WithoutTexts(a + b);
        head + WithoutTexts(a[1..] + b);
        { WithoutTextsAppend(a[1..], b); }
        head + (WithoutTexts(a[1..]) + WithoutTexts(b));
        (head + WithoutTexts(a[1..])) + WithoutTexts(b);
      }
    }
  }

  /** Text content is found in the second half only when the first has none. */
  lemma {:induction false} TextContentAppend(a: seq<Item>, b: seq<Item>)
    ensures TextContent(a + b) == if TextCount(a) > 0 then TextContent(a) else TextContent(b)
  {
    if a == [] {
      assert a + b == b;
    } else {
      assert (a + b)[0] == a[0] && (a + b)[1..] == a[1..] + b;
      TextContentAppend(a[1..], b);
    }
  }

  lemma {:induction false} WithoutRefAppend(a: seq<Item>, b: seq<Item>, c: Id)
    ensures WithoutRef(a + b, c) == WithoutRef(a, c) + WithoutRef(b, c)
  {
    if a == [] {
      assert a + b == b;
    } else {
      var head := if a[0] == ElementRef(c) then [] else [a[0]];
      assert (a + b)[0] == a[0] && (a + b)[1..] == a[1..] + b;
      calc {
        WithoutRef(a + b, c);
        head + WithoutRef(a[1..] + b, c);
        { WithoutRefAppend(a[1..], b, c); }
        head + (WithoutRef(a[1..], c) + WithoutRef(b, c));
        (head + WithoutRef(a[1..], c)) + WithoutRef(b, c);
      }
    }
  }

  /**
   * Appending an element child makes it the last element children() yields;
   * the text children, and so the text content, stay as they were.
   */
  lemma AppendElementChild(kids: seq<Item>, c: Id)
    ensures ElementIds(kids + [ElementRef(c)]) == ElementIds(kids) + [c]
    ensures WithoutTexts(kids + [ElementRef(c)]) == WithoutTexts(kids) + [ElementRef(c)]
    ensures TextCount(kids + [ElementRef(c)]) == TextCount(kids)
    ensures TextContent(kids + [ElementRef(c)]) == TextContent(kids)
  {
    var one := [ElementRef(c)];
    assert one[1..] == [];
    ElementIdsAppend(kids, one);
    WithoutTextsAppend(kids, one);
    TextCountAppend(kids, one);
    TextContentAppend(kids, one);
    if TextCount(kids) == 0 {
      NoTextNoContent(kids);
    }
  }

  /** An element is among children() exactly when it is in the child list. */
  lemma {:induction false} ElementIdsMember(kids: seq<Item>, c: Id)
    ensures c in ElementIds(kids) <==> ElementRef(c) in kids
  {
    if kids != [] {
      ElementIdsMember(kids[1..], c);
      assert kids == [kids[0]] + kids[1..];
    }
  }

  /** Every child is an element or a text node: the two counts add up. */
  lemma {:induction false} CountsAddUp(kids: seq<Item>)
    ensures |ElementIds(kids)| + TextCount(kids) == |kids|
  {
    if kids != [] {
      CountsAddUp(kids[1..]);
    }
  }

  /**
   * Taking out the text nodes leaves exactly the element children, in their
   * original order, and nothing else.
   */
  lemma {:induction false} WithoutTextsIsElements(kids: seq<Item>)
    ensures |WithoutTexts(kids)| == |ElementIds(kids)|
    ensures forall i | 0 <= i < |WithoutTexts(kids)| :: WithoutTexts(kids)[i] == ElementRef(ElementIds(kids)[i])
    ensures TextCount(WithoutTexts(kids)) == 0
  {
    if kids != [] {
      var rest := kids[1..];
      WithoutTextsIsElements(rest);
      var head := if kids[0].Text? then [] else [kids[0]];
      TextCountAppend(head, WithoutTexts(rest));
      if kids[0].ElementRef? {
        forall i | 0 <= i < |WithoutTexts(kids)|
          ensures WithoutTexts(kids)[i] == ElementRef(ElementIds(kids)[i])
        {
          if i > 0 {
            assert WithoutTexts(kids)[i] == WithoutTexts(rest)[i - 1];
            assert ElementIds(kids)[i] == ElementIds(rest)[i - 1];
          }
        }
      }
    }
  }

  /** A list with no text node is left as it is. */
  lemma {:induction false} WithoutTextsNoText(kids: seq<Item>)
    requires TextCount(kids) == 0
    ensures WithoutTexts(kids) == kids
  {
    if kids != [] {
      WithoutTextsNoText(kids[1..]);
    }
  }

  /** The text content is the data of the first text child. */
  lemma {:induction false} FirstTextIsContent(kids: seq<Item>, i: nat)
    requires i < |kids| && kids[i].Text?
    requires forall j | 0 <= j < i :: !kids[j].Text?
    ensures TextContent(kids) == kids[i].data
  {
    if i > 0 {
      FirstTextIsContent(kids[1..], i - 1);
    }
  }

  /** Without a text child the text content is empty. */
  lemma {:induction false} NoTextNoContent(kids: seq<Item>)
    requires TextCount(kids) == 0
    ensures TextContent(kids) == ""
  {
    if kids != [] {
      NoTextNoContent(kids[1..]);
    }
  }

  /** Removing text content twice is the same as removing it once. */
  lemma WithoutTextsIdempotent(kids: seq<Item>)
    ensures WithoutTexts(WithoutTexts(kids)) == WithoutTexts(kids)
  {
    WithoutTextsIsElements(kids);
    WithoutTextsNoText(WithoutTexts(kids));
  }

  /** A list without element children holds nothing once its text is removed. */
  lemma NoElementsLeavesNothing(kids: seq<Item>)
    requires ElementIds(kids) == []
    ensures WithoutTexts(kids) == []
  {
    WithoutTextsIsElements(kids);
  }

  /** WithoutRef leaves no reference to `c` and keeps every other child, in order. */
  lemma {:induction false} WithoutRefRemoves(kids: seq<Item>, c: Id)
    ensures ElementRef(c) !in WithoutRef(kids, c)
    ensures forall it | it in kids && it != ElementRef(c) :: it in WithoutRef(kids, c)
  {
    if kids != [] {
      WithoutRefRemoves(kids[1..], c);
      assert forall it | it in kids && it != kids[0] :: it in kids[1..];
    }
  }

  /** Removing one text node leaves the other children alone and one text node fewer. */
  lemma {:induction false} RemoveOneText(kids: seq<Item>, i: nat)
    requires i < |kids| && kids[i].Text?
    ensures WithoutTexts(kids[..i] + kids[i + 1..]) == WithoutTexts(kids)
    ensures TextCount(kids[..i] + kids[i + 1..]) == TextCount(kids) - 1
    ensures ElementIds(kids[..i] + kids[i + 1..]) == ElementIds(kids)
  {
    var rest := kids[..i] + kids[i + 1..];
    if i == 0 {
      assert rest == kids[1..];
    } else {
      assert rest[0] == kids[0];
      assert rest[1..] == kids[1..][..i - 1] + kids[1..][i..];
      RemoveOneText(kids[1..], i - 1);
    }
  }

  lemma {:induction false} WithoutAbsentRef(kids: seq<Item>, c: Id)
    requires ElementRef(c) !in kids
    ensures WithoutRef(kids, c) == kids
  {
    if kids != [] {
      WithoutAbsentRef(kids[1..], c);
    }
  }

  /** In a list that names each element once, the element at `i` is named nowhere else. */
  lemma RefOnlyAt(kids: seq<Item>, i: nat)
    requires NoDupRefs(kids) && i < |kids| && kids[i].ElementRef?
    ensures ElementRef(kids[i].id) !in kids[..i]
    ensures ElementRef(kids[i].id) !in kids[i + 1..]
  {
    var c := kids[i].id;
    var before, after := kids[..i], kids[i + 1..];
    forall j | 0 <= j < |before| ensures before[j] != ElementRef(c) {
      assert before[j] == kids[j];
    }
    forall j | 0 <= j < |after| ensures after[j] != ElementRef(c) {
      assert after[j] == kids[i + 1 + j];
    }
  }

  /** Taking out the one reference to c between two lists that do not name c. */
  lemma WithoutRefBetween(before: seq<Item>, after: seq<Item>, c: Id)
    requires ElementRef(c) !in before && ElementRef(c) !in after
    ensures WithoutRef(before + ([ElementRef(c)] + after), c) == before + after
    ensures ElementRef(c) !in before + after
  {
    var one := [ElementRef(c)];
    assert WithoutRef(one, c) == [] by {
      assert one[1..] == [];
    }
    WithoutAbsentRef(before, c);
    WithoutAbsentRef(after, c);
    WithoutRefAppend(one, after, c);
    assert WithoutRef(one + after, c) == after;
    WithoutRefAppend(before, one + after, c);
  }

  /** A list is what comes before position i, the item at i, and what comes after. */
  lemma SplitAt(kids: seq<Item>, i: nat)
    requires i < |kids|
    ensures kids == kids[..i] + ([kids[i]] + kids[i + 1..])
  {
    assert kids == kids[..i] + kids[i..];
    assert kids[i..] == [kids[i]] + kids[i + 1..];
  }

  /**
   * Removing the child at i, where the element c sits, is taking c out of the
   * list: every other child stays, in the same order.
   */
  lemma RemoveRefAt(kids: seq<Item>, i: nat)
    requires NoDupRefs(kids) && i < |kids| && kids[i].ElementRef?
    ensures kids[..i] + kids[i + 1..] == WithoutRef(kids, kids[i].id)
    ensures ElementRef(kids[i].id) !in kids[..i] + kids[i + 1..]
  {
    var c := kids[i].id;
    var before, after := kids[..i], kids[i + 1..];
    RefOnlyAt(kids, i);
    SplitAt(kids, i);
    WithoutRefBetween(before, after, c);
  }

  // ------------------------------------------------------------ the arena

  /** Every element child named in `kids` exists and has a larger id than `p`. */
  ghost predicate RefsAbove(elems: map<Id, Element>, p: Id, kids: seq<Item>)
  {
    forall i | 0 <= i < |kids| && kids[i].ElementRef? :: kids[i].id in elems && p < kids[i].id
  }

  /**
   * Ids are below `next`, and every element's children were created after it.
   * The node view only ever attaches newly created or newly imported
   * elements, so this holds of every tree it builds; it is what makes the
   * subtree of an element a finite value.
   */
  ghost predicate Ordered(elems: map<Id, Element>, next: Id)
  {
    forall p | p in elems :: p < next && RefsAbove(elems, p, elems[p].kids)
  }

  /** `parent` records `p` for every element child of `p`. */
  ghost predicate ChildrenLinked(parent: map<Id, Id>, p: Id, kids: seq<Item>)
  {
    forall i | 0 <= i < |kids| && kids[i].ElementRef? :: kids[i].id in parent && parent[kids[i].id] == p
  }

  /**
   * The parent map and the child lists describe the same edges, no child list
   * names an element twice, and the document's own children have no element
   * parent.
   */
  ghost predicate Linked(elems: map<Id, Element>, parent: map<Id, Id>, top: seq<Id>)
  {
    && (forall p | p in elems :: ChildrenLinked(parent, p, elems[p].kids) && NoDupRefs(elems[p].kids))
    && (forall c | c in parent :: parent[c] in elems && ElementRef(c) in elems[parent[c]].kids)
    && (forall r | r in top :: r in elems && r !in parent)
  }

  /** `m2` keeps every entry of `m1` and adds keys from `lo` upwards only. */
  ghost predicate Extends<V>(m1: map<Id, V>, m2: map<Id, V>, lo: Id)
  {
    && (forall k | k in m1 :: k in m2 && m2[k] == m1[k])
    && (forall k | k in m2 && k !in m1 :: lo <= k)
  }

  /** The value of the subtree rooted at `id`. */
  function SubtreeOf(elems: map<Id, Element>, next: Id, id: Id): Tree
    requires Ordered(elems, next) && id in elems
    decreases next - id, 1
  {
    Tree(elems[id].tag, elems[id].attrs, ItemsOf(elems, next, id, elems[id].kids))
  }

  /** The values of the children `kids` of element `p`. */
  function ItemsOf(elems: map<Id, Element>, next: Id, p: Id, kids: seq<Item>): seq<TreeItem>
    requires Ordered(elems, next) && RefsAbove(elems, p, kids)
    decreases next - p, 0, |kids|
  {
    if kids == [] then []
    else
      var head := match kids[0]
        case Text(s) => Chars(s)
        case ElementRef(c) => Branch(SubtreeOf(elems, next, c));
      [head] + ItemsOf(elems, next, p, kids[1..])
  }

  /** A subtree depends only on the elements from its root id upwards. */
  lemma {:induction false} SubtreeFrame(e1: map<Id, Element>, n1: Id, e2: map<Id, Element>, n2: Id, id: Id)
    requires Ordered(e1, n1) && Ordered(e2, n2) && id in e1
    requires forall k | k in e1 && id <= k :: k in e2 && e2[k] == e1[k]
    ensures id in e2 && SubtreeOf(e2, n2, id) == SubtreeOf(e1, n1, id)
    decreases n1 - id, 1
  {
    ItemsFrame(e1, n1, e2, n2, id, e1[id].kids);
  }

  lemma {:induction false} ItemsFrame(e1: map<Id, Element>, n1: Id, e2: map<Id, Element>, n2: Id, p: Id, kids: seq<Item>)
    requires Ordered(e1, n1) && Ordered(e2, n2) && RefsAbove(e1, p, kids)
    requires forall k | k in e1 && p < k :: k in e2 && e2[k] == e1[k]
    ensures RefsAbove(e2, p, kids)
    ensures ItemsOf(e2, n2, p, kids) == ItemsOf(e1, n1, p, kids)
    decreases n1 - p, 0, |kids|
  {
    if kids != [] {
      if kids[0].ElementRef? {
        SubtreeFrame(e1, n1, e2, n2, kids[0].id);
      }
      ItemsFrame(e1, n1, e2, n2, p, kids[1..]);
    }
  }

  lemma RefsAboveAppend(elems: map<Id, Element>, p: Id, a: seq<Item>, b: seq<Item>)
    requires RefsAbove(elems, p, a) && RefsAbove(elems, p, b)
    ensures RefsAbove(elems, p, a + b)
  {
    var ab := a + b;
    forall i | 0 <= i < |ab| ensures ab[i] == if i < |a| then a[i] else b[i - |a|] { }
  }

  lemma {:induction false} ItemsAppend(elems: map<Id, Element>, next: Id, p: Id, a: seq<Item>, b: seq<Item>)
    requires Ordered(elems, next) && RefsAbove(elems, p, a) && RefsAbove(elems, p, b)
    ensures RefsAbove(elems, p, a + b)
    ensures ItemsOf(elems, next, p, a + b) == ItemsOf(elems, next, p, a) + ItemsOf(elems, next, p, b)
    decreases |a|
  {
    RefsAboveAppend(elems, p, a, b);
    if a == [] {
      assert a + b == b;
    } else {
      var a', ab' := a[1..], (a + b)[1..];
      assert (a + b)[0] == a[0] && ab' == a' + b;
      assert RefsAbove(elems, p, a') by {
        forall i | 0 <= i < |a'| ensures a'[i] == a[i + 1] { }
      }
      ItemsAppend(elems, next, p, a', b);
      var head := match a[0]
        case Text(s) => Chars(s)
        case ElementRef(c) => Branch(SubtreeOf(elems, next, c));
      calc {
        ItemsOf(elems, next, p, a + b);
        [head] + ItemsOf(elems, next, p, a[1..] + b);
        [head] + (ItemsOf(elems, next, p, a[1..]) + ItemsOf(elems, next, p, b));
        ([head] + ItemsOf(elems, next, p, a[1..])) + ItemsOf(elems, next, p, b);
      }
    }
  }

  /** No child list names `c` when `c` has no element parent. */
  lemma UnreferencedOrphan(elems: map<Id, Element>, parent: map<Id, Id>, top: seq<Id>, c: Id)
    requires Linked(elems, parent, top) && c !in parent
    ensures forall q | q in elems :: ElementRef(c) !in elems[q].kids
  {
  }

  /** The element `p` with `it` appended to its children. */
  function WithChild(elems: map<Id, Element>, p: Id, it: Item): map<Id, Element>
    requires p in elems
  {
    elems[p := elems[p].(kids := elems[p].kids + [it])]
  }

  lemma AppendChildOrdered(elems: map<Id, Element>, next: Id, p: Id, c: Id)
    requires Ordered(elems, next) && p in elems && c in elems && p < c
    ensures Ordered(WithChild(elems, p, ElementRef(c)), next)
  {
    var e := WithChild(elems, p, ElementRef(c));
    forall q | q in e ensures q < next && RefsAbove(e, q, e[q].kids) {
      assert RefsAbove(elems, q, elems[q].kids);
    }
  }

  lemma AppendChildLinked(elems: map<Id, Element>, parent: map<Id, Id>, top: seq<Id>, p: Id, c: Id)
    requires Linked(elems, parent, top) && p in elems && c in elems && c !in parent && c !in top
    ensures Linked(WithChild(elems, p, ElementRef(c)), parent[c := p], top)
  {
    UnreferencedOrphan(elems, parent, top, c);
    var e := WithChild(elems, p, ElementRef(c));
    var pa := parent[c := p];
    forall q | q in e ensures ChildrenLinked(pa, q, e[q].kids) && NoDupRefs(e[q].kids) {
      assert ChildrenLinked(parent, q, elems[q].kids) && NoDupRefs(elems[q].kids);
      if q == p {
        assert ElementRef(c) !in elems[p].kids;
        assert e[q].kids == elems[p].kids + [ElementRef(c)];
      }
    }
    forall k | k in pa ensures pa[k] in e && ElementRef(k) in e[pa[k]].kids {
      if k != c {
        assert ElementRef(k) in elems[parent[k]].kids;
      } else {
        assert e[p].kids[|e[p].kids| - 1] == ElementRef(c);
      }
    }
  }

  lemma AppendTextOrdered(elems: map<Id, Element>, next: Id, p: Id, s: string)
    requires Ordered(elems, next) && p in elems
    ensures Ordered(WithChild(elems, p, Text(s)), next)
  {
    var e := WithChild(elems, p, Text(s));
    forall q | q in e ensures q < next && RefsAbove(e, q, e[q].kids) {
      assert RefsAbove(elems, q, elems[q].kids);
    }
  }

  lemma AppendTextLinked(elems: map<Id, Element>, parent: map<Id, Id>, top: seq<Id>, p: Id, s: string)
    requires Linked(elems, parent, top) && p in elems
    ensures Linked(WithChild(elems, p, Text(s)), parent, top)
  {
    var e := WithChild(elems, p, Text(s));
    forall q | q in e ensures ChildrenLinked(parent, q, e[q].kids) && NoDupRefs(e[q].kids) {
      assert ChildrenLinked(parent, q, elems[q].kids) && NoDupRefs(elems[q].kids);
    }
    forall k | k in parent ensures parent[k] in e && ElementRef(k) in e[parent[k]].kids {
      assert ElementRef(k) in elems[parent[k]].kids;
    }
  }

  /** The element `p` with its child at index `i` taken out. */
  function WithoutChildAt(elems: map<Id, Element>, p: Id, i: nat): map<Id, Element>
    requires p in elems && i < |elems[p].kids|
  {
    elems[p := elems[p].(kids := elems[p].kids[..i] + elems[p].kids[i + 1..])]
  }

  /** The parent map once the child `it` has been taken out of its parent's list. */
  function Detach(parent: map<Id, Id>, it: Item): map<Id, Id>
  {
    if it.ElementRef? then parent - {it.id} else parent
  }

  lemma RemoveAtOrdered(elems: map<Id, Element>, next: Id, p: Id, i: nat)
    requires Ordered(elems, next) && p in elems && i < |elems[p].kids|
    ensures Ordered(WithoutChildAt(elems, p, i), next)
  {
    var e := WithoutChildAt(elems, p, i);
    var kids := elems[p].kids;
    forall q | q in e ensures q < next && RefsAbove(e, q, e[q].kids) {
      assert RefsAbove(elems, q, elems[q].kids);
      if q == p {
        forall j | 0 <= j < |e[q].kids| ensures e[q].kids[j] == kids[if j < i then j else j + 1] {
        }
      }
    }
  }

  lemma RemoveAtLinked(elems: map<Id, Element>, parent: map<Id, Id>, top: seq<Id>, p: Id, i: nat)
    requires Linked(elems, parent, top) && p in elems && i < |elems[p].kids|
    ensures Linked(WithoutChildAt(elems, p, i), Detach(parent, elems[p].kids[i]), top)
  {
    var e := WithoutChildAt(elems, p, i);
    var pa := Detach(parent, elems[p].kids[i]);
    RemoveAtChildLists(elems, parent, top, p, i);
    RemoveAtParents(elems, parent, top, p, i);
    assert forall r | r in top :: r in e && r !in pa;
  }

  /** Taking out the child at i keeps every child list linked and free of repeats. */
  lemma RemoveAtChildLists(elems: map<Id, Element>, parent: map<Id, Id>, top: seq<Id>, p: Id, i: nat)
    requires Linked(elems, parent, top) && p in elems && i < |elems[p].kids|
    ensures forall q | q in WithoutChildAt(elems, p, i) ::
      && ChildrenLinked(Detach(parent, elems[p].kids[i]), q, WithoutChildAt(elems, p, i)[q].kids)
      && NoDupRefs(WithoutChildAt(elems, p, i)[q].kids)
  {
    var kids := elems[p].kids;
    var e := WithoutChildAt(elems, p, i);
    var pa := Detach(parent, kids[i]);
    assert ChildrenLinked(parent, p, kids) && NoDupRefs(kids);
    RestLinked(parent, p, kids, i);
    forall q | q in e && q != p ensures ChildrenLinked(pa, q, e[q].kids) && NoDupRefs(e[q].kids) {
      assert ChildrenLinked(parent, q, elems[q].kids) && NoDupRefs(elems[q].kids);
    }
  }

  /** The list of `p` without its child at i is linked to the parent map without that child. */
  lemma RestLinked(parent: map<Id, Id>, p: Id, kids: seq<Item>, i: nat)
    requires ChildrenLinked(parent, p, kids) && NoDupRefs(kids) && i < |kids|
    ensures ChildrenLinked(Detach(parent, kids[i]), p, kids[..i] + kids[i + 1..])
    ensures NoDupRefs(kids[..i] + kids[i + 1..])
  {
    var rest := kids[..i] + kids[i + 1..];
    forall j | 0 <= j < |rest| ensures rest[j] == kids[if j < i then j else j + 1] {
    }
    if kids[i].ElementRef? {
      RemoveRefAt(kids, i);
    }
  }

  /** After taking out the child at i, every remaining parent entry still names a real edge. */
  lemma RemoveAtParents(elems: map<Id, Element>, parent: map<Id, Id>, top: seq<Id>, p: Id, i: nat)
    requires Linked(elems, parent, top) && p in elems && i < |elems[p].kids|
    ensures forall k | k in Detach(parent, elems[p].kids[i]) ::
      && Detach(parent, elems[p].kids[i])[k] in WithoutChildAt(elems, p, i)
      && ElementRef(k) in WithoutChildAt(elems, p, i)[Detach(parent, elems[p].kids[i])[k]].kids
  {
    var kids := elems[p].kids;
    var rest := kids[..i] + kids[i + 1..];
    var e := WithoutChildAt(elems, p, i);
    var pa := Detach(parent, kids[i]);
    forall k | k in pa ensures pa[k] in e && ElementRef(k) in e[pa[k]].kids {
      assert ElementRef(k) in elems[parent[k]].kids;
      if parent[k] == p {
        var j :| 0 <= j < |kids| && kids[j] == ElementRef(k);
        assert j != i;
        if j < i {
          assert rest[j] == ElementRef(k);
        } else {
          assert rest[j - 1] == ElementRef(k);
        }
      }
    }
  }

  /** Appending `it` to the children of `r` adds the value of `it` to the end of `r`'s subtree. */
  lemma SubtreeOfAppended(e0: map<Id, Element>, n0: Id, e1: map<Id, Element>, n1: Id, r: Id, it: Item)
    requires Ordered(e0, n0) && Ordered(e1, n1) && r in e0 && r in e1
    requires e1[r] == e0[r].(kids := e0[r].kids + [it])
    requires forall k | k in e0 && r < k :: k in e1 && e1[k] == e0[k]
    ensures RefsAbove(e1, r, [it])
    ensures SubtreeOf(e1, n1, r) == Tree(e0[r].tag, e0[r].attrs, ItemsOf(e0, n0, r, e0[r].kids) + ItemsOf(e1, n1, r, [it]))
  {
    assert RefsAbove(e1, r, e1[r].kids);
    assert e1[r].kids[|e1[r].kids| - 1] == it;
    ItemsFrame(e0, n0, e1, n1, r, e0[r].kids);
    ItemsAppend(e1, n1, r, e0[r].kids, [it]);
  }

  /** Updating the entry of `k` leaves the map outside `k` as it was. */
  lemma UpdateOutside<V>(m: map<Id, V>, k: Id, v: V)
    ensures m[k := v] - {k} == m - {k}
  {
  }

  /** Adding a key from `lo` upwards keeps an extension an extension. */
  lemma ExtendsWith<V>(m1: map<Id, V>, m2: map<Id, V>, lo: Id, k: Id, v: V)
    requires Extends(m1, m2, lo) && k !in m2 && lo <= k
    ensures Extends(m1, m2[k := v], lo)
  {
  }

  /**
   * `e1` keeps every element of `e0` but `r`, which keeps its tag and
   * attributes; the elements it adds have ids from `lo` upwards.
   */
  ghost predicate Grown(e0: map<Id, Element>, lo: Id, e1: map<Id, Element>, r: Id)
  {
    && r in e0 && r in e1 && e1[r] == e0[r].(kids := e1[r].kids)
    && (forall k | k in e0 && k != r :: k in e1 && e1[k] == e0[k])
    && (forall k | k in e1 && k !in e0 :: lo <= k)
  }

  /** Extending an extension, from a higher bound on, is extending the original. */
  lemma ExtendsTrans<V>(m0: map<Id, V>, m1: map<Id, V>, m2: map<Id, V>, lo0: Id, lo1: Id)
    requires Extends(m0, m1, lo0) && Extends(m1, m2, lo1) && lo0 <= lo1
    ensures Extends(m0, m2, lo0)
  {
  }

  /** Growing `r`, an element added by an extension, keeps the extension one. */
  lemma GrownExtends(e0: map<Id, Element>, lo0: Id, e1: map<Id, Element>, lo1: Id, e2: map<Id, Element>, r: Id)
    requires Extends(e0, e1, lo0) && Grown(e1, lo1, e2, r) && r !in e0 && lo0 <= lo1
    ensures Extends(e0, e2, lo0)
  {
  }

  /**
   * Appending to `r` a reference to the element `c`, built on top of `e0`
   * with the subtree `sub`, appends `sub` to the subtree of `r` and leaves
   * every other element of `e0` as it was.
   */
  lemma BranchAppended(e0: map<Id, Element>, n0: Id, e1: map<Id, Element>, n1: Id, r: Id, c: Id, sub: Tree)
    requires Ordered(e0, n0) && Ordered(e1, n1) && r in e0 && c in e1 && r < c
    requires Extends(e0, e1, n0) && SubtreeOf(e1, n1, c) == sub
    ensures Ordered(WithChild(e1, r, ElementRef(c)), n1)
    ensures RefsAbove(WithChild(e1, r, ElementRef(c)), r, WithChild(e1, r, ElementRef(c))[r].kids)
    ensures ItemsOf(WithChild(e1, r, ElementRef(c)), n1, r, WithChild(e1, r, ElementRef(c))[r].kids)
         == ItemsOf(e0, n0, r, e0[r].kids) + [Branch(sub)]
    ensures Grown(e0, n0, WithChild(e1, r, ElementRef(c)), r)
  {
    AppendChildOrdered(e1, n1, r, c);
    var e2 := WithChild(e1, r, ElementRef(c));
    assert e2[r] == e0[r].(kids := e0[r].kids + [ElementRef(c)]);
    SubtreeOfAppended(e0, n0, e2, n1, r, ElementRef(c));
    SubtreeFrame(e1, n1, e2, n1, c);
    assert ItemsOf(e2, n1, r, [ElementRef(c)]) == [Branch(sub)] by {
      assert [ElementRef(c)][1..] == [];
    }
  }

  /** The data of the first text item of a subtree value, or "". */
  function TreeText(items: seq<TreeItem>): string
  {
    if items == [] then ""
    else if items[0].Chars? then items[0].data
    else TreeText(items[1..])
  }

  /** The number of element items of a subtree value. */
  function BranchCount(items: seq<TreeItem>): nat
  {
    if items == [] then 0
    else (if items[0].Branch? then 1 else 0) + BranchCount(items[1..])
  }

  /** The value of a child list keeps its first text. */
  lemma {:induction false} ItemsOfText(elems: map<Id, Element>, next: Id, p: Id, kids: seq<Item>)
    requires Ordered(elems, next) && RefsAbove(elems, p, kids)
    ensures TreeText(ItemsOf(elems, next, p, kids)) == TextContent(kids)
    decreases |kids|
  {
    if kids != [] {
      ItemsOfText(elems, next, p, kids[1..]);
    }
  }

  /** The value of a child list keeps its number of element children. */
  lemma {:induction false} ItemsOfBranches(elems: map<Id, Element>, next: Id, p: Id, kids: seq<Item>)
    requires Ordered(elems, next) && RefsAbove(elems, p, kids)
    ensures BranchCount(ItemsOf(elems, next, p, kids)) == |ElementIds(kids)|
    decreases |kids|
  {
    if kids != [] {
      ItemsOfBranches(elems, next, p, kids[1..]);
    }
  }

  /**
   * Two elements with equal subtree values (isEqualNode) have the same tag,
   * the same attributes, the same text content and the same number of
   * element children.
   */
  lemma EqualSubtreesAgree(e1: map<Id, Element>, n1: Id, a: Id, e2: map<Id, Element>, n2: Id, b: Id)
    requires Ordered(e1, n1) && a in e1 && Ordered(e2, n2) && b in e2
    requires SubtreeOf(e1, n1, a) == SubtreeOf(e2, n2, b)
    ensures e1[a].tag == e2[b].tag && e1[a].attrs == e2[b].attrs
    ensures TextContent(e1[a].kids) == TextContent(e2[b].kids)
    ensures |ElementIds(e1[a].kids)| == |ElementIds(e2[b].kids)|
  {
    ItemsOfText(e1, n1, a, e1[a].kids);
    ItemsOfText(e2, n2, b, e2[b].kids);
    ItemsOfBranches(e1, n1, a, e1[a].kids);
    ItemsOfBranches(e2, n2, b, e2[b].kids);
  }

  // ------------------------------------------------------------ the document's arena

  /**
   * The nodes of one DOM document.  `parent` holds the parentNode of every
   * element whose parent is an element; `top` lists the element children of
   * the Document node itself (at most the one root element).  Elements are
   * never deleted from the arena: removeChild only detaches them.
   */
  class Dom {
    var elems: map<Id, Element>
    var parent: map<Id, Id>
    var top: seq<Id>
    var next: Id

    ghost predicate Valid()
      reads this
    {
      Ordered(elems, next) && Linked(elems, parent, top)
    }

    /** An element in no child list: just created, just imported, or removed. */
    ghost predicate Detached(c: Id)
      reads this
    {
      c in elems && c !in parent && c !in top
    }

    /** DocumentBuilder.newDocument: a document without any node. */
    constructor()
      ensures Valid()
      ensures elems == map[] && parent == map[] && top == []
    {
      elems, parent, top, next := map[], map[], [], 0;
    }

    /** The value of the subtree rooted at `id`. */
    function Subtree(id: Id): Tree
      reads this
      requires Valid() && id in elems
    {
      SubtreeOf(elems, next, id)
    }

    /** createElement: a new element, in no child list yet. */
    method CreateElement(tag: string, attrs: map<string, string>) returns (id: Id)
      requires Valid()
      modifies this
      ensures Valid() && Detached(id)
      ensures id !in old(elems) && id == old(next) && next == old(next) + 1
      ensures elems == old(elems)[id := Element(tag, attrs, [])]
      ensures parent == old(parent) && top == old(top)
    {
      id := next;
      elems := elems[id := Element(tag, attrs, [])];
      next := next + 1;
    }

    /** appendChild of a detached element `c` to the element `p`. */
    method AppendChild(p: Id, c: Id)
      requires Valid() && p in elems && Detached(c) && p < c
      modifies this
      ensures Valid()
      ensures elems == WithChild(old(elems), p, ElementRef(c))
      ensures parent == old(parent)[c := p]
      ensures top == old(top) && next == old(next)
    {
      AppendChildOrdered(elems, next, p, c);
      AppendChildLinked(elems, parent, top, p, c);
      elems := WithChild(elems, p, ElementRef(c));
      parent := parent[c := p];
    }

    /** createTextNode(s) followed by appendChild to the element `p`. */
    method AppendText(p: Id, s: string)
      requires Valid() && p in elems
      modifies this
      ensures Valid()
      ensures elems == WithChild(old(elems), p, Text(s))
      ensures parent == old(parent) && top == old(top) && next == old(next)
    {
      AppendTextOrdered(elems, next, p, s);
      AppendTextLinked(elems, parent, top, p, s);
      elems := WithChild(elems, p, Text(s));
    }

    /** Removes the child at index `i` of the element `p` (Node.removeChild on that child). */
    method RemoveAt(p: Id, i: nat)
      requires Valid() && p in elems && i < |elems[p].kids|
      modifies this
      ensures Valid()
      ensures elems == WithoutChildAt(old(elems), p, i)
      ensures parent == Detach(old(parent), old(elems)[p].kids[i])
      ensures top == old(top) && next == old(next)
    {
      RemoveAtOrdered(elems, next, p, i);
      RemoveAtLinked(elems, parent, top, p, i);
      parent := Detach(parent, elems[p].kids[i]);
      elems := WithoutChildAt(elems, p, i);
    }

    /** The position of the element child `c` among the children of `p`. */
    method IndexOfChild(p: Id, c: Id) returns (i: nat)
      requires Valid() && p in elems && ElementRef(c) in elems[p].kids
      ensures i < |elems[p].kids| && elems[p].kids[i] == ElementRef(c)
    {
      var kids := elems[p].kids;
      i := 0;
      while kids[i] != ElementRef(c)
        invariant i < |kids| && ElementRef(c) in kids[i..]
        decreases |kids| - i
      {
        assert kids[i..] == [kids[i]] + kids[i + 1..];
        i := i + 1;
      }
    }

    /**
     * Node.removeChild: NOT_FOUND_ERR unless `c` is a child of `p`; otherwise
     * `c` leaves the child list of `p`, which keeps the others in order, and
     * becomes detached.
     */
    method RemoveChild(p: Id, c: Id) returns (o: Outcome)
      requires Valid() && p in elems
      modifies this
      ensures Valid()
      ensures o.Pass? <==> ElementRef(c) in old(elems)[p].kids
      ensures o.Fail? ==> o.error == DomNotFound && unchanged(this)
      ensures o.Pass? ==> elems == old(elems)[p := old(elems)[p].(kids := WithoutRef(old(elems)[p].kids, c))]
      ensures o.Pass? ==> parent == old(parent) - {c} && Detached(c)
      ensures top == old(top) && next == old(next)
    {
      if c !in parent || parent[c] != p {
        assert ChildrenLinked(parent, p, elems[p].kids);
        return Fail(DomNotFound);
      }
      var i := IndexOfChild(p, c);
      assert NoDupRefs(elems[p].kids);
      RemoveRefAt(elems[p].kids, i);
      RemoveAt(p, i);
      o := Pass;
    }

    /** Element.setAttribute: adds the attribute or replaces its value. */
    method SetAttribute(p: Id, name: string, value: string)
      requires Valid() && p in elems
      modifies this
      ensures Valid()
      ensures elems == old(elems)[p := old(elems)[p].(attrs := old(elems)[p].attrs[name := value])]
      ensures parent == old(parent) && top == old(top) && next == old(next)
    {
      elems := elems[p := elems[p].(attrs := elems[p].attrs[name := value])];
    }

    /** Element.removeAttribute: a missing attribute is not an error. */
    method RemoveAttribute(p: Id, name: string)
      requires Valid() && p in elems
      modifies this
      ensures Valid()
      ensures elems == old(elems)[p := old(elems)[p].(attrs := old(elems)[p].attrs - {name})]
      ensures parent == old(parent) && top == old(top) && next == old(next)
    {
      elems := elems[p := elems[p].(attrs := elems[p].attrs - {name})];
    }

    /** Document.appendChild of a detached element to a document that has no element yet. */
    method AppendToDocument(c: Id)
      requires Valid() && Detached(c) && top == []
      modifies this
      ensures Valid()
      ensures top == [c]
      ensures elems == old(elems) && parent == old(parent) && next == old(next)
    {
      top := [c];
    }

    /** Builds `t` out of new elements; the result is detached. */
    method Plant(t: Tree) returns (r: Id)
      requires Valid()
      modifies this
      ensures Valid() && Detached(r)
      ensures r == old(next) && old(next) < next
      ensures Extends(old(elems), elems, old(next)) && Extends(old(parent), parent, old(next))
      ensures top == old(top)
      ensures Subtree(r) == t
      decreases t, 0
    {
      r := CreateElement(t.tag, t.attrs);
      assert ItemsOf(elems, next, r, elems[r].kids) == [];
      var i := 0;
      while i < |t.kids|
        invariant 0 <= i <= |t.kids|
        invariant Valid() && Detached(r) && r == old(next) && r < next
        invariant Extends(old(elems), elems, old(next)) && Extends(old(parent), parent, old(next))
        invariant top == old(top)
        invariant Subtree(r) == Tree(t.tag, t.attrs, t.kids[..i])
      {
        assert t.kids[..i + 1] == t.kids[..i] + [t.kids[i]];
        ghost var e1, n1, p1 := elems, next, parent;
        PlantKid(r, t.kids[i]);
        GrownExtends(old(elems), old(next), e1, n1, elems, r);
        ExtendsTrans(old(parent), p1, parent, old(next), n1);
        i := i + 1;
      }
      assert t.kids[..i] == t.kids;
    }

    /** Appends to the detached element `r` a copy of `it` built out of new elements. */
    method PlantKid(r: Id, it: TreeItem)
      requires Valid() && Detached(r)
      modifies this
      ensures Valid() && Detached(r) && old(next) <= next
      ensures Grown(old(elems), old(next), elems, r)
      ensures ItemsOf(elems, next, r, elems[r].kids) == ItemsOf(old(elems), old(next), r, old(elems)[r].kids) + [it]
      ensures Extends(old(parent), parent, old(next))
      ensures top == old(top)
      decreases it, 0
    {
      match it {
        case Chars(s) => PlantChars(r, s);
        case Branch(sub) => PlantBranch(r, sub);
      }
    }

    /** Appends to the detached element `r` a text child holding `s`. */
    method PlantChars(r: Id, s: string)
      requires Valid() && Detached(r)
      modifies this
      ensures Valid() && Detached(r) && old(next) <= next
      ensures Grown(old(elems), old(next), elems, r)
      ensures ItemsOf(elems, next, r, elems[r].kids) == ItemsOf(old(elems), old(next), r, old(elems)[r].kids) + [Chars(s)]
      ensures Extends(old(parent), parent, old(next))
      ensures top == old(top)
    {
      ghost var e0, n0 := elems, next;
      AppendText(r, s);
      SubtreeOfAppended(e0, n0, elems, next, r, Text(s));
    }

    /** Appends to the detached element `r` a new copy of the subtree `sub`. */
    method PlantBranch(r: Id, sub: Tree)
      requires Valid() && Detached(r)
      modifies this
      ensures Valid() && Detached(r) && old(next) <= next
      ensures Grown(old(elems), old(next), elems, r)
      ensures ItemsOf(elems, next, r, elems[r].kids) == ItemsOf(old(elems), old(next), r, old(elems)[r].kids) + [Branch(sub)]
      ensures Extends(old(parent), parent, old(next))
      ensures top == old(top)
      decreases sub, 1
    {
      ghost var e0, n0, p0 := elems, next, parent;
      var c := Plant(sub);
      assert r < n0 <= c;
      assert r !in parent;
      BranchAppended(e0, n0, elems, next, r, c, sub);
      ExtendsWith(p0, parent, n0, c, r);
      AppendChild(r, c);
    }

    /**
     * Document.importNode of the element `id` of `src` (possibly this same
     * document): a new detached element carrying a copy of the whole
     * subtree when `deep` holds, and of the tag and attributes alone when
     * it does not.  The source is left as it was.
     */
    method ImportNode(src: Dom, id: Id, deep: bool) returns (r: Id)
      requires Valid() && src.Valid() && id in src.elems
      modifies this
      ensures Valid() && Detached(r) && r !in old(elems)
      ensures Extends(old(elems), elems, old(next)) && Extends(old(parent), parent, old(next))
      ensures top == old(top)
      ensures deep ==> Subtree(r) == old(src.Subtree(id))
      ensures !deep ==> Subtree(r) == Tree(old(src.elems)[id].tag, old(src.elems)[id].attrs, [])
    {
      var e := src.elems[id];
      var t := if deep then src.Subtree(id) else Tree(e.tag, e.attrs, []);
      r := Plant(t);
    }
  }
}
