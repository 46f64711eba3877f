/** The parsed FCPXML document as an immutable element tree, with the two
    ElementTree queries the extractor uses: `element.get(key)` and
    `root.findall(".//tag")`. */
module Fcpxml {

  datatype Option<T> = None | Some(value: T)

  /** An XML element: its tag, its attributes and its children in document
      order. */
  datatype Element = Element(tag: string, attributes: map<string, string>, children: seq<Element>)

  /** `element.get(key)`: the attribute's value, or `None` when absent. */
  function Get(e: Element, key: string): (r: Option<string>)
    ensures r.Some? <==> key in e.attributes
    ensures r.Some? ==> r.value == e.attributes[key]
  {
    if key in e.attributes then Some(e.attributes[key]) else None
  }

  /** Every element of a forest, each before its own descendants and the
      trees in order: document (pre-order) order. */
  function Preorder(forest: seq<Element>): seq<Element>
    decreases forest
  {
    if forest == [] then []
    else [forest[0]] + Preorder(forest[0].children) + Preorder(forest[1..])
  }

  /** Every element below `root`, in document order; `root` itself excluded. */
  function Descendants(root: Element): seq<Element> {
    Preorder(root.children)
  }

  /** The elements of `es` whose tag is `tag`, order kept. */
  function WithTag(es: seq<Element>, tag: string): (r: seq<Element>)
    ensures |r| <= |es|
  {
    if es == [] then []
    else (if es[0].tag == tag then [es[0]] else []) + WithTag(es[1..], tag)
  }

  /** The filter keeps exactly the elements that carry the tag. */
  lemma {:induction false} WithTagMembers(es: seq<Element>, tag: string)
    ensures forall i :: 0 <= i < |WithTag(es, tag)| ==> WithTag(es, tag)[i].tag == tag
    ensures forall e :: e in WithTag(es, tag) <==> e in es && e.tag == tag
  {
    if es != [] {
      WithTagMembers(es[1..], tag);
      assert es == [es[0]] + es[1..];
    }
  }

  /** `root.findall(".//" + tag)` */
  function FindAll(root: Element, tag: string): seq<Element> {
    WithTag(Descendants(root), tag)
  }

  /** `e` occurs somewhere strictly below `root`. */
  predicate IsBelow(e: Element, root: Element)
    decreases root
  {
    exists c :: c in root.children && (e == c || IsBelow(e, c))
  }

  /** `findall` finds exactly the elements strictly below the root that
      carry the tag. */
  lemma FindAllMembers(root: Element, tag: string, e: Element)
    ensures e in FindAll(root, tag) <==> IsBelow(e, root) && e.tag == tag
  {
    PreorderMembers(root.children, e);
    WithTagMembers(Descendants(root), tag);
    if IsBelow(e, root) {
      var c :| c in root.children && (e == c || IsBelow(e, c));
      var i :| 0 <= i < |root.children| && root.children[i] == c;
      assert InTree(e, root.children[i]);
    }
    if exists i :: 0 <= i < |root.children| && InTree(e, root.children[i]) {
      var i :| 0 <= i < |root.children| && InTree(e, root.children[i]);
      assert root.children[i] in root.children;
    }
  }

  /** The root is never among its own matches. */
  lemma FindAllExcludesRoot(root: Element, tag: string)
    ensures root !in FindAll(root, tag)
  {
    FindAllMembers(root, tag, root);
    if IsBelow(root, root) {
      BelowIsSmaller(root, root);
    }
  }

  /** `e` is `t` or lies below it. */
  predicate InTree(e: Element, t: Element) {
    e == t || IsBelow(e, t)
  }

  /** The pre-order of a forest holds the elements of its trees. */
  lemma {:induction false} PreorderMembers(forest: seq<Element>, e: Element)
    ensures e in Preorder(forest) <==> exists i :: 0 <= i < |forest| && InTree(e, forest[i])
    decreases forest
  {
    if forest != [] {
      var t := forest[0];
      PreorderMembers(t.children, e);
      PreorderMembers(forest[1..], e);
      assert e in Preorder(t.children) <==> IsBelow(e, t) by {
        forall c | c in t.children
          ensures (e == c || IsBelow(e, c)) <==> InTree(e, c)
        {
        }
        if IsBelow(e, t) {
          var c :| c in t.children && (e == c || IsBelow(e, c));
          var j :| 0 <= j < |t.children| && t.children[j] == c;
          assert InTree(e, t.children[j]);
        }
        if e in Preorder(t.children) {
          var j :| 0 <= j < |t.children| && InTree(e, t.children[j]);
          assert t.children[j] in t.children;
        }
      }
      if exists i :: 0 <= i < |forest| && InTree(e, forest[i]) {
        var i :| 0 <= i < |forest| && InTree(e, forest[i]);
        if i > 0 {
          assert forest[1..][i - 1] == forest[i];
        }
      }
      if exists i :: 0 <= i < |forest[1..]| && InTree(e, forest[1..][i]) {
        var i :| 0 <= i < |forest[1..]| && InTree(e, forest[1..][i]);
        assert forest[i + 1] == forest[1..][i];
      }
    }
  }

  /** Whatever lies below an element is strictly smaller than it. */
  lemma BelowIsSmaller(e: Element, root: Element)
    requires IsBelow(e, root)
    ensures e < root
    decreases root
  {
    var c :| c in root.children && (e == c || IsBelow(e, c));
    if e != c {
      BelowIsSmaller(e, c);
    }
  }

  /** A leaf has nothing to find, whatever its own tag. */
  lemma FindAllLeaf(tag: string, attributes: map<string, string>)
    ensures FindAll(Element(tag, attributes, []), tag) == []
  {
  }

  /** `findall` distributes over the root's children: matches come tree by
      tree, each child before the matches in its own subtree. */
  lemma {:induction false} FindAllChildren(root: Element, tag: string)
    requires root.children != []
    ensures var c := root.children[0];
            FindAll(root, tag) ==
              (if c.tag == tag then [c] else []) + FindAll(c, tag)
              + FindAll(Element(root.tag, root.attributes, root.children[1..]), tag)
  {
    var c := root.children[0];
    WithTagCons(c, Descendants(c), Preorder(root.children[1..]), tag);
  }

  /** Filtering a tree's pre-order: its root if it matches, then the matches
      below it, then those after it. */
  lemma WithTagCons(t: Element, below: seq<Element>, after: seq<Element>, tag: string)
    ensures WithTag([t] + below + after, tag)
         == (if t.tag == tag then [t] else []) + WithTag(below, tag) + WithTag(after, tag)
  {
    var h := if t.tag == tag then [t] else [];
    assert WithTag([t], tag) == h by {
      assert [t][1..] == [];
    }
    calc {
      WithTag([t] + below + after, tag);
      { assert [t] + below + after == [t] + (below + after); }
      WithTag([t] + (below + after), tag);
      { WithTagConcat([t], below + after, tag); }
      h + WithTag(below + after, tag);
      { WithTagConcat(below, after, tag); }
      h + (WithTag(below, tag) + WithTag(after, tag));
      h + WithTag(below, tag) + WithTag(after, tag);
    }
  }

  /** Filtering by tag distributes over concatenation. */
  lemma {:induction false} WithTagConcat(a: seq<Element>, b: seq<Element>, tag: string)
    ensures WithTag(a + b, tag) == WithTag(a, tag) + WithTag(b, tag)
  {
    if a == [] {
      assert a + b == b;
    } else {
      var h := if a[0].tag == tag then [a[0]] else [];
      assert (a + b)[0] == a[0];
      assert (a + b)[1..] == a[1..] + b;
      calc {
        WithTag(a + b, tag);
        h + WithTag(a[1..] + b, tag);
        { WithTagConcat(a[1..], b, tag); }
        h + (WithTag(a[1..], tag) + WithTag(b, tag));
        (h + WithTag(a[1..], tag)) + WithTag(b, tag);
        WithTag(a, tag) + WithTag(b, tag);
      }
    }
  }
}
