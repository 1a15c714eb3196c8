/** extract_paths_from_svg.py: a document holding the root's attributes, the root's own `defs`
    and `style` children, and a bare copy of every path element of the input at any depth. */
module ExtractPathsFromSvg {
  import opened Wrappers
  import opened Seqs

  /** An element tag as ElementTree writes it, `{namespace}local` or just `local`. */
  datatype Tag = Tag(ns: Option<string>, local: string)

  /** A parsed element: its tag text, its attributes and its children in document order. */
  datatype Element = Element(tag: string, attrs: map<string, string>, children: seq<Element>)

  function TagText(t: Tag): string
  {
    match t.ns
    case None => t.local
    case Some(n) => "{" + n + "}" + t.local
  }

  /** `tag.split('}', 1)[1]` when the tag starts with '{', else the tag itself; None stands for
      the IndexError of a '{' with no '}' after it. */
  function LocalName(tag: string): Option<string>
  {
    if tag != [] && tag[0] == '{' then AfterBrace(tag) else Some(tag)
  }

  /** What follows the first '}', if there is one. */
  function AfterBrace(s: string): (r: Option<string>)
    ensures r.Some? ==> |r.value| < |s|
  {
    if s == [] then None
    else if s[0] == '}' then Some(s[1..])
    else AfterBrace(s[1..])
  }

  lemma {:induction false} AfterBraceSkips(a: string, b: string)
    requires '}' !in a
    ensures AfterBrace(a + "}" + b) == Some(b)
    decreases |a|
  {
    if a == [] {
      assert a + "}" + b == ['}'] + b;
    } else {
      assert (a + "}" + b)[1..] == a[1..] + "}" + b;
      AfterBraceSkips(a[1..], b);
    }
  }

  /** Stripping the namespace gives back the local name of every tag whose namespace holds no
      '}' (namespace URIs never do), and a tag without a namespace is its own local name. */
  lemma LocalNameOfTag(t: Tag)
    requires t.ns.Some? ==> '}' !in t.ns.value
    requires t.ns.None? ==> t.local == [] || t.local[0] != '{'
    ensures LocalName(TagText(t)) == Some(t.local)
  {
    if t.ns.Some? {
      var n := t.ns.value;
      assert TagText(t) == "{" + (n + "}" + t.local);
      AfterBraceSkips(n, t.local);
      assert TagText(t)[1..] == n + "}" + t.local;
    }
  }

  /** The element's local name is `name` (a malformed tag never is). */
  predicate Named(e: Element, name: string)
  {
    LocalName(e.tag) == Some(name)
  }

  /** `ET.Element(elem.tag, elem.attrib)`: the tag and attributes, no children. */
  function Bare(e: Element): Element
  {
    Element(e.tag, e.attrs, [])
  }

  /** The bare copies of the path elements among `es` and all their descendants, in document
      pre-order. */
  function PathsIn(es: seq<Element>): seq<Element>
    decreases es
  {
    if es == [] then [] else PathsBelow(es[0]) + PathsIn(es[1..])
  }

  /** The bare copy of `e` if it is a path, then the paths among its descendants. */
  function PathsBelow(e: Element): seq<Element>
    decreases e
  {
    (if Named(e, "path") then [Bare(e)] else []) + PathsIn(e.children)
  }

  predicate IsDefsOrStyle(e: Element)
  {
    Named(e, "defs") || Named(e, "style")
  }

  /** The root's own `defs` and `style` children, whole, in their order. */
  function DefsAndStyles(es: seq<Element>): (r: seq<Element>)
    ensures IsSubseq(r, es)
  {
    FilterIsSubseq(es, IsDefsOrStyle);
    Filter(es, IsDefsOrStyle)
  }

  /** The element under construction (`new_root`), whose children list grows. */
  class NewRoot {
    var tag: string
    var attrs: map<string, string>
    var children: seq<Element>

    /** `ET.Element(tag, attrib)` */
    constructor (tag: string, attrs: map<string, string>)
      ensures this.tag == tag && this.attrs == attrs && children == []
    {
      this.tag := tag;
      this.attrs := attrs;
      children := [];
    }

    /** `append` */
    method Append(e: Element)
      modifies this
      ensures tag == old(tag) && attrs == old(attrs)
      ensures children == old(children) + [e]
    {
      children := children + [e];
    }

    /** The element as it stands. */
    function Snapshot(): Element
      reads this
    {
      Element(tag, attrs, children)
    }
  }

  /** find_paths(parent): walk the children of `parent` in order, appending a bare copy of each
      path, and descending into every element that has children. */
  method FindPaths(out: NewRoot, parent: Element)
    modifies out
    ensures out.tag == old(out.tag) && out.attrs == old(out.attrs)
    ensures out.children == old(out.children) + PathsIn(parent.children)
    decreases parent, 1
  {
    var i := 0;
    while i < |parent.children|
      invariant 0 <= i <= |parent.children|
      invariant out.tag == old(out.tag) && out.attrs == old(out.attrs)
      invariant out.children + PathsIn(parent.children[i..]) == old(out.children) + PathsIn(parent.children)
    {
      VisitForPaths(out, parent.children[i]);
      PathsInStep(parent.children, i);
      i := i + 1;
    }
    assert parent.children[i..] == [];
  }

  /** The body of find_paths' loop for one element: its bare copy if it is a path, then the
      paths below it. */
  method VisitForPaths(out: NewRoot, elem: Element)
    modifies out
    ensures out.tag == old(out.tag) && out.attrs == old(out.attrs)
    ensures out.children == old(out.children) + PathsBelow(elem)
    decreases elem, 2
  {
    if Named(elem, "path") {
      out.Append(Bare(elem));
    }
    if |elem.children| > 0 {
      FindPaths(out, elem);
    }
  }

  /** The paths from the `i`-th sibling on are those below it, then those after it. */
  lemma PathsInStep(es: seq<Element>, i: nat)
    requires i < |es|
    ensures PathsIn(es[i..]) == PathsBelow(es[i]) + PathsIn(es[i + 1..])
  {
    assert es[i..][1..] == es[i + 1..];
  }

  /** extract_all_paths on the parsed input: the new root has the input root's tag and attributes,
      and as children its `defs` and `style` children followed by every path of the document. */
  method ExtractAllPaths(root: Element) returns (result: Element)
    ensures result == Element(root.tag, root.attrs, DefsAndStyles(root.children) + PathsIn(root.children))
  {
    var out := new NewRoot(root.tag, root.attrs);
    CopyDefsAndStyles(out, root.children);
    FindPaths(out, root);
    result := out.Snapshot();
  }

  /** The loop over the root's children that copies its `defs` and `style` children whole. */
  method CopyDefsAndStyles(out: NewRoot, es: seq<Element>)
    modifies out
    ensures out.tag == old(out.tag) && out.attrs == old(out.attrs)
    ensures out.children == old(out.children) + DefsAndStyles(es)
  {
    var i := 0;
    while i < |es|
      invariant 0 <= i <= |es|
      invariant out.tag == old(out.tag) && out.attrs == old(out.attrs)
      invariant out.children == old(out.children) + DefsAndStyles(es[..i])
    {
      var child := es[i];
      FilterPrefixStep(es, i, IsDefsOrStyle);
      if Named(child, "defs") || Named(child, "style") {
        out.Append(child);
      }
      i := i + 1;
    }
    assert es[..|es|] == es;
  }

  /** Every element collected is a path with no children. */
  lemma {:induction false} CollectedAreBarePaths(es: seq<Element>)
    ensures forall k :: 0 <= k < |PathsIn(es)| ==>
      Named(PathsIn(es)[k], "path") && PathsIn(es)[k].children == []
    decreases es
  {
    if es != [] {
      var e := es[0];
      CollectedAreBarePaths(e.children);
      CollectedAreBarePaths(es[1..]);
      var own := if Named(e, "path") then [Bare(e)] else [];
      assert PathsBelow(e) == own + PathsIn(e.children);
      assert PathsIn(es) == own + PathsIn(e.children) + PathsIn(es[1..]);
    }
  }

  /** `x` is one of the elements of the forest or lies below one of them. */
  predicate Within(x: Element, es: seq<Element>)
    decreases es
  {
    exists k :: 0 <= k < |es| && (es[k] == x || Within(x, es[k].children))
  }

  /** A top-level path has its bare copy collected. */
  lemma {:induction false} TopPathCollected(es: seq<Element>, k: nat)
    requires k < |es| && Named(es[k], "path")
    ensures Bare(es[k]) in PathsIn(es)
    decreases es
  {
    if k == 0 {
      assert PathsBelow(es[0])[0] == Bare(es[0]);
    } else {
      assert es[1..][k - 1] == es[k];
      TopPathCollected(es[1..], k - 1);
    }
  }

  /** Every path element of the forest, at any depth, has its bare copy collected. */
  lemma {:induction false} EveryPathCollected(x: Element, es: seq<Element>)
    requires Within(x, es) && Named(x, "path")
    ensures Bare(x) in PathsIn(es)
    decreases es
  {
    var k :| 0 <= k < |es| && (es[k] == x || Within(x, es[k].children));
    if es[k] == x {
      TopPathCollected(es, k);
    } else {
      EveryPathCollected(x, es[k].children);
      BelowInForest(es, k);
    }
  }

  /** What is collected below one element of a forest is collected from the forest. */
  lemma {:induction false} BelowInForest(es: seq<Element>, k: nat)
    requires k < |es|
    ensures forall x :: x in PathsIn(es[k].children) ==> x in PathsIn(es)
    decreases es
  {
    if k == 0 {
      var own := if Named(es[0], "path") then [Bare(es[0])] else [];
      assert PathsIn(es) == own + PathsIn(es[0].children) + PathsIn(es[1..]);
    } else {
      assert es[1..][k - 1] == es[k];
      BelowInForest(es[1..], k - 1);
    }
  }

  /** The top-level `defs` and `style` children kept are exactly those of the root, in order. */
  lemma DefsAndStylesExact(es: seq<Element>)
    ensures forall x :: x in DefsAndStyles(es) ==> x in es && (Named(x, "defs") || Named(x, "style"))
    ensures forall k :: 0 <= k < |es| && (Named(es[k], "defs") || Named(es[k], "style")) ==>
      es[k] in DefsAndStyles(es)
  {
    FilterMembers(es, IsDefsOrStyle);
  }
}
