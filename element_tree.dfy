/** The part of Python's `xml.etree.ElementTree` that the resolver uses: the parsed
    element tree, `iter()`, `find(tag)` and `findall('.//tag')`. */
module ElementTree {
  import opened Wrappers
  import opened Sequences

  /** An element as the parser hands it over: its tag (`{uri}local` when the
      element is namespaced), its text (None when the element has none) and
      its children in document order. */
  datatype Elem = Elem(tag: string, text: Option<string>, children: seq<Elem>)

  /** `e.iter()`: the element itself, then everything below it, in document
      (pre-)order. */
  function Iter(e: Elem): (r: seq<Elem>)
    decreases e, 1, 0
  {
    [e] + Subtrees(e, |e.children|)
  }

  /** Everything in and below the first `k` children of `e`, in document order. */
  function Subtrees(e: Elem, k: nat): seq<Elem>
    requires k <= |e.children|
    decreases e, 0, k
  {
    if k == 0 then [] else Subtrees(e, k - 1) + Iter(e.children[k - 1])
  }

  /** The proper descendants of `e`, in document order. */
  function Descendants(e: Elem): seq<Elem>
  {
    Subtrees(e, |e.children|)
  }

  /** No element reachable by `iter()` is bigger than the element it was reached from. */
  lemma {:induction false} IterSizes(e: Elem)
    ensures forall d :: d in Iter(e) ==> |Iter(d)| <= |Iter(e)|
    decreases e, 1, 0
  {
    SubtreesSizes(e, |e.children|);
  }

  /** An element below the first `k` children is no bigger than all of them together. */
  lemma {:induction false} SubtreesSizes(e: Elem, k: nat)
    requires k <= |e.children|
    ensures forall d :: d in Subtrees(e, k) ==> |Iter(d)| <= |Subtrees(e, k)|
    decreases e, 0, k
  {
    if k > 0 {
      SubtreesSizes(e, k - 1);
      IterSizes(e.children[k - 1]);
    }
  }

  /** An element is never one of its own descendants. */
  lemma RootNotDescendant(e: Elem)
    ensures e !in Descendants(e)
  {
    SubtreesSizes(e, |e.children|);
  }

  /** The elements of `s` whose tag is `tag`, in their order in `s`. */
  function Select(s: seq<Elem>, tag: string): (r: seq<Elem>)
    ensures |r| <= |s|
    ensures forall x :: x in r <==> x in s && x.tag == tag
  {
    if s == [] then []
    else (if s[0].tag == tag then [s[0]] else []) + Select(s[1..], tag)
  }

  /** `e.findall('.//' + tag)`: every descendant of `e` (never `e` itself) whose
      tag is `tag`, in document order. */
  function FindAll(e: Elem, tag: string): (r: seq<Elem>)
    ensures forall x :: x in r <==> x in Descendants(e) && x.tag == tag
    ensures e !in r
  {
    RootNotDescendant(e);
    Select(Descendants(e), tag)
  }

  /** Accepts exactly the elements whose tag is `tag`, unchanged. */
  function IsTag(tag: string): Elem -> Option<Elem>
  {
    (x: Elem) => if x.tag == tag then Some(x) else None
  }

  /** Selecting by tag is the filter-map that keeps the elements with that tag:
      every occurrence, in the order of the walk. */
  lemma {:induction false} SelectKeepMap(s: seq<Elem>, tag: string)
    ensures Select(s, tag) == KeepMap(s, IsTag(tag))
  {
    if s != [] {
      SelectKeepMap(s[1..], tag);
    }
  }

  /** `findall('.//' + tag)` returns the descendants with the tag in document
      order, one entry per occurrence: its i-th result is the descendant at the
      i-th kept position, the kept positions increase, and no descendant with
      the tag is left out. */
  lemma FindAllOrder(e: Elem, tag: string)
    ensures var ds, idx := Descendants(e), Kept(Descendants(e), IsTag(tag));
            && |FindAll(e, tag)| == |idx|
            && (forall i :: 0 <= i < |idx| ==> FindAll(e, tag)[i] == ds[idx[i]])
            && (forall i, j :: 0 <= i < j < |idx| ==> idx[i] < idx[j])
            && (forall k :: 0 <= k < |ds| && ds[k].tag == tag ==> k in idx)
  {
    var ds, idx := Descendants(e), Kept(Descendants(e), IsTag(tag));
    SelectKeepMap(ds, tag);
    KeptExact(ds, IsTag(tag));
    forall k | 0 <= k < |ds| && ds[k].tag == tag
      ensures k in idx
    {
      assert IsTag(tag)(ds[k]).Some?;
    }
    forall i | 0 <= i < |idx|
      ensures FindAll(e, tag)[i] == ds[idx[i]]
    {
      assert IsTag(tag)(ds[idx[i]]) == Some(KeepMap(ds, IsTag(tag))[i]);
    }
  }

  /** The first element of `cs` whose tag is `tag`, if any. */
  function FirstWithTag(cs: seq<Elem>, tag: string): Option<Elem>
  {
    if cs == [] then None
    else if cs[0].tag == tag then Some(cs[0])
    else FirstWithTag(cs[1..], tag)
  }

  /** `e.find(tag)`: the first direct child of `e` whose tag is `tag`, if any. */
  function Find(e: Elem, tag: string): Option<Elem>
  {
    FirstWithTag(e.children, tag)
  }

  /** `FirstWithTag` gives nothing exactly when no element has the tag, and
      otherwise the element with that tag that comes first. */
  lemma {:induction false} FirstWithTagFirst(cs: seq<Elem>, tag: string)
    ensures FirstWithTag(cs, tag).None? <==> forall j :: 0 <= j < |cs| ==> cs[j].tag != tag
    ensures FirstWithTag(cs, tag).Some? ==>
              exists k :: 0 <= k < |cs| && cs[k] == FirstWithTag(cs, tag).value
                          && cs[k].tag == tag
                          && forall j :: 0 <= j < k ==> cs[j].tag != tag
  {
    if cs != [] && cs[0].tag != tag {
      FirstWithTagFirst(cs[1..], tag);
      assert forall j :: 1 <= j < |cs| ==> cs[j] == cs[1..][j - 1];
      if FirstWithTag(cs, tag).Some? {
        var k :| 0 <= k < |cs[1..]| && cs[1..][k] == FirstWithTag(cs, tag).value
                 && cs[1..][k].tag == tag
                 && forall j :: 0 <= j < k ==> cs[1..][j].tag != tag;
        assert cs[k + 1] == FirstWithTag(cs, tag).value;
      }
    } else if cs != [] {
      assert cs[0] == FirstWithTag(cs, tag).value;
    }
  }

  /** `Find` gives nothing exactly when no child has the tag, and otherwise
      the child with that tag that comes first. */
  lemma FindFirst(e: Elem, tag: string)
    ensures Find(e, tag).None? <==> forall j :: 0 <= j < |e.children| ==> e.children[j].tag != tag
    ensures Find(e, tag).Some? ==>
              exists k :: 0 <= k < |e.children| && e.children[k] == Find(e, tag).value
                          && Find(e, tag).value.tag == tag
                          && forall j :: 0 <= j < k ==> e.children[j].tag != tag
  {
    FirstWithTagFirst(e.children, tag);
  }

  /** The union of the footprints of `cs`. */
  ghost function Reprs(cs: seq<Element>): set<object>
  {
    if cs == [] then {} else cs[0].repr + Reprs(cs[1..])
  }

  /** Every element's footprint is part of the union. */
  lemma {:induction false} ReprsCover(cs: seq<Element>)
    ensures forall i :: 0 <= i < |cs| ==> cs[i].repr <= Reprs(cs)
  {
    if cs != [] {
      ReprsCover(cs[1..]);
      assert forall i :: 1 <= i < |cs| ==> cs[i] == cs[1..][i - 1];
    }
  }

  lemma {:induction false} ReprsSnoc(cs: seq<Element>, c: Element)
    ensures Reprs(cs + [c]) == Reprs(cs) + c.repr
  {
    if cs != [] {
      assert (cs + [c])[1..] == cs[1..] + [c];
      ReprsSnoc(cs[1..], c);
    }
  }

  /** An element object of the parsed tree. The source rewrites `tag` in place;
      the text and the children stay as the parser made them. `repr` is the set
      of objects of the subtree rooted here. */
  class Element {
    var tag: string
    const text: Option<string>
    const children: seq<Element>
    ghost const repr: set<object>

    /** The objects form a tree: `repr` is this element and the children's
        parts, every child owns a part that does not contain this element, and
        the children's parts are disjoint. */
    ghost predicate Valid()
      decreases repr
    {
      && this in repr
      && (forall i :: 0 <= i < |children| ==>
            && children[i] in repr
            && children[i].repr <= repr
            && this !in children[i].repr
            && children[i].Valid())
      && (forall i, j :: 0 <= i < j < |children| ==> children[i].repr !! children[j].repr)
      && repr == {this} + Reprs(children)
    }

    /** The tree rooted here, as a value. */
    function Value(): Elem
      requires Valid()
      reads repr
      decreases repr, 1, 0
    {
      Elem(tag, text, ChildValues(|children|))
    }

    /** The values of the first `k` children. */
    function ChildValues(k: nat): seq<Elem>
      requires Valid() && k <= |children|
      reads repr
      decreases repr, 0, k
    {
      if k == 0 then [] else ChildValues(k - 1) + [children[k - 1].Value()]
    }

    lemma {:induction false} ChildValuesAt(k: nat)
      requires Valid() && k <= |children|
      ensures |ChildValues(k)| == k
      ensures forall i :: 0 <= i < k ==> ChildValues(k)[i] == children[i].Value()
    {
      if k > 0 {
        ChildValuesAt(k - 1);
      }
    }

    /** The value of this element is made of its own tag and text and of the
        values of its children. */
    lemma ValueShape()
      requires Valid()
      ensures Value().tag == tag && Value().text == text
      ensures |Value().children| == |children|
      ensures forall i :: 0 <= i < |children| ==> Value().children[i] == children[i].Value()
    {
      ChildValuesAt(|children|);
    }

    constructor (tag: string, text: Option<string>, children: seq<Element>)
      requires forall i :: 0 <= i < |children| ==> children[i].Valid()
      requires forall i, j :: 0 <= i < j < |children| ==> children[i].repr !! children[j].repr
      ensures Valid()
      ensures this.tag == tag && this.text == text && this.children == children
      ensures repr == {this} + Reprs(children)
    {
      this.tag := tag;
      this.text := text;
      this.children := children;
      this.repr := {this} + Reprs(children);
      ReprsCover(children);
    }
  }

  /** The element objects that `ET.fromstring` allocates for a parsed document:
      a fresh, well-formed tree of objects whose value is the document. */
  method Build(e: Elem) returns (node: Element)
    ensures node.Valid() && fresh(node.repr) && node.Value() == e
    decreases e, 1, 0
  {
    var kids := BuildChildren(e, |e.children|);
    node := new Element(e.tag, e.text, kids);
    node.ValueShape();
    assert node.Value().children == e.children;
  }

  /** Appending the object tree of the next child, with a footprint disjoint
      from the earlier ones, keeps the children's objects well-formed,
      disjoint and holding the children's values. */
  lemma ChildrenSnoc(e: Elem, front: seq<Element>, kid: Element)
    requires |front| < |e.children|
    requires forall j :: 0 <= j < |front| ==> front[j].Valid() && front[j].Value() == e.children[j]
    requires forall j, l :: 0 <= j < l < |front| ==> front[j].repr !! front[l].repr
    requires kid.Valid() && kid.Value() == e.children[|front|]
    requires forall j :: 0 <= j < |front| ==> front[j].repr !! kid.repr
    ensures var kids := front + [kid];
            && (forall j :: 0 <= j < |kids| ==> kids[j].Valid() && kids[j].Value() == e.children[j])
            && (forall j, l :: 0 <= j < l < |kids| ==> kids[j].repr !! kids[l].repr)
            && Reprs(kids) == Reprs(front) + kid.repr
  {
    ReprsSnoc(front, kid);
  }

  /** The element objects of the first `k` children of `e`, one disjoint fresh
      tree each. */
  method BuildChildren(e: Elem, k: nat) returns (kids: seq<Element>)
    requires k <= |e.children|
    ensures |kids| == k
    ensures forall j :: 0 <= j < k ==> kids[j].Valid()
    ensures forall j :: 0 <= j < k ==> kids[j].Value() == e.children[j]
    ensures forall j, l :: 0 <= j < l < k ==> kids[j].repr !! kids[l].repr
    ensures fresh(Reprs(kids))
    decreases e, 0, k
  {
    if k == 0 {
      return [];
    }
    var front := BuildChildren(e, k - 1);
    var kid := Build(e.children[k - 1]);
    ReprsCover(front);
    assert forall j :: 0 <= j < k - 1 ==> front[j].repr !! kid.repr;
    ChildrenSnoc(e, front, kid);
    kids := front + [kid];
  }
}
