/** Namespace stripping: ElementTree writes a namespaced tag as `{uri}local`;
    the resolver rewrites every tag that contains `}` to `tag.split('}')[1]`,
    so that later lookups can use bare names such as `Layer` and `Name`. */
module Namespaces {
  import opened Strings
  import opened ElementTree

  /** The tag as the resolver leaves it: `tag.split('}')[1]` when the tag
      contains `}`, the tag itself otherwise. */
  function LocalName(tag: string): (r: string)
    ensures '}' !in r
    ensures '}' !in tag ==> r == tag
  {
    SplitPieces(tag, '}');
    if '}' in tag then Split(tag, '}')[1] else tag
  }

  /** A rewritten tag is the text between the first `}` and the next `}` (or
      the end of the tag). */
  lemma LocalNameSegment(tag: string)
    requires '}' in tag
    ensures var rest := tag[IndexOf(tag, '}') + 1..];
            if '}' in rest then LocalName(tag) == rest[..IndexOf(rest, '}')]
            else LocalName(tag) == rest
  {
    var rest := tag[IndexOf(tag, '}') + 1..];
    assert Split(tag, '}')[1] == Split(rest, '}')[0];
  }

  /** ElementTree's notation `{uri}local` loses its namespace part. */
  lemma ClarkNotation(uri: string, local: string)
    requires '}' !in uri && '}' !in local
    ensures LocalName("{" + uri + "}" + local) == local
  {
    var tag := "{" + uri + "}" + local;
    var k := |uri| + 1;
    assert tag[k] == '}' && tag[..k] == "{" + uri;
    IndexOfUnique(tag, '}', k);
    assert tag[k + 1..] == local;
    assert Split(tag, '}') == [tag[..k]] + Split(local, '}');
  }

  /** Rewriting a tag a second time changes nothing. */
  lemma LocalNameIdempotent(tag: string)
    ensures LocalName(LocalName(tag)) == LocalName(tag)
  {
  }

  /** The tree after the rewrite: every tag replaced by its local name; texts
      and the shape of the tree as they were. */
  function StripTree(e: Elem): (r: Elem)
    ensures r.text == e.text && |r.children| == |e.children|
  {
    Elem(LocalName(e.tag), e.text,
         seq(|e.children|, i requires 0 <= i < |e.children| => StripTree(e.children[i])))
  }

  /** `StripTree` applied to each element of a sequence. */
  function StripAll(s: seq<Elem>): (r: seq<Elem>)
    ensures |r| == |s|
  {
    seq(|s|, i requires 0 <= i < |s| => StripTree(s[i]))
  }

  lemma StripAllAppend(a: seq<Elem>, b: seq<Elem>)
    ensures StripAll(a + b) == StripAll(a) + StripAll(b)
  {
  }

  /** Walking the rewritten tree with `iter()` meets exactly the rewritten
      elements of the original walk, in the same order: the rewrite touches
      every element once and keeps the tree's shape. */
  lemma {:induction false} IterStrip(e: Elem)
    ensures Iter(StripTree(e)) == StripAll(Iter(e))
    decreases e, 1, 0
  {
    SubtreesStrip(e, |e.children|);
    StripAllAppend([e], Subtrees(e, |e.children|));
  }

  lemma {:induction false} SubtreesStrip(e: Elem, k: nat)
    requires k <= |e.children|
    ensures Subtrees(StripTree(e), k) == StripAll(Subtrees(e, k))
    decreases e, 0, k
  {
    if k > 0 {
      var c := e.children[k - 1];
      assert StripTree(e).children[k - 1] == StripTree(c);
      assert Subtrees(StripTree(e), k) == Subtrees(StripTree(e), k - 1) + Iter(StripTree(c));
      SubtreesStrip(e, k - 1);
      IterStrip(c);
      StripAllAppend(Subtrees(e, k - 1), Iter(c));
    }
  }

  /** The descendants of the rewritten tree are the rewritten descendants. */
  lemma DescendantsStrip(e: Elem)
    ensures Descendants(StripTree(e)) == StripAll(Descendants(e))
  {
    SubtreesStrip(e, |e.children|);
  }

  /** After the rewrite no tag anywhere in the tree contains `}`. */
  lemma NoBraceLeft(e: Elem)
    ensures forall d :: d in Iter(StripTree(e)) ==> '}' !in d.tag
  {
    IterStrip(e);
  }

  /** Rewriting a rewritten tree changes nothing. */
  lemma {:induction false} StripIdempotent(e: Elem)
    ensures StripTree(StripTree(e)) == StripTree(e)
  {
    forall i | 0 <= i < |e.children| {
      StripIdempotent(e.children[i]);
    }
  }

  /** The loop of the resolver over `root.iter()` that rewrites each tag
      containing `}` in place. Visits the element, then its children in
      document order. */
  method StripNamespaces(elem: Element)
    requires elem.Valid()
    modifies elem.repr
    ensures elem.Value() == StripTree(old(elem.Value()))
    decreases elem.repr, 1
  {
    ghost var before := elem.Value();
    elem.ValueShape();
    if '}' in elem.tag {
      SplitPieces(elem.tag, '}');
      elem.tag := Split(elem.tag, '}')[1];
    }
    for i := 0 to |elem.children|
      invariant elem.tag == LocalName(before.tag)
      invariant forall j :: 0 <= j < i ==> elem.children[j].Value() == StripTree(before.children[j])
      invariant forall j :: i <= j < |elem.children| ==> elem.children[j].Value() == before.children[j]
    {
      StripChild(elem, i);
    }
    elem.ValueShape();
    assert elem.Value().children == StripTree(before).children;
  }

  /** One step of that walk: the subtree of the `i`-th child is rewritten and
      the other children are untouched. */
  method StripChild(elem: Element, i: nat)
    requires elem.Valid() && i < |elem.children|
    modifies elem.children[i].repr
    ensures elem.children[i].Value() == StripTree(old(elem.children[i].Value()))
    ensures forall j :: 0 <= j < |elem.children| && j != i ==>
              elem.children[j].Value() == old(elem.children[j].Value())
    decreases elem.repr, 0
  {
    var child := elem.children[i];
    assert forall j :: 0 <= j < |elem.children| && j != i ==> elem.children[j].repr !! child.repr;
    StripNamespaces(child);
  }
}
