/** The traversal half of `DependencyObjectHelper`, over an abstract UI object
    graph. Each element has the set of type names it is an instance of (its
    class and every base class), its ordered visual children, an optional
    visual parent and an optional logical parent (`FrameworkElement.Parent`).
    A null element is `None`. */
module DependencyObjectHelper {
  import opened Wrappers
  import opened Seqs

  type Node = nat
  type TypeName = string

  const FrameworkElementType: TypeName := "FrameworkElement"

  /** `depth` and `height` are ranks that witness that the graph is finite and
      acyclic: every parent link leads to a smaller depth, every child link to
      a smaller height. */
  datatype Element = Element(
    types: set<TypeName>,
    children: seq<Node>,
    visualParent: Option<Node>,
    logicalParent: Option<Node>,
    depth: nat,
    height: nat)

  type UiGraph = map<Node, Element>

  /** The runtime type test behind `OfType<T>()` and `as T`. */
  predicate IsA(g: UiGraph, x: Node, t: TypeName)
    requires x in g
  {
    t in g[x].types
  }

  predicate ParentLinksDescend(g: UiGraph, x: Node)
    requires x in g
  {
    && (g[x].visualParent.Some? ==>
          g[x].visualParent.value in g && g[g[x].visualParent.value].depth < g[x].depth)
    && (g[x].logicalParent.Some? ==>
          g[x].logicalParent.value in g && g[g[x].logicalParent.value].depth < g[x].depth)
  }

  /** The visual children are distinct elements of the graph whose visual parent is `x`. */
  predicate ChildLinksDescend(g: UiGraph, x: Node)
    requires x in g
  {
    && Distinct(g[x].children)
    && forall c :: c in g[x].children ==>
         c in g && g[c].visualParent == Some(x) && g[c].height < g[x].height
  }

  /** An element with a visual parent is one of that parent's visual children. */
  predicate ListedByParent(g: UiGraph, x: Node)
    requires x in g && ParentLinksDescend(g, x)
  {
    g[x].visualParent.Some? ==> x in g[g[x].visualParent.value].children
  }

  /** The links of `x` respect the ranks and agree with each other. */
  predicate LinksAgree(g: UiGraph, x: Node)
    requires x in g
  {
    ParentLinksDescend(g, x) && ChildLinksDescend(g, x) && ListedByParent(g, x)
  }

  predicate WellFormed(g: UiGraph)
  {
    forall x {:trigger LinksAgree(g, x)} :: x in g ==> LinksAgree(g, x)
  }

  // ---------------------------------------------------------------------
  // Parents
  // ---------------------------------------------------------------------

  /** `GetParent`: the visual parent, or else, for a `FrameworkElement`, its logical parent. */
  function GetParent(g: UiGraph, x: Node): (p: Option<Node>)
    requires x in g
    ensures g[x].visualParent.Some? ==> p == g[x].visualParent
    ensures g[x].visualParent.None? && IsA(g, x, FrameworkElementType) ==> p == g[x].logicalParent
    ensures g[x].visualParent.None? && !IsA(g, x, FrameworkElementType) ==> p.None?
  {
    var visual := g[x].visualParent;
    if visual.None? && IsA(g, x, FrameworkElementType) then g[x].logicalParent else visual
  }

  /** The sequence `GetParents` yields: nearest ancestor first, up to the first null parent. */
  function Ancestors(g: UiGraph, x: Node): (a: seq<Node>)
    requires WellFormed(g) && x in g
    ensures forall y :: y in a ==> y in g && g[y].depth < g[x].depth
    decreases g[x].depth
  {
    assert LinksAgree(g, x);
    match GetParent(g, x)
    case None => []
    case Some(p) => [p] + Ancestors(g, p)
  }

  /** `GetParents`: the `while (true)` loop that climbs one parent per step. */
  method GetParents(g: UiGraph, element: Option<Node>) returns (r: Result<seq<Node>, ArgumentError>)
    requires WellFormed(g) && (element.Some? ==> element.value in g)
    ensures element.None? ==> r == Failure(ArgumentNull("element"))
    ensures element.Some? ==> r == Success(Ancestors(g, element.value))
  {
    if element.None? {
      return Failure(ArgumentNull("element"));
    }
    var current := element.value;
    var parents: seq<Node> := [];
    while true
      invariant current in g
      invariant parents + Ancestors(g, current) == Ancestors(g, element.value)
      decreases g[current].depth
    {
      assert LinksAgree(g, current);
      var next := GetParent(g, current);
      if next.None? {
        assert Ancestors(g, current) == [];
        assert parents == Ancestors(g, element.value);
        break;
      }
      assert Ancestors(g, current) == [next.value] + Ancestors(g, next.value);
      current := next.value;
      parents := parents + [current];
    }
    return Success(parents);
  }

  /** The ancestor sequence is the chain of `GetParent` links from `x` to the
      first element without a parent. */
  lemma {:induction false} AncestorsChain(g: UiGraph, x: Node)
    requires WellFormed(g) && x in g
    ensures var a := Ancestors(g, x);
      && (|a| == 0 <==> GetParent(g, x).None?)
      && (|a| > 0 ==> GetParent(g, x) == Some(a[0]))
      && (forall i :: 0 <= i < |a| - 1 ==> GetParent(g, a[i]) == Some(a[i + 1]))
      && (|a| > 0 ==> GetParent(g, a[|a| - 1]).None?)
    decreases g[x].depth
  {
    assert LinksAgree(g, x);
    match GetParent(g, x)
    case None =>
    case Some(p) =>
      AncestorsChain(g, p);
      var rest := Ancestors(g, p);
      var a := [p] + rest;
      assert Ancestors(g, x) == a;
      assert forall i :: 0 < i < |a| ==> a[i] == rest[i - 1];
  }

  /** Nearest first: depth strictly decreases along the ancestor sequence, so
      no element occurs in it twice. */
  lemma {:induction false} AncestorsNearestFirst(g: UiGraph, x: Node)
    requires WellFormed(g) && x in g
    ensures forall i, j :: 0 <= i < j < |Ancestors(g, x)| ==>
      g[Ancestors(g, x)[i]].depth > g[Ancestors(g, x)[j]].depth
    decreases g[x].depth
  {
    assert LinksAgree(g, x);
    match GetParent(g, x)
    case None =>
    case Some(p) =>
      AncestorsNearestFirst(g, p);
      var rest := Ancestors(g, p);
      var a := [p] + rest;
      assert Ancestors(g, x) == a;
      forall i, j | 0 <= i < j < |a|
        ensures g[a[i]].depth > g[a[j]].depth
      {
        assert a[j] == rest[j - 1] && rest[j - 1] in rest;
        if i > 0 {
          assert a[i] == rest[i - 1];
          assert g[rest[i - 1]].depth > g[rest[j - 1]].depth;
        } else {
          assert a[i] == p;
          assert g[rest[j - 1]].depth < g[p].depth;
        }
      }
  }

  // ---------------------------------------------------------------------
  // Descendants
  // ---------------------------------------------------------------------

  /** What a well-formed graph says about the `i`-th visual child of `x`. */
  lemma ChildLinks(g: UiGraph, x: Node, i: nat)
    requires WellFormed(g) && x in g && i < |g[x].children|
    ensures var c := g[x].children[i];
      && c in g && LinksAgree(g, c)
      && g[c].visualParent == Some(x)
      && g[c].height < g[x].height
      && g[c].depth > g[x].depth
  {
    assert LinksAgree(g, x);
    var c := g[x].children[i];
    assert c in g[x].children;
    assert LinksAgree(g, c);
  }

  /** The walk `GetChildrenRecursive` yields below `x`. */
  function Descendants(g: UiGraph, x: Node): (d: seq<Node>)
    requires WellFormed(g) && x in g
    ensures forall y :: y in d ==> y in g
    decreases g[x].height, 1
  {
    var bs := Blocks(g, x);
    assert forall y :: y in Concat(bs) ==> exists i :: 0 <= i < |bs| && y in bs[i] by {
      ConcatCovers(bs);
    }
    Concat(bs)
  }

  /** One block per visual child, in index order: the child, then its own walk. */
  function Blocks(g: UiGraph, x: Node): (bs: seq<seq<Node>>)
    requires WellFormed(g) && x in g
    ensures |bs| == |g[x].children|
    ensures forall i :: 0 <= i < |bs| ==>
      && g[x].children[i] in g
      && g[g[x].children[i]].height < g[x].height
      && bs[i] == [g[x].children[i]] + Descendants(g, g[x].children[i])
    ensures forall i, y :: 0 <= i < |bs| && y in bs[i] ==> y in g
    decreases g[x].height, 0
  {
    var cs := g[x].children;
    assert forall i :: 0 <= i < |cs| ==> cs[i] in g && g[cs[i]].height < g[x].height by {
      forall i | 0 <= i < |cs|
        ensures cs[i] in g && g[cs[i]].height < g[x].height
      {
        ChildLinks(g, x, i);
      }
    }
    seq(|cs|, i requires 0 <= i < |cs| => [cs[i]] + Descendants(g, cs[i]))
  }

  /** `GetChildrenRecursive`: an index loop over the visual children that yields
      each child and then, recursively, everything below it. */
  method GetChildrenRecursive(g: UiGraph, element: Option<Node>) returns (r: Result<seq<Node>, ArgumentError>)
    requires WellFormed(g) && (element.Some? ==> element.value in g)
    ensures element.None? ==> r == Failure(ArgumentNull("element"))
    ensures element.Some? ==> r == Success(Descendants(g, element.value))
    decreases if element.Some? then g[element.value].height else 0
  {
    if element.None? {
      return Failure(ArgumentNull("element"));
    }
    var x := element.value;
    ghost var bs := Blocks(g, x);
    var children := g[x].children;
    var walk: seq<Node> := [];
    for i := 0 to |children|
      invariant walk == Concat(bs[..i])
    {
      var child := children[i];
      ChildLinks(g, x, i);
      walk := walk + [child];
      var below := GetChildrenRecursive(g, Some(child));
      walk := walk + below.value;
      ConcatPrefixSnoc(bs, i);
      assert bs[i] == [child] + below.value;
    }
    assert bs[..|children|] == bs;
    return Success(walk);
  }

  /** Where the block of the `i`-th child starts in the walk. */
  function Offset(g: UiGraph, x: Node, i: nat): nat
    requires WellFormed(g) && x in g && i <= |g[x].children|
  {
    |Concat(Blocks(g, x)[..i])|
  }

  /** The walk below `x` is the walk before the `i`-th block, that block, and the rest. */
  lemma BlockSplit(g: UiGraph, x: Node, i: nat)
    requires WellFormed(g) && x in g && i < |g[x].children|
    ensures var bs := Blocks(g, x);
      Descendants(g, x) == Concat(bs[..i]) + bs[i] + Concat(bs[i + 1..])
    ensures Offset(g, x, i + 1) == Offset(g, x, i) + |Blocks(g, x)[i]|
  {
    ConcatSplit(Blocks(g, x), i);
    ConcatPrefixSnoc(Blocks(g, x), i);
  }

  /** Pre-order: the `i`-th child sits at its block's offset, immediately
      followed by all of its own descendants, and the next block starts right
      after them. */
  lemma PreOrder(g: UiGraph, x: Node, i: nat)
    requires WellFormed(g) && x in g && i < |g[x].children|
    ensures g[x].children[i] in g
    ensures var d := Descendants(g, x); var c := g[x].children[i];
      && Offset(g, x, i) < Offset(g, x, i + 1) <= |d|
      && d[Offset(g, x, i)] == c
      && d[Offset(g, x, i) + 1 .. Offset(g, x, i + 1)] == Descendants(g, c)
  {
    var bs := Blocks(g, x);
    BlockSplit(g, x, i);
    var before := Concat(bs[..i]);
    var d := Descendants(g, x);
    var c := g[x].children[i];
    assert d == before + ([c] + Descendants(g, c)) + Concat(bs[i + 1..]);
    BlockAt(d, before, c, Descendants(g, c), Concat(bs[i + 1..]));
  }

  /** The children come in index order: with `PreOrder`, the `i`-th child sits
      at `Offset(g, x, i)`, and these offsets strictly increase with `i`. */
  lemma {:induction false} ChildrenInIndexOrder(g: UiGraph, x: Node, i: nat, j: nat)
    requires WellFormed(g) && x in g && i < j <= |g[x].children|
    ensures Offset(g, x, i) < Offset(g, x, j)
    decreases j
  {
    OffsetGrows(g, x, j - 1);
    if i < j - 1 {
      ChildrenInIndexOrder(g, x, i, j - 1);
    }
  }

  lemma OffsetGrows(g: UiGraph, x: Node, i: nat)
    requires WellFormed(g) && x in g && i < |g[x].children|
    ensures Offset(g, x, i) < Offset(g, x, i + 1)
  {
    ConcatPrefixSnoc(Blocks(g, x), i);
  }

  lemma ChildIsDescendant(g: UiGraph, x: Node, i: nat)
    requires WellFormed(g) && x in g && i < |g[x].children|
    ensures g[x].children[i] in Descendants(g, x)
  {
    PreOrder(g, x, i);
  }

  lemma DescendantOfChild(g: UiGraph, x: Node, i: nat, y: Node)
    requires WellFormed(g) && x in g && i < |g[x].children|
    requires y in Blocks(g, x)[i]
    ensures y in Descendants(g, x)
  {
    ConcatMember(Blocks(g, x), y);
  }

  /** Every element of the walk lies strictly below `x`: greater depth, smaller
      height; in particular `x` is not in its own walk. */
  lemma {:induction false} DescendantsBelow(g: UiGraph, x: Node)
    requires WellFormed(g) && x in g
    ensures forall y :: y in Descendants(g, x) ==> g[y].height < g[x].height && g[y].depth > g[x].depth
    decreases g[x].height
  {
    var bs := Blocks(g, x);
    forall y | y in Descendants(g, x)
      ensures g[y].height < g[x].height && g[y].depth > g[x].depth
    {
      ConcatMember(bs, y);
      var i :| 0 <= i < |bs| && y in bs[i];
      ChildLinks(g, x, i);
      var c := g[x].children[i];
      if y != c {
        DescendantsBelow(g, c);
      }
    }
  }

  /** Every element of the walk hangs from `x` or from another element of it. */
  lemma {:induction false} DescendantParent(g: UiGraph, x: Node, y: Node)
    requires WellFormed(g) && x in g && y in Descendants(g, x)
    ensures g[y].visualParent.Some?
    ensures g[y].visualParent.value == x || g[y].visualParent.value in Descendants(g, x)
    decreases g[x].height
  {
    var bs := Blocks(g, x);
    ConcatMember(bs, y);
    var i :| 0 <= i < |bs| && y in bs[i];
    ChildLinks(g, x, i);
    var c := g[x].children[i];
    if y != c {
      DescendantParent(g, c, y);
      var p := g[y].visualParent.value;
      if p == c {
        ChildIsDescendant(g, x, i);
      } else {
        DescendantOfChild(g, x, i, p);
      }
    }
  }

  /** Two elements with the same visual parent whose subtrees share an element are the same. */
  lemma {:induction false} SameSubtree(g: UiGraph, c1: Node, c2: Node, y: Node)
    requires WellFormed(g) && c1 in g && c2 in g && y in g
    requires g[c1].visualParent.Some? && g[c1].visualParent == g[c2].visualParent
    requires y == c1 || y in Descendants(g, c1)
    requires y == c2 || y in Descendants(g, c2)
    ensures c1 == c2
    decreases g[y].depth
  {
    assert LinksAgree(g, c1) && LinksAgree(g, c2);
    if y == c1 && y != c2 {
      DescendantParent(g, c2, y);
      DescendantsBelow(g, c2);
      assert false;
    } else if y == c2 && y != c1 {
      DescendantParent(g, c1, y);
      DescendantsBelow(g, c1);
      assert false;
    } else if y != c1 && y != c2 {
      DescendantParent(g, c1, y);
      DescendantParent(g, c2, y);
      DescendantsBelow(g, c1);
      assert LinksAgree(g, y);
      SameSubtree(g, c1, c2, g[y].visualParent.value);
    }
  }

  /** Each element of the walk appears exactly once, and `x` itself never does. */
  lemma {:induction false} DescendantsDistinct(g: UiGraph, x: Node)
    requires WellFormed(g) && x in g
    ensures Distinct(Descendants(g, x))
    ensures x !in Descendants(g, x)
    decreases g[x].height
  {
    var bs := Blocks(g, x);
    var cs := g[x].children;
    DescendantsBelow(g, x);
    forall i | 0 <= i < |bs|
      ensures Distinct(bs[i])
    {
      ChildLinks(g, x, i);
      DescendantsDistinct(g, cs[i]);
      DistinctAppend([cs[i]], Descendants(g, cs[i]));
    }
    forall i, j, y | 0 <= i < j < |bs| && y in bs[i]
      ensures y !in bs[j]
    {
      if y in bs[j] {
        ChildLinks(g, x, i);
        ChildLinks(g, x, j);
        assert LinksAgree(g, x);
        SameSubtree(g, cs[i], cs[j], y);
        assert false;
      }
    }
    ConcatDistinct(bs);
  }

  /** `a` is reached from `y` by following visual parents. */
  predicate VisualAncestor(g: UiGraph, a: Node, y: Node)
    requires WellFormed(g) && y in g
    decreases g[y].depth
  {
    assert LinksAgree(g, y);
    g[y].visualParent.Some? &&
    (g[y].visualParent.value == a || VisualAncestor(g, a, g[y].visualParent.value))
  }

  lemma {:induction false} DescendantsTransitive(g: UiGraph, x: Node, p: Node, y: Node)
    requires WellFormed(g) && x in g
    requires p in Descendants(g, x) && y in Descendants(g, p)
    ensures y in Descendants(g, x)
    decreases g[x].height
  {
    var bs := Blocks(g, x);
    ConcatMember(bs, p);
    var i :| 0 <= i < |bs| && p in bs[i];
    ChildLinks(g, x, i);
    var c := g[x].children[i];
    if p != c {
      DescendantsTransitive(g, c, p, y);
    }
    assert y in bs[i];
    DescendantOfChild(g, x, i, y);
  }

  /** Completeness: the walk below `x` holds exactly the elements whose chain
      of visual parents reaches `x`. */
  lemma {:induction false} DescendantsExactly(g: UiGraph, x: Node, y: Node)
    requires WellFormed(g) && x in g && y in g
    ensures y in Descendants(g, x) <==> VisualAncestor(g, x, y)
    decreases g[y].depth
  {
    assert LinksAgree(g, y);
    if y in Descendants(g, x) {
      DescendantParent(g, x, y);
      var p := g[y].visualParent.value;
      if p != x {
        DescendantsExactly(g, x, p);
      }
    }
    if VisualAncestor(g, x, y) {
      var p := g[y].visualParent.value;
      var k :| 0 <= k < |g[p].children| && g[p].children[k] == y;
      ChildIsDescendant(g, p, k);
      if p != x {
        DescendantsExactly(g, x, p);
        DescendantsTransitive(g, x, p, y);
      }
    }
  }

  /** Walking down and climbing back agree: `x` is among the `GetParents` of
      every element of its walk. */
  lemma {:induction false} DescendantHasAncestor(g: UiGraph, x: Node, y: Node)
    requires WellFormed(g) && x in g && y in Descendants(g, x)
    ensures x in Ancestors(g, y)
    decreases g[y].depth
  {
    DescendantParent(g, x, y);
    assert LinksAgree(g, y);
    var p := g[y].visualParent.value;
    assert Ancestors(g, y) == [p] + Ancestors(g, p);
    if p != x {
      DescendantHasAncestor(g, x, p);
    }
  }

  // ---------------------------------------------------------------------
  // Selections by type
  // ---------------------------------------------------------------------

  /** `OfType<T>()`: the elements of `s` that are a `t`, in order. */
  function OfType(g: UiGraph, s: seq<Node>, t: TypeName): (r: seq<Node>)
    requires forall y :: y in s ==> y in g
    ensures forall y :: y in r <==> y in s && IsA(g, y, t)
  {
    if |s| == 0 then []
    else (if IsA(g, s[0], t) then [s[0]] else []) + OfType(g, s[1..], t)
  }

  /** `OfType` keeps the order and multiplicity of its input: filtering a
      concatenation concatenates the filtered parts. */
  lemma {:induction false} OfTypeAppend(g: UiGraph, a: seq<Node>, b: seq<Node>, t: TypeName)
    requires forall y :: y in a ==> y in g
    requires forall y :: y in b ==> y in g
    ensures OfType(g, a + b, t) == OfType(g, a, t) + OfType(g, b, t)
    decreases |a|
  {
    if |a| == 0 {
      assert a + b == b;
    } else {
      TailAppend(a, b);
      OfTypeAppend(g, a[1..], b, t);
    }
  }

  /** A single element is kept exactly when it is a `t`. */
  lemma OfTypeSingle(g: UiGraph, y: Node, t: TypeName)
    requires y in g
    ensures OfType(g, [y], t) == if IsA(g, y, t) then [y] else []
  {
    assert [y][1..] == [];
  }

  /** Filtering a non-empty sequence filters its front, then keeps its last
      element exactly when that is a `t`. */
  lemma OfTypeSnoc(g: UiGraph, s: seq<Node>, t: TypeName)
    requires |s| > 0 && forall y :: y in s ==> y in g
    ensures var init, last := s[..|s| - 1], s[|s| - 1];
      OfType(g, s, t) == OfType(g, init, t) + (if IsA(g, last, t) then [last] else [])
  {
    var init, last := s[..|s| - 1], s[|s| - 1];
    SplitLast(s);
    OfTypeAppend(g, init, [last], t);
    OfTypeSingle(g, last, t);
  }

  /** Filtering a duplicate-free sequence gives a duplicate-free sequence. */
  lemma {:induction false} OfTypeDistinct(g: UiGraph, s: seq<Node>, t: TypeName)
    requires forall y :: y in s ==> y in g
    requires Distinct(s)
    ensures Distinct(OfType(g, s, t))
    decreases |s|
  {
    if |s| > 0 {
      var rest := s[1..];
      assert Distinct(rest) by {
        forall i, j | 0 <= i < j < |rest|
          ensures rest[i] != rest[j]
        {
          assert rest[i] == s[i + 1] && rest[j] == s[j + 1];
        }
      }
      OfTypeDistinct(g, rest, t);
      var head := if IsA(g, s[0], t) then [s[0]] else [];
      forall y | y in head
        ensures y !in OfType(g, rest, t)
      {
        assert y == s[0] && y !in rest;
      }
      DistinctAppend(head, OfType(g, rest, t));
    }
  }

  /** `FirstOrDefault()`. */
  function FirstOrDefault(s: seq<Node>): Option<Node>
  {
    if |s| == 0 then None else Some(s[0])
  }

  /** `LastOrDefault()`. */
  function LastOrDefault(s: seq<Node>): Option<Node>
  {
    if |s| == 0 then None else Some(s[|s| - 1])
  }

  /** `r` is the first element of `s` that is a `t`, or null when there is none. */
  predicate IsFirstOfType(g: UiGraph, s: seq<Node>, t: TypeName, r: Option<Node>)
    requires forall y :: y in s ==> y in g
  {
    match r
    case None => forall i :: 0 <= i < |s| ==> !IsA(g, s[i], t)
    case Some(x) =>
      exists i :: 0 <= i < |s| && s[i] == x && IsA(g, x, t) && forall j :: 0 <= j < i ==> !IsA(g, s[j], t)
  }

  /** `r` is the last element of `s` that is a `t`, or null when there is none. */
  predicate IsLastOfType(g: UiGraph, s: seq<Node>, t: TypeName, r: Option<Node>)
    requires forall y :: y in s ==> y in g
  {
    match r
    case None => forall i :: 0 <= i < |s| ==> !IsA(g, s[i], t)
    case Some(x) =>
      exists i :: 0 <= i < |s| && s[i] == x && IsA(g, x, t) && forall j :: i < j < |s| ==> !IsA(g, s[j], t)
  }

  lemma {:induction false} FirstOfTypeSelects(g: UiGraph, s: seq<Node>, t: TypeName)
    requires forall y :: y in s ==> y in g
    ensures IsFirstOfType(g, s, t, FirstOrDefault(OfType(g, s, t)))
    decreases |s|
  {
    if |s| > 0 && !IsA(g, s[0], t) {
      FirstOfTypeSelects(g, s[1..], t);
      var f := FirstOrDefault(OfType(g, s[1..], t));
      if f.Some? {
        var i :| 0 <= i < |s[1..]| && s[1..][i] == f.value && IsA(g, f.value, t) &&
                 forall j :: 0 <= j < i ==> !IsA(g, s[1..][j], t);
        assert s[i + 1] == f.value;
        forall j | 0 <= j < i + 1
          ensures !IsA(g, s[j], t)
        {
          if j > 0 {
            assert s[j] == s[1..][j - 1];
          }
        }
      } else {
        forall i | 0 <= i < |s|
          ensures !IsA(g, s[i], t)
        {
          if i > 0 {
            assert s[i] == s[1..][i - 1];
          }
        }
      }
    } else if |s| > 0 {
      assert OfType(g, s, t)[0] == s[0];
    }
  }

  /** Appending an element that is not a `t` keeps the last `t`. */
  lemma LastOfTypeSkips(g: UiGraph, s: seq<Node>, t: TypeName, r: Option<Node>)
    requires |s| > 0 && forall y :: y in s ==> y in g
    requires !IsA(g, s[|s| - 1], t)
    requires IsLastOfType(g, s[..|s| - 1], t, r)
    ensures IsLastOfType(g, s, t, r)
  {
    var init := s[..|s| - 1];
    match r
    case None =>
      forall i | 0 <= i < |s|
        ensures !IsA(g, s[i], t)
      {
        if i < |init| {
          assert s[i] == init[i];
        }
      }
    case Some(x) =>
      var i :| 0 <= i < |init| && init[i] == x && IsA(g, x, t) &&
               forall j :: i < j < |init| ==> !IsA(g, init[j], t);
      forall j | i < j < |s|
        ensures !IsA(g, s[j], t)
      {
        if j < |init| {
          assert s[j] == init[j];
        }
      }
      assert s[i] == x;
  }

  lemma {:induction false} LastOfTypeSelects(g: UiGraph, s: seq<Node>, t: TypeName)
    requires forall y :: y in s ==> y in g
    ensures IsLastOfType(g, s, t, LastOrDefault(OfType(g, s, t)))
    decreases |s|
  {
    if |s| > 0 {
      var init, last := s[..|s| - 1], s[|s| - 1];
      OfTypeSnoc(g, s, t);
      if IsA(g, last, t) {
        assert LastOrDefault(OfType(g, s, t)) == Some(last);
        assert s[|s| - 1] == last && IsA(g, last, t);
      } else {
        LastOfTypeSelects(g, init, t);
        assert OfType(g, s, t) == OfType(g, init, t);
        LastOfTypeSkips(g, s, t, LastOrDefault(OfType(g, init, t)));
      }
    }
  }




  /** `ParentOfType<T>`: the nearest ancestor that is a `t`; null for a null element or when there is none. */
  function ParentOfType(g: UiGraph, element: Option<Node>, t: TypeName): (r: Option<Node>)
    requires WellFormed(g) && (element.Some? ==> element.value in g)
    ensures element.None? ==> r.None?
    ensures element.Some? ==> IsFirstOfType(g, Ancestors(g, element.value), t, r)
  {
    if element.None? then None
    else
      var a := Ancestors(g, element.value);
      assert IsFirstOfType(g, a, t, FirstOrDefault(OfType(g, a, t))) by {
        FirstOfTypeSelects(g, a, t);
      }
      FirstOrDefault(OfType(g, a, t))
  }

  /** `ChildrenOfType<T>`: the elements of the walk that are a `t`, in walk order. */
  function ChildrenOfType(g: UiGraph, element: Option<Node>, t: TypeName): (r: Result<seq<Node>, ArgumentError>)
    requires WellFormed(g) && (element.Some? ==> element.value in g)
    ensures element.None? ==> r == Failure(ArgumentNull("element"))
    ensures element.Some? ==>
      && r.Success?
      && forall y :: y in r.value <==> y in Descendants(g, element.value) && IsA(g, y, t)
  {
    if element.None? then Failure(ArgumentNull("element"))
    else Success(OfType(g, Descendants(g, element.value), t))
  }

  /** `FindFirstChildByType<T>`: the first element of the walk that is a `t`. */
  function FindFirstChildByType(g: UiGraph, element: Option<Node>, t: TypeName): (r: Result<Option<Node>, ArgumentError>)
    requires WellFormed(g) && (element.Some? ==> element.value in g)
    ensures element.None? ==> r == Failure(ArgumentNull("element"))
    ensures element.Some? ==> r.Success? && IsFirstOfType(g, Descendants(g, element.value), t, r.value)
  {
    match ChildrenOfType(g, element, t)
    case Failure(e) => Failure(e)
    case Success(matches) =>
      var d := Descendants(g, element.value);
      assert IsFirstOfType(g, d, t, FirstOrDefault(OfType(g, d, t))) by {
        FirstOfTypeSelects(g, d, t);
      }
      Success(FirstOrDefault(matches))
  }

  /** `FindLastChildByType<T>`: the last element of the walk that is a `t`. */
  function FindLastChildByType(g: UiGraph, element: Option<Node>, t: TypeName): (r: Result<Option<Node>, ArgumentError>)
    requires WellFormed(g) && (element.Some? ==> element.value in g)
    ensures element.None? ==> r == Failure(ArgumentNull("element"))
    ensures element.Some? ==> r.Success? && IsLastOfType(g, Descendants(g, element.value), t, r.value)
  {
    match ChildrenOfType(g, element, t)
    case Failure(e) => Failure(e)
    case Success(matches) =>
      var d := Descendants(g, element.value);
      assert IsLastOfType(g, d, t, LastOrDefault(OfType(g, d, t))) by {
        LastOfTypeSelects(g, d, t);
      }
      Success(LastOrDefault(matches))
  }
}
