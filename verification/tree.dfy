/**
  The shape of a tag tree as the editor sees it: flattenTags lists the
  nodes in pre-order, and the editor's selection is a row of that list.  A
  node is reached and replaced by its row; the shared pointer the source
  edits in place becomes a rebuild of the path from the root to that row.
 */
module Tree {
  import opened Wrappers
  import opened Seqs
  import opened Tags

  // ------------------------------------------------------------ size

  /**
    The number of nodes flattenTags visits from t: a compound's map entries
    and a list's elements are followed, nothing else.
   */
  function Size(t: Tag): (r: nat)
    ensures r >= 1
    decreases t
  {
    1 + match t.kind
      case Compound => EntriesSize(t.value.compoundVal)
      case List => ListSize(t.value.listVal)
      case _ => 0
  }

  function ListSize(ts: seq<Tag>): nat
    decreases ts
  {
    if ts == [] then 0 else Size(ts[0]) + ListSize(ts[1..])
  }

  function EntriesSize(es: seq<Entry>): nat
    decreases es
  {
    if es == [] then 0 else Size(es[0].tag) + EntriesSize(es[1..])
  }

  /** The children of a compound, in key order. */
  function TagsOf(es: seq<Entry>): (ts: seq<Tag>)
    ensures |ts| == |es|
    ensures forall k :: 0 <= k < |es| ==> ts[k] == es[k].tag
  {
    if es == [] then [] else [es[0].tag] + TagsOf(es[1..])
  }

  /** The children flattenTags descends into: map entries in key order, or list elements in index order. */
  function Children(t: Tag): seq<Tag>
  {
    match t.kind
    case Compound => TagsOf(t.value.compoundVal)
    case List => t.value.listVal
    case _ => []
  }

  lemma {:induction false} EntriesSizeIsListSize(es: seq<Entry>)
    ensures EntriesSize(es) == ListSize(TagsOf(es))
  {
    if es != [] {
      ConsParts(es[0].tag, TagsOf(es[1..]));
      EntriesSizeIsListSize(es[1..]);
    }
  }

  lemma ChildrenSize(t: Tag)
    ensures Size(t) == 1 + ListSize(Children(t))
  {
    if t.kind == Compound {
      EntriesSizeIsListSize(t.value.compoundVal);
    }
  }

  lemma {:induction false} ListSizeAppend(a: seq<Tag>, b: seq<Tag>)
    ensures ListSize(a + b) == ListSize(a) + ListSize(b)
  {
    AppendParts(a, b);
    if a != [] {
      ListSizeAppend(a[1..], b);
    }
  }

  lemma ListSizeElement(ts: seq<Tag>, k: nat)
    requires k < |ts|
    ensures ListSize(ts[..k]) + Size(ts[k]) <= ListSize(ts)
  {
    SplitAt(ts, k);
    ListSizeAppend(ts[..k], ts[k..]);
  }

  /** Every child is strictly smaller than its parent. */
  lemma ChildrenSmaller(t: Tag)
    ensures forall k :: 0 <= k < |Children(t)| ==> Size(Children(t)[k]) < Size(t)
  {
    ChildrenSize(t);
    forall k | 0 <= k < |Children(t)| ensures Size(Children(t)[k]) < Size(t) {
      ListSizeElement(Children(t), k);
    }
  }

  // ------------------------------------------------------------ flatten

  /** flattenTags: the node itself, then each child's subtree in child order. */
  function Flatten(t: Tag): seq<Tag>
    decreases Size(t), 0
  {
    ChildrenSize(t);
    [t] + FlattenList(Children(t))
  }

  /** The loop over a compound's entries or a list's elements in flattenTags. */
  function FlattenList(ts: seq<Tag>): seq<Tag>
    decreases ListSize(ts), 1
  {
    if ts == [] then [] else Flatten(ts[0]) + FlattenList(ts[1..])
  }

  /** refreshTagList: a null root yields no rows. */
  function FlattenRoot(root: Option<Tag>): seq<Tag>
  {
    match root
    case None => []
    case Some(t) => Flatten(t)
  }

  /** flattenTags visits one row per node, and the root comes first. */
  lemma {:induction false} FlattenLength(t: Tag)
    ensures |Flatten(t)| == Size(t)
    ensures Flatten(t)[0] == t
    decreases Size(t), 0
  {
    ChildrenSize(t);
    FlattenListLength(Children(t));
  }

  lemma {:induction false} FlattenListLength(ts: seq<Tag>)
    ensures |FlattenList(ts)| == ListSize(ts)
    decreases ListSize(ts), 1
  {
    if ts != [] {
      FlattenLength(ts[0]);
      FlattenListLength(ts[1..]);
    }
  }

  /** refreshTagList: no rows for a null root, otherwise one row per node with the root first. */
  lemma RefreshRows(root: Option<Tag>)
    ensures root.None? ==> FlattenRoot(root) == []
    ensures root.Some? ==> |FlattenRoot(root)| == Size(root.value) && FlattenRoot(root)[0] == root.value
  {
    if root.Some? {
      FlattenLength(root.value);
    }
  }

  lemma {:induction false} FlattenListAppend(a: seq<Tag>, b: seq<Tag>)
    ensures FlattenList(a + b) == FlattenList(a) + FlattenList(b)
  {
    AppendParts(a, b);
    if a != [] {
      FlattenListAppend(a[1..], b);
      ConcatRegroup(Flatten(a[0]), FlattenList(a[1..]), FlattenList(b));
    }
  }

  /** The row at which the subtree of t's k-th child starts. */
  function ChildRow(t: Tag, k: nat): nat
    requires k <= |Children(t)|
  {
    1 + ListSize(Children(t)[..k])
  }

  /** The sizes of the elements before k, then of element k, add up to the size before k + 1. */
  lemma ListSizeBlock(cs: seq<Tag>, k: nat)
    requires k < |cs|
    ensures ListSize(cs[..k]) + Size(cs[k]) == ListSize(cs[..k + 1]) <= ListSize(cs)
  {
    var a, c, b := cs[..k], cs[k], cs[k + 1..];
    SplitAround(cs, k);
    assert ListSize([c]) == Size(c);
    ListSizeAppend(a, [c]);
    ListSizeAppend(a + [c], b);
  }

  /** FlattenList splits around element k. */
  lemma FlattenListSplit(cs: seq<Tag>, k: nat)
    requires k < |cs|
    ensures FlattenList(cs) == FlattenList(cs[..k]) + Flatten(cs[k]) + FlattenList(cs[k + 1..])
  {
    var a, c, b := cs[..k], cs[k], cs[k + 1..];
    SplitAround(cs, k);
    FlattenListAppend(a, [c] + b);
    FlattenListCons(c, b);
    ConcatRegroup(FlattenList(a), Flatten(c), FlattenList(b));
  }

  /** The k-th element's subtree occupies a contiguous block of FlattenList's rows. */
  lemma FlattenListBlock(cs: seq<Tag>, k: nat)
    requires k < |cs|
    ensures ListSize(cs[..k]) + Size(cs[k]) == ListSize(cs[..k + 1]) <= ListSize(cs) == |FlattenList(cs)|
    ensures FlattenList(cs)[ListSize(cs[..k])..ListSize(cs[..k + 1])] == Flatten(cs[k])
  {
    ListSizeBlock(cs, k);
    FlattenListLength(cs);
    FlattenListSplit(cs, k);
    FlattenListLength(cs[..k]);
    FlattenLength(cs[k]);
    SliceMiddle(FlattenList(cs[..k]), Flatten(cs[k]), FlattenList(cs[k + 1..]));
  }

  /**
    The k-th child's subtree occupies a contiguous block of rows starting
    at ChildRow(t, k), and the blocks follow each other in child order.
   */
  lemma FlattenChildBlock(t: Tag, k: nat)
    requires k < |Children(t)|
    ensures |Flatten(t)| == Size(t)
    ensures ChildRow(t, k) + Size(Children(t)[k]) == ChildRow(t, k + 1) <= Size(t)
    ensures Flatten(t)[ChildRow(t, k)..ChildRow(t, k + 1)] == Flatten(Children(t)[k])
  {
    var cs := Children(t);
    ChildrenSize(t);
    FlattenListBlock(cs, k);
    FlattenLength(t);
    var lo, hi := ListSize(cs[..k]), ListSize(cs[..k + 1]);
    assert ChildRow(t, k) == 1 + lo && ChildRow(t, k + 1) == 1 + hi;
    SliceAfterHead(Flatten(t), t, FlattenList(cs), lo, hi, Flatten(cs[k]), ChildRow(t, k), ChildRow(t, k + 1));
  }

  /** Children that come later in the map or list come later in the flattened rows. */
  lemma FlattenChildOrder(t: Tag, j: nat, k: nat)
    requires j < k < |Children(t)|
    ensures ChildRow(t, j) + Size(Children(t)[j]) <= ChildRow(t, k) < |Flatten(t)|
    ensures Flatten(t)[ChildRow(t, j)] == Children(t)[j]
    ensures Flatten(t)[ChildRow(t, k)] == Children(t)[k]
  {
    var cs := Children(t);
    FlattenChildBlock(t, j);
    FlattenChildBlock(t, k);
    FlattenLength(cs[j]);
    FlattenLength(cs[k]);
    PrefixSplit(cs, j + 1, k);
    ListSizeAppend(cs[..j + 1], cs[j + 1..k]);
    assert Flatten(t)[ChildRow(t, j)] == Flatten(t)[ChildRow(t, j)..ChildRow(t, j + 1)][0];
    assert Flatten(t)[ChildRow(t, k)] == Flatten(t)[ChildRow(t, k)..ChildRow(t, k + 1)][0];
  }

  // ------------------------------------------------------------ membership

  /** x is t or a node of one of t's children's subtrees. */
  predicate Contains(t: Tag, x: Tag)
    decreases Size(t)
  {
    ChildrenSmaller(t);
    x == t || exists k :: 0 <= k < |Children(t)| && Contains(Children(t)[k], x)
  }

  /** The flattened rows are exactly the nodes of the tree. */
  lemma {:induction false} FlattenMembers(t: Tag, x: Tag)
    ensures x in Flatten(t) <==> Contains(t, x)
    decreases Size(t), 0
  {
    ChildrenSize(t);
    FlattenListMembers(Children(t), x);
  }

  lemma {:induction false} FlattenListMembers(ts: seq<Tag>, x: Tag)
    ensures x in FlattenList(ts) <==> exists k :: 0 <= k < |ts| && Contains(ts[k], x)
    decreases ListSize(ts), 1
  {
    if ts != [] {
      FlattenMembers(ts[0], x);
      FlattenListMembers(ts[1..], x);
      if exists k :: 0 <= k < |ts| && Contains(ts[k], x) {
        var k :| 0 <= k < |ts| && Contains(ts[k], x);
        if k > 0 {
          assert ts[1..][k - 1] == ts[k];
        }
      }
      if exists k :: 0 <= k < |ts[1..]| && Contains(ts[1..][k], x) {
        var k :| 0 <= k < |ts[1..]| && Contains(ts[1..][k], x);
        assert ts[k + 1] == ts[1..][k];
      }
    }
  }

  // ------------------------------------------------------------ rows

  /** The node at a row of the flattened list (flatTagList[row]). */
  function NodeAt(t: Tag, i: nat): Tag
    requires i < Size(t)
    decreases Size(t), 0
  {
    if i == 0 then t
    else
      ChildrenSize(t);
      NodeAtList(Children(t), i - 1)
  }

  function NodeAtList(ts: seq<Tag>, i: nat): Tag
    requires i < ListSize(ts)
    decreases ListSize(ts), 1
  {
    if i < Size(ts[0]) then NodeAt(ts[0], i) else NodeAtList(ts[1..], i - Size(ts[0]))
  }

  /** t with its reachable children replaced by cs, keys and all other fields kept. */
  function WithChildren(t: Tag, cs: seq<Tag>): (r: Tag)
    requires |cs| == |Children(t)|
    ensures Children(r) == cs
    ensures r.kind == t.kind && r.name == t.name
  {
    match t.kind
    case Compound => t.(value := t.value.(compoundVal := Rekey(t.value.compoundVal, cs)))
    case List => t.(value := t.value.(listVal := cs))
    case _ => t
  }

  /** The entries es with their tags replaced by cs, keys unchanged. */
  function Rekey(es: seq<Entry>, cs: seq<Tag>): (r: seq<Entry>)
    requires |cs| == |es|
    ensures |r| == |es|
    ensures forall k :: 0 <= k < |r| ==> r[k] == Entry(es[k].key, cs[k])
  {
    seq(|es|, k requires 0 <= k < |es| => Entry(es[k].key, cs[k]))
  }

  /** Replace the subtree at row i by n: the selected node is edited in place. */
  function UpdateAt(t: Tag, i: nat, n: Tag): Tag
    requires i < Size(t)
    decreases Size(t), 0
  {
    if i == 0 then n
    else
      ChildrenSize(t);
      var cs := UpdateList(Children(t), i - 1, n);
      WithChildren(t, cs)
  }

  function UpdateList(ts: seq<Tag>, i: nat, n: Tag): (r: seq<Tag>)
    requires i < ListSize(ts)
    ensures |r| == |ts|
    decreases ListSize(ts), 1
  {
    if i < Size(ts[0]) then [UpdateAt(ts[0], i, n)] + ts[1..]
    else [ts[0]] + UpdateList(ts[1..], i - Size(ts[0]), n)
  }

  // ------------------------------------------------------------ heads

  /** t with its children dropped: kind, name and every payload that is not a subtree. */
  function Head(t: Tag): Tag
  {
    t.(value := t.value.(listVal := [], compoundVal := []))
  }

  /** The keys of a compound's entries in map order; no keys for any other kind. */
  function ChildKeys(t: Tag): (r: seq<string>)
    ensures t.kind == Compound ==> |r| == |t.value.compoundVal|
    ensures t.kind == Compound ==> forall k :: 0 <= k < |r| ==> r[k] == t.value.compoundVal[k].key
  {
    if t.kind == Compound then EntryKeys(t.value.compoundVal) else []
  }

  function EntryKeys(es: seq<Entry>): (r: seq<string>)
    ensures |r| == |es|
    ensures forall k :: 0 <= k < |r| ==> r[k] == es[k].key
  {
    if es == [] then [] else [es[0].key] + EntryKeys(es[1..])
  }

  /**
    a and b agree apart from their subtrees: same kind, name and payload,
    the same number of children and, for a compound, the same keys.
   */
  predicate SameHead(a: Tag, b: Tag)
  {
    Head(a) == Head(b) && |Children(a)| == |Children(b)| && ChildKeys(a) == ChildKeys(b)
  }

  predicate HeadsMatch(xs: seq<Tag>, ys: seq<Tag>)
  {
    |xs| == |ys| && forall j :: 0 <= j < |xs| ==> SameHead(xs[j], ys[j])
  }

  /**
    The rows g are the rows f with the m rows from i on replaced by sub:
    the rows before i keep their heads and the rows after the replaced
    run are unchanged.
   */
  predicate Replaced(g: seq<Tag>, f: seq<Tag>, i: nat, m: nat, sub: seq<Tag>)
  {
    && i + m <= |f| && i + |sub| <= |g|
    && HeadsMatch(g[..i], f[..i])
    && g[i..i + |sub|] == sub
    && g[i + |sub|..] == f[i + m..]
  }

  /** Swapping the children of t keeps its head. */
  lemma HeadWithChildren(t: Tag, cs: seq<Tag>)
    requires |cs| == |Children(t)|
    ensures SameHead(WithChildren(t, cs), t)
  {
    var w := WithChildren(t, cs);
    if t.kind == Compound {
      assert ChildKeys(w) == ChildKeys(t);
    }
  }

  lemma HeadsMatchAppend(a': seq<Tag>, a: seq<Tag>, b': seq<Tag>, b: seq<Tag>)
    requires HeadsMatch(a', a) && HeadsMatch(b', b)
    ensures HeadsMatch(a' + b', a + b)
  {
    forall j | 0 <= j < |a' + b'| ensures SameHead((a' + b')[j], (a + b)[j]) {
      AppendIndex(a', b', j);
      AppendIndex(a, b, j);
      if j < |a'| {
        assert SameHead(a'[j], a[j]);
      } else {
        assert SameHead(b'[j - |a'|], b[j - |a'|]);
      }
    }
  }

  lemma HeadsMatchReflexive(xs: seq<Tag>)
    ensures HeadsMatch(xs, xs)
  {
  }

  // ------------------------------------------------------------ splice

  /**
    The rows of t split around row i: the rows before it, the subtree at it,
    the rows after it.  Replacing that subtree by n changes the rows before
    only below their own heads, swaps the subtree's rows for n's, and leaves
    the rows after untouched.
   */
  lemma {:induction false} UpdateAtSplit(t: Tag, i: nat, n: Tag) returns (pre: seq<Tag>, pre': seq<Tag>, post: seq<Tag>)
    requires i < Size(t)
    ensures |pre| == i && HeadsMatch(pre', pre)
    ensures Flatten(t) == pre + Flatten(NodeAt(t, i)) + post
    ensures Flatten(UpdateAt(t, i, n)) == pre' + Flatten(n) + post
    decreases Size(t), 0
  {
    if i == 0 {
      pre, pre', post := [], [], [];
    } else {
      ChildrenSize(t);
      var p, p', q := UpdateListSplit(Children(t), i - 1, n);
      SplitInChildren(t, i, n, p, p', q);
      pre, pre', post := [t] + p, [UpdateAt(t, i, n)] + p', q;
    }
  }

  /** The step of UpdateAtSplit below the root. */
  lemma SplitInChildren(t: Tag, i: nat, n: Tag, p: seq<Tag>, p': seq<Tag>, q: seq<Tag>)
    requires 0 < i < Size(t) == 1 + ListSize(Children(t))
    requires |p| == i - 1 && HeadsMatch(p', p)
    requires FlattenList(Children(t)) == p + Flatten(NodeAtList(Children(t), i - 1)) + q
    requires FlattenList(UpdateList(Children(t), i - 1, n)) == p' + Flatten(n) + q
    ensures |[t] + p| == i && HeadsMatch([UpdateAt(t, i, n)] + p', [t] + p)
    ensures Flatten(t) == [t] + p + Flatten(NodeAt(t, i)) + q
    ensures Flatten(UpdateAt(t, i, n)) == [UpdateAt(t, i, n)] + p' + Flatten(n) + q
  {
    var cs := Children(t);
    var cs' := UpdateList(cs, i - 1, n);
    var w := WithChildren(t, cs');
    assert UpdateAt(t, i, n) == w;
    assert NodeAt(t, i) == NodeAtList(cs, i - 1);
    assert Flatten(t) == [t] + FlattenList(cs);
    assert Children(w) == cs';
    assert Flatten(w) == [w] + FlattenList(cs');
    ConcatAssoc(p, Flatten(NodeAtList(cs, i - 1)), q, [t]);
    ConcatAssoc(p', Flatten(n), q, [w]);
    HeadWithChildren(t, cs');
    HeadsMatchAppend([w], [t], p', p);
  }

  lemma {:induction false} UpdateListSplit(ts: seq<Tag>, i: nat, n: Tag) returns (pre: seq<Tag>, pre': seq<Tag>, post: seq<Tag>)
    requires i < ListSize(ts)
    ensures |pre| == i && HeadsMatch(pre', pre)
    ensures FlattenList(ts) == pre + Flatten(NodeAtList(ts, i)) + post
    ensures FlattenList(UpdateList(ts, i, n)) == pre' + Flatten(n) + post
    decreases ListSize(ts), 1
  {
    if i < Size(ts[0]) {
      var a, a', b := UpdateAtSplit(ts[0], i, n);
      SplitInHead(ts, i, n, a, a', b);
      pre, pre', post := a, a', b + FlattenList(ts[1..]);
    } else {
      var a, a', b := UpdateListSplit(ts[1..], i - Size(ts[0]), n);
      SplitInTail(ts, i, n, a, a', b);
      pre, pre', post := Flatten(ts[0]) + a, Flatten(ts[0]) + a', b;
    }
  }

  lemma FlattenListCons(c: Tag, r: seq<Tag>)
    ensures FlattenList([c] + r) == Flatten(c) + FlattenList(r)
  {
    ConsParts(c, r);
  }

  /** The step of UpdateListSplit when row i lies in the first element's subtree. */
  lemma SplitInHead(ts: seq<Tag>, i: nat, n: Tag, a: seq<Tag>, a': seq<Tag>, b: seq<Tag>)
    requires ts != [] && i < Size(ts[0]) <= ListSize(ts)
    requires Flatten(ts[0]) == a + Flatten(NodeAt(ts[0], i)) + b
    requires Flatten(UpdateAt(ts[0], i, n)) == a' + Flatten(n) + b
    ensures FlattenList(ts) == a + Flatten(NodeAtList(ts, i)) + (b + FlattenList(ts[1..]))
    ensures FlattenList(UpdateList(ts, i, n)) == a' + Flatten(n) + (b + FlattenList(ts[1..]))
  {
    var c, r := ts[0], ts[1..];
    ConsSplit(ts);
    FlattenListCons(c, r);
    assert UpdateList(ts, i, n) == [UpdateAt(c, i, n)] + r;
    FlattenListCons(UpdateAt(c, i, n), r);
    ConcatAssoc(a, Flatten(NodeAt(c, i)), b, FlattenList(r));
    ConcatAssoc(a', Flatten(n), b, FlattenList(r));
  }

  /** The step of UpdateListSplit when row i lies past the first element's subtree. */
  lemma SplitInTail(ts: seq<Tag>, i: nat, n: Tag, a: seq<Tag>, a': seq<Tag>, b: seq<Tag>)
    requires ts != [] && Size(ts[0]) <= i < ListSize(ts)
    requires |a| == i - Size(ts[0]) && HeadsMatch(a', a)
    requires FlattenList(ts[1..]) == a + Flatten(NodeAtList(ts[1..], i - Size(ts[0]))) + b
    requires FlattenList(UpdateList(ts[1..], i - Size(ts[0]), n)) == a' + Flatten(n) + b
    ensures |Flatten(ts[0]) + a| == i && HeadsMatch(Flatten(ts[0]) + a', Flatten(ts[0]) + a)
    ensures FlattenList(ts) == Flatten(ts[0]) + a + Flatten(NodeAtList(ts, i)) + b
    ensures FlattenList(UpdateList(ts, i, n)) == Flatten(ts[0]) + a' + Flatten(n) + b
  {
    var c, r := ts[0], ts[1..];
    var r' := UpdateList(r, i - Size(c), n);
    assert FlattenList(ts) == Flatten(c) + FlattenList(r);
    assert UpdateList(ts, i, n) == [c] + r';
    FlattenListCons(c, r');
    ConcatAssoc(a, Flatten(NodeAtList(r, i - Size(c))), b, Flatten(c));
    ConcatAssoc(a', Flatten(n), b, Flatten(c));
    FlattenLength(c);
    HeadsMatchReflexive(Flatten(c));
    HeadsMatchAppend(Flatten(c), Flatten(c), a', a);
  }

  /** NodeAt(t, i) is row i of flattenTags' output. */
  lemma NodeAtIsRow(t: Tag, i: nat)
    requires i < Size(t)
    ensures i < |Flatten(t)| && Flatten(t)[i] == NodeAt(t, i)
  {
    var pre, pre', post := UpdateAtSplit(t, i, t);
    FlattenLength(NodeAt(t, i));
    assert Flatten(t)[i] == Flatten(NodeAt(t, i))[0];
  }

  /**
    Replacing the node at row i by n: every row before i keeps its head,
    rows i onwards are n's subtree followed by the rows that followed the
    prev subtree, and the node count changes by the difference in size.
   */
  lemma UpdateAtRows(t: Tag, i: nat, n: Tag)
    requires i < Size(t)
    ensures var f, g, m := Flatten(t), Flatten(UpdateAt(t, i, n)), Size(NodeAt(t, i));
      && i + m <= |f| == Size(t)
      && |g| == Size(UpdateAt(t, i, n)) == Size(t) - m + Size(n)
      && f[i..i + m] == Flatten(NodeAt(t, i))
      && HeadsMatch(g[..i], f[..i])
      && g[i..i + Size(n)] == Flatten(n)
      && g[i + Size(n)..] == f[i + m..]
  {
    var pre, pre', post := UpdateAtSplit(t, i, n);
    FlattenLength(t);
    FlattenLength(UpdateAt(t, i, n));
    FlattenLength(NodeAt(t, i));
    FlattenLength(n);
    var f, g := Flatten(t), Flatten(UpdateAt(t, i, n));
    var m := Size(NodeAt(t, i));
    assert f[..i] == pre && f[i..i + m] == Flatten(NodeAt(t, i)) && f[i + m..] == post;
    assert g[..i] == pre' && g[i..i + Size(n)] == Flatten(n) && g[i + Size(n)..] == post;
  }

  /**
    Replacing the node at row i by a node with the same children keeps the
    number of rows, puts n at row i, and leaves every other row's head as
    it was.
   */
  lemma UpdateKeepingChildren(t: Tag, i: nat, n: Tag)
    requires i < Size(t) && Children(n) == Children(NodeAt(t, i))
    ensures var f, g := Flatten(t), Flatten(UpdateAt(t, i, n));
      && |g| == |f| == Size(t)
      && g[i] == n && f[i] == NodeAt(t, i)
      && forall j :: 0 <= j < |g| && j != i ==> SameHead(g[j], f[j])
  {
    var prev := NodeAt(t, i);
    UpdateAtRows(t, i, n);
    NodeAtIsRow(t, i);
    SameChildrenSameRows(n, prev);
    FlattenLength(n);
    var f, g := Flatten(t), Flatten(UpdateAt(t, i, n));
    TailsAgree(f, g, i, Size(n), Flatten(prev), Flatten(n));
    RowsAgreeOutside(f, g, i);
  }

  /** Two nodes with the same children have the same rows below themselves. */
  lemma SameChildrenSameRows(a: Tag, b: Tag)
    requires Children(a) == Children(b)
    ensures Size(a) == Size(b) && Flatten(a)[1..] == Flatten(b)[1..]
  {
    ChildrenSize(a);
    ChildrenSize(b);
    assert Flatten(a)[1..] == FlattenList(Children(a));
    assert Flatten(b)[1..] == FlattenList(Children(b));
  }

  /** Rows that agree in head before i and exactly after i agree in head everywhere but i. */
  lemma RowsAgreeOutside(f: seq<Tag>, g: seq<Tag>, i: nat)
    requires i < |f| == |g|
    requires HeadsMatch(g[..i], f[..i])
    requires g[i + 1..] == f[i + 1..]
    ensures forall j :: 0 <= j < |g| && j != i ==> SameHead(g[j], f[j])
  {
    forall j | 0 <= j < |g| && j != i ensures SameHead(g[j], f[j]) {
      if j < i {
        assert g[..i][j] == g[j] && f[..i][j] == f[j];
      } else {
        assert g[i + 1..][j - i - 1] == g[j] && f[i + 1..][j - i - 1] == f[j];
      }
    }
  }

  // ------------------------------------------------------------ validity

  /** Every compound reachable from t keeps its entries in key order (the std::map invariant). */
  predicate Valid(t: Tag)
    decreases Size(t), 0
  {
    ChildrenSize(t);
    (t.kind == Compound ==> Sorted(t.value.compoundVal)) && AllValid(Children(t))
  }

  predicate AllValid(ts: seq<Tag>)
    decreases ListSize(ts), 1
  {
    ts == [] || (Valid(ts[0]) && AllValid(ts[1..]))
  }

  /** A sequence of tags is valid exactly when each of its tags is. */
  lemma {:induction false} AllValidIndex(ts: seq<Tag>)
    ensures AllValid(ts) <==> forall k :: 0 <= k < |ts| ==> Valid(ts[k])
  {
    if ts != [] {
      AllValidIndex(ts[1..]);
      assert forall k :: 0 <= k < |ts[1..]| ==> ts[1..][k] == ts[k + 1];
    }
  }

  /** Replacing a subtree of a valid tree by a valid tree leaves a valid tree. */
  lemma {:induction false} UpdateAtValid(t: Tag, i: nat, n: Tag)
    requires i < Size(t) && Valid(t) && Valid(n)
    ensures Valid(UpdateAt(t, i, n))
    decreases Size(t), 0
  {
    if i > 0 {
      ChildrenSize(t);
      var cs' := UpdateList(Children(t), i - 1, n);
      UpdateListValid(Children(t), i - 1, n);
      ValidWithChildren(t, cs');
    }
  }

  /** Giving a valid node valid children keeps it valid: its keys do not move. */
  lemma ValidWithChildren(t: Tag, cs: seq<Tag>)
    requires |cs| == |Children(t)| && Valid(t) && AllValid(cs)
    ensures Valid(WithChildren(t, cs))
  {
    var w := WithChildren(t, cs);
    ChildrenSize(w);
    if t.kind == Compound {
      var es := t.value.compoundVal;
      assert forall k :: 0 <= k < |es| ==> w.value.compoundVal[k].key == es[k].key;
    }
  }

  lemma {:induction false} UpdateListValid(ts: seq<Tag>, i: nat, n: Tag)
    requires i < ListSize(ts) && AllValid(ts) && Valid(n)
    ensures AllValid(UpdateList(ts, i, n))
    decreases ListSize(ts), 1
  {
    if i < Size(ts[0]) {
      UpdateAtValid(ts[0], i, n);
      AllValidCons(UpdateAt(ts[0], i, n), ts[1..]);
    } else {
      UpdateListValid(ts[1..], i - Size(ts[0]), n);
      AllValidCons(ts[0], UpdateList(ts[1..], i - Size(ts[0]), n));
    }
  }

  lemma AllValidCons(h: Tag, r: seq<Tag>)
    requires Valid(h) && AllValid(r)
    ensures AllValid([h] + r)
  {
    ConsParts(h, r);
  }

  /** The node at any row of a valid tree is valid. */
  lemma {:induction false} NodeAtValid(t: Tag, i: nat)
    requires i < Size(t) && Valid(t)
    ensures Valid(NodeAt(t, i))
    decreases Size(t), 0
  {
    if i > 0 {
      ChildrenSize(t);
      NodeAtListValid(Children(t), i - 1);
    }
  }

  lemma {:induction false} NodeAtListValid(ts: seq<Tag>, i: nat)
    requires i < ListSize(ts) && AllValid(ts)
    ensures Valid(NodeAtList(ts, i))
    decreases ListSize(ts), 1
  {
    if i < Size(ts[0]) {
      NodeAtValid(ts[0], i);
    } else {
      NodeAtListValid(ts[1..], i - Size(ts[0]));
    }
  }
}
