/** Building the tree from a list of intentions (`reset(List)`): for each
    intention, walk down from the root along its category path, reusing the
    last child whose text equals the segment or appending a new category
    node, then append a leaf for the intention. */
module TreeBuilder {
  import opened Optional
  import opened ItemOrder
  import opened TreeNodes

  /** The root `reset(List)` starts from: a node without a user object. */
  function EmptyRoot(): Node
  {
    NewNode(RootObject)
  }

  /** The walk for one intention from the cursor `n` along `path`, as a
      value: the cursor's children after the walk. New nodes always go
      last; a reused child is rebuilt in place; nothing else changes. */
  function InsertAt(n: Node, path: seq<string>, item: Item): (r: Node)
    ensures r.obj == n.obj
    ensures (path == [] || LastMatch(n.children, path[0]).None?) ==>
      |r.children| == |n.children| + 1 && r.children[..|n.children|] == n.children
    ensures (path != [] && LastMatch(n.children, path[0]).Some?) ==>
      |r.children| == |n.children|
      && forall i :: 0 <= i < |n.children| && i != LastMatch(n.children, path[0]).value ==> r.children[i] == n.children[i]
    decreases path
  {
    if path == [] then
      n.(children := n.children + [NewNode(Intention(item))])
    else
      match LastMatch(n.children, path[0])
      case None =>
        n.(children := n.children + [InsertAt(NewNode(Label(path[0])), path[1..], item)])
      case Some(k) =>
        n.(children := n.children[k := InsertAt(n.children[k], path[1..], item)])
  }

  /** The tree `reset(List)` builds: the intentions inserted one by one. */
  function BuildTree(items: seq<Item>): (r: Node)
    ensures r.obj == RootObject
  {
    if items == [] then EmptyRoot()
    else
      var last := items[|items| - 1];
      InsertAt(BuildTree(items[..|items| - 1]), last.category, last)
  }

  // ---------------------------------------------------------------------
  // Labels are never duplicated

  /** Under every node, a category child has a text no earlier sibling has. */
  predicate DistinctLabels(n: Node)
    decreases n
  {
    (forall i, j :: 0 <= i < j < |n.children| && n.children[j].obj.Label? ==>
       NodeText(n.children[i]) != NodeText(n.children[j]))
    && forall i :: 0 <= i < |n.children| ==> DistinctLabels(n.children[i])
  }

  lemma {:induction false} InsertAtKeepsDistinct(n: Node, path: seq<string>, item: Item)
    requires DistinctLabels(n)
    ensures DistinctLabels(InsertAt(n, path, item))
    decreases path
  {
    var r := InsertAt(n, path, item);
    var cs := n.children;
    if path == [] || LastMatch(cs, path[0]).None? {
      var added: Node;
      if path == [] {
        added := NewNode(Intention(item));
      } else {
        LastMatchIsLast(cs, path[0]);
        added := InsertAt(NewNode(Label(path[0])), path[1..], item);
        InsertAtKeepsDistinct(NewNode(Label(path[0])), path[1..], item);
      }
      assert r.children == cs + [added];
      forall i, j | 0 <= i < j < |r.children| && r.children[j].obj.Label?
        ensures NodeText(r.children[i]) != NodeText(r.children[j])
      {
        assert r.children[i] == cs[i];
        if j < |cs| { assert r.children[j] == cs[j]; }
      }
      forall i | 0 <= i < |r.children| ensures DistinctLabels(r.children[i]) {
        if i < |cs| { assert r.children[i] == cs[i]; }
      }
    } else {
      var k := LastMatch(cs, path[0]).value;
      InsertAtKeepsDistinct(cs[k], path[1..], item);
      assert r.children == cs[k := InsertAt(cs[k], path[1..], item)];
      forall i | 0 <= i < |cs| ensures NodeText(r.children[i]) == NodeText(cs[i]) && r.children[i].obj == cs[i].obj {
      }
    }
  }

  /** A category segment shared by several intentions yields one category
      node: an existing child with that text is reused, never duplicated. */
  lemma {:induction false} BuildTreeDistinctLabels(items: seq<Item>)
    ensures DistinctLabels(BuildTree(items))
  {
    if items != [] {
      var last := items[|items| - 1];
      BuildTreeDistinctLabels(items[..|items| - 1]);
      InsertAtKeepsDistinct(BuildTree(items[..|items| - 1]), last.category, last);
    }
  }

  // ---------------------------------------------------------------------
  // Only input intentions are placed

  /** Every intention node in the tree, reachable or not, carries an
      intention of `known`. */
  predicate IntentionsIn(n: Node, known: set<Item>)
    decreases n
  {
    (n.obj.Intention? ==> n.obj.item in known)
    && forall i :: 0 <= i < |n.children| ==> IntentionsIn(n.children[i], known)
  }

  lemma {:induction false} InsertAtKeepsIntentionsIn(n: Node, path: seq<string>, item: Item, known: set<Item>)
    requires IntentionsIn(n, known) && item in known
    ensures IntentionsIn(InsertAt(n, path, item), known)
    decreases path
  {
    var r := InsertAt(n, path, item);
    if path == [] {
      assert r.children == n.children + [NewNode(Intention(item))];
      forall i | 0 <= i < |r.children| ensures IntentionsIn(r.children[i], known) {
        if i < |n.children| { assert r.children[i] == n.children[i]; }
      }
    } else {
      match LastMatch(n.children, path[0])
      case None =>
        var created := NewNode(Label(path[0]));
        InsertAtKeepsIntentionsIn(created, path[1..], item, known);
        assert r.children == n.children + [InsertAt(created, path[1..], item)];
        forall i | 0 <= i < |r.children| ensures IntentionsIn(r.children[i], known) {
          if i < |n.children| { assert r.children[i] == n.children[i]; }
        }
      case Some(k) =>
        InsertAtKeepsIntentionsIn(n.children[k], path[1..], item, known);
        assert r.children == n.children[k := InsertAt(n.children[k], path[1..], item)];
    }
  }

  /** Whatever the input, every intention node of the built tree, reachable
      or hidden beneath another intention node, is an input intention. */
  lemma {:induction false} BuildTreeIntentionsIn(items: seq<Item>, known: set<Item>)
    requires forall x :: x in items ==> x in known
    ensures IntentionsIn(BuildTree(items), known)
  {
    if items != [] {
      var init, last := items[..|items| - 1], items[|items| - 1];
      assert forall x :: x in init ==> x in items;
      BuildTreeIntentionsIn(init, known);
      InsertAtKeepsIntentionsIn(BuildTree(init), last.category, last, known);
    }
  }

  lemma {:induction false} LeavesIntentionsIn(n: Node, known: set<Item>)
    requires IntentionsIn(n, known)
    ensures forall i :: 0 <= i < |Leaves(n)| ==> Leaves(n)[i].obj.item in known
    decreases n, 1
  {
    if !IsLeaf(n) {
      LeavesOfIntentionsIn(n.children, known);
    }
  }

  lemma {:induction false} LeavesOfIntentionsIn(cs: seq<Node>, known: set<Item>)
    requires forall i :: 0 <= i < |cs| ==> IntentionsIn(cs[i], known)
    ensures forall i :: 0 <= i < |LeavesOf(cs)| ==> LeavesOf(cs)[i].obj.item in known
    decreases cs, 0
  {
    if cs != [] {
      var init, last := cs[..|cs| - 1], cs[|cs| - 1];
      assert forall i :: 0 <= i < |init| ==> init[i] == cs[i];
      LeavesOfIntentionsIn(init, known);
      LeavesIntentionsIn(last, known);
      var a: seq<Node>, b: seq<Node> := LeavesOf(init), Leaves(last);
      assert LeavesOf(cs) == a + b;
      forall i | 0 <= i < |a + b| ensures (a + b)[i].obj.item in known {
        if i < |a| { assert (a + b)[i] == a[i]; } else { assert (a + b)[i] == b[i - |a|]; }
      }
    }
  }

  // ---------------------------------------------------------------------
  // Where each intention ends up

  /** The leaves reachable from `n` (through non-intention nodes), each with
      the texts of its ancestors below the root, in depth-first order. */
  function NodePaths(n: Node, p: seq<string>): seq<(seq<string>, Item)>
    decreases n, 1
  {
    if IsLeaf(n) then [(p, n.obj.item)] else ChildPaths(n.children, p + [NodeText(n)])
  }

  function ChildPaths(cs: seq<Node>, p: seq<string>): seq<(seq<string>, Item)>
    decreases cs, 0
  {
    if cs == [] then [] else ChildPaths(cs[..|cs| - 1], p) + NodePaths(cs[|cs| - 1], p)
  }

  /** The leaves of a tree with the category path read from just below its
      root. */
  function LeafPaths(root: Node): seq<(seq<string>, Item)>
  {
    ChildPaths(root.children, [])
  }

  /** The intentions of the entries whose path is `path`, in order. */
  function At(es: seq<(seq<string>, Item)>, path: seq<string>): seq<Item>
  {
    if es == [] then []
    else At(es[..|es| - 1], path) + (if es[|es| - 1].0 == path then [es[|es| - 1].1] else [])
  }

  /** The intentions whose category is `path`, in order. */
  function WithCategory(items: seq<Item>, path: seq<string>): seq<Item>
  {
    if items == [] then []
    else WithCategory(items[..|items| - 1], path)
         + (if items[|items| - 1].category == path then [items[|items| - 1]] else [])
  }

  lemma {:induction false} AtConcat(x: seq<(seq<string>, Item)>, y: seq<(seq<string>, Item)>, path: seq<string>)
    ensures At(x + y, path) == At(x, path) + At(y, path)
    decreases |y|
  {
    if y == [] {
      assert x + y == x;
    } else {
      assert (x + y)[..|x + y| - 1] == x + y[..|y| - 1];
      assert (x + y)[|x + y| - 1] == y[|y| - 1];
      AtConcat(x, y[..|y| - 1], path);
    }
  }

  lemma {:induction false} AtMember(es: seq<(seq<string>, Item)>, e: (seq<string>, Item))
    requires e in es
    ensures e.1 in At(es, e.0)
  {
    if es[|es| - 1] != e {
      assert es == es[..|es| - 1] + [es[|es| - 1]];
      AtMember(es[..|es| - 1], e);
    }
  }

  lemma {:induction false} AtMemberConverse(es: seq<(seq<string>, Item)>, path: seq<string>, item: Item)
    requires item in At(es, path)
    ensures (path, item) in es
  {
    assert es != [];
    var init := es[..|es| - 1];
    assert es == init + [es[|es| - 1]];
    if item in At(init, path) {
      AtMemberConverse(init, path, item);
    }
  }

  lemma {:induction false} WithCategoryMember(items: seq<Item>, path: seq<string>, item: Item)
    ensures item in WithCategory(items, path) <==> item in items && item.category == path
  {
    if items != [] {
      var init := items[..|items| - 1];
      assert items == init + [items[|items| - 1]];
      WithCategoryMember(init, path, item);
    }
  }

  lemma ChildPathsOne(y: Node, p: seq<string>)
    ensures ChildPaths([y], p) == NodePaths(y, p)
  {
    assert [y][..0] == [];
  }

  lemma {:induction false} ChildPathsConcat(a: seq<Node>, b: seq<Node>, p: seq<string>)
    ensures ChildPaths(a + b, p) == ChildPaths(a, p) + ChildPaths(b, p)
    decreases |b|
  {
    if b == [] {
      assert a + b == a;
    } else {
      assert (a + b)[..|a + b| - 1] == a + b[..|b| - 1];
      assert (a + b)[|a + b| - 1] == b[|b| - 1];
      ChildPathsConcat(a, b[..|b| - 1], p);
    }
  }

  lemma ChildPathsUpdate(cs: seq<Node>, k: nat, y: Node, p: seq<string>)
    requires k < |cs|
    ensures ChildPaths(cs[k := y], p) == ChildPaths(cs[..k], p) + NodePaths(y, p) + ChildPaths(cs[k + 1..], p)
  {
    assert cs[k := y] == cs[..k] + [y] + cs[k + 1..];
    ChildPathsConcat(cs[..k] + [y], cs[k + 1..], p);
    ChildPathsConcat(cs[..k], [y], p);
    ChildPathsOne(y, p);
  }

  /** Every path found under `n` starts with `p`, and, when `n` is not a
      leaf, continues with `n`'s own text. */
  lemma {:induction false} NodePathsUnder(n: Node, p: seq<string>)
    ensures forall e :: e in NodePaths(n, p) ==>
      if IsLeaf(n) then e.0 == p else |e.0| > |p| && e.0[..|p| + 1] == p + [NodeText(n)]
    decreases n, 1
  {
    if !IsLeaf(n) {
      var p' := p + [NodeText(n)];
      ChildPathsUnder(n.children, p');
      forall e | e in NodePaths(n, p) ensures |e.0| > |p| && e.0[..|p| + 1] == p' {
        assert |e.0| >= |p'| && e.0[..|p'|] == p';
      }
    }
  }

  lemma {:induction false} ChildPathsUnder(cs: seq<Node>, p: seq<string>)
    ensures forall e :: e in ChildPaths(cs, p) ==> |e.0| >= |p| && e.0[..|p|] == p
    decreases cs, 0
  {
    if cs != [] {
      var last := cs[|cs| - 1];
      ChildPathsUnder(cs[..|cs| - 1], p);
      NodePathsUnder(last, p);
      forall e | e in NodePaths(last, p) ensures |e.0| >= |p| && e.0[..|p|] == p {
        if !IsLeaf(last) {
          assert e.0[..|p|] == e.0[..|p| + 1][..|p|];
        }
      }
    }
  }

  lemma AtAbsent(es: seq<(seq<string>, Item)>, path: seq<string>)
    requires forall e :: e in es ==> e.0 != path
    ensures At(es, path) == []
  {
    if At(es, path) != [] {
      AtMemberConverse(es, path, At(es, path)[0]);
    }
  }

  /** Siblings whose text differs from `s` hold no leaf with a path through
      `q + [s]`. */
  lemma {:induction false} OtherSiblingsAbsent(cs: seq<Node>, q: seq<string>, s: string, rest: seq<string>)
    requires forall j :: 0 <= j < |cs| ==> NodeText(cs[j]) != s
    ensures At(ChildPaths(cs, q), q + [s] + rest) == []
  {
    if cs != [] {
      var init, last := cs[..|cs| - 1], cs[|cs| - 1];
      var target := q + [s] + rest;
      assert forall j :: 0 <= j < |init| ==> init[j] == cs[j];
      OtherSiblingsAbsent(init, q, s, rest);
      NodePathsUnder(last, q);
      assert target[|q|] == s && |target| > |q|;
      forall e | e in NodePaths(last, q) ensures e.0 != target {
        if !IsLeaf(last) {
          assert e.0[|q|] == e.0[..|q| + 1][|q|];
        }
      }
      AtAbsent(NodePaths(last, q), target);
      AtConcat(ChildPaths(init, q), NodePaths(last, q), target);
    }
  }

  /** The walk never passes through a leaf: each reused child on the way is
      a category node. */
  predicate SafeWalk(n: Node, path: seq<string>)
    decreases path
  {
    path == [] ||
    match LastMatch(n.children, path[0])
    case None => true
    case Some(k) => !IsLeaf(n.children[k]) && SafeWalk(n.children[k], path[1..])
  }

  /** Appending a last child adds its leaves after all others. */
  lemma AppendChildPaths(cs: seq<Node>, x: Node, q: seq<string>, target: seq<string>, item: Item)
    requires forall p :: At(NodePaths(x, q), p) == (if p == target then [item] else [])
    ensures forall p :: At(ChildPaths(cs + [x], q), p) == At(ChildPaths(cs, q), p) + (if p == target then [item] else [])
  {
    assert (cs + [x])[..|cs|] == cs;
    forall p ensures At(ChildPaths(cs + [x], q), p) == At(ChildPaths(cs, q), p) + (if p == target then [item] else []) {
      AtConcat(ChildPaths(cs, q), NodePaths(x, q), p);
    }
  }

  lemma SpliceAt(pre: seq<(seq<string>, Item)>, mid: seq<(seq<string>, Item)>, mid': seq<(seq<string>, Item)>,
                 post: seq<(seq<string>, Item)>, p: seq<string>, extra: seq<Item>)
    requires At(mid', p) == At(mid, p) + extra
    requires extra != [] ==> At(post, p) == []
    ensures At(pre + mid' + post, p) == At(pre + mid + post, p) + extra
  {
    var a, b, c := At(pre, p), At(mid, p), At(post, p);
    var l1 := pre + mid';
    var l2 := pre + mid;
    AtConcat(l1, post, p);
    AtConcat(pre, mid', p);
    AtConcat(l2, post, p);
    AtConcat(pre, mid, p);
    assert At(l1, p) == a + (b + extra);
    assert At(l2, p) == a + b;
    SeqShuffle(a, b, c, extra);
  }
  lemma SeqShuffle(a: seq<Item>, b: seq<Item>, c: seq<Item>, extra: seq<Item>)
    requires extra != [] ==> c == []
    ensures a + (b + extra) + c == a + b + c + extra
  {
    if extra == [] {
      assert b + extra == b;
    } else {
      assert c == [];
    }
  }

  /** Rebuilding the last child with text `s` in place adds the new leaf
      after all others at its path: later siblings hold nothing there. */
  lemma ReplaceChildPaths(cs: seq<Node>, k: nat, y: Node, q: seq<string>, s: string, rest: seq<string>, item: Item)
    requires k < |cs| && !IsLeaf(cs[k]) && y.obj == cs[k].obj && NodeText(cs[k]) == s
    requires forall j :: k < j < |cs| ==> NodeText(cs[j]) != s
    requires forall p :: At(ChildPaths(y.children, q + [s]), p)
                         == At(ChildPaths(cs[k].children, q + [s]), p) + (if p == q + [s] + rest then [item] else [])
    ensures forall p :: At(ChildPaths(cs[k := y], q), p)
                        == At(ChildPaths(cs, q), p) + (if p == q + [s] + rest then [item] else [])
  {
    var c := cs[k];
    assert cs[k := c] == cs;
    var later := cs[k + 1..];
    var pre, post := ChildPaths(cs[..k], q), ChildPaths(later, q);
    ChildPathsUpdate(cs, k, y, q);
    ChildPathsUpdate(cs, k, c, q);
    assert NodePaths(y, q) == ChildPaths(y.children, q + [s]);
    assert NodePaths(c, q) == ChildPaths(c.children, q + [s]);
    assert forall j :: 0 <= j < |later| ==> NodeText(later[j]) != s by {
      forall j | 0 <= j < |later| ensures NodeText(later[j]) != s {
        assert later[j] == cs[k + 1 + j];
      }
    }
    OtherSiblingsAbsent(later, q, s, rest);
    forall p ensures At(ChildPaths(cs[k := y], q), p) == At(ChildPaths(cs, q), p) + (if p == q + [s] + rest then [item] else []) {
      SpliceAt(pre, NodePaths(c, q), NodePaths(y, q), post, p, if p == q + [s] + rest then [item] else []);
    }
  }

  /** One insertion adds the intention at the end of the leaves whose path
      is the cursor's path followed by `path`, and changes no other path's
      leaves. */
  lemma {:induction false} InsertAtPaths(n: Node, path: seq<string>, item: Item, q: seq<string>)
    requires SafeWalk(n, path)
    ensures forall p :: At(ChildPaths(InsertAt(n, path, item).children, q), p)
                        == At(ChildPaths(n.children, q), p) + (if p == q + path then [item] else [])
    decreases path
  {
    var cs := n.children;
    if path == [] {
      var leaf := NewNode(Intention(item));
      assert q + path == q;
      assert forall p :: At(NodePaths(leaf, q), p) == (if p == q then [item] else []) by {
        assert NodePaths(leaf, q) == [(q, item)];
      }
      AppendChildPaths(cs, leaf, q, q, item);
    } else {
      var s, rest := path[0], path[1..];
      assert q + path == q + [s] + rest;
      match LastMatch(cs, s)
      case None =>
        var created := NewNode(Label(s));
        var x := InsertAt(created, rest, item);
        InsertAtPaths(created, rest, item, q + [s]);
        assert NodePaths(x, q) == ChildPaths(x.children, q + [s]);
        assert ChildPaths(created.children, q + [s]) == [];
        AppendChildPaths(cs, x, q, q + path, item);
      case Some(k) =>
        InsertAtPaths(cs[k], rest, item, q + [s]);
        LastMatchIsLast(cs, s);
        ReplaceChildPaths(cs, k, InsertAt(cs[k], rest, item), q, s, rest, item);
    }
  }

  /** A child's leaves are among its parent's. */
  lemma ChildPathsHasChild(cs: seq<Node>, k: nat, q: seq<string>)
    requires k < |cs|
    ensures forall e :: e in NodePaths(cs[k], q) ==> e in ChildPaths(cs, q)
    ensures IsLeaf(cs[k]) ==> (q, cs[k].obj.item) in ChildPaths(cs, q)
  {
    ChildPathsUpdate(cs, k, cs[k], q);
    assert cs[k := cs[k]] == cs;
  }

  /** If no leaf sits at a prefix of `path` with the family of the next
      segment, the walk along `path` is safe. */
  lemma {:induction false} SafeWalkFromPaths(n: Node, path: seq<string>, q: seq<string>)
    requires forall e, j :: e in ChildPaths(n.children, q) && 0 <= j < |path| && e.0 == q + path[..j] ==> e.1.family != path[j]
    ensures SafeWalk(n, path)
    decreases path
  {
    if path != [] {
      var s, rest := path[0], path[1..];
      match LastMatch(n.children, s)
      case None =>
      case Some(k) =>
        var c := n.children[k];
        ChildPathsHasChild(n.children, k, q);
        if IsLeaf(c) {
          assert false;
        } else {
          forall e, j | e in ChildPaths(c.children, q + [s]) && 0 <= j < |rest| && e.0 == q + [s] + rest[..j]
            ensures e.1.family != rest[j]
          {
            assert path[..j + 1] == [s] + rest[..j];
            assert e.0 == q + path[..j + 1];
          }
          SafeWalkFromPaths(c, rest, q + [s]);
        }
    }
  }

  /** One intention's family equals a segment of another's category path,
      at the position just below that intention's own category. */
  predicate Blocks(a: Item, b: Item)
  {
    exists j :: 0 <= j < |b.category| && a.category == b.category[..j] && a.family == b.category[j]
  }

  /** No intention's leaf stands where another intention's walk needs a
      category node. */
  predicate NoCollision(items: seq<Item>)
  {
    forall x, y :: 0 <= x < |items| && 0 <= y < |items| ==> !Blocks(items[x], items[y])
  }

  /** After building, the intentions found at each category path are
      exactly the input intentions with that category, in input order: each
      intention appears once per occurrence in the input, as a leaf whose
      ancestors below the root carry its category labels in order. */
  lemma {:induction false} BuildTreePlacesEachItem(items: seq<Item>)
    requires NoCollision(items)
    ensures forall p :: At(LeafPaths(BuildTree(items)), p) == WithCategory(items, p)
  {
    if items != [] {
      var init, b := items[..|items| - 1], items[|items| - 1];
      assert forall x :: 0 <= x < |init| ==> init[x] == items[x];
      assert NoCollision(init);
      BuildTreePlacesEachItem(init);
      var t := BuildTree(init);
      forall e, j | e in LeafPaths(t) && 0 <= j < |b.category| && e.0 == [] + b.category[..j]
        ensures e.1.family != b.category[j]
      {
        AtMember(LeafPaths(t), e);
        WithCategoryMember(init, e.0, e.1);
        var x :| 0 <= x < |init| && init[x] == e.1;
        assert !Blocks(items[x], items[|items| - 1]);
      }
      SafeWalkFromPaths(t, b.category, []);
      InsertAtPaths(t, b.category, b, []);
      assert [] + b.category == b.category;
    }
  }

  /** Consequences: every leaf of the built tree is an input intention at
      its own category path, and every input intention has such a leaf. */
  lemma BuildTreeLeafPaths(items: seq<Item>)
    requires NoCollision(items)
    ensures forall e :: e in LeafPaths(BuildTree(items)) ==> e.0 == e.1.category && e.1 in items
    ensures forall item :: item in items ==> (item.category, item) in LeafPaths(BuildTree(items))
  {
    var t := BuildTree(items);
    BuildTreePlacesEachItem(items);
    forall e | e in LeafPaths(t) ensures e.0 == e.1.category && e.1 in items {
      AtMember(LeafPaths(t), e);
      WithCategoryMember(items, e.0, e.1);
    }
    forall item | item in items ensures (item.category, item) in LeafPaths(t) {
      WithCategoryMember(items, item.category, item);
      AtMemberConverse(LeafPaths(t), item.category, item);
    }
  }

  /** The path listing visits the same leaves as every other traversal, in
      the same order. */
  lemma {:induction false} NodePathsFollowLeaves(n: Node, p: seq<string>)
    ensures |NodePaths(n, p)| == |Leaves(n)|
    ensures forall i :: 0 <= i < |Leaves(n)| ==> Leaves(n)[i].obj == Intention(NodePaths(n, p)[i].1)
    decreases n, 1
  {
    if !IsLeaf(n) {
      ChildPathsFollowLeaves(n.children, p + [NodeText(n)]);
    }
  }

  lemma {:induction false} ChildPathsFollowLeaves(cs: seq<Node>, p: seq<string>)
    ensures |ChildPaths(cs, p)| == |LeavesOf(cs)|
    ensures forall i :: 0 <= i < |LeavesOf(cs)| ==> LeavesOf(cs)[i].obj == Intention(ChildPaths(cs, p)[i].1)
    decreases cs, 0
  {
    if cs != [] {
      var init, last := cs[..|cs| - 1], cs[|cs| - 1];
      ChildPathsFollowLeaves(init, p);
      NodePathsFollowLeaves(last, p);
      var a: seq<(seq<string>, Item)>, b: seq<(seq<string>, Item)> := ChildPaths(init, p), NodePaths(last, p);
      var c: seq<Node>, d: seq<Node> := LeavesOf(init), Leaves(last);
      assert ChildPaths(cs, p) == a + b;
      assert LeavesOf(cs) == c + d;
      forall i | 0 <= i < |c + d| ensures (c + d)[i].obj == Intention((a + b)[i].1) {
        if i < |c| {
          assert (c + d)[i] == c[i] && (a + b)[i] == a[i];
        } else {
          assert (c + d)[i] == d[i - |c|] && (a + b)[i] == b[i - |a|];
        }
      }
    }
  }

  lemma CollisionFirstStep(a: Item)
    requires a == Item(0, ["c"], "x")
    ensures BuildTree([a]) == Node(RootObject, [Node(Label("c"), [NewNode(Intention(a))], true)], true)
  {
    assert [a][..0] == [];
    assert ["c"][1..] == [];
    assert LastMatch([], "c") == None;
  }

  lemma CollisionSecondStep(a: Item, b: Item)
    requires a == Item(0, ["c"], "x") && b == Item(1, ["c", "x"], "y")
    ensures BuildTree([a, b]) ==
      Node(RootObject, [Node(Label("c"), [Node(Intention(a), [NewNode(Intention(b))], true)], true)], true)
  {
    var la := NewNode(Intention(a));
    var c1 := Node(Label("c"), [la], true);
    assert [a, b][..1] == [a];
    CollisionFirstStep(a);
    assert LastMatch([c1], "c") == Some(0) by { assert NodeText(c1) == "c"; }
    assert LastMatch([la], "x") == Some(0) by { assert NodeText(la) == "x"; }
    assert ["c", "x"][1..] == ["x"] && ["x"][1..] == [];
    var la' := Node(Intention(a), [NewNode(Intention(b))], true);
    var c2 := Node(Label("c"), [la'], true);
    assert InsertAt(la, [], b) == la';
    assert InsertAt(c1, ["x"], b) == c2 by {
      assert [la][0 := la'] == [la'];
    }
    assert InsertAt(Node(RootObject, [c1], true), ["c", "x"], b) == Node(RootObject, [c2], true) by {
      assert [c1][0 := c2] == [c2];
    }
    assert BuildTree([a, b]) == InsertAt(BuildTree([a]), b.category, b);
  }

  /** Why the collision condition is needed: a leaf whose family equals the
      next category segment is reused as the cursor, so the later intention
      is put beneath that leaf, where no traversal reaches it. */
  lemma CollisionHidesItem()
    ensures var a := Item(0, ["c"], "x");
            var b := Item(1, ["c", "x"], "y");
            !NoCollision([a, b])
            && BuildTree([a, b]) ==
                 Node(RootObject, [Node(Label("c"), [Node(Intention(a), [NewNode(Intention(b))], true)], true)], true)
            && LeafPaths(BuildTree([a, b])) == [(["c"], a)]
  {
    var a := Item(0, ["c"], "x");
    var b := Item(1, ["c", "x"], "y");
    assert Blocks([a, b][0], [a, b][1]) by {
      assert a.category == b.category[..1];
    }
    CollisionSecondStep(a, b);
    var la' := Node(Intention(a), [NewNode(Intention(b))], true);
    var c2 := Node(Label("c"), [la'], true);
    ChildPathsOne(c2, []);
    assert [] + [NodeText(c2)] == ["c"];
    ChildPathsOne(la', ["c"]);
  }
}
