/** The checkbox tree's nodes and the lookups over them.

    A node carries a user object (nothing for the root, a category label,
    or an intention), an ordered list of children and a check mark. As in
    the widget's node class, any node may hold children, including a node
    that carries an intention; the traversals below never look beneath
    such a node. */
module TreeNodes {
  import opened Optional
  import opened ItemOrder

  datatype UserObject = RootObject | Label(name: string) | Intention(item: Item)

  datatype Node = Node(obj: UserObject, children: seq<Node>, checked: bool)

  /** A node created by the tree builder: no children, checked. */
  function NewNode(obj: UserObject): Node
  {
    Node(obj, [], true)
  }

  /** `getNodeText`: the label, the intention's family name, or "???" for
      a node without a user object (the root). */
  function NodeText(n: Node): (r: string)
    ensures n.obj.Label? ==> r == n.obj.name
    ensures n.obj.Intention? ==> r == n.obj.item.family
    ensures n.obj.RootObject? ==> r == "???"
  {
    match n.obj
    case RootObject => "???"
    case Label(name) => name
    case Intention(item) => item.family
  }

  predicate IsLeaf(n: Node)
  {
    n.obj.Intention?
  }

  /** The intention nodes reached from `n` through non-intention nodes, in
      depth-first child order: the nodes that `apply`, `isModified` and
      `refreshCheckStatus` act on through `visitChildren`. */
  function Leaves(n: Node): (r: seq<Node>)
    ensures forall i :: 0 <= i < |r| ==> IsLeaf(r[i])
    ensures IsLeaf(n) ==> r == [n]
    decreases n, 1
  {
    if IsLeaf(n) then [n] else LeavesOf(n.children)
  }

  /** The intention nodes reached from a list of siblings: each sibling's,
      in order. An intention node among them is reached itself. */
  function LeavesOf(cs: seq<Node>): (r: seq<Node>)
    ensures forall i :: 0 <= i < |r| ==> IsLeaf(r[i])
    ensures forall i :: 0 <= i < |cs| && IsLeaf(cs[i]) ==> cs[i] in r
    decreases cs, 0
  {
    if cs == [] then []
    else
      var init, last := cs[..|cs| - 1], cs[|cs| - 1];
      var a, b := LeavesOf(init), Leaves(last);
      assert forall i :: 0 <= i < |a + b| ==> (a + b)[i] == if i < |a| then a[i] else b[i - |a|];
      assert forall i :: 0 <= i < |init| ==> init[i] == cs[i];
      a + b
  }

  lemma LeavesOfStep(cs: seq<Node>, i: nat)
    requires i < |cs|
    ensures LeavesOf(cs[..i + 1]) == LeavesOf(cs[..i]) + Leaves(cs[i])
  {
    assert cs[..i + 1][..i] == cs[..i];
  }

  lemma {:induction false} LeavesOfConcat(a: seq<Node>, b: seq<Node>)
    ensures LeavesOf(a + b) == LeavesOf(a) + LeavesOf(b)
    decreases |b|
  {
    if b == [] {
      assert a + b == a;
    } else {
      assert (a + b)[..|a + b| - 1] == a + b[..|b| - 1];
      assert (a + b)[|a + b| - 1] == b[|b| - 1];
      LeavesOfConcat(a, b[..|b| - 1]);
    }
  }

  // ---------------------------------------------------------------------
  // findChild

  /** The position of the last child whose text is `name`: `findChild`
      visits every child and keeps the latest match. */
  function LastMatch(cs: seq<Node>, name: string): (r: Option<nat>)
    ensures r.Some? ==> r.value < |cs| && NodeText(cs[r.value]) == name
  {
    if cs == [] then None
    else if NodeText(cs[|cs| - 1]) == name then Some(|cs| - 1)
    else LastMatch(cs[..|cs| - 1], name)
  }

  /** No match iff no child has the text; a match has no match after it. */
  lemma {:induction false} LastMatchIsLast(cs: seq<Node>, name: string)
    ensures LastMatch(cs, name).None? <==> forall i :: 0 <= i < |cs| ==> NodeText(cs[i]) != name
    ensures LastMatch(cs, name).Some? ==>
      forall j :: LastMatch(cs, name).value < j < |cs| ==> NodeText(cs[j]) != name
  {
    if cs != [] && NodeText(cs[|cs| - 1]) != name {
      var init := cs[..|cs| - 1];
      LastMatchIsLast(init, name);
      assert forall i :: 0 <= i < |init| ==> init[i] == cs[i];
    }
  }

  // ---------------------------------------------------------------------
  // findChildRecursively

  /** The first intention node in `ls` whose family is `name`. */
  function FirstNamed(ls: seq<Node>, name: string): (r: Option<Node>)
  {
    if ls == [] then None
    else if IsLeaf(ls[0]) && NodeText(ls[0]) == name then Some(ls[0])
    else FirstNamed(ls[1..], name)
  }

  lemma {:induction false} FirstNamedConcat(a: seq<Node>, b: seq<Node>, name: string)
    ensures FirstNamed(a + b, name) == if FirstNamed(a, name).Some? then FirstNamed(a, name) else FirstNamed(b, name)
  {
    if a == [] {
      assert a + b == b;
    } else {
      assert (a + b)[0] == a[0];
      assert (a + b)[1..] == a[1..] + b;
      FirstNamedConcat(a[1..], b, name);
    }
  }

  /** The result is an intention node named `name` with no such node before
      it, and there is none iff no node in the list is named `name`. */
  lemma {:induction false} FirstNamedIsFirst(ls: seq<Node>, name: string)
    ensures FirstNamed(ls, name).None? <==>
      forall i :: 0 <= i < |ls| ==> !(IsLeaf(ls[i]) && NodeText(ls[i]) == name)
    ensures FirstNamed(ls, name).Some? ==>
      exists k :: 0 <= k < |ls| && ls[k] == FirstNamed(ls, name).value
        && IsLeaf(ls[k]) && NodeText(ls[k]) == name
        && forall j :: 0 <= j < k ==> !(IsLeaf(ls[j]) && NodeText(ls[j]) == name)
  {
    if ls != [] && !(IsLeaf(ls[0]) && NodeText(ls[0]) == name) {
      FirstNamedIsFirst(ls[1..], name);
      assert forall i :: 0 < i < |ls| ==> ls[i] == ls[1..][i - 1];
      if FirstNamed(ls, name).Some? {
        var k :| 0 <= k < |ls[1..]| && ls[1..][k] == FirstNamed(ls, name).value
          && IsLeaf(ls[1..][k]) && NodeText(ls[1..][k]) == name
          && forall j :: 0 <= j < k ==> !(IsLeaf(ls[1..][j]) && NodeText(ls[1..][j]) == name);
        assert ls[k + 1] == ls[1..][k];
        forall j | 0 <= j < k + 1 ensures !(IsLeaf(ls[j]) && NodeText(ls[j]) == name) {
          if j > 0 { assert ls[j] == ls[1..][j - 1]; }
        }
      }
    }
  }
}
