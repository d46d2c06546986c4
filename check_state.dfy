/** Check marks: setting them from the status map (`resetCheckMark`),
    recording them into a map (`refreshCheckStatus`, `apply`) and comparing
    them with the settings store (`isModified`). */
module CheckState {
  import opened ItemOrder
  import opened TreeNodes

  /** `resetCheckMark`'s reading of the status map: only an entry holding
      true checks the leaf; a missing entry reads as false. */
  function StatusOf(status: map<Item, bool>, item: Item): bool
  {
    item in status && status[item]
  }

  /** The settings store's answer to `isEnabled`: an item the store holds
      no entry for reads as enabled. */
  function IsEnabled(settings: map<Item, bool>, item: Item): bool
  {
    item !in settings || settings[item]
  }

  // ---------------------------------------------------------------------
  // resetCheckMark

  /** The tree after `resetCheckMark`: a leaf is checked iff the status map
      holds true for its item; any other node is checked iff one of its
      children ends up checked. Nodes beneath a leaf are not visited. */
  function Marked(n: Node, status: map<Item, bool>): (r: Node)
    ensures r.obj == n.obj && |r.children| == |n.children|
    decreases n, 1
  {
    if IsLeaf(n) then n.(checked := StatusOf(status, n.obj.item))
    else
      var cs := MarkedAll(n.children, status);
      n.(children := cs, checked := AnyChecked(cs))
  }

  function MarkedAll(cs: seq<Node>, status: map<Item, bool>): (r: seq<Node>)
    ensures |r| == |cs|
    decreases cs, 0
  {
    if cs == [] then []
    else MarkedAll(cs[..|cs| - 1], status) + [Marked(cs[|cs| - 1], status)]
  }

  predicate AnyChecked(cs: seq<Node>)
  {
    exists i :: 0 <= i < |cs| && cs[i].checked
  }

  /** A leaf whose status entry holds true. */
  predicate LeafOn(l: Node, status: map<Item, bool>)
  {
    IsLeaf(l) && StatusOf(status, l.obj.item)
  }

  predicate AnyOn(ls: seq<Node>, status: map<Item, bool>)
  {
    exists i :: 0 <= i < |ls| && LeafOn(ls[i], status)
  }

  lemma AnyOnConcat(a: seq<Node>, b: seq<Node>, status: map<Item, bool>)
    ensures AnyOn(a + b, status) <==> AnyOn(a, status) || AnyOn(b, status)
  {
    if AnyOn(a, status) {
      var i :| 0 <= i < |a| && LeafOn(a[i], status);
      assert (a + b)[i] == a[i];
    }
    if AnyOn(b, status) {
      var i :| 0 <= i < |b| && LeafOn(b[i], status);
      assert (a + b)[|a| + i] == b[i];
    }
    if AnyOn(a + b, status) {
      var i :| 0 <= i < |a + b| && LeafOn((a + b)[i], status);
      if i >= |a| { assert (a + b)[i] == b[i - |a|]; }
    }
  }

  /** A node is checked after `resetCheckMark` iff some leaf beneath it (or
      the node itself, if it is a leaf) has a status entry holding true:
      every child is visited, so a category is the OR of all its leaves. */
  lemma {:induction false} MarkedIsOrOfLeaves(n: Node, status: map<Item, bool>)
    ensures Marked(n, status).checked <==> AnyOn(Leaves(n), status)
    decreases n, 1
  {
    if IsLeaf(n) {
      assert Leaves(n)[0] == n;
    } else {
      MarkedAllIsOrOfLeaves(n.children, status);
    }
  }

  lemma {:induction false} MarkedAllIsOrOfLeaves(cs: seq<Node>, status: map<Item, bool>)
    ensures AnyChecked(MarkedAll(cs, status)) <==> AnyOn(LeavesOf(cs), status)
    decreases cs, 0
  {
    if cs != [] {
      var init, last := cs[..|cs| - 1], cs[|cs| - 1];
      var ms := MarkedAll(cs, status);
      MarkedAllIsOrOfLeaves(init, status);
      MarkedIsOrOfLeaves(last, status);
      AnyOnConcat(LeavesOf(init), Leaves(last), status);
      assert ms == MarkedAll(init, status) + [Marked(last, status)];
      if AnyChecked(ms) {
        var i :| 0 <= i < |ms| && ms[i].checked;
        if i < |cs| - 1 { assert ms[i] == MarkedAll(init, status)[i]; }
      }
      if AnyChecked(MarkedAll(init, status)) {
        var i :| 0 <= i < |init| && MarkedAll(init, status)[i].checked;
        assert ms[i] == MarkedAll(init, status)[i];
      }
      assert Marked(last, status).checked ==> ms[|cs| - 1].checked;
    }
  }

  /** A leaf after `resetCheckMark`: its check mark read from the map. */
  function Remarked(l: Node, status: map<Item, bool>): Node
  {
    if IsLeaf(l) then l.(checked := StatusOf(status, l.obj.item)) else l
  }

  /** The leaves of the marked tree are the original leaves, in the same
      order, each checked iff its status entry holds true. */
  lemma {:induction false} MarkedLeaves(n: Node, status: map<Item, bool>)
    ensures |Leaves(Marked(n, status))| == |Leaves(n)|
    ensures forall i :: 0 <= i < |Leaves(n)| ==> Leaves(Marked(n, status))[i] == Remarked(Leaves(n)[i], status)
    decreases n, 1
  {
    if !IsLeaf(n) {
      MarkedAllLeaves(n.children, status);
    }
  }

  lemma {:induction false} MarkedAllLeaves(cs: seq<Node>, status: map<Item, bool>)
    ensures |LeavesOf(MarkedAll(cs, status))| == |LeavesOf(cs)|
    ensures forall i :: 0 <= i < |LeavesOf(cs)| ==> LeavesOf(MarkedAll(cs, status))[i] == Remarked(LeavesOf(cs)[i], status)
    decreases cs, 0
  {
    if cs != [] {
      var init, last := cs[..|cs| - 1], cs[|cs| - 1];
      var ms := MarkedAll(cs, status);
      MarkedAllLeaves(init, status);
      MarkedLeaves(last, status);
      assert ms[..|ms| - 1] == MarkedAll(init, status);
      assert ms[|ms| - 1] == Marked(last, status);
      assert LeavesOf(ms) == LeavesOf(MarkedAll(init, status)) + Leaves(Marked(last, status));
    }
  }

  // ---------------------------------------------------------------------
  // refreshCheckStatus and apply

  /** Writes each leaf's check mark under its item, in order; a later write
      to the same item replaces an earlier one. */
  function Record(ls: seq<Node>, m: map<Item, bool>): (r: map<Item, bool>)
    ensures m.Keys <= r.Keys
    ensures forall item :: item in r && item !in m ==>
      exists i :: 0 <= i < |ls| && IsLeaf(ls[i]) && ls[i].obj.item == item
  {
    if ls == [] then m
    else
      var init := ls[..|ls| - 1];
      var before := Record(init, m);
      var l := ls[|ls| - 1];
      assert forall i :: 0 <= i < |init| ==> init[i] == ls[i];
      if IsLeaf(l) then before[l.obj.item := l.checked] else before
  }

  lemma {:induction false} RecordConcat(a: seq<Node>, b: seq<Node>, m: map<Item, bool>)
    ensures Record(a + b, m) == Record(b, Record(a, m))
    decreases |b|
  {
    if b == [] {
      assert a + b == a;
    } else {
      assert (a + b)[..|a + b| - 1] == a + b[..|b| - 1];
      assert (a + b)[|a + b| - 1] == b[|b| - 1];
      RecordConcat(a, b[..|b| - 1], m);
    }
  }

  /** An item with no leaf in the list keeps its entry, or its absence. */
  lemma {:induction false} RecordKeepsOthers(ls: seq<Node>, m: map<Item, bool>, item: Item)
    requires forall i :: 0 <= i < |ls| && IsLeaf(ls[i]) ==> ls[i].obj.item != item
    ensures item in Record(ls, m) <==> item in m
    ensures item in m ==> Record(ls, m)[item] == m[item]
  {
    if ls != [] {
      RecordKeepsOthers(ls[..|ls| - 1], m, item);
    }
  }

  /** A leaf whose item has no later leaf in the list leaves its check mark
      as that item's entry. */
  lemma {:induction false} RecordWritesLeaf(ls: seq<Node>, m: map<Item, bool>, k: nat)
    requires k < |ls| && IsLeaf(ls[k])
    requires forall j :: k < j < |ls| && IsLeaf(ls[j]) ==> ls[j].obj.item != ls[k].obj.item
    ensures ls[k].obj.item in Record(ls, m)
    ensures Record(ls, m)[ls[k].obj.item] == ls[k].checked
  {
    if k < |ls| - 1 {
      RecordWritesLeaf(ls[..|ls| - 1], m, k);
    }
  }

  /** The entries after recording are the old ones plus one per leaf item. */
  lemma {:induction false} RecordDomain(ls: seq<Node>, m: map<Item, bool>)
    ensures Record(ls, m).Keys == m.Keys + set i | 0 <= i < |ls| && IsLeaf(ls[i]) :: ls[i].obj.item
  {
    if ls != [] {
      var init := ls[..|ls| - 1];
      RecordDomain(init, m);
      assert forall i :: 0 <= i < |init| ==> init[i] == ls[i];
    }
  }

  // ---------------------------------------------------------------------
  // isModified

  /** A leaf whose check mark differs from the store's `isEnabled`. */
  predicate Differs(l: Node, settings: map<Item, bool>)
  {
    IsLeaf(l) && IsEnabled(settings, l.obj.item) != l.checked
  }

  predicate Modified(ls: seq<Node>, settings: map<Item, bool>)
  {
    exists i :: 0 <= i < |ls| && Differs(ls[i], settings)
  }

  lemma ModifiedConcat(a: seq<Node>, b: seq<Node>, settings: map<Item, bool>)
    ensures Modified(a + b, settings) <==> Modified(a, settings) || Modified(b, settings)
  {
    if Modified(a, settings) {
      var i :| 0 <= i < |a| && Differs(a[i], settings);
      assert (a + b)[i] == a[i];
    }
    if Modified(b, settings) {
      var i :| 0 <= i < |b| && Differs(b[i], settings);
      assert (a + b)[|a| + i] == b[i];
    }
    if Modified(a + b, settings) {
      var i :| 0 <= i < |a + b| && Differs((a + b)[i], settings);
      if i >= |a| { assert (a + b)[i] == b[i - |a|]; }
    }
  }

  /** No two leaves carry the same item. */
  predicate UniqueItems(ls: seq<Node>)
  {
    forall i, j :: 0 <= i < j < |ls| && IsLeaf(ls[i]) && IsLeaf(ls[j]) ==> ls[i].obj.item != ls[j].obj.item
  }

  /** Right after the leaves are written to the store, none differs from it
      (when no item has two leaves). */
  lemma ApplyThenNotModified(ls: seq<Node>, settings: map<Item, bool>)
    requires UniqueItems(ls)
    ensures !Modified(ls, Record(ls, settings))
  {
    forall k | 0 <= k < |ls| && IsLeaf(ls[k]) ensures !Differs(ls[k], Record(ls, settings)) {
      RecordWritesLeaf(ls, settings, k);
    }
  }

  /** Rebuilding with a status map recorded from an earlier tree: a leaf
      for an item that was in the earlier tree (and had no later duplicate
      there) gets that earlier check mark; a leaf for any other item gets
      what the map held before. */
  lemma RebuildKeepsCheckState(oldLeaves: seq<Node>, status: map<Item, bool>, t: Node, i: nat)
    requires i < |Leaves(t)| && IsLeaf(Leaves(t)[i])
    ensures |Leaves(Marked(t, Record(oldLeaves, status)))| == |Leaves(t)|
    ensures var status' := Record(oldLeaves, status);
            var l := Leaves(Marked(t, status'))[i];
            l.obj == Leaves(t)[i].obj
            && (forall k :: 0 <= k < |oldLeaves| && oldLeaves[k].obj == l.obj
                  && (forall j :: k < j < |oldLeaves| && IsLeaf(oldLeaves[j]) ==> oldLeaves[j].obj != l.obj)
                  ==> l.checked == oldLeaves[k].checked)
            && ((forall k :: 0 <= k < |oldLeaves| ==> oldLeaves[k].obj != l.obj)
                  ==> l.checked == StatusOf(status, l.obj.item))
  {
    var status' := Record(oldLeaves, status);
    MarkedLeaves(t, status');
    var l := Leaves(Marked(t, status'))[i];
    assert l == Remarked(Leaves(t)[i], status');
    forall k | 0 <= k < |oldLeaves| && oldLeaves[k].obj == l.obj
        && (forall j :: k < j < |oldLeaves| && IsLeaf(oldLeaves[j]) ==> oldLeaves[j].obj != l.obj)
      ensures l.checked == oldLeaves[k].checked
    {
      RecordWritesLeaf(oldLeaves, status, k);
    }
    if forall k :: 0 <= k < |oldLeaves| ==> oldLeaves[k].obj != l.obj {
      RecordKeepsOthers(oldLeaves, status, l.obj.item);
    }
  }
}
