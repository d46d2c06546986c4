/** The settings panel's tree of intentions with check boxes: the
    recursive visits over the tree, the builder, the status map kept across
    rebuilds, and the exchange with the settings store. */
module CharacterTree {
  import opened Optional
  import opened ItemOrder
  import opened TreeNodes
  import opened CheckState
  import opened TreeBuilder

  /** The platform's intention settings store: which intentions exist and
      which are enabled. */
  class IntentionSettings {
    var enabled: map<Item, bool>
    var metaData: seq<Item>

    constructor(metaData: seq<Item>, enabled: map<Item, bool>)
      ensures this.metaData == metaData && this.enabled == enabled
    {
      this.metaData := metaData;
      this.enabled := enabled;
    }

    /** `setEnabled`: records the flag for the item. */
    method SetEnabled(item: Item, value: bool)
      modifies this`enabled
      ensures enabled == old(enabled)[item := value]
      ensures CheckState.IsEnabled(enabled, item) == value
    {
      enabled := enabled[item := value];
    }
  }

  /** `findChild`: the position of the last child whose text is `name`, or
      nothing if no child has that text. */
  method FindChild(node: Node, name: string) returns (found: Option<nat>)
    ensures found == LastMatch(node.children, name)
    ensures found.Some? ==> found.value < |node.children| && NodeText(node.children[found.value]) == name
  {
    found := None;
    for i := 0 to |node.children|
      invariant found == LastMatch(node.children[..i], name)
    {
      assert node.children[..i + 1][..i] == node.children[..i];
      if name == NodeText(node.children[i]) {
        found := Some(i);
      }
    }
    assert node.children[..|node.children|] == node.children;
  }

  /** `findChildRecursively`: the first intention node, in depth-first
      child order, whose family is `name`; category nodes are searched, not
      returned. */
  method FindChildRecursively(node: Node, name: string) returns (found: Option<Node>)
    ensures found == FirstNamed(LeavesOf(node.children), name)
    decreases node
  {
    found := None;
    for i := 0 to |node.children|
      invariant found == FirstNamed(LeavesOf(node.children[..i]), name)
    {
      var child := node.children[i];
      if found.None? {
        if IsLeaf(child) {
          if name == NodeText(child) {
            found := Some(child);
          }
        } else {
          var sub := FindChildRecursively(child, name);
          if sub.Some? {
            found := sub;
          }
        }
      }
      LeavesOfStep(node.children, i);
      FirstNamedConcat(LeavesOf(node.children[..i]), Leaves(child), name);
    }
    assert node.children[..|node.children|] == node.children;
  }

  /** The static `apply`: writes every reached leaf's check mark to the
      store, in depth-first order. */
  method ApplyNode(root: Node, settings: IntentionSettings)
    modifies settings`enabled
    ensures settings.enabled == Record(Leaves(root), old(settings.enabled))
    decreases root
  {
    if IsLeaf(root) {
      settings.SetEnabled(root.obj.item, root.checked);
    } else {
      for i := 0 to |root.children|
        invariant settings.enabled == Record(LeavesOf(root.children[..i]), old(settings.enabled))
      {
        ApplyNode(root.children[i], settings);
        LeavesOfStep(root.children, i);
        RecordConcat(LeavesOf(root.children[..i]), Leaves(root.children[i]), old(settings.enabled));
      }
      assert root.children[..|root.children|] == root.children;
    }
  }

  /** The static `isModified`: whether some reached leaf's check mark
      differs from the store. Every child is visited. */
  method IsModifiedNode(root: Node, settings: IntentionSettings) returns (modified: bool)
    ensures modified == Modified(Leaves(root), settings.enabled)
    decreases root
  {
    if IsLeaf(root) {
      modified := CheckState.IsEnabled(settings.enabled, root.obj.item) != root.checked;
      assert Leaves(root)[0] == root;
    } else {
      modified := false;
      for i := 0 to |root.children|
        invariant modified == Modified(LeavesOf(root.children[..i]), settings.enabled)
      {
        var sub := IsModifiedNode(root.children[i], settings);
        LeavesOfStep(root.children, i);
        ModifiedConcat(LeavesOf(root.children[..i]), Leaves(root.children[i]), settings.enabled);
        modified := modified || sub;
      }
      assert root.children[..|root.children|] == root.children;
    }
  }

  /** Right after `reset()` the panel reports no modification: every leaf
      the dirty check reaches is a known intention, checked exactly when the
      store has it enabled. This holds for every intention list, also when
      a collision hides some intentions beneath another's node. */
  lemma ResetThenNotModified(metaData: seq<Item>, settings: map<Item, bool>, status: map<Item, bool>)
    requires status.Keys == set item | item in metaData
    requires forall item :: item in status ==> status[item] == CheckState.IsEnabled(settings, item)
    ensures !Modified(Leaves(Marked(BuildTree(CopyAndSort(metaData)), status)), settings)
  {
    var sorted := CopyAndSort(metaData);
    var known := set item | item in metaData;
    forall x | x in sorted ensures x in known {
      assert x in multiset(metaData);
    }
    BuildTreeIntentionsIn(sorted, known);
    var t := BuildTree(sorted);
    LeavesIntentionsIn(t, known);
    MarkedLeaves(t, status);
  }

  class PreferredCharacterTree {
    /** The tree model's root. */
    var root: Node
    /** The last known check state of each intention, kept across
        rebuilds. */
    var checkStatus: map<Item, bool>
    /** The settings store the panel reads and writes. */
    const settings: IntentionSettings

    constructor(settings: IntentionSettings)
      ensures this.settings == settings
      ensures root == EmptyRoot() && checkStatus == map[]
    {
      this.settings := settings;
      root := EmptyRoot();
      checkStatus := map[];
    }

    /** `resetCheckMark`: a leaf becomes checked iff the status map holds
        true for it; another node becomes checked iff one of its children
        does; the node's new mark is returned. */
    method ResetCheckMark(n: Node) returns (r: Node, flag: bool)
      ensures r == Marked(n, checkStatus)
      ensures flag == r.checked
      decreases n
    {
      if IsLeaf(n) {
        var enabled := n.obj.item in checkStatus && checkStatus[n.obj.item];
        r := n.(checked := enabled);
        flag := enabled;
      } else {
        var checked := false;
        var cs: seq<Node> := [];
        for i := 0 to |n.children|
          invariant cs == MarkedAll(n.children[..i], checkStatus)
          invariant checked == AnyChecked(cs)
        {
          var c, f := ResetCheckMark(n.children[i]);
          assert n.children[..i + 1][..i] == n.children[..i];
          if f {
            checked := true;
            assert (cs + [c])[|cs|].checked;
          }
          if AnyChecked(cs) {
            var j :| 0 <= j < |cs| && cs[j].checked;
            assert (cs + [c])[j] == cs[j];
          }
          cs := cs + [c];
        }
        assert n.children[..|n.children|] == n.children;
        r := n.(children := cs, checked := checked);
        flag := checked;
      }
    }

    /** `refreshCheckStatus`: records every reached leaf's check mark in the
        status map; entries for other intentions stay as they were. */
    method RefreshCheckStatus(n: Node)
      modifies this`checkStatus
      ensures checkStatus == Record(Leaves(n), old(checkStatus))
      decreases n
    {
      if IsLeaf(n) {
        checkStatus := checkStatus[n.obj.item := n.checked];
      } else {
        for i := 0 to |n.children|
          invariant checkStatus == Record(LeavesOf(n.children[..i]), old(checkStatus))
        {
          RefreshCheckStatus(n.children[i]);
          LeavesOfStep(n.children, i);
          RecordConcat(LeavesOf(n.children[..i]), Leaves(n.children[i]), old(checkStatus));
        }
        assert n.children[..|n.children|] == n.children;
      }
    }

    /** `reset(List)`: builds a new tree from the sorted intentions, marks
        it from the status map and makes it the root. */
    method Rebuild(sortedIntentions: seq<Item>)
      modifies this`root
      ensures root == Marked(BuildTree(sortedIntentions), checkStatus)
    {
      var t := EmptyRoot();
      for i := 0 to |sortedIntentions|
        invariant t == BuildTree(sortedIntentions[..i])
      {
        var metaData := sortedIntentions[i];
        assert sortedIntentions[..i + 1][..i] == sortedIntentions[..i];
        t := InsertAt(t, metaData.category, metaData);
      }
      assert sortedIntentions[..|sortedIntentions|] == sortedIntentions;
      var marked, _ := ResetCheckMark(t);
      root := marked;
    }

    /** `filter`: records the current check marks, then rebuilds from the
        given intentions in sorted order. */
    method Filter(intentionsToShow: seq<Item>)
      modifies this`root, this`checkStatus
      ensures checkStatus == Record(Leaves(old(root)), old(checkStatus))
      ensures root == Marked(BuildTree(CopyAndSort(intentionsToShow)), checkStatus)
    {
      RefreshCheckStatus(root);
      Rebuild(CopyAndSort(intentionsToShow));
    }

    /** `reset()`: replaces the status map with the store's enabled state of
        every intention it knows, then rebuilds from all of them. */
    method Reset()
      modifies this`root, this`checkStatus
      ensures checkStatus.Keys == set item | item in settings.metaData
      ensures forall item :: item in checkStatus ==> checkStatus[item] == CheckState.IsEnabled(settings.enabled, item)
      ensures root == Marked(BuildTree(CopyAndSort(settings.metaData)), checkStatus)
    {
      checkStatus := map[];
      var intentions := settings.metaData;
      for i := 0 to |intentions|
        invariant checkStatus.Keys == set item | item in intentions[..i]
        invariant forall item :: item in checkStatus ==> checkStatus[item] == CheckState.IsEnabled(settings.enabled, item)
      {
        assert intentions[..i + 1] == intentions[..i] + [intentions[i]];
        checkStatus := checkStatus[intentions[i] := CheckState.IsEnabled(settings.enabled, intentions[i])];
      }
      assert intentions[..|intentions|] == intentions;
      Rebuild(CopyAndSort(intentions));
    }

    /** The lookup behind `selectIntention`: the node that would be
        selected, if any. */
    method SelectIntention(familyName: string) returns (selected: Option<Node>)
      ensures selected == FirstNamed(LeavesOf(root.children), familyName)
    {
      selected := FindChildRecursively(root, familyName);
    }

    /** `apply()`: writes the check marks of the whole tree to the store. */
    method Apply()
      modifies settings`enabled
      ensures settings.enabled == Record(Leaves(root), old(settings.enabled))
    {
      ApplyNode(root, settings);
    }

    /** `isModified()`: whether the tree differs from the store. */
    method IsModified() returns (modified: bool)
      ensures modified == Modified(Leaves(root), settings.enabled)
    {
      modified := IsModifiedNode(root, settings);
    }
  }
}
