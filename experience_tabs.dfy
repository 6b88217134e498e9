/**
 * The experience tab switcher (experienceTabs): a click on a tab makes it the
 * only active tab and makes the panel whose id is the tab's `data-tab` value
 * the only active panel.
 */
module ExperienceTabs {
  import opened ActiveFlags

  datatype Option<T> = None | Some(value: T)

  /** What became of a click: handled, or the lookup found no element and the handler threw. */
  datatype ClickOutcome = Switched(panel: nat) | MissingPanel

  /**
   * The document lookup by id, restricted to the panels: the first panel in
   * document order whose id is the target. An empty id attribute gives an
   * element no id at all, so the empty target is never found; a panel without
   * an id attribute is a panel whose id is "".
   */
  function FirstIndexOf(ids: seq<string>, target: string): (r: Option<nat>)
    ensures r.Some? ==> r.value < |ids| && ids[r.value] == target && target != ""
    ensures r.Some? ==> forall j :: 0 <= j < r.value ==> ids[j] != target
    ensures r.None? <==> target == "" || target !in ids
  {
    if target == "" || ids == [] then None
    else if ids[0] == target then Some(0)
    else match FirstIndexOf(ids[1..], target)
      case None => None
      case Some(k) => Some(k + 1)
  }

  class Tabs {
    const tabs: array<bool>
    const panels: array<bool>
    /** The `data-tab` attribute of each tab. */
    const targets: seq<string>
    /** The `id` attribute of each panel. */
    const panelIds: seq<string>

    ghost predicate Valid()
      reads this
    {
      tabs != panels && |targets| == tabs.Length && |panelIds| == panels.Length
    }

    constructor Init(tabMarkup: seq<bool>, targets: seq<string>, panelMarkup: seq<bool>, panelIds: seq<string>)
      requires |tabMarkup| == |targets| && |panelMarkup| == |panelIds|
      ensures Valid() && fresh(tabs) && fresh(panels)
      ensures tabs[..] == tabMarkup && panels[..] == panelMarkup
      ensures this.targets == targets && this.panelIds == panelIds
    {
      tabs := new bool[|tabMarkup|](i requires 0 <= i < |tabMarkup| => tabMarkup[i]);
      panels := new bool[|panelMarkup|](i requires 0 <= i < |panelMarkup| => panelMarkup[i]);
      this.targets := targets;
      this.panelIds := panelIds;
    }

    /**
     * The click handler of tab t. Every tab and panel loses the flag, then tab
     * t gains it, then the target panel does; when there is no such panel the
     * handler stops there with every panel inactive.
     */
    method Click(t: nat) returns (outcome: ClickOutcome)
      requires Valid() && t < tabs.Length
      modifies tabs, panels
      ensures tabs[..] == Selection(tabs.Length, t)
      ensures FirstIndexOf(panelIds, targets[t]).None? ==>
                outcome == MissingPanel && panels[..] == AllInactive(panels.Length)
      ensures FirstIndexOf(panelIds, targets[t]).Some? ==>
                outcome == Switched(FirstIndexOf(panelIds, targets[t]).value)
                && panels[..] == Selection(panels.Length, outcome.panel)
    {
      var targetId := targets[t];
      for i := 0 to tabs.Length
        invariant forall k :: 0 <= k < i ==> !tabs[k]
      {
        tabs[i] := false;
      }
      for i := 0 to panels.Length
        invariant forall k :: 0 <= k < i ==> !panels[k]
        invariant forall k :: 0 <= k < tabs.Length ==> !tabs[k]
      {
        panels[i] := false;
      }
      tabs[t] := true;
      match FirstIndexOf(panelIds, targetId) {
        case None =>
          outcome := MissingPanel;
        case Some(p) =>
          panels[p] := true;
          outcome := Switched(p);
      }
    }
  }

  /**
   * After a handled click exactly one tab and exactly one panel are active,
   * and the active panel's id is the clicked tab's target.
   */
  lemma ClickLeavesOneActive(tabCount: nat, t: nat, panelIds: seq<string>, target: string)
    requires t < tabCount
    requires target != "" && target in panelIds
    ensures FirstIndexOf(panelIds, target).Some?
    ensures CountTrue(Selection(tabCount, t)) == 1
    ensures CountTrue(Selection(|panelIds|, FirstIndexOf(panelIds, target).value)) == 1
    ensures panelIds[FirstIndexOf(panelIds, target).value] == target
  {
    SelectionCount(tabCount, t);
    SelectionCount(|panelIds|, FirstIndexOf(panelIds, target).value);
  }

  /**
   * When no panel has the target id, or the target is empty, no panel is
   * active after the click.
   */
  lemma MissingPanelLeavesNoneActive(panelIds: seq<string>, target: string)
    requires target == "" || target !in panelIds
    ensures FirstIndexOf(panelIds, target).None?
    ensures CountTrue(AllInactive(|panelIds|)) == 0
  {
    AllInactiveCount(|panelIds|);
  }
}
