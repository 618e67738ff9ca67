/**
 * Layer reordering in the timeline test window (`TimelineTest.moveLayer`,
 * guarded by `ControlActor._dragEndCb`) and the per-control separator
 * highlight and selection flags. Layers are numbered by their position in the
 * timeline's layer list; `priorities[l]` is layer `l`'s priority. Each track
 * control belongs to one layer (`controlLayer`).
 */
module Layers {

  /** Where `moveLayer` parks the moved layer while the others shift. */
  const ParkedPriority: int := 999
  /** The priority `moveLayer` passes to `highlightSeparator` to clear the highlight. */
  const NoSeparator: int := 1000

  /** A layer's priority after the layer at priority `p` moves to `target`. */
  function Shifted(prio: int, p: int, target: int): int
  {
    if p > target && target <= prio < p then prio + 1
    else if p < target && p < prio <= target then prio - 1
    else prio
  }

  /** All priorities after layer `moved` goes to `target`. */
  function MovedPriorities(prios: seq<int>, moved: nat, target: int): (r: seq<int>)
    requires moved < |prios|
    ensures |r| == |prios|
  {
    seq(|prios|, j requires 0 <= j < |prios| =>
      if j == moved then target else Shifted(prios[j], prios[moved], target))
  }

  /** Priorities `0 .. n-1`, each held by exactly one of the `n` layers. */
  predicate IsPriorityPermutation(prios: seq<int>)
  {
    && (forall j :: 0 <= j < |prios| ==> 0 <= prios[j] < |prios|)
    && (forall j, k :: 0 <= j < k < |prios| ==> prios[j] != prios[k])
  }

  /**
   * The moved layer lands on `target`; the layers strictly between the old
   * and the new priority shift by one towards the gap; every other layer
   * keeps its priority.
   */
  lemma MoveShiftsBand(prios: seq<int>, moved: nat, target: int, j: nat)
    requires moved < |prios| && j < |prios|
    ensures var p := prios[moved];
      var r := MovedPriorities(prios, moved, target);
      && (j == moved ==> r[j] == target)
      && (j != moved && p > target && target <= prios[j] < p ==> r[j] == prios[j] + 1)
      && (j != moved && p < target && p < prios[j] <= target ==> r[j] == prios[j] - 1)
      && (j != moved && !(target <= prios[j] <= p) && !(p <= prios[j] <= target) ==> r[j] == prios[j])
  {
  }

  /** Moving a layer to a valid, different priority keeps priorities a permutation of `0 .. n-1`. */
  lemma MovePreservesPermutation(prios: seq<int>, moved: nat, target: int)
    requires moved < |prios| && IsPriorityPermutation(prios)
    requires 0 <= target < |prios| && target != prios[moved]
    ensures IsPriorityPermutation(MovedPriorities(prios, moved, target))
  {
    var p := prios[moved];
    var r := MovedPriorities(prios, moved, target);
    forall j | 0 <= j < |r| ensures 0 <= r[j] < |r| {
      MoveShiftsBand(prios, moved, target, j);
    }
    forall j, k | 0 <= j < k < |r| ensures r[j] != r[k] {
      MoveShiftsBand(prios, moved, target, j);
      MoveShiftsBand(prios, moved, target, k);
      assert j != moved ==> prios[j] != p;
      assert k != moved ==> prios[k] != p;
    }
  }

  /** The layers that did not move keep their relative order. */
  lemma MoveKeepsRelativeOrder(prios: seq<int>, moved: nat, target: int, j: nat, k: nat)
    requires moved < |prios| && j < |prios| && k < |prios|
    requires j != moved && k != moved && prios[j] != prios[moved] && prios[k] != prios[moved]
    ensures var r := MovedPriorities(prios, moved, target);
      prios[j] < prios[k] <==> r[j] < r[k]
  {
    MoveShiftsBand(prios, moved, target, j);
    MoveShiftsBand(prios, moved, target, k);
  }

  class LayerPanel {
    /** Priority of each layer of the timeline. */
    const priorities: array<int>
    /** The layer each track control belongs to. */
    const controlLayer: seq<nat>
    /** Whether each track control's separator is highlighted. */
    const highlighted: array<bool>
    /** Whether each track control is selected. */
    const selected: array<bool>
    /** The number of layers, taken when a drag begins. */
    var nbrLayers: nat

    ghost predicate Valid()
      reads this
    {
      && highlighted.Length == |controlLayer| == selected.Length
      && highlighted != selected
      && forall c :: 0 <= c < |controlLayer| ==> controlLayer[c] < priorities.Length
    }

    constructor (layerPriorities: seq<int>, layerOfControl: seq<nat>)
      requires forall c :: 0 <= c < |layerOfControl| ==> layerOfControl[c] < |layerPriorities|
      ensures Valid()
      ensures priorities[..] == layerPriorities && controlLayer == layerOfControl
      ensures fresh(priorities) && fresh(highlighted) && fresh(selected)
      ensures forall c :: 0 <= c < |controlLayer| ==> !highlighted[c] && !selected[c]
      ensures nbrLayers == |layerPriorities|
    {
      priorities := new int[|layerPriorities|](i requires 0 <= i < |layerPriorities| => layerPriorities[i]);
      controlLayer := layerOfControl;
      highlighted := new bool[|layerOfControl|](_ => false);
      selected := new bool[|layerOfControl|](_ => false);
      nbrLayers := |layerPriorities|;
    }

    /** `highlightSeparator`: highlight exactly the controls whose layer has this priority. */
    method HighlightSeparator(priority: int)
      requires Valid()
      modifies highlighted
      ensures forall c :: 0 <= c < |controlLayer| ==> highlighted[c] == (priorities[controlLayer[c]] == priority)
    {
      var c := 0;
      while c < highlighted.Length
        invariant 0 <= c <= highlighted.Length
        invariant forall k :: 0 <= k < c ==> highlighted[k] == (priorities[controlLayer[k]] == priority)
      {
        highlighted[c] := priorities[controlLayer[c]] == priority;
        c := c + 1;
      }
    }

    /** `selectLayerControl`: deselect every control, then select the given one. */
    method SelectLayerControl(control: nat)
      requires Valid() && control < |controlLayer|
      modifies selected
      ensures forall c :: 0 <= c < |controlLayer| ==> selected[c] == (c == control)
    {
      var c := 0;
      while c < selected.Length
        invariant 0 <= c <= selected.Length
        invariant forall k :: 0 <= k < c ==> !selected[k]
      {
        selected[c] := false;
        c := c + 1;
      }
      selected[control] := true;
    }

    /**
     * `moveLayer`: park the moved layer, shift the layers between its old
     * priority and `target` by one, give it `target`, and clear the separator
     * highlight.
     */
    method MoveLayer(layer: nat, target: int)
      requires Valid() && layer < priorities.Length
      modifies priorities, highlighted
      ensures priorities[..] == MovedPriorities(old(priorities[..]), layer, target)
      ensures forall c :: 0 <= c < |controlLayer| ==> highlighted[c] == (priorities[controlLayer[c]] == NoSeparator)
    {
      var priority := priorities[layer];
      priorities[layer] := ParkedPriority;
      if priority > target {
        var j := 0;
        while j < priorities.Length
          invariant 0 <= j <= priorities.Length
          invariant forall k :: 0 <= k < j && k != layer ==> priorities[k] == Shifted(old(priorities[k]), priority, target)
          invariant forall k :: j <= k < priorities.Length && k != layer ==> priorities[k] == old(priorities[k])
        {
          var prio := priorities[j];
          if target <= prio < priority {
            priorities[j] := prio + 1;
          }
          j := j + 1;
        }
      } else if priority < target {
        var j := 0;
        while j < priorities.Length
          invariant 0 <= j <= priorities.Length
          invariant forall k :: 0 <= k < j && k != layer ==> priorities[k] == Shifted(old(priorities[k]), priority, target)
          invariant forall k :: j <= k < priorities.Length && k != layer ==> priorities[k] == old(priorities[k])
        {
          var prio := priorities[j];
          if priority < prio <= target {
            priorities[j] := prio - 1;
          }
          j := j + 1;
        }
      }
      priorities[layer] := target;
      assert priorities[..] == MovedPriorities(old(priorities[..]), layer, target);
      HighlightSeparator(NoSeparator);
    }

    /** `_dragBeginCb`: remember how many layers there are. */
    method DragBegin()
      modifies this`nbrLayers
      ensures nbrLayers == priorities.Length
    {
      nbrLayers := priorities.Length;
    }

    /**
     * `_dragEndCb`, given the priority under the mouse cursor: move the dragged
     * layer only to a different priority within `[0, nbrLayers)`.
     */
    method DragEnd(layer: nat, priority: int)
      requires Valid() && layer < priorities.Length
      modifies priorities, highlighted
      ensures old(priorities[layer]) != priority && 0 <= priority < nbrLayers ==>
        && priorities[..] == MovedPriorities(old(priorities[..]), layer, priority)
        && forall c :: 0 <= c < |controlLayer| ==> highlighted[c] == (priorities[controlLayer[c]] == NoSeparator)
      ensures !(old(priorities[layer]) != priority && 0 <= priority < nbrLayers) ==>
        priorities[..] == old(priorities[..]) && highlighted[..] == old(highlighted[..])
      ensures IsPriorityPermutation(old(priorities[..])) && nbrLayers <= priorities.Length ==>
        IsPriorityPermutation(priorities[..])
    {
      if priorities[layer] != priority && priority >= 0 && priority < nbrLayers {
        if nbrLayers <= priorities.Length && IsPriorityPermutation(priorities[..]) {
          MovePreservesPermutation(priorities[..], layer, priority);
        }
        MoveLayer(layer, priority);
      }
    }
  }
}
