/**
 * The desk module's frame-to-frame change detection: the colours sent last
 * time (`previousLedColors`) and the per-LED changed mask of a new frame.
 */
module TemporalDiff {

  /**
   * The changed mask of `corrected` against `previous`: every LED when the
   * lengths differ (first frame or resize), otherwise the LEDs whose colour
   * differs.
   */
  function Changes(previous: seq<int>, corrected: seq<int>): (changed: seq<bool>)
    ensures |changed| == |corrected|
  {
    if |previous| != |corrected| then seq(|corrected|, _ => true)
    else seq(|corrected|, j requires 0 <= j < |corrected| => corrected[j] != previous[j])
  }

  /** An LED is marked exactly when the length changed or its colour changed. */
  lemma ChangesMarksDifferences(previous: seq<int>, corrected: seq<int>, j: nat)
    requires j < |corrected|
    ensures Changes(previous, corrected)[j] <==> |previous| != |corrected| || corrected[j] != previous[j]
  {
  }

  /** Sending the same frame twice marks nothing the second time. */
  lemma RepeatIsQuiet(corrected: seq<int>)
    ensures forall j | 0 <= j < |corrected| :: !Changes(corrected, corrected)[j]
  {
  }

  /** Patching the LEDs marked changed turns the previous frame into the new one. */
  lemma ChangesSuffice(previous: seq<int>, corrected: seq<int>)
    requires |previous| == |corrected|
    ensures seq(|corrected|, j requires 0 <= j < |corrected| =>
              if Changes(previous, corrected)[j] then corrected[j] else previous[j]) == corrected
  {
    var patched := seq(|corrected|, j requires 0 <= j < |corrected| =>
                     if Changes(previous, corrected)[j] then corrected[j] else previous[j]);
    forall j | 0 <= j < |corrected|
      ensures patched[j] == corrected[j]
    {
      ChangesMarksDifferences(previous, corrected, j);
    }
  }

  /** The `previousLedColors` state. */
  class DiffState {
    var previous: seq<int>

    constructor ()
      ensures previous == []
    {
      previous := [];
    }

    /**
     * Compare a new frame with the stored one, then store it: resize and
     * mark all on a length change, else compare element by element.
     */
    method Update(corrected: seq<int>) returns (changed: seq<bool>, anyChange: bool)
      modifies this
      ensures changed == Changes(old(previous), corrected)
      ensures anyChange <==> |old(previous)| != |corrected| || exists j | 0 <= j < |changed| :: changed[j]
      ensures previous == corrected
    {
      var total := |corrected|;
      var pixelChanged := new bool[total](_ => false);
      anyChange := false;
      if |previous| != total {
        previous := Resize(previous, total);
        var k := 0;
        while k < total
          invariant k <= total
          invariant forall i | 0 <= i < k :: pixelChanged[i]
        {
          pixelChanged[k] := true;
          k := k + 1;
        }
        anyChange := true;
      } else {
        var j := 0;
        while j < total
          invariant j <= total && previous == old(previous)
          invariant forall i | 0 <= i < j :: pixelChanged[i] == (corrected[i] != previous[i])
          invariant forall i | j <= i < total :: !pixelChanged[i]
          invariant anyChange <==> exists i | 0 <= i < j :: pixelChanged[i]
        {
          if corrected[j] != previous[j] {
            pixelChanged[j] := true;
            anyChange := true;
          }
          j := j + 1;
        }
      }
      changed := pixelChanged[..];
      previous := corrected;
    }
  }

  /** `std::vector::resize`: keep the prefix, pad with zeros. */
  function Resize(s: seq<int>, n: nat): (r: seq<int>)
    ensures |r| == n
    ensures forall i | 0 <= i < n && i < |s| :: r[i] == s[i]
    ensures forall i | |s| <= i < n :: r[i] == 0
  {
    if n <= |s| then s[..n] else s + seq(n - |s|, _ => 0)
  }
}
