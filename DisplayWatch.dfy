/**
 * The desk module's display watcher (main/deskController/screenController.cpp):
 * whether the third display is listed as active, and the reply and
 * enable/disable decisions for a byte from the microcontroller.
 */
module DisplayWatch {
  import opened Colors
  import opened Text

  const ActivePrefix := "Active            :"
  const Display3Prefix := "Name              : \\\\.\\DISPLAY3"
  const FrequencyPrefix := "Frequency         : 120"

  /** What an `Active` line sets `flag` to: 1 when it says "Yes", 2 otherwise. */
  function ActiveFlag(line: string): (flag: nat)
    ensures flag == 1 || flag == 2
  {
    if Contains(TrimLeft(AfterColon(line), Blank), "Yes") then 1 else 2
  }

  predicate IsActiveLine(raw: string) { StartsWith(TrimLeft(raw, LineSpace), ActivePrefix) }

  predicate IsDisplay3Line(raw: string)
  {
    var line := TrimLeft(raw, LineSpace);
    !StartsWith(line, ActivePrefix) && StartsWith(line, Display3Prefix)
  }

  /** `flag` once `lines` are read: the last `Active` line's value, 0 before any. */
  function FlagAfter(lines: seq<string>): (flag: nat)
    ensures flag <= 2
    decreases |lines|
  {
    if |lines| == 0 then 0
    else if IsActiveLine(lines[|lines| - 1]) then ActiveFlag(TrimLeft(lines[|lines| - 1], LineSpace))
    else FlagAfter(lines[..|lines| - 1])
  }

  /**
   * The scan from line `n` on, `flag` and `found` being what lines [0, n)
   * left: a display-3 line sets `found` under flag 1 and stops the scan
   * under flag 2.
   */
  function WatchFrom(lines: seq<string>, n: nat, flag: nat, found: bool): bool
    requires n <= |lines|
    decreases |lines| - n
  {
    if n == |lines| then found
    else if IsActiveLine(lines[n]) then WatchFrom(lines, n + 1, ActiveFlag(TrimLeft(lines[n], LineSpace)), found)
    else if IsDisplay3Line(lines[n]) && flag == 1 then WatchFrom(lines, n + 1, flag, true)
    else if IsDisplay3Line(lines[n]) && flag == 2 then found
    else WatchFrom(lines, n + 1, flag, found)
  }

  /** The value `check_status_monitor` stores; an unreadable listing gives false. */
  function Display3Active(listing: Option<seq<string>>): bool
  {
    match listing
    case None => false
    case Some(lines) => WatchFrom(lines, 0, 0, false)
  }

  /** A display-3 line that ends the scan: seen while the last `Active` line said no. */
  predicate Stops(lines: seq<string>, j: nat)
    requires j < |lines|
  {
    IsDisplay3Line(lines[j]) && FlagAfter(lines[..j]) == 2
  }

  /** A display-3 line that marks the display active. */
  predicate Marks(lines: seq<string>, i: nat)
    requires i < |lines|
  {
    IsDisplay3Line(lines[i]) && FlagAfter(lines[..i]) == 1
  }

  /** `FlagAfter` unfolded at the end of a prefix, the form the scan's proof steps through. */
  lemma FlagStep(lines: seq<string>, n: nat)
    requires n < |lines|
    ensures FlagAfter(lines[..n + 1]) ==
      if IsActiveLine(lines[n]) then ActiveFlag(TrimLeft(lines[n], LineSpace)) else FlagAfter(lines[..n])
  {
    assert lines[..n + 1][..n] == lines[..n];
  }

  /** Line i marks the display and no line in [n, i) stops the scan. */
  predicate MarksFirst(lines: seq<string>, n: nat, i: nat)
  {
    n <= i < |lines| && Marks(lines, i) && forall j | n <= j < i :: !Stops(lines, j)
  }

  /** A line that neither marks nor stops does not change what follows it. */
  lemma SkipLine(lines: seq<string>, n: nat, next: nat)
    requires n < |lines| && next == n + 1 && !Marks(lines, n) && !Stops(lines, n)
    ensures (exists i: nat :: MarksFirst(lines, n, i)) <==> (exists i: nat :: MarksFirst(lines, next, i))
  {
    if i: nat :| MarksFirst(lines, n, i) {
      assert i != n;
      assert MarksFirst(lines, next, i);
    }
    if i: nat :| MarksFirst(lines, next, i) {
      forall j | n <= j < i
        ensures !Stops(lines, j)
      {
        if j > n {
          assert next <= j < i;
        }
      }
      assert MarksFirst(lines, n, i);
    }
  }

  /** No line marks the display after a line that stops the scan. */
  lemma StopLine(lines: seq<string>, n: nat)
    requires n < |lines| && Stops(lines, n)
    ensures forall i: nat :: !MarksFirst(lines, n, i)
  {
    forall i: nat
      ensures !MarksFirst(lines, n, i)
    {
      if n < i < |lines| {
        assert Stops(lines, n);
      }
    }
  }

  /**
   * The scan's result from line n: true when it was already found or some
   * later line marks the display before any line stops the scan.
   */
  lemma {:induction false} WatchFromMeaning(lines: seq<string>, n: nat, found: bool)
    requires n <= |lines|
    ensures WatchFrom(lines, n, FlagAfter(lines[..n]), found) <==> found || exists i: nat :: MarksFirst(lines, n, i)
    decreases |lines| - n
  {
    if n < |lines| {
      FlagStep(lines, n);
      var flag := FlagAfter(lines[..n]);
      if IsActiveLine(lines[n]) {
        WatchFromMeaning(lines, n + 1, found);
        SkipLine(lines, n, n + 1);
      } else if IsDisplay3Line(lines[n]) && flag == 1 {
        WatchFromMeaning(lines, n + 1, true);
        assert MarksFirst(lines, n, n);
      } else if IsDisplay3Line(lines[n]) && flag == 2 {
        StopLine(lines, n);
      } else {
        WatchFromMeaning(lines, n + 1, found);
        SkipLine(lines, n, n + 1);
      }
    }
  }

  /**
   * The display is active exactly when some display-3 line is read while
   * the last `Active` line before it said "Yes", and no display-3 line
   * earlier than it is read while the last `Active` line said anything
   * else; an unreadable listing gives false.
   */
  lemma Display3ActiveMeaning(lines: seq<string>)
    ensures Display3Active(Some(lines)) <==> exists i: nat :: MarksFirst(lines, 0, i)
    ensures !Display3Active(None)
  {
    assert lines[..0] == [];
    WatchFromMeaning(lines, 0, false);
  }

  /** The `screenController` object and its published flag. */
  class DeskScreenController {
    var monitorActive: bool

    constructor ()
      ensures !monitorActive
    {
      monitorActive := false;
    }

    /** `check_status_monitor`: the line loop with its early `break`. */
    method CheckStatusMonitor(listing: Option<seq<string>>)
      modifies this
      ensures monitorActive == Display3Active(listing)
    {
      var active := false;
      if listing.Some? {
        var lines := listing.value;
        var flag: nat := 0;
        var freq := false;
        var n := 0;
        while n < |lines|
          invariant n <= |lines| && flag <= 2
          invariant WatchFrom(lines, 0, 0, false) == WatchFrom(lines, n, flag, active)
        {
          var line := TrimLeft(lines[n], LineSpace);
          if StartsWith(line, ActivePrefix) {
            var status := TrimLeft(AfterColon(line), Blank);
            flag := if Contains(status, "Yes") then 1 else 2;
          } else if StartsWith(line, Display3Prefix) {
            if flag == 1 {
              active := true;
            } else if flag == 2 {
              break;
            }
          } else if StartsWith(line, FrequencyPrefix) {
            freq := true;
          }
          n := n + 1;
        }
      }
      monitorActive := active;
    }

    /**
     * One received byte: 0 refreshes the flag and replies 1 (active) or 4,
     * then 0; 1 disables an active display, 2 enables an inactive one.
     */
    method HandleByte(received: byte, listing: Option<seq<string>>) returns (reply: seq<byte>, request: Option<bool>)
      modifies this
      ensures received == 0 ==> monitorActive == Display3Active(listing)
      ensures received == 0 ==> reply == [if monitorActive then 1 else 4, 0] && request == None
      ensures received != 0 ==> monitorActive == old(monitorActive) && reply == []
      ensures received != 0 ==> request == Reaction(received, monitorActive)
    {
      reply, request := [], None;
      if received == 0 {
        CheckStatusMonitor(listing);
        var toSend: byte := if monitorActive then 1 else 4;
        reply := [toSend, 0];
      } else if received == 1 && monitorActive {
        request := Some(false);
      } else if received == 2 && !monitorActive {
        request := Some(true);
      }
    }
  }

  /** The request a nonzero byte causes: Some(false) disable, Some(true) enable. */
  function Reaction(received: byte, active: bool): (r: Option<bool>)
    ensures r.Some? ==> r.value != active
  {
    if received == 1 && active then Some(false)
    else if received == 2 && !active then Some(true)
    else None
  }

  /** Bytes 1 and 2 drive the display to off and on; every other byte is ignored. */
  lemma ReactionReachesState(received: byte, active: bool)
    ensures received == 1 ==> (match Reaction(received, active) case Some(on) => on case None => active) == false
    ensures received == 2 ==> (match Reaction(received, active) case Some(on) => on case None => active) == true
    ensures received != 1 && received != 2 ==> Reaction(received, active) == None
  {
  }
}
