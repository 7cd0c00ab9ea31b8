/**
 * The monitor bookkeeping of cpp/screen_controller.cpp: the parser of the
 * monitor listing, the two group-activity flags, the status byte sent to the
 * microcontroller and the enable/disable decisions for a received command.
 */
module MonitorInventory {
  import opened Colors
  import opened Text

  const ActivePrefix := "Active            :"
  const IdPrefix := "Short Monitor ID  :"
  const NamePrefix := "Name              : "

  /** The parser's variables between two lines of the listing. */
  datatype Scan = Scan(
    active: set<string>,          // activeMonitors
    ids: map<string, int>,        // monitorsId
    currentId: string,            // currentMonitorId
    currentName: string,          // currentMonitorName
    isActive: bool,
    index: int,
    enables: seq<string>)         // names passed to the tool's /enable by the parser

  function StartScan(ids: map<string, int>): Scan
  {
    Scan({}, ids, "", "", false, 0, [])
  }

  /** The field of a `Key : value` line, trimmed as the parser trims it. */
  function Field(line: string): string
  {
    Trim(AfterColon(line), LineSpace)
  }

  /** What the prefix of a left-trimmed line does to the parser's variables. */
  function LineEffect(st: Scan, line: string): Scan
  {
    if StartsWith(line, ActivePrefix) then
      st.(isActive := Contains(TrimLeft(AfterColon(line), Blank), "Yes"), currentId := "")
    else if StartsWith(line, IdPrefix) then
      var id := Field(line);
      st.(currentId := id,
          enables := if id == "" then st.enables + [st.currentName] else st.enables,
          ids := st.ids[id := st.index],
          index := st.index + 1)
    else if StartsWith(line, NamePrefix) then
      st.(currentName := Field(line))
    else st
  }

  /** The check after every line: a pending active id joins the set and the pending state resets. */
  function Settle(st: Scan): Scan
  {
    if st.currentId != "" && st.isActive then
      st.(active := st.active + {st.currentId}, currentId := "", currentName := "", isActive := false)
    else st
  }

  /** The parser's handling of one raw line. */
  function ScanLine(st: Scan, raw: string): Scan
  {
    Settle(LineEffect(st, TrimLeft(raw, LineSpace)))
  }

  function ScanLines(st: Scan, lines: seq<string>): Scan
    decreases |lines|
  {
    if |lines| == 0 then st else ScanLines(ScanLine(st, lines[0]), lines[1..])
  }

  /** Scanning the lines from n on is scanning line n, then the rest. */
  lemma ScanLinesStep(st: Scan, lines: seq<string>, n: nat)
    requires n < |lines|
    ensures ScanLines(st, lines[n..]) == ScanLines(ScanLine(st, lines[n]), lines[n + 1..])
  {
    assert lines[n..][1..] == lines[n + 1..];
  }

  /** Lines that carry a monitor id. */
  predicate IsIdLine(raw: string)
  {
    var line := TrimLeft(raw, LineSpace);
    !StartsWith(line, ActivePrefix) && StartsWith(line, IdPrefix)
  }

  function IdLineCount(lines: seq<string>): nat
  {
    if |lines| == 0 then 0 else (if IsIdLine(lines[0]) then 1 else 0) + IdLineCount(lines[1..])
  }

  /**
   * What the parser keeps consistent: every active id and the pending id
   * were recorded in `ids`, and the empty id is never active.
   */
  predicate Consistent(st: Scan)
  {
    && st.active <= st.ids.Keys
    && "" !in st.active
    && (st.currentId != "" ==> st.currentId in st.ids)
  }

  lemma ScanLineConsistent(st: Scan, raw: string)
    requires Consistent(st)
    ensures Consistent(ScanLine(st, raw))
    ensures ScanLine(st, raw).ids.Keys >= st.ids.Keys
    ensures ScanLine(st, raw).index == st.index + (if IsIdLine(raw) then 1 else 0)
  {
  }

  /** The listing keeps the parser consistent, and each id line takes the next index. */
  lemma {:induction false} ScanLinesConsistent(st: Scan, lines: seq<string>)
    requires Consistent(st)
    ensures Consistent(ScanLines(st, lines))
    ensures ScanLines(st, lines).index == st.index + IdLineCount(lines)
    decreases |lines|
  {
    if |lines| > 0 {
      ScanLineConsistent(st, lines[0]);
      ScanLinesConsistent(ScanLine(st, lines[0]), lines[1..]);
    }
  }

  /** Every monitor reported active was listed with an id. */
  lemma ActiveMonitorsAreListed(ids: map<string, int>, lines: seq<string>)
    ensures ScanLines(StartScan(ids), lines).active <= ScanLines(StartScan(ids), lines).ids.Keys
    ensures "" !in ScanLines(StartScan(ids), lines).active
  {
    ScanLinesConsistent(StartScan(ids), lines);
  }

  lemma {:induction false} ScanAppend(st: Scan, lines: seq<string>, raw: string)
    ensures ScanLines(st, lines + [raw]) == ScanLine(ScanLines(st, lines), raw)
    decreases |lines|
  {
    if |lines| > 0 {
      assert (lines + [raw])[1..] == lines[1..] + [raw];
      ScanAppend(ScanLine(st, lines[0]), lines[1..], raw);
    }
  }

  /**
   * Ids are numbered in order of appearance: the id on an id line that
   * follows `lines` gets the number of id lines before it.
   */
  lemma IdIndex(ids: map<string, int>, lines: seq<string>, raw: string)
    requires IsIdLine(raw)
    ensures Field(TrimLeft(raw, LineSpace)) in ScanLines(StartScan(ids), lines + [raw]).ids
    ensures ScanLines(StartScan(ids), lines + [raw]).ids[Field(TrimLeft(raw, LineSpace))] == IdLineCount(lines)
  {
    ScanAppend(StartScan(ids), lines, raw);
    ScanLinesConsistent(StartScan(ids), lines);
  }

  /** A monitor request issued to the display tool. */
  datatype Request = Enable(group: Group) | Disable(group: Group)
  datatype Group = Stat1 | Stat2

  /** The status byte: 1 only stat1 active, 2 only stat2, 3 both, 4 neither. */
  function StatusByte(stat1: bool, stat2: bool): (b: byte)
    ensures 1 <= b <= 4
  {
    if stat1 && !stat2 then 1
    else if !stat1 && stat2 then 2
    else if stat1 && stat2 then 3
    else 4
  }

  /** The group states a status byte reports. */
  function StatusFlags(b: byte): (bool, bool)
    requires 1 <= b <= 4
  {
    (b == 1 || b == 3, b == 2 || b == 3)
  }

  /** The status byte determines both flags. */
  lemma StatusByteDecodes(stat1: bool, stat2: bool)
    ensures StatusFlags(StatusByte(stat1, stat2)) == (stat1, stat2)
  {
  }

  /**
   * The group states a command asks for: 1 both off, 2 stat1 only, 3 stat2
   * only, 4 both on (not the status byte's numbering).
   */
  function Target(command: byte): (bool, bool)
    requires 1 <= command <= 4
  {
    (command == 2 || command == 4, command == 3 || command == 4)
  }

  /**
   * Command 1..4 drives the groups to Target(command): a group is switched
   * only when its state differs, disable before enable for stat1, then stat2.
   */
  function Dispatch(command: byte, stat1: bool, stat2: bool): (rs: seq<Request>)
  {
    if command == 1 then
      (if stat1 then [Disable(Stat1)] else []) + (if stat2 then [Disable(Stat2)] else [])
    else if command == 2 then
      (if !stat1 then [Enable(Stat1)] else []) + (if stat2 then [Disable(Stat2)] else [])
    else if command == 3 then
      (if stat1 then [Disable(Stat1)] else []) + (if !stat2 then [Enable(Stat2)] else [])
    else if command == 4 then
      (if !stat1 then [Enable(Stat1)] else []) + (if !stat2 then [Enable(Stat2)] else [])
    else []
  }

  function Apply(state: (bool, bool), r: Request): (bool, bool)
  {
    match r
    case Enable(Stat1) => (true, state.1)
    case Disable(Stat1) => (false, state.1)
    case Enable(Stat2) => (state.0, true)
    case Disable(Stat2) => (state.0, false)
  }

  function ApplyAll(state: (bool, bool), rs: seq<Request>): (bool, bool)
    decreases |rs|
  {
    if |rs| == 0 then state else ApplyAll(Apply(state, rs[0]), rs[1..])
  }

  /** `ApplyAll` unrolled for the at most two requests a command issues. */
  lemma ApplyUpToTwo(s: (bool, bool), rs: seq<Request>)
    requires |rs| <= 2
    ensures |rs| == 0 ==> ApplyAll(s, rs) == s
    ensures |rs| == 1 ==> ApplyAll(s, rs) == Apply(s, rs[0])
    ensures |rs| == 2 ==> ApplyAll(s, rs) == Apply(Apply(s, rs[0]), rs[1])
  {
    if |rs| > 0 {
      assert ApplyAll(s, rs) == ApplyAll(Apply(s, rs[0]), rs[1..]);
    }
    if |rs| == 2 {
      var rest := rs[1..];
      assert rest[1..] == [];
      assert ApplyAll(Apply(s, rs[0]), rest) == ApplyAll(Apply(Apply(s, rs[0]), rest[0]), rest[1..]);
    }
  }

  /**
   * After a command's requests the groups are in the commanded state, and
   * a group already in its target state is never touched.
   */
  lemma DispatchReachesTarget(command: byte, stat1: bool, stat2: bool)
    requires 1 <= command <= 4
    ensures ApplyAll((stat1, stat2), Dispatch(command, stat1, stat2)) == Target(command)
    ensures forall r | r in Dispatch(command, stat1, stat2) ::
      (r.group == Stat1 ==> stat1 != Target(command).0) && (r.group == Stat2 ==> stat2 != Target(command).1)
  {
    ApplyUpToTwo((stat1, stat2), Dispatch(command, stat1, stat2));
  }

  /** Any other byte asks for nothing. */
  lemma OtherBytesIgnored(command: byte)
    requires command == 0 || command > 4
    ensures Dispatch(command, true, true) == Dispatch(command, false, false) == []
  {
  }

  /** The `ScreenController` object: its id map and the two group flags. */
  class ScreenController {
    const stat1Monitors: seq<string>
    const stat2Monitors: seq<string>
    var monitorsId: map<string, int>
    var stat1Active: bool
    var stat2Active: bool

    /**
     * The constructor refreshes the flags from the listing; when the listing
     * cannot be read (None) the exception is caught and the controller keeps
     * no ids and both groups inactive.
     */
    constructor (listing: Option<seq<string>>)
      ensures stat1Monitors == ["HKM3750"] && stat2Monitors == ["GSM82C5"]
      ensures listing.None? ==> monitorsId == map[] && !stat1Active && !stat2Active
      ensures listing.Some? ==> monitorsId == ScanLines(StartScan(map[]), listing.value).ids
      ensures listing.Some? ==> (stat1Active <==> exists i | 0 <= i < |stat1Monitors| ::
                stat1Monitors[i] in ScanLines(StartScan(map[]), listing.value).active)
      ensures listing.Some? ==> (stat2Active <==> exists i | 0 <= i < |stat2Monitors| ::
                stat2Monitors[i] in ScanLines(StartScan(map[]), listing.value).active)
    {
      stat1Monitors := ["HKM3750"];
      stat2Monitors := ["GSM82C5"];
      monitorsId := map[];
      stat1Active := false;
      stat2Active := false;
      new;
      if listing.Some? {
        var _ := CheckScreenStat(listing.value);
      }
    }

    /**
     * `getActiveMonitors` over the decoded lines of the listing: the parser's
     * loop, recording ids in `monitorsId` as it goes and returning the
     * `/enable` requests it issues for monitors without an id.
     */
    method GetActiveMonitors(lines: seq<string>) returns (active: set<string>, enables: seq<string>)
      modifies this
      ensures active == ScanLines(StartScan(old(monitorsId)), lines).active
      ensures monitorsId == ScanLines(StartScan(old(monitorsId)), lines).ids
      ensures enables == ScanLines(StartScan(old(monitorsId)), lines).enables
      ensures stat1Active == old(stat1Active) && stat2Active == old(stat2Active)
    {
      ghost var start := StartScan(monitorsId);
      active, enables := {}, [];
      var currentId, currentName := "", "";
      var isActive := false;
      var index := 0;
      var n := 0;
      assert lines[n..] == lines;
      while n < |lines|
        invariant n <= |lines|
        invariant ScanLines(start, lines) ==
          ScanLines(Scan(active, monitorsId, currentId, currentName, isActive, index, enables), lines[n..])
        invariant stat1Active == old(stat1Active) && stat2Active == old(stat2Active)
      {
        ghost var before := Scan(active, monitorsId, currentId, currentName, isActive, index, enables);
        ScanLinesStep(before, lines, n);
        var line := TrimLeft(lines[n], LineSpace);
        if StartsWith(line, ActivePrefix) {
          var status := TrimLeft(AfterColon(line), Blank);
          isActive := Contains(status, "Yes");
          currentId := "";
        } else if StartsWith(line, IdPrefix) {
          currentId := Field(line);
          if currentId == "" {
            enables := enables + [currentName];
          }
          monitorsId := monitorsId[currentId := index];
          index := index + 1;
        } else if StartsWith(line, NamePrefix) {
          currentName := Field(line);
        }
        assert Scan(active, monitorsId, currentId, currentName, isActive, index, enables) == LineEffect(before, line);
        if currentId != "" && isActive {
          active := active + {currentId};
          currentId, currentName := "", "";
          isActive := false;
        }
        n := n + 1;
      }
    }

    /** `checkScreenStat`: a group is active when one of its ids is active. */
    method CheckScreenStat(lines: seq<string>) returns (enables: seq<string>)
      modifies this
      ensures monitorsId == ScanLines(StartScan(old(monitorsId)), lines).ids
      ensures stat1Active <==> exists i | 0 <= i < |stat1Monitors| ::
                stat1Monitors[i] in ScanLines(StartScan(old(monitorsId)), lines).active
      ensures stat2Active <==> exists i | 0 <= i < |stat2Monitors| ::
                stat2Monitors[i] in ScanLines(StartScan(old(monitorsId)), lines).active
      ensures enables == ScanLines(StartScan(old(monitorsId)), lines).enables
    {
      var active;
      active, enables := GetActiveMonitors(lines);
      stat1Active := AnyActive(stat1Monitors, active);
      stat2Active := AnyActive(stat2Monitors, active);
    }

    /**
     * One received byte: 0 refreshes the ids and flags from the listing
     * (returning the parser's `/enable` requests) and replies with the status
     * byte and a 0; 1..4 issue the group requests.
     */
    method HandleByte(received: byte, lines: seq<string>)
      returns (reply: seq<byte>, requests: seq<Request>, enables: seq<string>)
      modifies this
      ensures received == 0 ==> reply == [StatusByte(stat1Active, stat2Active), 0] && requests == []
      ensures received == 0 ==> monitorsId == ScanLines(StartScan(old(monitorsId)), lines).ids
      ensures received == 0 ==> (stat1Active <==> exists i | 0 <= i < |stat1Monitors| ::
                stat1Monitors[i] in ScanLines(StartScan(old(monitorsId)), lines).active)
      ensures received == 0 ==> (stat2Active <==> exists i | 0 <= i < |stat2Monitors| ::
                stat2Monitors[i] in ScanLines(StartScan(old(monitorsId)), lines).active)
      ensures received == 0 ==> enables == ScanLines(StartScan(old(monitorsId)), lines).enables
      ensures received != 0 ==> reply == [] && requests == Dispatch(received, stat1Active, stat2Active) && enables == []
      ensures received != 0 ==> monitorsId == old(monitorsId)
      ensures received != 0 ==> stat1Active == old(stat1Active) && stat2Active == old(stat2Active)
    {
      reply, requests, enables := [], [], [];
      if received == 0 {
        enables := CheckScreenStat(lines);
        var toSend := StatusByte(stat1Active, stat2Active);
        reply := [toSend, 0];
      } else {
        requests := Dispatch(received, stat1Active, stat2Active);
      }
    }
  }

  /** The loop with `break` over a group's ids. */
  method AnyActive(group: seq<string>, active: set<string>) returns (found: bool)
    ensures found <==> exists i | 0 <= i < |group| :: group[i] in active
  {
    found := false;
    var i := 0;
    while i < |group|
      invariant i <= |group|
      invariant forall j | 0 <= j < i :: group[j] !in active
    {
      if group[i] in active {
        found := true;
        break;
      }
      i := i + 1;
    }
  }
}
