/**
 * The `std::string` operations the monitor-listing parsers use: `find`,
 * `find_first_not_of`, `find_last_not_of` and the erase/substr idioms built
 * on them. The functions carry only the bounds their callers' slices need;
 * what they mean is stated by the lemma beside each.
 */
module Text {
  import opened Colors

  /** " \t\r\n", the characters both parsers strip from a line. */
  const LineSpace: set<char> := {' ', '\t', '\r', '\n'}

  /** " \t", the characters stripped before looking for "Yes". */
  const Blank: set<char> := {' ', '\t'}

  /** `find_first_not_of(cs)`, with `|s|` standing for `npos`. */
  function FirstNotOf(s: string, cs: set<char>): (i: nat)
    ensures i <= |s|
  {
    if |s| == 0 || s[0] !in cs then 0 else 1 + FirstNotOf(s[1..], cs)
  }

  /** Every character before the position found is in `cs`, and the one at it is not. */
  lemma {:induction false} FirstNotOfSpec(s: string, cs: set<char>)
    ensures forall j | 0 <= j < FirstNotOf(s, cs) :: s[j] in cs
    ensures FirstNotOf(s, cs) < |s| ==> s[FirstNotOf(s, cs)] !in cs
  {
    if |s| > 0 && s[0] in cs {
      FirstNotOfSpec(s[1..], cs);
    }
  }

  /**
   * `s.erase(0, s.find_first_not_of(cs))`: an all-`cs` string becomes empty,
   * because `npos` erases to the end.
   */
  function TrimLeft(s: string, cs: set<char>): (t: string)
  {
    s[FirstNotOf(s, cs)..]
  }

  /** TrimLeft keeps a suffix, drops only characters of `cs`, and does not start with one. */
  lemma TrimLeftSpec(s: string, cs: set<char>)
    ensures |TrimLeft(s, cs)| <= |s| && TrimLeft(s, cs) == s[|s| - |TrimLeft(s, cs)|..]
    ensures |TrimLeft(s, cs)| > 0 ==> TrimLeft(s, cs)[0] !in cs
    ensures forall j | 0 <= j < |s| - |TrimLeft(s, cs)| :: s[j] in cs
  {
    FirstNotOfSpec(s, cs);
  }

  /** One past `find_last_not_of(cs)`, or 0 when every character is in `cs`. */
  function EndOfLastNotOf(s: string, cs: set<char>): (k: nat)
    ensures k <= |s|
  {
    if |s| == 0 then 0
    else if s[|s| - 1] !in cs then |s|
    else EndOfLastNotOf(s[..|s| - 1], cs)
  }

  /** Every character from the position found on is in `cs`, and the one before it is not. */
  lemma {:induction false} EndOfLastNotOfSpec(s: string, cs: set<char>)
    ensures forall j | EndOfLastNotOf(s, cs) <= j < |s| :: s[j] in cs
    ensures EndOfLastNotOf(s, cs) > 0 ==> s[EndOfLastNotOf(s, cs) - 1] !in cs
  {
    if |s| > 0 && s[|s| - 1] in cs {
      EndOfLastNotOfSpec(s[..|s| - 1], cs);
    }
  }

  /**
   * `s.erase(s.find_last_not_of(cs) + 1)`: `npos + 1` wraps to 0, so an
   * all-`cs` string becomes empty.
   */
  function TrimRight(s: string, cs: set<char>): (t: string)
  {
    s[..EndOfLastNotOf(s, cs)]
  }

  /** TrimRight keeps a prefix, drops only characters of `cs`, and does not end with one. */
  lemma TrimRightSpec(s: string, cs: set<char>)
    ensures |TrimRight(s, cs)| <= |s| && TrimRight(s, cs) == s[..|TrimRight(s, cs)|]
    ensures |TrimRight(s, cs)| > 0 ==> TrimRight(s, cs)[|TrimRight(s, cs)| - 1] !in cs
    ensures forall j | |TrimRight(s, cs)| <= j < |s| :: s[j] in cs
  {
    EndOfLastNotOfSpec(s, cs);
  }

  function Trim(s: string, cs: set<char>): (t: string)
  {
    TrimRight(TrimLeft(s, cs), cs)
  }

  /** A trimmed string neither starts nor ends with a character of `cs`. */
  lemma TrimEnds(s: string, cs: set<char>)
    ensures |Trim(s, cs)| > 0 ==> Trim(s, cs)[0] !in cs && Trim(s, cs)[|Trim(s, cs)| - 1] !in cs
  {
    var l := TrimLeft(s, cs);
    var t := TrimRight(l, cs);
    TrimLeftSpec(s, cs);
    TrimRightSpec(l, cs);
    if |t| > 0 {
      assert t[0] == l[0];
    }
  }

  predicate OccursAt(s: string, p: string, i: nat)
  {
    i + |p| <= |s| && s[i..i + |p|] == p
  }

  /** `s.find(p, from)`: the first occurrence at or after `from`, if any. */
  function FindFrom(s: string, p: string, from: nat): (r: Option<nat>)
    ensures r.Some? ==> from <= r.value && r.value + |p| <= |s|
    decreases |s| - from
  {
    if from + |p| > |s| then None
    else if s[from..from + |p|] == p then Some(from)
    else FindFrom(s, p, from + 1)
  }

  /** FindFrom returns the first occurrence at or after `from`, and None only when there is none. */
  lemma {:induction false} FindFromSpec(s: string, p: string, from: nat)
    ensures FindFrom(s, p, from).Some? ==> OccursAt(s, p, FindFrom(s, p, from).value)
    ensures FindFrom(s, p, from).Some? ==> forall j | from <= j < FindFrom(s, p, from).value :: !OccursAt(s, p, j)
    ensures FindFrom(s, p, from).None? ==> forall j | from <= j :: !OccursAt(s, p, j)
    decreases |s| - from
  {
    if from + |p| <= |s| && s[from..from + |p|] != p {
      FindFromSpec(s, p, from + 1);
    }
  }

  /** `s.find(p)`. */
  function Find(s: string, p: string): (r: Option<nat>)
  {
    FindFrom(s, p, 0)
  }

  /** `s.find(p) == 0`. */
  predicate StartsWith(s: string, p: string)
  {
    Find(s, p) == Some(0)
  }

  /** `s.find(p) != npos`. */
  predicate Contains(s: string, p: string)
  {
    Find(s, p).Some?
  }

  /** `find(p) == 0` holds exactly when `p` is a prefix. */
  lemma StartsWithIsPrefix(s: string, p: string)
    ensures StartsWith(s, p) <==> p <= s
  {
    if p <= s {
      assert s[0..|p|] == p;
    }
  }

  /** `find(p) != npos` holds exactly when `p` occurs somewhere. */
  lemma ContainsIsOccurrence(s: string, p: string)
    ensures Contains(s, p) <==> exists i: nat :: OccursAt(s, p, i)
  {
    FindFromSpec(s, p, 0);
  }

  /**
   * `s.substr(s.find(":") + 1)`: what follows the first colon (the whole
   * string when there is none, because `npos + 1` wraps to 0).
   */
  function AfterColon(s: string): (t: string)
  {
    match Find(s, ":")
    case None => s
    case Some(i) => s[i + 1..]
  }

  /** A one-character pattern occurs exactly where that character is. */
  lemma OccursAtChar(s: string, c: char, j: nat)
    ensures OccursAt(s, [c], j) <==> j < |s| && s[j] == c
  {
    if j < |s| {
      assert s[j..j + 1] == [s[j]];
    }
  }

  /** AfterColon is the whole line when it has no colon, else the suffix after its first colon. */
  lemma AfterColonSpec(s: string)
    ensures ':' !in s ==> AfterColon(s) == s
    ensures ':' in s ==>
      && |AfterColon(s)| < |s| && AfterColon(s) == s[|s| - |AfterColon(s)|..]
      && s[|s| - |AfterColon(s)| - 1] == ':'
      && ':' !in s[..|s| - |AfterColon(s)| - 1]
  {
    FindFromSpec(s, ":", 0);
    if ':' in s {
      var i :| 0 <= i < |s| && s[i] == ':';
      OccursAtChar(s, ':', i);
      var k := Find(s, ":").value;
      OccursAtChar(s, ':', k);
      forall j | 0 <= j < k
        ensures s[j] != ':'
      {
        OccursAtChar(s, ':', j);
      }
    } else if Find(s, ":").Some? {
      OccursAtChar(s, ':', Find(s, ":").value);
    }
  }
}
