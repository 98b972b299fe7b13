/** The decision `main` takes once both queries are parsed: reconfigure only
    when the widest active monitor is not the widest connected one.  The
    processes `main` spawns are left out; what remains is a pure function
    from the two query texts to what the program does.
 */
module Reconciler {
  import opened Outcomes
  import opened Text
  import opened MonitorModel
  import opened Monitors

  /** What reconciliation asks for: nothing, or one `xrandr` call. */
  datatype Action = NoOp | Apply(args: seq<string>)

  /** The comparison in `main`: the active list's widest monitor is looked
      up first, then the capability list's; either panics when its list is
      empty. */
  function Reconcile(possible: seq<Monitor>, current: seq<Monitor>): (r: Result<Action>)
    ensures !r.Err?
    ensures r.Panic? <==> |current| == 0 || |possible| == 0
    ensures r.Ok? ==>
      (r.value.Apply? <==> current[BiggestIndex(current)].name != possible[BiggestIndex(possible)].name)
    ensures r.Ok? && r.value.Apply? ==> r.value.args == GetBiggestCommandString(possible)
  {
    var cur :- GetBiggest(current);
    var target :- GetBiggest(possible);
    FirstWidestUnique(current, BiggestIndexOf(current, cur));
    FirstWidestUnique(possible, BiggestIndexOf(possible, target));
    if cur.name != target.name then Ok(Apply(GetBiggestCommandString(possible))) else Ok(NoOp)
  }

  /** The position `GetBiggest` took its monitor from. */
  ghost function BiggestIndexOf(ms: seq<Monitor>, m: Monitor): (k: int)
    requires GetBiggest(ms) == Ok(m)
    ensures IsFirstWidest(ms, k) && ms[k] == m
  {
    var k :| IsFirstWidest(ms, k) && ms[k] == m; k
  }

  /** How a run of the program ends. */
  datatype Exit =
    | Failed                          // a message on stderr and exit code 1
    | Aborted                         // an index-out-of-bounds panic
    | Unchanged                       // exit code 0, nothing applied
    | Reconfigure(args: seq<string>)  // `xrandr` is run with these arguments

  /** `main`: parse the capability query, refuse an empty monitor list,
      parse the active-list query, then reconcile. */
  function Run(query: string, active: string): (r: Exit)
    ensures r == Failed <==>
      || FromCliText(query).Err?
      || FromCliText(query) == Ok([])
      || (FromCliText(query).Ok? && FromCliText(query).value != [] && GetCurrentFromList(active).Err?)
    ensures r == Aborted <==>
      || FromCliText(query).Panic?
      || (FromCliText(query).Ok? && FromCliText(query).value != [] && GetCurrentFromList(active) == Ok([]))
    ensures r.Reconfigure? <==>
      && FromCliText(query).Ok? && FromCliText(query).value != []
      && GetCurrentFromList(active).Ok? && GetCurrentFromList(active).value != []
      && var possible := FromCliText(query).value;
         var current := GetCurrentFromList(active).value;
         current[BiggestIndex(current)].name != possible[BiggestIndex(possible)].name
    ensures r.Reconfigure? ==> r.args == GetBiggestCommandString(FromCliText(query).value)
  {
    match FromCliText(query)
    case Err => Failed
    case Panic => Aborted
    case Ok(possible) =>
      if |possible| == 0 then
        Failed
      else
        match GetCurrentFromList(active)
        case Err => Failed
        case Panic => Aborted
        case Ok(current) =>
          match Reconcile(possible, current)
          case Ok(NoOp) => Unchanged
          case Ok(Apply(args)) => Reconfigure(args)
          case _ => Aborted
  }

  // ---------------------------------------------------------------------------
  // The state the command leaves behind

  /** The monitors the command switches on: those named like the widest. */
  function Enabled(ms: seq<Monitor>): (r: seq<Monitor>)
    requires |ms| > 0
    ensures forall m :: m in r <==> m in ms && m.name == ms[BiggestIndex(ms)].name
  {
    NamedAs(ms, ms[BiggestIndex(ms)].name)
  }

  function NamedAs(ms: seq<Monitor>, name: string): (r: seq<Monitor>)
    ensures forall m :: m in r <==> m in ms && m.name == name
  {
    if ms == [] then []
    else (if ms[0].name == name then [ms[0]] else []) + NamedAs(ms[1..], name)
  }

  /** A simplified line of `xrandr --listactivemonitors` for monitor number
      `i`, in the shape `get_current_from_list` accepts: the mode is printed
      as `WxH` and a single space separates it from the name. */
  function ActiveLine(i: nat, m: Monitor): string {
    " " + NatToString(i) + ": +" + m.name + " " + ModeString(m) + " " + m.name
  }

  function ActiveLines(ms: seq<Monitor>, from: nat): (r: seq<string>)
    ensures |r| == |ms|
    ensures forall i :: 0 <= i < |ms| ==> r[i] == ActiveLine(from + i, ms[i])
  {
    if ms == [] then [] else [ActiveLine(from, ms[0])] + ActiveLines(ms[1..], from + 1)
  }

  /** A simplified active list for the monitors `ms`, in the shape
      `get_current_from_list` accepts: a header line, then one
      `ActiveLine` per monitor. */
  function ActiveListText(ms: seq<Monitor>): string {
    Join(ActiveListLines(ms), '\n')
  }

  /** What `get_current_from_list` can recover of a monitor. */
  function WithoutRefresh(ms: seq<Monitor>): (r: seq<Monitor>)
    ensures |r| == |ms|
    ensures forall i :: 0 <= i < |ms| ==> r[i] == ms[i].(refresh := [])
  {
    seq(|ms|, i requires 0 <= i < |ms| => ms[i].(refresh := []))
  }

  /** A monitor `ActiveListText` can print and read back. */
  predicate Printable(m: Monitor) {
    IsToken(m.name) && m.width <= UsizeMax && m.height <= UsizeMax
  }

  /** The last two ' '-fields of an active line are the mode and the name. */
  lemma ActiveLineFields(i: nat, m: Monitor)
    requires Printable(m)
    ensures ' ' in ActiveLine(i, m)
    ensures LastField(ActiveLine(i, m)) == m.name
    ensures ModeField(ActiveLine(i, m)) == ModeString(m)
  {
    var mode := ModeString(m);
    var pre := " " + NatToString(i) + ": +" + m.name;
    NoSpaceInToken(m.name);
    DigitsHaveNoLetters(NatToString(m.width));
    DigitsHaveNoLetters(NatToString(m.height));
    assert ' ' !in mode;
    var line := ActiveLine(i, m);
    assert line == pre + [' '] + (mode + [' '] + m.name);
    SplitConcat(pre, ' ', mode + [' '] + m.name);
    SplitConcat(mode, ' ', m.name);
    assert Split(line, ' ') == Split(pre, ' ') + ([mode] + [m.name]);
  }

  /** A number as `usize` prints it ends in no active mark to strip. */
  lemma TrimEndMatchesNumber(n: nat)
    ensures TrimEndMatches(NatToString(n), ActiveMark) == NatToString(n)
  {
    var s := NatToString(n);
    DigitsHaveNoLetters(s);
    assert !EndsWith(s, ActiveMark) by {
      assert s[|s| - 1] != '*';
    }
  }

  /** The mode `SetStrings` passes reads back as an active-list mode. */
  lemma ActiveModeOfModeString(m: Monitor)
    requires m.width <= UsizeMax && m.height <= UsizeMax
    ensures ParseActiveMode(ModeString(m)) == Some((m.width, m.height))
  {
    ModeStringRoundTrip(m);
    TrimEndMatchesNumber(m.width);
    TrimEndMatchesNumber(m.height);
  }

  /** An active line reads back as its monitor, refresh rate aside. */
  lemma ActiveLineRoundTrip(i: nat, m: Monitor)
    requires Printable(m)
    ensures ParseActiveLine(ActiveLine(i, m)) == Ok(m.(refresh := []))
  {
    ActiveLineFields(i, m);
    ActiveModeOfModeString(m);
  }

  lemma ActiveLinesArePlain(ms: seq<Monitor>, from: nat)
    requires forall i :: 0 <= i < |ms| ==> Printable(ms[i])
    ensures forall i :: 0 <= i < |ms| ==> IsPlainLine(ActiveLines(ms, from)[i]) && ActiveLines(ms, from)[i] != []
  {
    forall i | 0 <= i < |ms|
      ensures IsPlainLine(ActiveLines(ms, from)[i]) && ActiveLines(ms, from)[i] != []
    {
      ActiveLineIsPlain(from + i, ms[i]);
    }
  }

  lemma ActiveLineIsPlain(i: nat, m: Monitor)
    requires Printable(m)
    ensures IsPlainLine(ActiveLine(i, m)) && ActiveLine(i, m) != []
  {
    NoSpaceInToken(m.name);
    DigitsHaveNoLetters(NatToString(m.width));
    DigitsHaveNoLetters(NatToString(m.height));
    DigitsHaveNoLetters(NatToString(i));
    var l := ActiveLine(i, m);
    assert l[|l| - 1] == m.name[|m.name| - 1];
  }

  /** The lines of a printed active list, header first. */
  function ActiveListLines(ms: seq<Monitor>): (ls: seq<string>)
    ensures |ls| == |ms| + 1 && ls[1..] == ActiveLines(ms, 0)
  {
    ["Monitors: " + NatToString(|ms|)] + ActiveLines(ms, 0)
  }

  lemma ActiveListLinesArePlain(ms: seq<Monitor>)
    requires forall i :: 0 <= i < |ms| ==> Printable(ms[i])
    ensures var ls := ActiveListLines(ms);
      ls[|ls| - 1] != [] && forall i :: 0 <= i < |ls| ==> IsPlainLine(ls[i])
  {
    var ls := ActiveListLines(ms);
    CountLineIsPlain(|ms|);
    assert ls[0] == "Monitors: " + NatToString(|ms|);
    ActiveLinesArePlain(ms, 0);
    forall i | 1 <= i < |ls| ensures IsPlainLine(ls[i]) && ls[i] != [] {
      assert ls[i] == ActiveLines(ms, 0)[i - 1];
    }
  }

  lemma CountLineIsPlain(n: nat)
    ensures IsPlainLine("Monitors: " + NatToString(n))
  {
    DigitsHaveNoLetters(NatToString(n));
  }

  /** The lines after the header of a printed active list are its monitor
      lines. */
  lemma ActiveBodyOfText(ms: seq<Monitor>)
    requires forall i :: 0 <= i < |ms| ==> Printable(ms[i])
    ensures ActiveBody(ActiveListText(ms)) == ActiveLines(ms, 0)
  {
    ActiveListLinesArePlain(ms);
    LinesOfJoin(ActiveListLines(ms));
    assert ActiveListText(ms) == Join(ActiveListLines(ms), '\n');
  }

  lemma MapAllOk(body: seq<string>, want: seq<Monitor>)
    requires |body| == |want|
    requires forall i :: 0 <= i < |body| ==> ParseActiveLine(body[i]) == Ok(want[i])
    ensures ParseActiveLines(body) == Ok(want)
  {
    var r := ParseActiveLines(body);
    assert r.Ok?;
    assert r.value == want;
  }

  lemma ActiveLinesParse(ms: seq<Monitor>)
    requires forall i :: 0 <= i < |ms| ==> Printable(ms[i])
    ensures ParseActiveLines(ActiveLines(ms, 0)) == Ok(WithoutRefresh(ms))
  {
    var body := ActiveLines(ms, 0);
    var want := WithoutRefresh(ms);
    forall i | 0 <= i < |body| ensures ParseActiveLine(body[i]) == Ok(want[i]) {
      assert body[i] == ActiveLine(i, ms[i]);
      ActiveLineRoundTrip(i, ms[i]);
    }
    MapAllOk(body, want);
  }

  /** Printing an active list and parsing it back gives the same monitors
      in the same order, with the refresh rate left empty. */
  lemma ActiveListRoundTrip(ms: seq<Monitor>)
    requires forall i :: 0 <= i < |ms| ==> Printable(ms[i])
    ensures GetCurrentFromList(ActiveListText(ms)) == Ok(WithoutRefresh(ms))
  {
    ActiveBodyOfText(ms);
    ActiveLinesParse(ms);
  }

  /** Reconciling against the active list the command leaves behind asks
      for nothing more: applying the command once is enough. */
  lemma ReconcileAfterApply(possible: seq<Monitor>)
    requires |possible| > 0
    requires forall i :: 0 <= i < |possible| ==> Printable(possible[i])
    ensures GetCurrentFromList(ActiveListText(Enabled(possible))).Ok?
    ensures Reconcile(possible, GetCurrentFromList(ActiveListText(Enabled(possible))).value) == Ok(NoOp)
  {
    var target := possible[BiggestIndex(possible)];
    var on := Enabled(possible);
    assert target in on;
    forall i | 0 <= i < |on| ensures Printable(on[i]) {
      assert on[i] in possible;
    }
    ActiveListRoundTrip(on);
    var current := WithoutRefresh(on);
    var k := BiggestIndex(current);
    assert current[k] == on[k].(refresh := []);
    assert on[k] in on;
  }

  /** The same at the level of the whole program: once the capability query
      parses, a run against the active list the command leaves behind
      changes nothing. */
  lemma RunAfterApplyIsUnchanged(query: string)
    requires FromCliText(query).Ok? && FromCliText(query).value != []
    requires forall m :: m in FromCliText(query).value ==> IsToken(m.name)
    ensures Run(query, ActiveListText(Enabled(FromCliText(query).value))) == Unchanged
  {
    var possible := FromCliText(query).value;
    var live := LiveChunks(query);
    forall i | 0 <= i < |possible| ensures Printable(possible[i]) {
      assert ParseMaxFromChunk(live[i]) == Ok(possible[i]);
      assert possible[i] in possible;
    }
    ReconcileAfterApply(possible);
  }
}
