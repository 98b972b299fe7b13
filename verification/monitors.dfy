/** A list of monitors (`struct Monitors` in src/main.rs): building it from
    the two `xrandr` outputs, picking the widest monitor and building the
    argument list that switches to it.
 */
module Monitors {
  import opened Outcomes
  import opened Text
  import opened MonitorModel
  import opened Chunking

  // ---------------------------------------------------------------------------
  // Fail-fast mapping (`collect::<Result<Vec<_>>>()` and a loop with `?`)

  /** Element `k` is the first one on which `f` fails. */
  predicate FirstFailureAt<A, B>(f: A -> Result<B>, xs: seq<A>, k: int) {
    && 0 <= k < |xs|
    && !f(xs[k]).Ok?
    && forall i :: 0 <= i < k ==> f(xs[i]).Ok?
  }

  /** Applies `f` to every element in order and stops at the first failure,
      which becomes the result; later elements are never looked at. */
  function MapAll<A, B>(f: A -> Result<B>, xs: seq<A>): (r: Result<seq<B>>)
    ensures r.Ok? <==> forall i :: 0 <= i < |xs| ==> f(xs[i]).Ok?
    ensures r.Ok? ==> |r.value| == |xs| && forall i :: 0 <= i < |xs| ==> f(xs[i]) == Ok(r.value[i])
    ensures r.Err? ==> exists k :: FirstFailureAt(f, xs, k) && f(xs[k]).Err?
    ensures r.Panic? ==> exists k :: FirstFailureAt(f, xs, k) && f(xs[k]).Panic?
    decreases |xs|
  {
    if |xs| == 0 then
      Ok([])
    else
      match f(xs[0])
      case Err =>
        assert FirstFailureAt(f, xs, 0);
        Err
      case Panic =>
        assert FirstFailureAt(f, xs, 0);
        Panic
      case Ok(y) =>
        var rest := MapAll(f, xs[1..]);
        assert forall i :: 1 <= i < |xs| ==> xs[i] == xs[1..][i - 1];
        assert forall k :: FirstFailureAt(f, xs[1..], k) ==> FirstFailureAt(f, xs, k + 1);
        match rest
        case Ok(ys) => Ok([y] + ys)
        case Err => Err
        case Panic => Panic
  }

  /** `iter.skip(n)`. */
  function Skip<T>(xs: seq<T>, n: nat): (r: seq<T>)
    ensures |r| == if |xs| <= n then 0 else |xs| - n
    ensures forall i :: 0 <= i < |r| ==> r[i] == xs[i + n]
  {
    if |xs| <= n then [] else xs[n..]
  }

  // ---------------------------------------------------------------------------
  // from_cli_text

  const Disconnected: string := "disconnected"

  /** A chunk whose first line does not say "disconnected". */
  predicate IsLive(chunk: seq<string>) {
    |chunk| > 0 && !Contains(chunk[0], Disconnected)
  }

  /** The filter of `from_cli_text`: keeps the live chunks, in order. */
  function KeepLive(cs: seq<seq<string>>): (r: seq<seq<string>>)
    requires forall k :: 0 <= k < |cs| ==> |cs[k]| > 0
    ensures forall c :: c in r <==> c in cs && IsLive(c)
    ensures |r| <= |cs|
  {
    if cs == [] then []
    else (if IsLive(cs[0]) then [cs[0]] else []) + KeepLive(cs[1..])
  }

  /** The filter works chunk by chunk: filtering two lists one after the
      other gives the two filtered lists one after the other, so the kept
      chunks stay in their order and each is kept once. */
  lemma {:induction false} KeepLiveAppend(a: seq<seq<string>>, b: seq<seq<string>>)
    requires forall k :: 0 <= k < |a| ==> |a[k]| > 0
    requires forall k :: 0 <= k < |b| ==> |b[k]| > 0
    ensures KeepLive(a + b) == KeepLive(a) + KeepLive(b)
    decreases |a|
  {
    if a != [] {
      var head := if IsLive(a[0]) then [a[0]] else [];
      assert (a + b)[0] == a[0] && (a + b)[1..] == a[1..] + b;
      KeepLiveAppend(a[1..], b);
      calc {
        KeepLive(a + b);
        head + KeepLive(a[1..] + b);
        head + (KeepLive(a[1..]) + KeepLive(b));
        (head + KeepLive(a[1..])) + KeepLive(b);
        KeepLive(a) + KeepLive(b);
      }
    } else {
      assert a + b == b;
    }
  }

  /** A single chunk is kept exactly when it is live. */
  lemma KeepLiveOne(c: seq<string>)
    requires |c| > 0
    ensures KeepLive([c]) == if IsLive(c) then [c] else []
  {
    assert [c][1..] == [];
  }

  /** The chunks `from_cli_text` parses: every chunk after the first whose
      header does not say "disconnected". */
  function LiveChunks(text: string): seq<seq<string>> {
    KeepLive(Skip(Chunks(Lines(Trim(text))), 1))
  }

  /** The monitors of the capability query, one per live chunk and in
      order; the first chunk that does not parse decides the failure. */
  function FromCliText(text: string): (r: Result<seq<Monitor>>)
    ensures var live := LiveChunks(text);
      r.Ok? <==> forall i :: 0 <= i < |live| ==> ParseMaxFromChunk(live[i]).Ok?
    ensures var live := LiveChunks(text);
      r.Ok? ==> |r.value| == |live| && forall i :: 0 <= i < |live| ==> ParseMaxFromChunk(live[i]) == Ok(r.value[i])
    ensures var live := LiveChunks(text);
      !r.Ok? ==> exists k :: FirstFailureAt(ParseMaxFromChunk, live, k) && ParseMaxFromChunk(live[k]).Err? == r.Err?
  {
    MapAll(ParseMaxFromChunk, LiveChunks(text))
  }

  // ---------------------------------------------------------------------------
  // get_current_from_list

  // The two-character marker (slash, star) that `trim_end_matches` strips,
  // as often as it repeats, from the end of both sides of the mode.
  const ActiveMark: string := "/*"

  /** `tok` is `W x H` split at its first 'x', and both sides parse once
      every trailing `ActiveMark` is stripped. */
  predicate IsActiveModeAt(tok: string, i: int) {
    && 0 <= i < |tok|
    && tok[i] == 'x' && 'x' !in tok[..i]
    && ParseUsize(TrimEndMatches(tok[..i], ActiveMark)).Some?
    && ParseUsize(TrimEndMatches(tok[i + 1..], ActiveMark)).Some?
  }

  /** The last `' '`-separated field of `line`: the text after its last
      space, or the whole line. */
  function LastField(line: string): string {
    var f := Split(line, ' ');
    f[|f| - 1]
  }

  /** The field before the last one; empty when `line` has no space. */
  function ModeField(line: string): string {
    var f := Split(line, ' ');
    if |f| >= 2 then f[|f| - 2] else []
  }

  /** The mode field split at its first 'x', each side parsed after its
      trailing markers are stripped. */
  function ParseActiveMode(mode: string): Option<(nat, nat)> {
    match SplitOnce(mode, 'x')
    case None => None
    case Some((w, h)) =>
      match (ParseUsize(TrimEndMatches(w, ActiveMark)), ParseUsize(TrimEndMatches(h, ActiveMark)))
      case (Some(width), Some(height)) => Some((width, height))
      case _ => None
  }

  /** The mode field is accepted exactly when it has the `WxH` shape, and
      then yields the two parsed sides. */
  lemma ParseActiveModeSpec(mode: string)
    ensures ParseActiveMode(mode).Some? <==> exists i :: IsActiveModeAt(mode, i)
    ensures ParseActiveMode(mode).Some? ==>
      exists i :: IsActiveModeAt(mode, i)
        && Some(ParseActiveMode(mode).value.0) == ParseUsize(TrimEndMatches(mode[..i], ActiveMark))
        && Some(ParseActiveMode(mode).value.1) == ParseUsize(TrimEndMatches(mode[i + 1..], ActiveMark))
  {
    if ParseActiveMode(mode).Some? {
      var i := ParsedActiveModeAt(mode);
      ActiveModeAtParses(mode, i);
    } else if exists i :: IsActiveModeAt(mode, i) {
      var i :| IsActiveModeAt(mode, i);
      ActiveModeAtParses(mode, i);
    }
  }

  lemma ActiveModeAtParses(mode: string, i: int)
    requires IsActiveModeAt(mode, i)
    ensures ParseActiveMode(mode) == Some((
      ParseUsize(TrimEndMatches(mode[..i], ActiveMark)).value,
      ParseUsize(TrimEndMatches(mode[i + 1..], ActiveMark)).value))
  {
    SplitOnceAt(mode, 'x', i);
  }

  lemma ParsedActiveModeAt(mode: string) returns (i: int)
    requires ParseActiveMode(mode).Some?
    ensures IsActiveModeAt(mode, i)
  {
    var (w, h) := SplitOnce(mode, 'x').value;
    i := |w|;
    ActiveFieldsAt(mode, w, h);
  }

  lemma ActiveFieldsAt(mode: string, w: string, h: string)
    requires mode == w + ['x'] + h && 'x' !in w
    requires ParseUsize(TrimEndMatches(w, ActiveMark)).Some?
    requires ParseUsize(TrimEndMatches(h, ActiveMark)).Some?
    ensures IsActiveModeAt(mode, |w|)
  {
    SplitAround(mode, w, h);
  }

  /** The pieces of `w + ['x'] + h` are found again by slicing at `|w|`. */
  lemma SplitAround(mode: string, w: string, h: string)
    requires mode == w + ['x'] + h
    ensures |w| < |mode| && mode[|w|] == 'x'
    ensures mode[..|w|] == w && mode[|w| + 1..] == h
  {
  }

  /** One line of `xrandr --listactivemonitors`: the name is the last
      `' '`-separated field and the mode the field before it; a line
      without a space has no mode field and is an error. */
  function ParseActiveLine(line: string): (r: Result<Monitor>)
    ensures !r.Panic?
    ensures ' ' !in line ==> r.Err?
    ensures r.Ok? ==> ' ' in line && r.value.name == LastField(line) && r.value.refresh == []
  {
    if ' ' !in line then
      Err
    else
      match ParseActiveMode(ModeField(line))
      case None => Err
      case Some((width, height)) => Ok(Monitor(LastField(line), width, height, []))
  }

  /** A line is accepted exactly when it has a space and its mode field has
      the `WxH` shape; the dimensions are that field's two sides. */
  lemma ParseActiveLineSpec(line: string)
    ensures ParseActiveLine(line).Ok? <==> ' ' in line && exists i :: IsActiveModeAt(ModeField(line), i)
    ensures ParseActiveLine(line).Ok? ==>
      var m := ParseActiveLine(line).value;
      var mode := ModeField(line);
      exists i :: IsActiveModeAt(mode, i)
        && Some(m.width) == ParseUsize(TrimEndMatches(mode[..i], ActiveMark))
        && Some(m.height) == ParseUsize(TrimEndMatches(mode[i + 1..], ActiveMark))
  {
    ParseActiveModeSpec(ModeField(line));
  }

  lemma MapAllNeverPanics<A, B>(f: A -> Result<B>, xs: seq<A>)
    requires forall i :: 0 <= i < |xs| ==> !f(xs[i]).Panic?
    ensures !MapAll(f, xs).Panic?
  {
  }

  /** The lines after the header line. */
  function ActiveBody(text: string): seq<string> {
    Skip(Lines(text), 1)
  }

  /** The loop of `get_current_from_list` over the lines after the header. */
  function ParseActiveLines(body: seq<string>): (r: Result<seq<Monitor>>)
    ensures !r.Panic?
    ensures r.Ok? <==> forall i :: 0 <= i < |body| ==> ParseActiveLine(body[i]).Ok?
    ensures r.Ok? ==> |r.value| == |body| && forall i :: 0 <= i < |body| ==> ParseActiveLine(body[i]) == Ok(r.value[i])
  {
    MapAllNeverPanics(ParseActiveLine, body);
    MapAll(ParseActiveLine, body)
  }

  /** The monitors of the active-list query: the header line is skipped and
      every other line yields one monitor, in order, or fails the parse. */
  function GetCurrentFromList(text: string): (r: Result<seq<Monitor>>)
    ensures !r.Panic?
    ensures r.Ok? <==> forall i :: 0 <= i < |ActiveBody(text)| ==> ParseActiveLine(ActiveBody(text)[i]).Ok?
    ensures r.Ok? ==> |r.value| == |ActiveBody(text)|
    ensures r.Ok? ==> forall i :: 0 <= i < |ActiveBody(text)| ==> ParseActiveLine(ActiveBody(text)[i]) == Ok(r.value[i])
  {
    ParseActiveLines(ActiveBody(text))
  }

  // ---------------------------------------------------------------------------
  // get_biggest

  /** `ms[k]` is the first monitor of greatest width. */
  predicate IsFirstWidest(ms: seq<Monitor>, k: int) {
    && 0 <= k < |ms|
    && (forall j :: 0 <= j < |ms| ==> ms[j].width <= ms[k].width)
    && (forall j :: 0 <= j < k ==> ms[j].width < ms[k].width)
  }

  /** The `for` loop of `get_biggest` from element `i` on, `best` being the
      monitor kept so far; a later monitor replaces it only when strictly
      wider. */
  function BiggestFrom(ms: seq<Monitor>, i: nat, best: nat): (k: nat)
    requires best < |ms| && best <= i <= |ms|
    requires forall j :: 0 <= j < i ==> ms[j].width <= ms[best].width
    requires forall j :: 0 <= j < best ==> ms[j].width < ms[best].width
    ensures IsFirstWidest(ms, k)
    decreases |ms| - i
  {
    if i == |ms| then best
    else BiggestFrom(ms, i + 1, if ms[i].width > ms[best].width then i else best)
  }

  /** The index `get_biggest` returns, starting from `monitors[0]`. */
  function BiggestIndex(ms: seq<Monitor>): (k: nat)
    requires |ms| > 0
    ensures IsFirstWidest(ms, k)
  {
    BiggestFrom(ms, 0, 0)
  }

  /** There is only one first widest monitor. */
  lemma FirstWidestUnique(ms: seq<Monitor>, k: int)
    requires IsFirstWidest(ms, k)
    ensures k == BiggestIndex(ms)
  {
  }

  /** Heights are never consulted: lists with the same widths pick the same
      position. */
  lemma BiggestIgnoresHeight(ms: seq<Monitor>, ns: seq<Monitor>)
    requires |ms| == |ns| > 0
    requires forall i :: 0 <= i < |ms| ==> ms[i].width == ns[i].width
    ensures BiggestIndex(ms) == BiggestIndex(ns)
  {
    FirstWidestUnique(ns, BiggestIndex(ms));
  }

  /** `get_biggest`: indexing `monitors[0]` panics on an empty list. */
  function GetBiggest(ms: seq<Monitor>): (r: Result<Monitor>)
    ensures r.Panic? <==> |ms| == 0
    ensures !r.Err?
    ensures r.Ok? ==> exists k :: IsFirstWidest(ms, k) && r.value == ms[k]
  {
    if |ms| == 0 then Panic else Ok(ms[BiggestIndex(ms)])
  }

  // ---------------------------------------------------------------------------
  // get_biggest_command_string

  /** One group of arguments per monitor, switched on when its name is
      `target`. */
  function ArgsFor(ms: seq<Monitor>, target: string): seq<string> {
    if ms == [] then []
    else SetStrings(ms[0], ms[0].name == target) + ArgsFor(ms[1..], target)
  }

  /** `get_biggest_command_string`: every monitor named like the widest one
      is switched on at its own mode, every other monitor off. */
  function GetBiggestCommandString(ms: seq<Monitor>): seq<string>
    requires |ms| > 0
  {
    ArgsFor(ms, ms[BiggestIndex(ms)].name)
  }

  /** What `xrandr` reads from one argument group. */
  datatype Directive = On(output: string, mode: string) | Off(output: string)

  /** Reads an argument list back as `--output NAME --mode MODE` and
      `--output NAME --off` groups; `None` if it is not made of them. */
  function ParseArgs(args: seq<string>): Option<seq<Directive>>
    decreases |args|
  {
    if |args| == 0 then
      Some([])
    else if |args| >= 3 && args[0] == "--output" && args[2] == "--off" then
      match ParseArgs(args[3..])
      case None => None
      case Some(ds) => Some([Off(args[1])] + ds)
    else if |args| >= 4 && args[0] == "--output" && args[2] == "--mode" then
      match ParseArgs(args[4..])
      case None => None
      case Some(ds) => Some([On(args[1], args[3])] + ds)
    else
      None
  }

  /** Monitor `m`'s group, read back, is about `m` and is "on" exactly when
      `m` is named `target`. */
  predicate Describes(d: Directive, m: Monitor, target: string) {
    && d.output == m.name
    && (d.On? <==> m.name == target)
    && (d.On? ==> d.mode == ModeString(m))
  }

  /** The argument list reads back as exactly one group per monitor, in the
      list's order, none left out or repeated. */
  lemma {:induction false} ArgsForDecodes(ms: seq<Monitor>, target: string)
    ensures ParseArgs(ArgsFor(ms, target)).Some?
    ensures var ds := ParseArgs(ArgsFor(ms, target)).value;
      |ds| == |ms| && forall i :: 0 <= i < |ms| ==> Describes(ds[i], ms[i], target)
    decreases |ms|
  {
    if ms != [] {
      var group := SetStrings(ms[0], ms[0].name == target);
      var rest := ArgsFor(ms[1..], target);
      ArgsForDecodes(ms[1..], target);
      assert (group + rest)[|group|..] == rest;
      var ds := ParseArgs(ArgsFor(ms, target)).value;
      assert ds[1..] == ParseArgs(rest).value;
      assert forall i :: 1 <= i < |ms| ==> ms[i] == ms[1..][i - 1];
    }
  }

  /** How many monitors carry the name `target`. */
  function CountNamed(ms: seq<Monitor>, target: string): nat {
    if ms == [] then 0 else (if ms[0].name == target then 1 else 0) + CountNamed(ms[1..], target)
  }

  /** Four arguments for every monitor switched on, three for every other. */
  lemma {:induction false} ArgsForLength(ms: seq<Monitor>, target: string)
    ensures |ArgsFor(ms, target)| == 4 * CountNamed(ms, target) + 3 * (|ms| - CountNamed(ms, target))
    ensures CountNamed(ms, target) <= |ms|
    decreases |ms|
  {
    if ms != [] {
      ArgsForLength(ms[1..], target);
    }
  }

  /** The command switches the widest monitor on at its own mode and every
      monitor of another name off, one group per monitor in list order. */
  lemma CommandStringDecodes(ms: seq<Monitor>)
    requires |ms| > 0
    ensures ParseArgs(GetBiggestCommandString(ms)).Some?
    ensures var target := ms[BiggestIndex(ms)];
      var ds := ParseArgs(GetBiggestCommandString(ms)).value;
      && |ds| == |ms|
      && ds[BiggestIndex(ms)] == On(target.name, ModeString(target))
      && forall i :: 0 <= i < |ms| ==> Describes(ds[i], ms[i], target.name)
    ensures |GetBiggestCommandString(ms)| ==
      4 * CountNamed(ms, ms[BiggestIndex(ms)].name) + 3 * (|ms| - CountNamed(ms, ms[BiggestIndex(ms)].name))
  {
    ArgsForDecodes(ms, ms[BiggestIndex(ms)].name);
    ArgsForLength(ms, ms[BiggestIndex(ms)].name);
  }
}
