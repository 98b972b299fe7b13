/** One display output (`struct Monitor` in src/main.rs) and the two things
    done with a single monitor: reading it out of its block of `xrandr -q`
    output (`parse_max_from_chunk`) and turning it into `xrandr` arguments
    (`set_strings`).
 */
module MonitorModel {
  import opened Outcomes
  import opened Text

  /** `width` and `height` are `usize` values, so every parsed monitor has
      both at most `UsizeMax`; zero is accepted. */
  datatype Monitor = Monitor(name: string, width: nat, height: nat, refresh: string)

  /** `format!("{}x{}", width, height)`. */
  function ModeString(m: Monitor): string {
    NatToString(m.width) + "x" + NatToString(m.height)
  }

  /** The mode argument names exactly the monitor's own dimensions. */
  lemma ModeStringRoundTrip(m: Monitor)
    requires m.width <= UsizeMax && m.height <= UsizeMax
    ensures SplitOnce(ModeString(m), 'x') == Some((NatToString(m.width), NatToString(m.height)))
    ensures ParseUsize(NatToString(m.width)) == Some(m.width)
    ensures ParseUsize(NatToString(m.height)) == Some(m.height)
  {
    DigitsHaveNoLetters(NatToString(m.width));
    SplitOnceConcat(NatToString(m.width), 'x', NatToString(m.height));
    ParseUsizeOfNatToString(m.width);
    ParseUsizeOfNatToString(m.height);
  }

  lemma DigitsHaveNoLetters(s: string)
    requires AllDigits(s)
    ensures 'x' !in s && ' ' !in s && '*' !in s && '/' !in s
    ensures forall i :: 0 <= i < |s| ==> !IsWhitespace(s[i])
  {
    forall i | 0 <= i < |s| ensures s[i] != 'x' && s[i] != ' ' && s[i] != '*' && s[i] != '/' {
      assert IsDigit(s[i]);
    }
  }

  /** The arguments for one output: switched on at its own mode, or off. */
  function SetStrings(m: Monitor, on: bool): seq<string> {
    if on then ["--output", m.name, "--mode", ModeString(m)]
    else ["--output", m.name, "--off"]
  }

  // ---------------------------------------------------------------------------
  // parse_max_from_chunk

  /** The first `' '`-separated token of the trimmed remainder, or the whole
      trimmed remainder when it has no space.  This extraction never fails. */
  function PrimaryRefresh(rest: string): (p: string)
    ensures var t := Trim(rest);
      ' ' !in p && |p| <= |t| && p == t[..|p|] && (|p| == |t| || t[|p|] == ' ')
  {
    FirstField(Trim(rest))
  }

  /** The text of `t` before its first space, or all of `t`. */
  function FirstField(t: string): (p: string)
    ensures ' ' !in p && |p| <= |t| && p == t[..|p|] && (|p| == |t| || t[|p|] == ' ')
  {
    match SplitOnce(t, ' ')
    case Some((p, after)) =>
      assert t == p + ([' '] + after);
      p
    case None => t
  }

  lemma FirstFieldOf(p: string, tail: string)
    requires ' ' !in p
    requires tail == [] || tail[0] == ' '
    ensures FirstField(p + tail) == p
  {
    if tail == [] {
      assert p + tail == p;
    } else {
      assert p + tail == p + [' '] + tail[1..];
      SplitOnceConcat(p, ' ', tail[1..]);
    }
  }

  /** `name` is the text of `line` before its first space. */
  predicate IsNameField(line: string, name: string) {
    ' ' !in name && |name| < |line| && line[..|name|] == name && line[|name|] == ' '
  }

  /** The trimmed first mode line `t` starts with `W x H` followed by a
      space, where `x` is the first 'x' and the space at `j` is the first
      space, and both sides parse as `usize`. */
  predicate IsModeAt(t: string, i: int, j: int) {
    && 0 <= i < j < |t|
    && t[i] == 'x' && 'x' !in t[..i]
    && t[j] == ' ' && ' ' !in t[..j]
    && ParseUsize(t[..i]).Some?
    && ParseUsize(t[i + 1..j]).Some?
  }

  /** Reads the trimmed first mode line: the text before its first space is
      `W x H` split at its first 'x', the refresh rate follows. */
  function ParseModeLine(t: string): Option<(nat, nat, string)> {
    match SplitOnce(t, ' ')
    case None => None
    case Some((res, refreshRate)) =>
      match SplitOnce(res, 'x')
      case None => None
      case Some((w, h)) =>
        match (ParseUsize(w), ParseUsize(h))
        case (Some(width), Some(height)) => Some((width, height, PrimaryRefresh(refreshRate)))
        case _ => None
  }

  /** The mode line is accepted exactly when it has the `WxH ` shape, and
      then yields the parsed sides and the first token after the space. */
  lemma ParseModeLineSpec(t: string)
    ensures ParseModeLine(t).Some? <==> exists i, j :: IsModeAt(t, i, j)
    ensures ParseModeLine(t).Some? ==>
      exists i, j :: IsModeAt(t, i, j)
        && Some(ParseModeLine(t).value.0) == ParseUsize(t[..i])
        && Some(ParseModeLine(t).value.1) == ParseUsize(t[i + 1..j])
        && ParseModeLine(t).value.2 == PrimaryRefresh(t[j + 1..])
  {
    if ParseModeLine(t).Some? {
      var i, j := ParsedModeAt(t);
      ModeAtParses(t, i, j);
    } else if exists i, j :: IsModeAt(t, i, j) {
      var i, j :| IsModeAt(t, i, j);
      ModeAtParses(t, i, j);
    }
  }

  lemma ModeAtParses(t: string, i: int, j: int)
    requires IsModeAt(t, i, j)
    ensures ParseModeLine(t) ==
      Some((ParseUsize(t[..i]).value, ParseUsize(t[i + 1..j]).value, PrimaryRefresh(t[j + 1..])))
  {
    ModeAtSplits(t, i, j);
  }

  lemma ParsedModeAt(t: string) returns (i: int, j: int)
    requires ParseModeLine(t).Some?
    ensures IsModeAt(t, i, j)
  {
    var (res, rr) := SplitOnce(t, ' ').value;
    var (w, h) := SplitOnce(res, 'x').value;
    i, j := |w|, |res|;
    FieldsAt(t, res, rr, w, h);
  }

  lemma FieldsAt(t: string, res: string, rr: string, w: string, h: string)
    requires t == res + [' '] + rr && ' ' !in res
    requires res == w + ['x'] + h && 'x' !in w
    requires ParseUsize(w).Some? && ParseUsize(h).Some?
    ensures IsModeAt(t, |w|, |res|)
  {
    assert t[..|res|] == res;
    assert t[..|w|] == w;
    assert t[|w| + 1..|res|] == h;
  }

  lemma ModeAtSplits(t: string, i: int, j: int)
    requires IsModeAt(t, i, j)
    ensures SplitOnce(t, ' ') == Some((t[..j], t[j + 1..]))
    ensures SplitOnce(t[..j], 'x') == Some((t[..i], t[i + 1..j]))
  {
    SplitOnceAt(t, ' ', j);
    assert t[..j][i] == 'x' && t[..j][..i] == t[..i];
    SplitOnceAt(t[..j], 'x', i);
    assert t[..j][i + 1..] == t[i + 1..j];
  }

  /** Reads a monitor from its block: line 0 is the header naming the
      output, line 1 its first (largest) mode.  An error in the header is
      found before line 1 is indexed; a block without line 1 panics. */
  function ParseMaxFromChunk(chunk: seq<string>): (r: Result<Monitor>)
    ensures r.Panic? <==> |chunk| == 0 || (|chunk| == 1 && ' ' in chunk[0])
    ensures r.Ok? ==> IsNameField(chunk[0], r.value.name)
    ensures r.Ok? ==> r.value.width <= UsizeMax && r.value.height <= UsizeMax
  {
    if |chunk| == 0 then
      Panic
    else
      match SplitOnce(chunk[0], ' ')
      case None => Err
      case Some((name, _)) =>
        assert chunk[0][..|name|] == name;
        if |chunk| < 2 then
          Panic
        else
          match ParseModeLine(Trim(chunk[1]))
          case None => Err
          case Some((width, height, primary)) => Ok(Monitor(name, width, height, primary))
  }

  /** Success exactly when the header has a space and line 1 has the
      `WxH ` shape; the dimensions are the parsed sides of that mode and the
      refresh rate is the first token after it. */
  lemma ParseMaxFromChunkSpec(chunk: seq<string>)
    ensures ParseMaxFromChunk(chunk).Ok? <==>
      |chunk| >= 2 && ' ' in chunk[0] && exists i, j :: IsModeAt(Trim(chunk[1]), i, j)
    ensures ParseMaxFromChunk(chunk).Ok? ==>
      var m := ParseMaxFromChunk(chunk).value;
      var t := Trim(chunk[1]);
      exists i, j :: IsModeAt(t, i, j)
        && Some(m.width) == ParseUsize(t[..i])
        && Some(m.height) == ParseUsize(t[i + 1..j])
        && m.refresh == PrimaryRefresh(t[j + 1..])
  {
    if |chunk| >= 2 {
      ParseModeLineSpec(Trim(chunk[1]));
    }
  }

  /** A mode line listing `m`'s mode and then its refresh rate reads back as
      `m`'s dimensions and refresh rate. */
  lemma ParseModeLineRoundTrip(m: Monitor, gap: string, tail: string)
    requires m.width <= UsizeMax && m.height <= UsizeMax
    requires IsToken(m.refresh)
    requires AllWhitespace(gap)
    requires tail == [] || (tail[0] == ' ' && !IsWhitespace(tail[|tail| - 1]))
    ensures ParseModeLine(ModeString(m) + " " + gap + m.refresh + tail) == Some((m.width, m.height, m.refresh))
  {
    var mode := ModeString(m);
    DigitsHaveNoLetters(NatToString(m.width));
    DigitsHaveNoLetters(NatToString(m.height));
    assert ' ' !in mode;
    assert mode + " " + gap + m.refresh + tail == mode + [' '] + (gap + m.refresh + tail);
    SplitOnceConcat(mode, ' ', gap + m.refresh + tail);
    ModeStringRoundTrip(m);
    PrimaryRefreshOfToken(m.refresh, gap, tail);
  }

  lemma PrimaryRefreshOfToken(p: string, gap: string, tail: string)
    requires IsToken(p) && AllWhitespace(gap)
    requires tail == [] || (tail[0] == ' ' && !IsWhitespace(tail[|tail| - 1]))
    ensures PrimaryRefresh(gap + p + tail) == p
  {
    TokenTrims(p, gap, tail);
    NoSpaceInToken(p);
    FirstFieldOf(p, tail);
  }

  lemma TokenTrims(p: string, gap: string, tail: string)
    requires IsToken(p) && AllWhitespace(gap)
    requires tail == [] || (tail[0] == ' ' && !IsWhitespace(tail[|tail| - 1]))
    ensures Trim(gap + p + tail) == p + tail
  {
    var rest := p + tail;
    assert rest[|rest| - 1] == (if tail == [] then p[|p| - 1] else tail[|tail| - 1]);
    assert gap + p + tail == gap + rest;
    TrimPadded(gap, rest);
  }

  /** A header naming `m` followed by an indented mode line listing `m`'s
      mode and refresh rate first reads back as `m`, whatever follows. */
  lemma ParseMaxFromChunkRoundTrip(m: Monitor, status: string, pad: string, gap: string, tail: string, more: seq<string>)
    requires ' ' !in m.name
    requires m.width <= UsizeMax && m.height <= UsizeMax
    requires IsToken(m.refresh)
    requires AllWhitespace(pad) && AllWhitespace(gap)
    requires tail == [] || (tail[0] == ' ' && !IsWhitespace(tail[|tail| - 1]))
    ensures ParseMaxFromChunk([m.name + " " + status, pad + ModeString(m) + " " + gap + m.refresh + tail] + more) == Ok(m)
  {
    var chunk := [m.name + " " + status, pad + ModeString(m) + " " + gap + m.refresh + tail] + more;
    SplitOnceConcat(m.name, ' ', status);
    var body := ModeLineTrims(m, pad, gap, tail);
    assert Trim(chunk[1]) == body;
    ParseModeLineRoundTrip(m, gap, tail);
  }

  lemma ModeLineTrims(m: Monitor, pad: string, gap: string, tail: string) returns (body: string)
    requires IsToken(m.refresh)
    requires AllWhitespace(pad)
    requires tail == [] || (tail[0] == ' ' && !IsWhitespace(tail[|tail| - 1]))
    ensures body == ModeString(m) + " " + gap + m.refresh + tail
    ensures Trim(pad + ModeString(m) + " " + gap + m.refresh + tail) == body
  {
    var mode := ModeString(m);
    body := mode + " " + gap + m.refresh + tail;
    assert body[0] == mode[0];
    DigitsHaveNoLetters(NatToString(m.width));
    assert body[|body| - 1] == (if tail == [] then m.refresh[|m.refresh| - 1] else tail[|tail| - 1]);
    assert pad + mode + " " + gap + m.refresh + tail == pad + body;
    TrimPadded(pad, body);
  }
}
