/** How `parse_xrandr_monitors` and `from_cli_text` treat the layout
    `xrandr -q` prints: a screen summary, then each output's header line
    followed by its mode lines, disconnected outputs having no mode lines.
 */
module Scenario {
  import opened Outcomes
  import opened Text
  import opened Chunking
  import opened MonitorModel
  import opened Monitors
  import opened Reconciler

  predicate NoBoundaries(ls: seq<string>) {
    forall k :: 0 <= k < |ls| ==> !IsBoundary(ls[k])
  }

  predicate AllBoundaries(ls: seq<string>) {
    forall k :: 0 <= k < |ls| ==> IsBoundary(ls[k])
  }

  /** Every line is the header of a disconnected output. */
  predicate AllDisconnected(ds: seq<string>) {
    ds == [] || (Contains(ds[0], Disconnected) && AllDisconnected(ds[1..]))
  }

  /** Every line as a chunk of its own. */
  function Singles(ls: seq<string>): (cs: seq<seq<string>>)
    ensures |cs| == |ls| && forall k :: 0 <= k < |ls| ==> cs[k] == [ls[k]]
  {
    if ls == [] then [] else [[ls[0]]] + Singles(ls[1..])
  }

  // ---------------------------------------------------------------------------
  // One turn of the loop at a time

  /** The scan passes over mode lines and stops just after the first
      boundary, or at the end. */
  lemma {:induction false} ScanEndSkips(lines: seq<string>, i: nat, j: nat)
    requires i <= j <= |lines|
    requires NoBoundaries(lines[i..j])
    requires j < |lines| ==> IsBoundary(lines[j])
    ensures ScanEnd(lines, i) == if j < |lines| then j + 1 else |lines|
    decreases j - i
  {
    if i < j {
      assert !IsBoundary(lines[i..j][0]);
      assert lines[i + 1..j] == lines[i..j][1..];
      ScanEndSkips(lines, i + 1, j);
    }
  }

  /** A line followed by a header is a chunk of its own. */
  lemma SummaryChunk(summary: string, rest: seq<string>)
    requires |rest| > 0 && IsBoundary(rest[0])
    ensures Chunks([summary] + rest) == [[summary]] + Chunks(rest)
  {
    var lines := [summary] + rest;
    assert lines[1] == rest[0];
    ChunksUnfold(lines);
    assert lines[..1] == [summary];
    assert lines[1..] == rest;
  }

  lemma FirstOutputLen(ha: string, ma: seq<string>, d: string, rest: seq<string>)
    requires |ma| > 0 && NoBoundaries(ma) && IsBoundary(d)
    ensures ChunkLen([ha] + ma + ([d] + rest)) == |ma| + 2
  {
    var lines := [ha] + ma + ([d] + rest);
    var n := 1 + |ma|;
    assert lines[1] == ma[0];
    assert lines[2..n] == ma[1..];
    assert lines[n] == d;
    ScanEndSkips(lines, 2, n);
  }

  /** An output header with its mode lines, followed by another header
      `d`: the chunk runs up to and including `d`. */
  lemma FirstOutputChunks(ha: string, ma: seq<string>, d: string, rest: seq<string>)
    requires |ma| > 0 && NoBoundaries(ma) && IsBoundary(d)
    ensures Chunks([ha] + ma + ([d] + rest)) == [[ha] + ma + [d]] + Chunks(rest)
  {
    var lines := [ha] + ma + ([d] + rest);
    FirstOutputLen(ha, ma, d, rest);
    ChunksUnfold(lines);
    assert lines[..|ma| + 2] == [ha] + ma + [d];
    assert lines[|ma| + 2..] == rest;
  }

  lemma HeaderLen(ds: seq<string>, rest: seq<string>)
    requires |ds| > 0 && AllBoundaries(ds)
    requires |rest| > 0 && IsBoundary(rest[0])
    ensures ChunkLen(ds + rest) == 1
  {
    var lines := ds + rest;
    if |ds| > 1 { assert lines[1] == ds[1]; } else { assert lines[1] == rest[0]; }
  }

  /** A run of header lines followed by another header becomes one single
      chunk per line. */
  lemma {:induction false} HeaderRun(ds: seq<string>, rest: seq<string>)
    requires AllBoundaries(ds)
    requires |rest| > 0 && IsBoundary(rest[0])
    ensures Chunks(ds + rest) == Singles(ds) + Chunks(rest)
    decreases |ds|
  {
    if ds == [] {
      assert ds + rest == rest;
    } else {
      var lines := ds + rest;
      HeaderLen(ds, rest);
      assert AllBoundaries(ds[1..]) by {
        forall k | 0 <= k < |ds[1..]| ensures IsBoundary(ds[1..][k]) {
          assert ds[1..][k] == ds[k + 1];
        }
      }
      calc {
        Chunks(lines);
        { ChunksUnfold(lines); }
        [lines[..1]] + Chunks(lines[1..]);
        { assert lines[..1] == [ds[0]]; assert lines[1..] == ds[1..] + rest; }
        [[ds[0]]] + Chunks(ds[1..] + rest);
        { HeaderRun(ds[1..], rest); }
        [[ds[0]]] + (Singles(ds[1..]) + Chunks(rest));
        { Assoc([[ds[0]]], Singles(ds[1..]), Chunks(rest)); }
        ([[ds[0]]] + Singles(ds[1..])) + Chunks(rest);
      }
    }
  }

  lemma LastOutputLen(h: string, ms: seq<string>)
    requires |ms| > 0 && NoBoundaries(ms)
    ensures ChunkLen([h] + ms) == |ms| + 1
  {
    var lines := [h] + ms;
    assert lines[1] == ms[0];
    assert NoBoundaries(lines[2..]) by {
      assert lines[2..] == ms[1..];
    }
    ScanEndSkips(lines, 2, |lines|);
  }

  /** An output header with its mode lines, at the end, is one chunk. */
  lemma LastOutputChunk(h: string, ms: seq<string>)
    requires |ms| > 0 && NoBoundaries(ms)
    ensures Chunks([h] + ms) == [[h] + ms]
  {
    var lines := [h] + ms;
    LastOutputLen(h, ms);
    ChunksUnfold(lines);
    assert lines[..|lines|] == lines;
    assert lines[|lines|..] == [];
  }

  // ---------------------------------------------------------------------------
  // The sample capability query

  /** The chunks from the first connected output on. */
  lemma OutputsChunks(ha: string, ma: seq<string>, d: string, ds: seq<string>, hb: string, mb: seq<string>)
    requires IsBoundary(d) && IsBoundary(hb)
    requires |ma| > 0 && NoBoundaries(ma) && |mb| > 0 && NoBoundaries(mb)
    requires AllBoundaries(ds)
    ensures Chunks([ha] + ma + ([d] + (ds + ([hb] + mb))))
         == [[ha] + ma + [d]] + (Singles(ds) + [[hb] + mb])
  {
    FirstOutputChunks(ha, ma, d, ds + ([hb] + mb));
    HeaderRun(ds, [hb] + mb);
    LastOutputChunk(hb, mb);
  }

  /** The layout of the sample capability query: a summary, a connected
      output `ha` with modes `ma`, disconnected outputs `d` and `ds`, and a
      connected output `hb` with modes `mb`.  The first disconnected header
      ends up in the first output's chunk and the other ones stand alone. */
  lemma SampleChunks(summary: string, ha: string, ma: seq<string>, d: string, ds: seq<string>,
                     hb: string, mb: seq<string>)
    requires IsBoundary(ha) && IsBoundary(d) && IsBoundary(hb)
    requires |ma| > 0 && NoBoundaries(ma) && |mb| > 0 && NoBoundaries(mb)
    requires AllBoundaries(ds)
    ensures Chunks([summary, ha] + ma + [d] + ds + [hb] + mb)
         == [[summary], [ha] + ma + [d]] + Singles(ds) + [[hb] + mb]
  {
    var fromA := [ha] + ma + ([d] + (ds + ([hb] + mb)));
    SampleLayout(summary, ha, ma, d, ds, hb, mb);
    SummaryChunk(summary, fromA);
    OutputsChunks(ha, ma, d, ds, hb, mb);
    SampleAssoc([summary], [ha] + ma + [d], Singles(ds), [hb] + mb);
  }

  /** Laying the sample's chunks end to end gives back every line, as the
      repository's own parse test expects. */
  lemma SampleFlatten(summary: string, ha: string, ma: seq<string>, d: string, ds: seq<string>,
                      hb: string, mb: seq<string>)
    requires IsBoundary(ha) && IsBoundary(d) && IsBoundary(hb)
    requires |ma| > 0 && NoBoundaries(ma) && |mb| > 0 && NoBoundaries(mb)
    requires AllBoundaries(ds)
    ensures var lines := [summary, ha] + ma + [d] + ds + [hb] + mb;
      Flatten(Chunks(lines)) == lines
  {
    var tail := [hb] + mb;
    var first := [ha] + ma + [d];
    SampleChunks(summary, ha, ma, d, ds, hb, mb);
    calc {
      Flatten([[summary], first] + Singles(ds) + [tail]);
      { SampleAssoc([summary], first, Singles(ds), tail); }
      Flatten([[summary]] + ([first] + (Singles(ds) + [tail])));
      { FlattenCons([summary], [first] + (Singles(ds) + [tail])); }
      [summary] + Flatten([first] + (Singles(ds) + [tail]));
      { FlattenCons(first, Singles(ds) + [tail]); }
      [summary] + (first + Flatten(Singles(ds) + [tail]));
      { FlattenSingles(ds, [tail]); FlattenCons(tail, []); assert [tail][1..] == []; }
      [summary] + (first + (ds + tail));
      { FlattenLayout(summary, ha, ma, d, ds, hb, mb); }
      [summary, ha] + ma + [d] + ds + [hb] + mb;
    }
  }

  lemma {:induction false} FlattenSingles(ls: seq<string>, cs: seq<seq<string>>)
    ensures Flatten(Singles(ls) + cs) == ls + Flatten(cs)
    decreases |ls|
  {
    if ls == [] {
      assert Singles(ls) + cs == cs;
    } else {
      calc {
        Flatten(Singles(ls) + cs);
        { assert Singles(ls) + cs == [[ls[0]]] + (Singles(ls[1..]) + cs); }
        Flatten([[ls[0]]] + (Singles(ls[1..]) + cs));
        { FlattenCons([ls[0]], Singles(ls[1..]) + cs); }
        [ls[0]] + Flatten(Singles(ls[1..]) + cs);
        { FlattenSingles(ls[1..], cs); }
        [ls[0]] + (ls[1..] + Flatten(cs));
        { assert [ls[0]] + ls[1..] == ls; }
        ls + Flatten(cs);
      }
    }
  }

  /** The filter then keeps exactly the two connected outputs' chunks. */
  lemma SampleLiveChunks(summary: string, ha: string, ma: seq<string>, d: string, ds: seq<string>,
                         hb: string, mb: seq<string>)
    requires IsBoundary(ha) && IsBoundary(hb)
    requires !Contains(ha, Disconnected) && !Contains(hb, Disconnected)
    requires |ma| > 0 && NoBoundaries(ma) && |mb| > 0 && NoBoundaries(mb)
    requires Contains(d, Disconnected) && AllDisconnected(ds)
    ensures KeepLive(Skip(Chunks([summary, ha] + ma + [d] + ds + [hb] + mb), 1))
         == [[ha] + ma + [d], [hb] + mb]
  {
    DisconnectedAreBoundaries(ds);
    DisconnectedIsBoundary(d);
    SampleAfterSummary(summary, ha, ma, d, ds, hb, mb);
    LiveOutputs(ha, ma, d, hb, mb);
    LiveTail([ha] + ma + [d], ds, [hb] + mb);
  }

  lemma LiveOutputs(ha: string, ma: seq<string>, d: string, hb: string, mb: seq<string>)
    requires !Contains(ha, Disconnected) && !Contains(hb, Disconnected)
    ensures IsLive([ha] + ma + [d]) && IsLive([hb] + mb)
  {
    assert ([ha] + ma + [d])[0] == ha && ([hb] + mb)[0] == hb;
  }

  /** The chunks the filter looks at, the summary's being skipped. */
  lemma SampleAfterSummary(summary: string, ha: string, ma: seq<string>, d: string, ds: seq<string>,
                           hb: string, mb: seq<string>)
    requires IsBoundary(ha) && IsBoundary(d) && IsBoundary(hb)
    requires |ma| > 0 && NoBoundaries(ma) && |mb| > 0 && NoBoundaries(mb)
    requires AllBoundaries(ds)
    ensures Skip(Chunks([summary, ha] + ma + [d] + ds + [hb] + mb), 1)
         == [[ha] + ma + [d]] + (Singles(ds) + [[hb] + mb])
  {
    SampleChunks(summary, ha, ma, d, ds, hb, mb);
    SkipSample([summary], [ha] + ma + [d], Singles(ds), [hb] + mb);
  }

  lemma LiveTail(first: seq<string>, ds: seq<string>, tail: seq<string>)
    requires |first| > 0 && IsLive(first) && |tail| > 0 && IsLive(tail)
    requires AllDisconnected(ds)
    ensures KeepLive([first] + (Singles(ds) + [tail])) == [first, tail]
  {
    KeepLiveCons(first, Singles(ds) + [tail]);
    KeepLiveDropsDisconnected(ds, [tail]);
    KeepLiveCons(tail, []);
    assert [tail] + [] == [tail];
  }

  /** "disconnected" contains "connected". */
  lemma DisconnectedIsBoundary(line: string)
    requires Contains(line, Disconnected)
    ensures IsBoundary(line)
  {
    var i :| OccursAt(line, Disconnected, i);
    assert line[i + 3..i + 3 + |Marker|] == line[i..i + |Disconnected|][3..];
    assert OccursAt(line, Marker, i + 3);
  }

  lemma {:induction false} DisconnectedAreBoundaries(ds: seq<string>)
    requires AllDisconnected(ds)
    ensures AllBoundaries(ds)
    decreases |ds|
  {
    if ds != [] {
      DisconnectedIsBoundary(ds[0]);
      DisconnectedAreBoundaries(ds[1..]);
      assert forall k :: 1 <= k < |ds| ==> ds[k] == ds[1..][k - 1];
    }
  }

  lemma KeepLiveCons(c: seq<string>, cs: seq<seq<string>>)
    requires |c| > 0 && forall k :: 0 <= k < |cs| ==> |cs[k]| > 0
    ensures KeepLive([c] + cs) == (if IsLive(c) then [c] else []) + KeepLive(cs)
  {
    assert ([c] + cs)[1..] == cs;
  }

  /** The single-line chunks of disconnected outputs are all filtered out. */
  lemma {:induction false} KeepLiveDropsDisconnected(ds: seq<string>, cs: seq<seq<string>>)
    requires AllDisconnected(ds)
    requires forall k :: 0 <= k < |cs| ==> |cs[k]| > 0
    ensures KeepLive(Singles(ds) + cs) == KeepLive(cs)
    decreases |ds|
  {
    if ds == [] {
      assert Singles(ds) + cs == cs;
    } else {
      assert Singles(ds) + cs == [[ds[0]]] + (Singles(ds[1..]) + cs);
      KeepLiveCons([ds[0]], Singles(ds[1..]) + cs);
      KeepLiveDropsDisconnected(ds[1..], cs);
    }
  }

  // ---------------------------------------------------------------------------
  // The sample as text

  /** The repository's parse test: laying the chunks of a capability query
      end to end and joining them with "\n" gives back the trimmed query. */
  lemma SampleTextRoundTrip(pad: string, summary: string, ha: string, ma: seq<string>, d: string,
                            ds: seq<string>, hb: string, mb: seq<string>)
    requires IsBoundary(ha) && IsBoundary(d) && IsBoundary(hb)
    requires |ma| > 0 && NoBoundaries(ma) && |mb| > 0 && NoBoundaries(mb)
    requires AllBoundaries(ds)
    requires AllWhitespace(pad) && |summary| > 0 && !IsWhitespace(summary[0])
    requires var last := mb[|mb| - 1]; |last| > 0 && !IsWhitespace(last[|last| - 1])
    requires var lines := [summary, ha] + ma + [d] + ds + [hb] + mb;
      forall i :: 0 <= i < |lines| ==> IsPlainLine(lines[i])
    ensures var text := pad + Join([summary, ha] + ma + [d] + ds + [hb] + mb, '\n');
      Join(Flatten(Chunks(Lines(Trim(text)))), '\n') == Trim(text)
  {
    var lines := [summary, ha] + ma + [d] + ds + [hb] + mb;
    SampleLinesOfText(pad, lines);
    SampleFlatten(summary, ha, ma, d, ds, hb, mb);
  }

  /** `from_cli_text` on the sample parses exactly the two connected
      outputs' chunks, the first one carrying the header after it. */
  lemma SampleLiveText(pad: string, summary: string, ha: string, ma: seq<string>, d: string,
                       ds: seq<string>, hb: string, mb: seq<string>)
    requires IsBoundary(ha) && IsBoundary(hb)
    requires !Contains(ha, Disconnected) && !Contains(hb, Disconnected)
    requires |ma| > 0 && NoBoundaries(ma) && |mb| > 0 && NoBoundaries(mb)
    requires Contains(d, Disconnected) && AllDisconnected(ds)
    requires AllWhitespace(pad) && |summary| > 0 && !IsWhitespace(summary[0])
    requires var last := mb[|mb| - 1]; |last| > 0 && !IsWhitespace(last[|last| - 1])
    requires var lines := [summary, ha] + ma + [d] + ds + [hb] + mb;
      forall i :: 0 <= i < |lines| ==> IsPlainLine(lines[i])
    ensures LiveChunks(pad + Join([summary, ha] + ma + [d] + ds + [hb] + mb, '\n'))
         == [[ha] + ma + [d], [hb] + mb]
  {
    var lines := [summary, ha] + ma + [d] + ds + [hb] + mb;
    SampleLinesOfText(pad, lines);
    SampleLiveChunks(summary, ha, ma, d, ds, hb, mb);
  }

  lemma SampleLinesOfText(pad: string, lines: seq<string>)
    requires AllWhitespace(pad)
    requires |lines| > 0 && |lines[0]| > 0 && !IsWhitespace(lines[0][0])
    requires |lines[|lines| - 1]| > 0 && !IsWhitespace(lines[|lines| - 1][|lines[|lines| - 1]| - 1])
    requires forall i :: 0 <= i < |lines| ==> IsPlainLine(lines[i])
    ensures Trim(pad + Join(lines, '\n')) == Join(lines, '\n')
    ensures Lines(Trim(pad + Join(lines, '\n'))) == lines
  {
    TrimJoin(pad, lines);
    LinesOfJoin(lines);
  }

  /** Leading blank space is trimmed off, and the text itself is kept. */
  lemma TrimJoin(pad: string, lines: seq<string>)
    requires AllWhitespace(pad)
    requires |lines| > 0 && |lines[0]| > 0 && !IsWhitespace(lines[0][0])
    requires |lines[|lines| - 1]| > 0 && !IsWhitespace(lines[|lines| - 1][|lines[|lines| - 1]| - 1])
    ensures Trim(pad + Join(lines, '\n')) == Join(lines, '\n')
  {
    JoinFirst(lines, '\n');
    JoinLast(lines, '\n');
    TrimPadded(pad, Join(lines, '\n'));
  }

  lemma JoinFirst(fs: seq<string>, c: char)
    requires |fs| > 0 && |fs[0]| > 0
    ensures var t := Join(fs, c); |t| > 0 && t[0] == fs[0][0]
  {
  }

  lemma {:induction false} JoinLast(fs: seq<string>, c: char)
    requires |fs| > 0 && |fs[|fs| - 1]| > 0
    ensures var t := Join(fs, c); |t| > 0 && t[|t| - 1] == fs[|fs| - 1][|fs[|fs| - 1]| - 1]
    decreases |fs|
  {
    if |fs| > 1 {
      JoinLast(fs[1..], c);
    }
  }

  // ---------------------------------------------------------------------------
  // The sample's monitors and the run of the program on them

  /** The text around a monitor's own data in its header and first mode
      line: the connection status after the name, the indentation, the gap
      before the refresh rate and whatever follows it. */
  datatype Spacing = Spacing(status: string, pad: string, gap: string, tail: string)

  /** `header` and `modes` are the lines `xrandr -q` prints for the
      connected output `m`: the header starts with the name and a space, and
      the first mode line lists `m`'s mode and then its refresh rate. */
  predicate ShowsOutput(header: string, modes: seq<string>, m: Monitor, sp: Spacing) {
    && ' ' !in m.name && m.width <= UsizeMax && m.height <= UsizeMax && IsToken(m.refresh)
    && AllWhitespace(sp.pad) && AllWhitespace(sp.gap)
    && (sp.tail == [] || (sp.tail[0] == ' ' && !IsWhitespace(sp.tail[|sp.tail| - 1])))
    && |modes| > 0
    && header == m.name + " " + sp.status
    && modes[0] == sp.pad + ModeString(m) + " " + sp.gap + m.refresh + sp.tail
  }

  /** An output's lines read back as its monitor. */
  lemma OutputParses(header: string, modes: seq<string>, m: Monitor, sp: Spacing)
    requires ShowsOutput(header, modes, m, sp)
    ensures ParseMaxFromChunk([header] + modes) == Ok(m)
  {
    assert [header] + modes == [header, modes[0]] + modes[1..];
    ParseMaxFromChunkRoundTrip(m, sp.status, sp.pad, sp.gap, sp.tail, modes[1..]);
  }

  /** Two live chunks that parse give exactly their two monitors. */
  lemma TwoLiveChunks(text: string, c1: seq<string>, c2: seq<string>, a: Monitor, b: Monitor)
    requires LiveChunks(text) == [c1, c2]
    requires ParseMaxFromChunk(c1) == Ok(a) && ParseMaxFromChunk(c2) == Ok(b)
    ensures FromCliText(text) == Ok([a, b])
  {
    MapAllTwo(ParseMaxFromChunk, LiveChunks(text), a, b);
  }

  /** The two live chunks of the sample parse to the monitors they show;
      the disconnected line `d` closes the first chunk without being read. */
  lemma SampleChunksParse(ha: string, ma: seq<string>, d: string, a: Monitor, sa: Spacing,
                          hb: string, mb: seq<string>, b: Monitor, sb: Spacing)
    requires ShowsOutput(ha, ma, a, sa) && ShowsOutput(hb, mb, b, sb)
    ensures ParseMaxFromChunk([ha] + ma + [d]) == Ok(a)
    ensures ParseMaxFromChunk([hb] + mb) == Ok(b)
  {
    assert (ma + [d])[0] == ma[0];
    OutputParses(ha, ma + [d], a, sa);
    assert [ha] + ma + [d] == [ha] + (ma + [d]);
    OutputParses(hb, mb, b, sb);
  }

  lemma MapAllTwo<A, B>(f: A -> Result<B>, xs: seq<A>, a: B, b: B)
    requires |xs| == 2 && f(xs[0]) == Ok(a) && f(xs[1]) == Ok(b)
    ensures MapAll(f, xs) == Ok([a, b])
  {
    var r := MapAll(f, xs);
    assert r.Ok?;
    assert r.value == [a, b];
  }

  /** The repository's monitor test: the sample yields exactly its two
      connected outputs' monitors, in order. */
  lemma SampleMonitors(pad: string, summary: string, ha: string, ma: seq<string>, d: string,
                       ds: seq<string>, hb: string, mb: seq<string>,
                       a: Monitor, sa: Spacing, b: Monitor, sb: Spacing)
    requires IsBoundary(ha) && IsBoundary(hb)
    requires !Contains(ha, Disconnected) && !Contains(hb, Disconnected)
    requires |ma| > 0 && NoBoundaries(ma) && |mb| > 0 && NoBoundaries(mb)
    requires Contains(d, Disconnected) && AllDisconnected(ds)
    requires AllWhitespace(pad) && |summary| > 0 && !IsWhitespace(summary[0])
    requires var last := mb[|mb| - 1]; |last| > 0 && !IsWhitespace(last[|last| - 1])
    requires var lines := [summary, ha] + ma + [d] + ds + [hb] + mb;
      forall i :: 0 <= i < |lines| ==> IsPlainLine(lines[i])
    requires ShowsOutput(ha, ma, a, sa) && ShowsOutput(hb, mb, b, sb)
    ensures FromCliText(pad + Join([summary, ha] + ma + [d] + ds + [hb] + mb, '\n')) == Ok([a, b])
  {
    var text := pad + Join([summary, ha] + ma + [d] + ds + [hb] + mb, '\n');
    SampleLiveText(pad, summary, ha, ma, d, ds, hb, mb);
    SampleChunksParse(ha, ma, d, a, sa, hb, mb, b, sb);
    TwoLiveChunks(text, [ha] + ma + [d], [hb] + mb, a, b);
  }

  /** With the wider monitor listed second, the command switches the first
      one off and the second one on at its mode. */
  lemma SecondWiderCommand(a: Monitor, b: Monitor)
    requires a.width < b.width && a.name != b.name
    ensures GetBiggestCommandString([a, b]) == SetStrings(a, false) + SetStrings(b, true)
  {
    FirstWidestUnique([a, b], 1);
    assert [a, b][1..] == [b] && [b][1..] == [];
    assert ArgsFor([b], b.name) == SetStrings(b, true) + ArgsFor([], b.name);
    assert ArgsFor([a, b], b.name) == SetStrings(a, false) + ArgsFor([b], b.name);
  }

  /** The end-to-end run on the sample: when the second connected output is
      the wider one and the widest active monitor is the first output, the
      program switches the first output off and the second one on. */
  lemma SampleRun(pad: string, summary: string, ha: string, ma: seq<string>, d: string,
                  ds: seq<string>, hb: string, mb: seq<string>,
                  a: Monitor, sa: Spacing, b: Monitor, sb: Spacing,
                  active: string, current: seq<Monitor>)
    requires IsBoundary(ha) && IsBoundary(hb)
    requires !Contains(ha, Disconnected) && !Contains(hb, Disconnected)
    requires |ma| > 0 && NoBoundaries(ma) && |mb| > 0 && NoBoundaries(mb)
    requires Contains(d, Disconnected) && AllDisconnected(ds)
    requires AllWhitespace(pad) && |summary| > 0 && !IsWhitespace(summary[0])
    requires var last := mb[|mb| - 1]; |last| > 0 && !IsWhitespace(last[|last| - 1])
    requires var lines := [summary, ha] + ma + [d] + ds + [hb] + mb;
      forall i :: 0 <= i < |lines| ==> IsPlainLine(lines[i])
    requires ShowsOutput(ha, ma, a, sa) && ShowsOutput(hb, mb, b, sb)
    requires a.width < b.width && a.name != b.name
    requires GetCurrentFromList(active) == Ok(current) && |current| > 0
    requires current[BiggestIndex(current)].name == a.name
    ensures Run(pad + Join([summary, ha] + ma + [d] + ds + [hb] + mb, '\n'), active)
         == Reconfigure(SetStrings(a, false) + SetStrings(b, true))
  {
    var text := pad + Join([summary, ha] + ma + [d] + ds + [hb] + mb, '\n');
    SampleMonitors(pad, summary, ha, ma, d, ds, hb, mb, a, sa, b, sb);
    RunOnTwo(text, active, a, b, current);
  }

  /** A run whose capability query yields two monitors, the second wider,
      while the first one is the widest active monitor. */
  lemma RunOnTwo(query: string, active: string, a: Monitor, b: Monitor, current: seq<Monitor>)
    requires FromCliText(query) == Ok([a, b])
    requires a.width < b.width && a.name != b.name
    requires GetCurrentFromList(active) == Ok(current) && |current| > 0
    requires current[BiggestIndex(current)].name == a.name
    ensures Run(query, active) == Reconfigure(SetStrings(a, false) + SetStrings(b, true))
  {
    ReconcileTwo(a, b, current);
  }

  /** The decision on two monitors, the second wider, while the first one
      is the widest active monitor: switch to the second. */
  lemma ReconcileTwo(a: Monitor, b: Monitor, current: seq<Monitor>)
    requires a.width < b.width && a.name != b.name
    requires |current| > 0 && current[BiggestIndex(current)].name == a.name
    ensures Reconcile([a, b], current) == Ok(Apply(SetStrings(a, false) + SetStrings(b, true)))
  {
    FirstWidestUnique([a, b], 1);
    SecondWiderCommand(a, b);
  }

  // ---------------------------------------------------------------------------
  // Two connected outputs in a row

  /** Two connected outputs in a row: the first one's chunk swallows the
      second one's header, so no chunk starts with that header and its mode
      lines are chunked on their own. */
  lemma AdjacentOutputs(summary: string, ha: string, ma: seq<string>, hb: string, mb: seq<string>)
    requires IsBoundary(ha) && IsBoundary(hb)
    requires |ma| > 0 && NoBoundaries(ma)
    ensures Chunks([summary, ha] + ma + [hb] + mb) == [[summary], [ha] + ma + [hb]] + Chunks(mb)
  {
    var fromA := [ha] + ma + ([hb] + mb);
    assert [summary, ha] + ma + [hb] + mb == [summary] + fromA by {
      Assoc5(summary, ha, ma, hb, mb);
    }
    SummaryChunk(summary, fromA);
    FirstOutputChunks(ha, ma, hb, mb);
    ConsPair([summary], [ha] + ma + [hb], Chunks(mb));
  }

  // ---------------------------------------------------------------------------
  // Rearranging concatenations

  lemma Assoc<T>(a: seq<T>, b: seq<T>, c: seq<T>)
    ensures a + (b + c) == (a + b) + c
  {
  }

  lemma ConsPair<T>(x: T, y: T, zs: seq<T>)
    ensures [x] + ([y] + zs) == [x, y] + zs
  {
  }

  lemma Assoc5(a: string, b: string, ms: seq<string>, c: string, ns: seq<string>)
    ensures [a, b] + ms + [c] + ns == [a] + ([b] + ms + ([c] + ns))
  {
  }

  lemma SampleLayout(summary: string, ha: string, ma: seq<string>, d: string, ds: seq<string>,
                     hb: string, mb: seq<string>)
    ensures [summary, ha] + ma + [d] + ds + [hb] + mb
         == [summary] + ([ha] + ma + ([d] + (ds + ([hb] + mb))))
  {
  }

  lemma SampleAssoc<T>(a: T, b: T, cs: seq<T>, d: T)
    ensures [a] + ([b] + (cs + [d])) == [a, b] + cs + [d]
  {
  }

  lemma FlattenLayout(summary: string, ha: string, ma: seq<string>, d: string, ds: seq<string>,
                      hb: string, mb: seq<string>)
    ensures [summary] + (([ha] + ma + [d]) + (ds + ([hb] + mb)))
         == [summary, ha] + ma + [d] + ds + [hb] + mb
  {
  }

  lemma SkipSample<T>(a: T, b: T, cs: seq<T>, d: T)
    ensures Skip([a, b] + cs + [d], 1) == [b] + (cs + [d])
  {
    assert ([a, b] + cs + [d])[1..] == [b] + (cs + [d]);
  }
}
