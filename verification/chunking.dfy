/** Grouping the lines of `xrandr -q` output into per-output chunks
    (`Monitors::parse_xrandr_monitors`).

    The loop takes a chunk while more than one line remains.  A chunk is the
    first remaining line alone when the second line contains "connected";
    otherwise it runs up to AND INCLUDING the next line (from the third on)
    that contains "connected", or to the end.  So a multi-line chunk that is
    not the last swallows the header of the output after it, and a single
    line left over at the end is dropped.
 */
module Chunking {
  import opened Text

  /** The boundary token; "disconnected" contains it too. */
  const Marker: string := "connected"

  predicate IsBoundary(line: string) {
    Contains(line, Marker)
  }

  /** Where the scan that starts at line `i` stops: one past the first
      boundary line at or after `i`, or the number of lines. */
  function ScanEnd(lines: seq<string>, i: nat): (n: nat)
    requires i <= |lines|
    ensures i <= n <= |lines|
    ensures forall k :: i <= k < n - 1 ==> !IsBoundary(lines[k])
    ensures n < |lines| ==> i < n && IsBoundary(lines[n - 1])
    decreases |lines| - i
  {
    if i == |lines| then i
    else if IsBoundary(lines[i]) then i + 1
    else ScanEnd(lines, i + 1)
  }

  /** The length of the chunk taken from the front of `lines`. */
  function ChunkLen(lines: seq<string>): (n: nat)
    requires |lines| >= 2
    ensures 1 <= n <= |lines|
    ensures n == 1 <==> IsBoundary(lines[1])
    ensures forall k :: 1 <= k < n - 1 ==> !IsBoundary(lines[k])
    ensures 2 <= n < |lines| ==> IsBoundary(lines[n - 1])
  {
    if IsBoundary(lines[1]) then 1 else ScanEnd(lines, 2)
  }

  /** The chunks of `lines`, in order. */
  function Chunks(lines: seq<string>): (cs: seq<seq<string>>)
    ensures |lines| <= 1 <==> cs == []
    ensures forall k :: 0 <= k < |cs| ==> |cs[k]| > 0
    ensures cs != [] ==> cs[0][0] == lines[0]
    ensures forall k, i :: 0 <= k < |cs| && 1 <= i < |cs[k]| - 1 ==> !IsBoundary(cs[k][i])
    ensures forall k :: 0 <= k < |cs| && 2 <= |cs[k]| ==> !IsBoundary(cs[k][1])
    ensures forall k :: 0 <= k < |cs| - 1 && 2 <= |cs[k]| ==> IsBoundary(cs[k][|cs[k]| - 1])
    ensures forall k :: 0 <= k < |cs| - 1 && |cs[k]| == 1 ==> IsBoundary(cs[k + 1][0])
    decreases |lines|
  {
    if |lines| <= 1 then
      []
    else
      var n := ChunkLen(lines);
      [lines[..n]] + Chunks(lines[n..])
  }

  /** One turn of the chunking loop. */
  lemma ChunksUnfold(lines: seq<string>)
    requires |lines| > 1
    ensures Chunks(lines) == [lines[..ChunkLen(lines)]] + Chunks(lines[ChunkLen(lines)..])
  {
  }

  /** All chunks laid end to end. */
  function Flatten(cs: seq<seq<string>>): seq<string> {
    if cs == [] then [] else cs[0] + Flatten(cs[1..])
  }

  lemma FlattenCons(c: seq<string>, cs: seq<seq<string>>)
    ensures Flatten([c] + cs) == c + Flatten(cs)
  {
    assert ([c] + cs)[1..] == cs;
  }

  lemma LastChunkStep(lines: seq<string>)
    requires |lines| > 1
    ensures var cs, rs := Chunks(lines), Chunks(lines[ChunkLen(lines)..]);
      |cs| == |rs| + 1 && cs[0] == lines[..ChunkLen(lines)]
      && (rs != [] ==> cs[|cs| - 1] == rs[|rs| - 1])
  {
  }

  /** Concatenating the chunks in order gives the input lines except, at
      most, the last one. */
  lemma {:induction false} ChunksCover(lines: seq<string>)
    ensures var f := Flatten(Chunks(lines));
      |f| <= |lines| && f == lines[..|f|] && |lines| - 1 <= |f|
    decreases |lines|
  {
    if |lines| > 1 {
      var n := ChunkLen(lines);
      var rest := lines[n..];
      ChunksCover(rest);
      FlattenStep(lines);
      PrefixGrow(lines, n, Flatten(Chunks(rest)));
    }
  }

  lemma FlattenStep(lines: seq<string>)
    requires |lines| > 1
    ensures Flatten(Chunks(lines)) == lines[..ChunkLen(lines)] + Flatten(Chunks(lines[ChunkLen(lines)..]))
  {
    var n := ChunkLen(lines);
    FlattenCons(lines[..n], Chunks(lines[n..]));
  }

  /** A prefix of the lines after `n`, put after the first `n` lines, is a
      prefix of all of them. */
  lemma PrefixGrow(lines: seq<string>, n: nat, f: seq<string>)
    requires n <= |lines| && |f| <= |lines| - n && f == lines[n..][..|f|]
    ensures lines[..n] + f == lines[..n + |f|]
  {
    assert forall k :: 0 <= k < |f| ==> f[k] == lines[n + k];
  }

  /** A closing single-line chunk means the line after it was a boundary
      that the loop then left out. */
  lemma {:induction false} ChunksLastSingle(lines: seq<string>)
    ensures var cs := Chunks(lines);
      cs != [] && |cs[|cs| - 1]| == 1 ==>
        |Flatten(cs)| == |lines| - 1 && IsBoundary(lines[|lines| - 1])
    decreases |lines|
  {
    if |lines| > 1 {
      var n := ChunkLen(lines);
      var rest := lines[n..];
      var cs, rs := Chunks(lines), Chunks(rest);
      ChunksLastSingle(rest);
      FlattenStep(lines);
      LastChunkStep(lines);
      if rs == [] {
        if n == 1 {
          assert |rest| <= 1 && |lines| == 2;
        }
      } else if |cs[|cs| - 1]| == 1 {
        assert rest[|rest| - 1] == lines[|lines| - 1];
      }
    }
  }

  /** The loop of `parse_xrandr_monitors`, with its index-peeking inner scan. */
  method ParseXrandrMonitors(input: seq<string>) returns (chunks: seq<seq<string>>)
    ensures chunks == Chunks(input)
  {
    chunks := [];
    var lines := input;
    while |lines| > 1
      invariant chunks + Chunks(lines) == Chunks(input)
      decreases |lines|
    {
      var peak := 1;
      var peakLine := lines[peak];
      while !Contains(peakLine, Marker)
        invariant 1 <= peak <= |lines|
        invariant peak == 1 ==> peakLine == lines[1]
        invariant peak >= 2 ==> peakLine == lines[peak - 1] && !IsBoundary(lines[1])
        invariant forall k :: 1 <= k < peak - 1 ==> !IsBoundary(lines[k])
        decreases |lines| - peak
      {
        if peak < |lines| {
          peakLine := lines[peak];
        } else {
          break;
        }
        peak := peak + 1;
      }
      InnerScanEnd(lines, peak, peakLine);
      TakeChunk(chunks, lines, peak, input);
      chunks := chunks + [lines[..peak]];
      lines := lines[peak..];
    }
  }

  /** Taking one chunk keeps the chunks found so far, followed by the
      chunks of what is left, equal to the chunks of the whole input. */
  lemma TakeChunk(chunks: seq<seq<string>>, lines: seq<string>, n: nat, input: seq<string>)
    requires |lines| > 1 && n == ChunkLen(lines)
    requires chunks + Chunks(lines) == Chunks(input)
    ensures (chunks + [lines[..n]]) + Chunks(lines[n..]) == Chunks(input)
  {
    ChunksUnfold(lines);
    assert (chunks + [lines[..n]]) + Chunks(lines[n..]) == chunks + ([lines[..n]] + Chunks(lines[n..]));
  }

  /** Where the inner scan stops is where `ChunkLen` says the chunk ends. */
  lemma InnerScanEnd(lines: seq<string>, peak: int, peakLine: string)
    requires |lines| > 1 && 1 <= peak <= |lines|
    requires peak == 1 ==> peakLine == lines[1]
    requires peak >= 2 ==> peakLine == lines[peak - 1] && !IsBoundary(lines[1])
    requires forall k :: 1 <= k < peak - 1 ==> !IsBoundary(lines[k])
    requires IsBoundary(peakLine) || peak == |lines|
    ensures peak == ChunkLen(lines)
  {
  }
}
