/** The playback-and-annotate step of mainkanmusik.py.

    A pre-loaded mono waveform `y` is streamed to the sound device in blocks
    of `HopLength` samples. Each time the device asks for a block, the
    callback copies the block into channel 0 of the device's buffer and
    annotates the block's analysis frame with a melody note (the pitch of the
    loudest candidate) and a chord (the strongest pitch classes of the chroma
    column that pass a golden-ratio threshold). When fewer samples remain than
    the device asked for, the available prefix is copied and playback stops.

    The analysis matrices are indexed `[row][frame]`, as numpy's
    `pitches[idx, frame]` is. Samples and intensities are reals: float
    rounding is not modelled. */
module Playback {

  /** The golden ratio, the decay base of the chord threshold. */
  const Phi: real := 1.618033988749

  /** How many chord candidates are kept: one per finger of a hand. */
  const Fingers: nat := 5

  /** Samples per block, and per analysis frame. */
  const HopLength: nat := 2048

  /** Pitch-class names, indexed by chroma row. */
  const NoteNames: seq<string> := ["C", "C#", "D", "D#", "E", "F", "F#", "G", "G#", "A", "A#", "B"]

  /** Distinct chroma rows have distinct pitch-class names. */
  lemma NoteNamesDistinct(j: nat, k: nat)
    requires j < k < |NoteNames|
    ensures NoteNames[j] != NoteNames[k]
  {
    var a, b := NoteNames[j], NoteNames[k];
    assert a[0] != b[0] || |a| != |b| by {
      assert j == 0 || j == 1 || j == 2 || j == 3 || j == 4 || j == 5 ||
             j == 6 || j == 7 || j == 8 || j == 9 || j == 10;
    }
  }

  function Min(a: int, b: int): int {
    if a <= b then a else b
  }

  function Pow(x: real, n: nat): real {
    if n == 0 then 1.0 else x * Pow(x, n - 1)
  }

  lemma {:induction false} PowAboveOne(x: real, n: nat)
    requires x > 1.0 && n >= 1
    ensures Pow(x, n) > 1.0
  {
    if n > 1 {
      PowAboveOne(x, n - 1);
      assert x * Pow(x, n - 1) > 1.0 * Pow(x, n - 1);
    }
  }

  /** `phi**FINGERS`, the divisor of the chord threshold. */
  const PhiPowFingers: real := Pow(Phi, Fingers)

  lemma PhiPowFingersAboveOne()
    ensures PhiPowFingers > 1.0
  {
    PowAboveOne(Phi, Fingers);
  }

  // ---------------------------------------------------------------------
  // Analysis data
  // ---------------------------------------------------------------------

  type Matrix = seq<seq<real>>

  function Cols(m: Matrix): nat {
    if |m| == 0 then 0 else |m[0]|
  }

  predicate Rectangular(m: Matrix) {
    forall i :: 0 <= i < |m| ==> |m[i]| == Cols(m)
  }

  /** The shapes the analyser hands over: pitch candidates and their
      magnitudes share one shape with at least one candidate row, and the
      chroma matrix has one row per pitch class. */
  predicate AnalysisShapes(pitches: Matrix, magnitudes: Matrix, chroma: Matrix) {
    && |magnitudes| > 0 && Rectangular(magnitudes)
    && |pitches| == |magnitudes| && Rectangular(pitches) && Cols(pitches) == Cols(magnitudes)
    && |chroma| == |NoteNames| && Rectangular(chroma)
  }

  /** `frame` is a valid column of every analysis matrix, so indexing it
      raises no IndexError. */
  predicate InAnalysis(magnitudes: Matrix, chroma: Matrix, frame: nat) {
    frame < Cols(magnitudes) && frame < Cols(chroma)
  }

  /** numpy's column `m[:, j]`. */
  function Column(m: Matrix, j: nat): (col: seq<real>)
    requires Rectangular(m) && j < Cols(m)
    ensures |col| == |m|
    ensures forall i :: 0 <= i < |m| ==> col[i] == m[i][j]
  {
    seq(|m|, i requires 0 <= i < |m| => m[i][j])
  }

  // ---------------------------------------------------------------------
  // Sample copy
  // ---------------------------------------------------------------------

  /** The slice `y[start:start + frames]` with `start = frame * HopLength`:
      Python clips both ends of a slice to the sequence, so the block is
      short, possibly empty, near and past the end of the waveform. */
  function Block(y: seq<real>, frame: nat, frames: nat): (chunk: seq<real>)
    ensures |chunk| == if frame * HopLength >= |y| then 0 else Min(frames, |y| - frame * HopLength)
    ensures forall i :: 0 <= i < |chunk| ==> chunk[i] == y[frame * HopLength + i]
  {
    var start := frame * HopLength;
    var end := start + frames;
    y[Min(start, |y|)..Min(end, |y|)]
  }

  /** A block of the device's size is full exactly for the frames before
      `|y| / HopLength`: the waveform holds that many whole blocks. */
  lemma BlockFullIff(y: seq<real>, frame: nat)
    ensures |Block(y, frame, HopLength)| == HopLength <==> frame < |y| / HopLength
  {
    var q := |y| / HopLength;
    assert |y| == q * HopLength + |y| % HopLength;
    if frame < q {
      assert (frame + 1) * HopLength <= q * HopLength;
    } else {
      assert frame * HopLength >= q * HopLength;
    }
  }

  // ---------------------------------------------------------------------
  // Melody
  // ---------------------------------------------------------------------

  /** numpy's `argmax`: the first index holding the largest value. */
  function ArgMax(s: seq<real>): (k: nat)
    requires |s| > 0
    ensures k < |s|
    ensures forall j :: 0 <= j < |s| ==> s[j] <= s[k]
    ensures forall j :: 0 <= j < k ==> s[j] < s[k]
  {
    if |s| == 1 then 0
    else
      var k := ArgMax(s[..|s| - 1]);
      if s[|s| - 1] > s[k] then |s| - 1 else k
  }

  /** `idx` is the first row with the largest magnitude in column `frame`. */
  predicate IsFirstLoudest(magnitudes: Matrix, frame: nat, idx: nat)
    requires Rectangular(magnitudes) && frame < Cols(magnitudes)
  {
    && idx < |magnitudes|
    && (forall j :: 0 <= j < |magnitudes| ==> magnitudes[j][frame] <= magnitudes[idx][frame])
    && (forall j :: 0 <= j < idx ==> magnitudes[j][frame] < magnitudes[idx][frame])
  }

  /** The melody note of a frame: the pitch of the loudest candidate named
      by `hzToNote`, or "-" when that pitch is not positive (unvoiced). */
  function Melody(pitches: Matrix, magnitudes: Matrix, frame: nat, hzToNote: real -> string): (note: string)
    requires |magnitudes| > 0 && Rectangular(magnitudes) && frame < Cols(magnitudes)
    requires |pitches| == |magnitudes| && Rectangular(pitches) && Cols(pitches) == Cols(magnitudes)
    ensures exists idx: nat :: IsFirstLoudest(magnitudes, frame, idx) &&
              note == if pitches[idx][frame] > 0.0 then hzToNote(pitches[idx][frame]) else "-"
  {
    var idx := ArgMax(Column(magnitudes, frame));
    var pitch := pitches[idx][frame];
    assert IsFirstLoudest(magnitudes, frame, idx);
    if pitch > 0.0 then hzToNote(pitch) else "-"
  }

  // ---------------------------------------------------------------------
  // Chord
  // ---------------------------------------------------------------------

  datatype ChordEntry = ChordEntry(name: string, intensity: real)

  /** numpy's `max`. */
  function MaxOf(s: seq<real>): (m: real)
    requires |s| > 0
    ensures m in s
    ensures forall j :: 0 <= j < |s| ==> s[j] <= m
  {
    if |s| == 1 then s[0]
    else
      var m := MaxOf(s[..|s| - 1]);
      if s[|s| - 1] > m then s[|s| - 1] else m
  }

  /** Index `a` is listed before index `b` by `np.argsort(v)[::-1]`: the
      larger intensity first. numpy does not promise an order for equal
      intensities; the model fixes the one its scalar sort gives a vector
      this short (insertion sort, which keeps equal values by increasing
      index), so once reversed equal intensities come by decreasing index. */
  predicate RanksBefore(v: seq<real>, a: nat, b: nat)
    requires a < |v| && b < |v|
  {
    v[a] > v[b] || (v[a] == v[b] && a > b)
  }

  /** `order` lists indices of `v`, each ranked before every later one. */
  predicate RankedDescending(v: seq<real>, order: seq<nat>) {
    && (forall k :: 0 <= k < |order| ==> order[k] < |v|)
    && (forall a, b :: 0 <= a < b < |order| ==> RanksBefore(v, order[a], order[b]))
  }

  /** Inserts index `i` into a ranked list at its place. */
  function InsertByRank(v: seq<real>, i: nat, ranked: seq<nat>): (r: seq<nat>)
    requires i < |v| && RankedDescending(v, ranked) && i !in ranked
    ensures |r| == |ranked| + 1
    ensures forall x :: x in r <==> x in ranked || x == i
    ensures RankedDescending(v, r)
  {
    if ranked == [] then [i]
    else if RanksBefore(v, i, ranked[0]) then
      assert forall b :: 0 <= b < |ranked| ==> RanksBefore(v, i, ranked[b]) by {
        forall b | 0 <= b < |ranked| ensures RanksBefore(v, i, ranked[b]) {
          if b > 0 {
            assert RanksBefore(v, ranked[0], ranked[b]);
          }
        }
      }
      [i] + ranked
    else
      var rest := InsertByRank(v, i, ranked[1..]);
      assert forall b :: 0 <= b < |rest| ==> RanksBefore(v, ranked[0], rest[b]) by {
        forall b | 0 <= b < |rest| ensures RanksBefore(v, ranked[0], rest[b]) {
          if rest[b] != i {
            assert rest[b] in ranked[1..];
            var c :| 0 <= c < |ranked| - 1 && ranked[1..][c] == rest[b];
            assert ranked[c + 1] == rest[b];
          }
        }
      }
      [ranked[0]] + rest
  }

  /** The indices `0 .. n-1` of `v` in the order `np.argsort(v)[::-1]`
      lists them: every index exactly once, ranked. */
  function RankIndices(v: seq<real>, n: nat): (r: seq<nat>)
    requires n <= |v|
    ensures |r| == n
    ensures forall x: nat :: x in r <==> x < n
    ensures RankedDescending(v, r)
  {
    if n == 0 then [] else InsertByRank(v, n - 1, RankIndices(v, n - 1))
  }

  /** `np.argsort(v)[::-1][:FINGERS]`: the indices of the `Fingers` largest
      intensities, largest first; no index left out is larger than any kept. */
  function TopIndices(v: seq<real>): (top: seq<nat>)
    ensures |top| == Min(Fingers, |v|)
    ensures RankedDescending(v, top)
    ensures forall i, k :: 0 <= i < |v| && i !in top && 0 <= k < |top| ==> v[i] <= v[top[k]]
  {
    var ranked := RankIndices(v, |v|);
    var top := ranked[..Min(Fingers, |v|)];
    assert forall i, k :: 0 <= i < |v| && i !in top && 0 <= k < |top| ==> v[i] <= v[top[k]] by {
      forall i, k | 0 <= i < |v| && i !in top && 0 <= k < |top|
        ensures v[i] <= v[top[k]]
      {
        assert i in ranked;
        var b :| 0 <= b < |ranked| && ranked[b] == i;
        assert RanksBefore(v, ranked[k], ranked[b]);
      }
    }
    top
  }

  predicate NonIncreasing(entries: seq<ChordEntry>) {
    forall a, b :: 0 <= a < b < |entries| ==> entries[a].intensity >= entries[b].intensity
  }

  /** No pitch class is listed twice. */
  predicate DistinctNames(entries: seq<ChordEntry>) {
    forall a, b :: 0 <= a < b < |entries| ==> entries[a].name != entries[b].name
  }

  /** The chord candidates `[(note_names[i], float(v[i])) for i in top_idx]`:
      `Fingers` entries, strongest first, each naming the pitch class whose
      intensity it reports, and no pitch class left out stronger than any
      candidate. */
  function Candidates(v: seq<real>): (cands: seq<ChordEntry>)
    requires |v| == |NoteNames|
    ensures |cands| == Fingers
    ensures NonIncreasing(cands) && DistinctNames(cands)
    ensures forall e :: e in cands ==> exists i :: 0 <= i < |v| && e == ChordEntry(NoteNames[i], v[i])
    ensures forall i, k :: 0 <= i < |v| && ChordEntry(NoteNames[i], v[i]) !in cands && 0 <= k < |cands| ==>
              v[i] <= cands[k].intensity
  {
    var top := TopIndices(v);
    CandidateEntries(v, top);
    EntriesOf(v, top)
  }

  /** The entries `(note_names[i], v[i])` for the indices `i` of `top`. */
  function EntriesOf(v: seq<real>, top: seq<nat>): (entries: seq<ChordEntry>)
    requires |v| == |NoteNames| && forall k :: 0 <= k < |top| ==> top[k] < |v|
    ensures |entries| == |top|
    ensures forall k :: 0 <= k < |top| ==> entries[k] == ChordEntry(NoteNames[top[k]], v[top[k]])
    ensures (forall a, b :: 0 <= a < b < |top| ==> top[a] != top[b]) ==> DistinctNames(entries)
  {
    var entries := seq(|top|, k requires 0 <= k < |top| => ChordEntry(NoteNames[top[k]], v[top[k]]));
    assert (forall a, b :: 0 <= a < b < |top| ==> top[a] != top[b]) ==> DistinctNames(entries) by {
      forall a, b | 0 <= a < b < |top| && top[a] != top[b]
        ensures entries[a].name != entries[b].name
      {
        if top[a] < top[b] {
          NoteNamesDistinct(top[a], top[b]);
        } else {
          NoteNamesDistinct(top[b], top[a]);
        }
      }
    }
    entries
  }

  /** What the ranking of `top` says about its entries. */
  lemma CandidateEntries(v: seq<real>, top: seq<nat>)
    requires |v| == |NoteNames| && RankedDescending(v, top)
    requires forall i, k :: 0 <= i < |v| && i !in top && 0 <= k < |top| ==> v[i] <= v[top[k]]
    ensures NonIncreasing(EntriesOf(v, top)) && DistinctNames(EntriesOf(v, top))
    ensures forall e :: e in EntriesOf(v, top) ==> exists i :: 0 <= i < |v| && e == ChordEntry(NoteNames[i], v[i])
    ensures forall i, k :: 0 <= i < |v| && ChordEntry(NoteNames[i], v[i]) !in EntriesOf(v, top) && 0 <= k < |top| ==>
              v[i] <= EntriesOf(v, top)[k].intensity
  {
    var cands := EntriesOf(v, top);
    forall a, b | 0 <= a < b < |cands| ensures cands[a].intensity >= cands[b].intensity && top[a] != top[b] {
      assert RanksBefore(v, top[a], top[b]);
    }
    forall e | e in cands ensures exists i :: 0 <= i < |v| && e == ChordEntry(NoteNames[i], v[i]) {
      var k :| 0 <= k < |cands| && cands[k] == e;
      assert e == ChordEntry(NoteNames[top[k]], v[top[k]]);
    }
    forall i | 0 <= i < |v| && i in top ensures ChordEntry(NoteNames[i], v[i]) in cands {
      var j :| 0 <= j < |top| && top[j] == i;
      assert cands[j] == ChordEntry(NoteNames[i], v[i]);
    }
  }

  /** `s` is obtained from `t` by deleting entries, keeping the order. */
  predicate IsSubsequence<T(==)>(s: seq<T>, t: seq<T>)
    decreases |t|
  {
    s == [] || (t != [] && ((s[0] == t[0] && IsSubsequence(s[1..], t[1..])) || IsSubsequence(s, t[1..])))
  }

  /** The amplitude filter `[(n, v) for n, v in cands if v >= threshold]`:
      exactly the candidates at or above the threshold. */
  function KeepAtLeast(cands: seq<ChordEntry>, threshold: real): (kept: seq<ChordEntry>)
    ensures |kept| <= |cands|
    ensures forall e :: e in kept <==> e in cands && e.intensity >= threshold
  {
    if cands == [] then []
    else
      var rest := KeepAtLeast(cands[1..], threshold);
      if cands[0].intensity >= threshold then [cands[0]] + rest else rest
  }

  /** The filter keeps the candidates' order: what it keeps is a
      subsequence of the candidates. */
  lemma {:induction false} KeepAtLeastSubsequence(cands: seq<ChordEntry>, threshold: real)
    ensures IsSubsequence(KeepAtLeast(cands, threshold), cands)
    decreases |cands|
  {
    if cands != [] {
      var rest := KeepAtLeast(cands[1..], threshold);
      KeepAtLeastSubsequence(cands[1..], threshold);
      if cands[0].intensity >= threshold {
        assert ([cands[0]] + rest)[1..] == rest;
      }
    }
  }

  /** Filtering a strongest-first list leaves it strongest first. */
  lemma {:induction false} KeepAtLeastNonIncreasing(cands: seq<ChordEntry>, threshold: real)
    requires NonIncreasing(cands)
    ensures NonIncreasing(KeepAtLeast(cands, threshold))
    decreases |cands|
  {
    if cands != [] {
      var rest := KeepAtLeast(cands[1..], threshold);
      KeepAtLeastNonIncreasing(cands[1..], threshold);
      if cands[0].intensity >= threshold {
        forall b | 0 <= b < |rest| ensures cands[0].intensity >= rest[b].intensity {
          HeadDominates(cands, rest[b]);
        }
        var kept := [cands[0]] + rest;
        forall a, b | 0 <= a < b < |kept| ensures kept[a].intensity >= kept[b].intensity {
          assert kept[b] == rest[b - 1];
          if a > 0 {
            assert kept[a] == rest[a - 1];
          }
        }
      }
    }
  }

  lemma HeadDominates(entries: seq<ChordEntry>, e: ChordEntry)
    requires NonIncreasing(entries) && |entries| > 0 && e in entries[1..]
    ensures entries[0].intensity >= e.intensity
  {
    var c :| 0 <= c < |entries| - 1 && entries[1..][c] == e;
    assert entries[c + 1] == e;
  }

  /** Filtering a list without repeated pitch classes repeats none. */
  lemma {:induction false} KeepAtLeastDistinct(cands: seq<ChordEntry>, threshold: real)
    requires DistinctNames(cands)
    ensures DistinctNames(KeepAtLeast(cands, threshold))
    decreases |cands|
  {
    if cands != [] {
      var rest := KeepAtLeast(cands[1..], threshold);
      KeepAtLeastDistinct(cands[1..], threshold);
      if cands[0].intensity >= threshold {
        forall b | 0 <= b < |rest| ensures cands[0].name != rest[b].name {
          HeadNameDiffers(cands, rest[b]);
        }
        var kept := [cands[0]] + rest;
        forall a, b | 0 <= a < b < |kept| ensures kept[a].name != kept[b].name {
          assert kept[b] == rest[b - 1];
          if a > 0 {
            assert kept[a] == rest[a - 1];
          }
        }
      }
    }
  }

  lemma HeadNameDiffers(entries: seq<ChordEntry>, e: ChordEntry)
    requires DistinctNames(entries) && |entries| > 0 && e in entries[1..]
    ensures entries[0].name != e.name
  {
    var c :| 0 <= c < |entries| - 1 && entries[1..][c] == e;
    assert entries[c + 1] == e;
  }

  /** `max(chord_vector) / phi**FINGERS`: since `phi**FINGERS > 1`, it lies
      at or below the maximum exactly when the maximum is not negative. */
  function Threshold(v: seq<real>): (t: real)
    requires |v| > 0
    ensures t * PhiPowFingers == MaxOf(v)
    ensures t <= MaxOf(v) <==> MaxOf(v) >= 0.0
  {
    PhiPowFingersAboveOne();
    DivideAboveOne(MaxOf(v), PhiPowFingers);
    MaxOf(v) / PhiPowFingers
  }

  /** The chord of a frame: at most `Fingers` pitch classes, strongest
      first, each at or above the threshold and reporting its own intensity. */
  function Chord(chroma: Matrix, frame: nat): (chord: seq<ChordEntry>)
    requires |chroma| == |NoteNames| && Rectangular(chroma) && frame < Cols(chroma)
    ensures |chord| <= Fingers
    ensures NonIncreasing(chord) && DistinctNames(chord)
    ensures forall e :: e in chord <==> e in Candidates(Column(chroma, frame)) && e.intensity >= Threshold(Column(chroma, frame))
    ensures IsSubsequence(chord, Candidates(Column(chroma, frame)))
    ensures forall e :: e in chord ==> exists i :: 0 <= i < |NoteNames| && e == ChordEntry(NoteNames[i], chroma[i][frame])
  {
    var v := Column(chroma, frame);
    KeepAtLeastNonIncreasing(Candidates(v), Threshold(v));
    KeepAtLeastDistinct(Candidates(v), Threshold(v));
    KeepAtLeastSubsequence(Candidates(v), Threshold(v));
    KeepAtLeast(Candidates(v), Threshold(v))
  }

  lemma DivideAboveOne(m: real, p: real)
    requires p > 1.0
    ensures m / p <= m <==> m >= 0.0
  {
    var d := m / p;
    assert m == d * p;
    assert m - d == d * (p - 1.0);
    if d >= 0.0 {
      assert d * (p - 1.0) >= 0.0;
      assert m >= 0.0;
    } else {
      assert d * (p - 1.0) < 0.0;
      assert m < 0.0;
    }
  }

  /** The first candidate is the strongest pitch class of the column. */
  lemma CandidatesHeadIsMax(v: seq<real>)
    requires |v| == |NoteNames|
    ensures Candidates(v)[0].intensity == MaxOf(v)
  {
    var cands := Candidates(v);
    var m := MaxOf(v);
    var j :| 0 <= j < |v| && v[j] == m;
    if ChordEntry(NoteNames[j], v[j]) in cands {
      var k :| 0 <= k < |cands| && cands[k] == ChordEntry(NoteNames[j], v[j]);
      assert k == 0 || cands[0].intensity >= cands[k].intensity;
    } else {
      assert v[j] <= cands[0].intensity;
    }
    assert cands[0] in cands;
    var i :| 0 <= i < |v| && cands[0] == ChordEntry(NoteNames[i], v[i]);
  }

  /** Because `phi**FINGERS > 1`, the strongest pitch class passes the filter
      whenever the column maximum is not negative, and nothing passes when it
      is: the chord is empty exactly for a negative maximum. */
  lemma ChordNonEmptyIff(chroma: Matrix, frame: nat)
    requires |chroma| == |NoteNames| && Rectangular(chroma) && frame < Cols(chroma)
    ensures Chord(chroma, frame) != [] <==> MaxOf(Column(chroma, frame)) >= 0.0
  {
    var v := Column(chroma, frame);
    PhiPowFingersAboveOne();
    DivideAboveOne(MaxOf(v), PhiPowFingers);
    if Chord(chroma, frame) != [] {
      ChordEntryBelowMax(chroma, frame);
    }
    if MaxOf(v) >= 0.0 {
      StrongestPasses(v);
    }
  }

  /** A chord entry never exceeds the column maximum, so a non-empty chord
      puts the threshold at or below the maximum. */
  lemma ChordEntryBelowMax(chroma: Matrix, frame: nat)
    requires |chroma| == |NoteNames| && Rectangular(chroma) && frame < Cols(chroma)
    requires Chord(chroma, frame) != []
    ensures Threshold(Column(chroma, frame)) <= MaxOf(Column(chroma, frame))
  {
    var v := Column(chroma, frame);
    var chord := Chord(chroma, frame);
    var e := chord[0];
    assert e in chord;
    assert e.intensity >= Threshold(v);
    var i :| 0 <= i < |NoteNames| && e == ChordEntry(NoteNames[i], chroma[i][frame]);
    assert e.intensity == v[i] <= MaxOf(v);
  }

  /** With the threshold at or below the maximum, the first candidate, which
      holds the maximum, passes the filter. */
  lemma StrongestPasses(v: seq<real>)
    requires |v| == |NoteNames|
    requires Threshold(v) <= MaxOf(v)
    ensures Candidates(v)[0] in KeepAtLeast(Candidates(v), Threshold(v))
  {
    var cands := Candidates(v);
    CandidatesHeadIsMax(v);
    assert cands[0] in cands;
    assert cands[0] in KeepAtLeast(cands, Threshold(v));
  }

  // ---------------------------------------------------------------------
  // The callback
  // ---------------------------------------------------------------------

  /** What the callback produces for one frame: the frame index, the melody
      note and the chord; printing it is I/O and not modelled. */
  datatype Annotation = Annotation(frame: nat, melody: string, chord: seq<ChordEntry>)

  /** The annotation of `frame`: the melody read at the first loudest pitch
      row, and a chord that is empty exactly when the chroma column's
      maximum is negative. */
  function Annotate(pitches: Matrix, magnitudes: Matrix, chroma: Matrix, hzToNote: real -> string, frame: nat): (a: Annotation)
    requires AnalysisShapes(pitches, magnitudes, chroma) && InAnalysis(magnitudes, chroma, frame)
    ensures a.frame == frame && |a.chord| <= Fingers
    ensures a.chord != [] <==> MaxOf(Column(chroma, frame)) >= 0.0
    ensures exists idx: nat :: IsFirstLoudest(magnitudes, frame, idx) &&
              a.melody == if pitches[idx][frame] > 0.0 then hzToNote(pitches[idx][frame]) else "-"
  {
    ChordNonEmptyIff(chroma, frame);
    Annotation(frame, Melody(pitches, magnitudes, frame, hzToNote), Chord(chroma, frame))
  }

  /** The outcome of one callback: an annotated full block; a short block
      after which playback stops (raising `CallbackStop`); or a full block
      whose frame lies outside the analysis, where numpy's indexing raises
      IndexError after the samples were copied. */
  datatype Step = Played(annotation: Annotation) | Stopped | Faulted

  /** numpy's `outdata[:len(chunk), 0] = chunk`: channel 0 of the first
      `|chunk|` rows takes the chunk, and every other cell keeps its value. */
  method WriteChannel0(outdata: array2<real>, chunk: seq<real>)
    requires |chunk| <= outdata.Length0 && outdata.Length1 >= 1
    modifies outdata
    ensures forall i, ch :: 0 <= i < outdata.Length0 && 0 <= ch < outdata.Length1 ==>
              outdata[i, ch] == if ch == 0 && i < |chunk| then chunk[i] else old(outdata[i, ch])
  {
    forall i | 0 <= i < |chunk| {
      outdata[i, 0] := chunk[i];
    }
  }

  /** The playback session: the fixed waveform and analysis, and the
      frame counter that the callback advances. */
  class Player {
    const y: seq<real>
    const pitches: Matrix
    const magnitudes: Matrix
    const chroma: Matrix
    const hzToNote: real -> string
    var frame: nat

    ghost predicate Valid() {
      AnalysisShapes(pitches, magnitudes, chroma)
    }

    /** Loading and analysis done, `frame = 0`. */
    constructor (y: seq<real>, pitches: Matrix, magnitudes: Matrix, chroma: Matrix, hzToNote: real -> string)
      requires AnalysisShapes(pitches, magnitudes, chroma)
      ensures Valid() && frame == 0
      ensures this.y == y && this.pitches == pitches && this.magnitudes == magnitudes
      ensures this.chroma == chroma && this.hzToNote == hzToNote
    {
      this.y := y;
      this.pitches := pitches;
      this.magnitudes := magnitudes;
      this.chroma := chroma;
      this.hzToNote := hzToNote;
      frame := 0;
    }

    /** One device request for `frames` samples into `outdata`, a
        `frames` by channels buffer. A full block fills channel 0 and, when
        the frame lies in the analysis, is annotated and advances `frame`.
        A short block overwrites only the prefix it has, leaves the rest of
        the buffer as it was, produces no annotation, keeps `frame` and
        stops playback. */
    method Callback(outdata: array2<real>, frames: nat) returns (step: Step)
      requires Valid()
      requires outdata.Length0 == frames && outdata.Length1 >= 1
      modifies this, outdata
      ensures var chunk := Block(y, old(frame), frames);
        forall i, ch :: 0 <= i < frames && 0 <= ch < outdata.Length1 ==>
          outdata[i, ch] == if ch == 0 && i < |chunk| then chunk[i] else old(outdata[i, ch])
      ensures |Block(y, old(frame), frames)| < frames ==> step == Stopped && frame == old(frame)
      ensures |Block(y, old(frame), frames)| == frames && InAnalysis(magnitudes, chroma, old(frame)) ==>
        step == Played(Annotate(pitches, magnitudes, chroma, hzToNote, old(frame))) && frame == old(frame) + 1
      ensures |Block(y, old(frame), frames)| == frames && !InAnalysis(magnitudes, chroma, old(frame)) ==>
        step == Faulted && frame == old(frame)
    {
      var chunk := Block(y, frame, frames);
      if |chunk| < frames {
        WriteChannel0(outdata, chunk);
        step := Stopped;
        return;
      }
      WriteChannel0(outdata, chunk);
      if !InAnalysis(magnitudes, chroma, frame) {
        step := Faulted;
        return;
      }
      step := Played(Annotate(pitches, magnitudes, chroma, hzToNote, frame));
      frame := frame + 1;
    }
  }

  /** The annotations of frames `0 .. |annotations|`, in order. */
  ghost predicate AnnotatedInOrder(annotations: seq<Annotation>, pitches: Matrix, magnitudes: Matrix, chroma: Matrix,
                                   hzToNote: real -> string)
    requires AnalysisShapes(pitches, magnitudes, chroma)
  {
    forall k :: 0 <= k < |annotations| ==>
      InAnalysis(magnitudes, chroma, k) && annotations[k] == Annotate(pitches, magnitudes, chroma, hzToNote, k)
  }

  lemma AnnotationsAppend(annotations: seq<Annotation>, a: Annotation, pitches: Matrix, magnitudes: Matrix,
                          chroma: Matrix, hzToNote: real -> string)
    requires AnalysisShapes(pitches, magnitudes, chroma) && InAnalysis(magnitudes, chroma, |annotations|)
    requires AnnotatedInOrder(annotations, pitches, magnitudes, chroma, hzToNote)
    requires a == Annotate(pitches, magnitudes, chroma, hzToNote, |annotations|)
    ensures AnnotatedInOrder(annotations + [a], pitches, magnitudes, chroma, hzToNote)
  {
    var grown := annotations + [a];
    forall k | 0 <= k < |grown|
      ensures InAnalysis(magnitudes, chroma, k) && grown[k] == Annotate(pitches, magnitudes, chroma, hzToNote, k)
    {
      if k < |annotations| {
        assert grown[k] == annotations[k];
      } else {
        assert k == |annotations| && grown[k] == a;
      }
    }
  }

  /** The session driver: `frame = 0`, then the device asks for blocks of
      `HopLength` samples until the callback stops. With the analysis
      covering every whole block, exactly `|y| / HopLength` annotations are
      produced, one per frame in order, before the stopping call, and the
      counter ends at that value. */
  method Play(y: seq<real>, pitches: Matrix, magnitudes: Matrix, chroma: Matrix, hzToNote: real -> string)
    returns (annotations: seq<Annotation>, finalFrame: nat)
    requires AnalysisShapes(pitches, magnitudes, chroma)
    requires |y| / HopLength <= Cols(magnitudes) && |y| / HopLength <= Cols(chroma)
    ensures |annotations| == |y| / HopLength && finalFrame == |y| / HopLength
    ensures forall k :: 0 <= k < |annotations| ==>
              annotations[k] == Annotate(pitches, magnitudes, chroma, hzToNote, k)
  {
    var player := new Player(y, pitches, magnitudes, chroma, hzToNote);
    annotations := [];
    var stopped := false;
    while !stopped
      invariant player.Valid()
      invariant player.y == y && player.pitches == pitches && player.magnitudes == magnitudes
      invariant player.chroma == chroma && player.hzToNote == hzToNote
      invariant player.frame == |annotations| <= |y| / HopLength
      invariant stopped ==> player.frame == |y| / HopLength
      invariant AnnotatedInOrder(annotations, pitches, magnitudes, chroma, hzToNote)
      decreases |y| / HopLength - player.frame, if stopped then 0 else 1
    {
      var outdata := new real[HopLength, 1];
      var current := player.frame;
      BlockFullIff(y, current);
      var full := |Block(y, current, HopLength)| == HopLength;
      var step := player.Callback(outdata, HopLength);
      if step.Stopped? {
        assert !full;
        stopped := true;
      } else {
        assert full && InAnalysis(magnitudes, chroma, current);
        assert step.annotation == Annotate(pitches, magnitudes, chroma, hzToNote, current);
        AnnotationsAppend(annotations, step.annotation, pitches, magnitudes, chroma, hzToNote);
        annotations := annotations + [step.annotation];
      }
    }
    finalFrame := player.frame;
  }
}
