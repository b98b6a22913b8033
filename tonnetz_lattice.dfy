/** The Tonnetz lattice search of tonnetz.py.

    Starting from MIDI note 21 at coordinate (0, 0), a breadth-first search
    steps a major third (+4 semitones), a perfect fifth (+7) and a minor third
    (+3) to the neighbouring lattice coordinates, visits every note of the
    piano range at most once, and files each visited note's name under the
    coordinate where the search first reached it. The `r` coordinate moves in
    half steps, so it is kept doubled (`r2`) as an integer. */
module TonnetzLattice {
  import opened Text

  /** The lowest and highest MIDI notes of the search. */
  const MinNote: int := 21
  const MaxNote: int := 108

  predicate InRange(m: int) {
    MinNote <= m <= MaxNote
  }

  // ---------------------------------------------------------------------
  // Note names
  // ---------------------------------------------------------------------

  const PitchClasses: seq<string> := ["C", "C#", "D", "D#", "E", "F", "F#", "G", "G#", "A", "A#", "B"]

  /** The pitch class of `m` followed by its octave number, `m // 12` in
      Python's floor division (which Dafny's `/` matches for divisor 12). */
  function MidiToPitch(m: int): (name: string)
    ensures |name| >= 2 && NoNewline(name)
  {
    PitchClassShape(m % 12);
    PitchClasses[m % 12] + IntToString(m / 12)
  }

  /** Position of a pitch-class name in `PitchClasses`, searching from `k`. */
  function ClassIndexFrom(cls: string, k: nat): Option<nat>
    decreases |PitchClasses| - k
  {
    if k >= |PitchClasses| then None
    else if PitchClasses[k] == cls then Some(k)
    else ClassIndexFrom(cls, k + 1)
  }

  /** Reads a name back into a MIDI number: a letter, an optional sharp,
      then a signed octave number. */
  function ParsePitch(name: string): Option<int> {
    var clsLen := if |name| >= 2 && name[1] == '#' then 2 else 1;
    if |name| < clsLen then None
    else
      match (ClassIndexFrom(name[..clsLen], 0), ParseInt(name[clsLen..]))
      case (Some(k), Some(octave)) => Some(12 * octave + k)
      case _ => None
  }

  lemma PitchClassShape(k: int)
    requires 0 <= k < 12
    ensures |PitchClasses[k]| == 1 || (|PitchClasses[k]| == 2 && PitchClasses[k][1] == '#')
    ensures NoNewline(PitchClasses[k])
    ensures ClassIndexFrom(PitchClasses[k], 0) == Some(k)
  {
    if k < 6 {
      assert k == 0 || k == 1 || k == 2 || k == 3 || k == 4 || k == 5;
    } else {
      assert k == 6 || k == 7 || k == 8 || k == 9 || k == 10 || k == 11;
    }
    ClassIndexFinds(k, 0);
  }

  /** The search from `j` finds pitch class `k` at its own index. */
  lemma {:induction false} ClassIndexFinds(k: nat, j: nat)
    requires j <= k < 12
    ensures ClassIndexFrom(PitchClasses[k], j) == Some(k)
    decreases k - j
  {
    if j < k {
      PitchClassesDistinct(j, k);
      ClassIndexFinds(k, j + 1);
    }
  }

  lemma PitchClassesDistinct(j: nat, k: nat)
    requires j < k < 12
    ensures PitchClasses[j] != PitchClasses[k]
  {
    var a, b := PitchClasses[j], PitchClasses[k];
    assert a[0] != b[0] || |a| != |b| by {
      assert j == 0 || j == 1 || j == 2 || j == 3 || j == 4 || j == 5 ||
             j == 6 || j == 7 || j == 8 || j == 9 || j == 10;
    }
  }

  /** Reading a name back gives the note it names. */
  lemma ParseMidiToPitch(m: int)
    ensures ParsePitch(MidiToPitch(m)) == Some(m)
  {
    var k := m % 12;
    var cls := PitchClasses[k];
    var octave := IntToString(m / 12);
    var name := MidiToPitch(m);
    PitchClassShape(k);
    assert name == cls + octave;
    var clsLen := if |name| >= 2 && name[1] == '#' then 2 else 1;
    assert clsLen == |cls|;
    assert name[..clsLen] == cls;
    assert name[clsLen..] == octave;
    ParseIntToString(m / 12);
  }

  /** Distinct notes have distinct names. */
  lemma MidiToPitchInjective(a: int, b: int)
    ensures MidiToPitch(a) == MidiToPitch(b) ==> a == b
  {
    ParseMidiToPitch(a);
    ParseMidiToPitch(b);
  }

  // ---------------------------------------------------------------------
  // Intervals and coordinates
  // ---------------------------------------------------------------------

  /** A lattice coordinate `(q, r)` with `r2 = 2 * r`. */
  datatype Coord = Coord(q: int, r2: int)

  const Origin: Coord := Coord(0, 0)

  /** The three Tonnetz intervals, with their semitone sizes and lattice
      directions (1, 1/2), (0, 1) and (1, -1/2). */
  datatype Interval = MajorThird | PerfectFifth | MinorThird {
    function Semitones(): nat {
      match this
      case MajorThird => 4
      case PerfectFifth => 7
      case MinorThird => 3
    }

    function Dq(): int {
      match this
      case MajorThird => 1
      case PerfectFifth => 0
      case MinorThird => 1
    }

    function Dr2(): int {
      match this
      case MajorThird => 1
      case PerfectFifth => 2
      case MinorThird => -1
    }
  }

  /** The intervals in the order the source's dictionaries list them. */
  const Intervals: seq<Interval> := [MajorThird, PerfectFifth, MinorThird]

  /** The note one `d` step above `p`. */
  function Above(p: int, d: Interval): int {
    p + d.Semitones()
  }

  /** The coordinate one `d` step from `c`. */
  function Shift(c: Coord, d: Interval): Coord {
    Coord(c.q + d.Dq(), c.r2 + d.Dr2())
  }

  /** The interval tables: each interval listed once, with its size in
      semitones and its direction (the `r` part doubled). */
  lemma IntervalTable()
    ensures |Intervals| == 3 && forall d: Interval :: d in Intervals
    ensures forall i, j :: 0 <= i < j < |Intervals| ==> Intervals[i] != Intervals[j]
    ensures (MajorThird.Semitones(), MajorThird.Dq(), MajorThird.Dr2()) == (4, 1, 1)
    ensures (PerfectFifth.Semitones(), PerfectFifth.Dq(), PerfectFifth.Dr2()) == (7, 0, 2)
    ensures (MinorThird.Semitones(), MinorThird.Dq(), MinorThird.Dr2()) == (3, 1, -1)
  {
    forall d: Interval ensures d in Intervals {
      match d
      case MajorThird => assert Intervals[0] == d;
      case PerfectFifth => assert Intervals[1] == d;
      case MinorThird => assert Intervals[2] == d;
    }
  }

  /** A major third and a minor third in either order make a fifth in
      pitch, but on the lattice they lead two columns across, `(2, 0)`,
      while the fifth's own step is `(0, 1)`: the directions do not close
      the lattice's triangles, so the note a fifth up is placed by
      whichever of the two paths the search takes first. */
  lemma TriangleOpen(p: int, c: Coord)
    ensures Above(Above(p, MajorThird), MinorThird) == Above(p, PerfectFifth)
    ensures Above(Above(p, MinorThird), MajorThird) == Above(p, PerfectFifth)
    ensures Shift(Shift(c, MajorThird), MinorThird) == Coord(c.q + 2, c.r2)
    ensures Shift(Shift(c, MinorThird), MajorThird) == Coord(c.q + 2, c.r2)
    ensures Shift(Shift(c, MajorThird), MinorThird) != Shift(c, PerfectFifth)
  {
  }

  /** A search entry: a MIDI note and the coordinate it is headed for. */
  datatype Entry = Entry(midi: int, coord: Coord)

  /** The keys of the `positions` dictionary, which holds both coordinate
      tuples and node labels. */
  datatype PosKey = AtCoord(coord: Coord) | AtLabel(nodeLabel: string)

  // ---------------------------------------------------------------------
  // Specification of the search
  // ---------------------------------------------------------------------

  /** `m` is reached from the start note by steps of +4, +7 and +3. Steps
      only go up, so every note on the way lies between the start and `m`. */
  ghost predicate Reachable(m: int)
    decreases m - MinNote
  {
    m == MinNote ||
    (m > MinNote && exists d: Interval :: m - d.Semitones() >= MinNote && Reachable(m - d.Semitones()))
  }

  /** `m` sits one `d` step from the note `d` below it. */
  predicate PlacedAfter(coordOf: map<int, Coord>, m: int, d: Interval) {
    && m in coordOf && m - d.Semitones() in coordOf
    && coordOf[m] == Shift(coordOf[m - d.Semitones()], d)
  }

  /** `m` was placed by one interval step from a note placed before. */
  predicate Placed(coordOf: map<int, Coord>, m: int) {
    PlacedAfter(coordOf, m, MajorThird) || PlacedAfter(coordOf, m, PerfectFifth) ||
    PlacedAfter(coordOf, m, MinorThird)
  }

  /** `e` was enqueued by a `d` step from a placed note. */
  predicate EnqueuedAfter(coordOf: map<int, Coord>, e: Entry, d: Interval) {
    e.midi - d.Semitones() in coordOf && e.coord == Shift(coordOf[e.midi - d.Semitones()], d)
  }

  predicate Enqueued(coordOf: map<int, Coord>, e: Entry) {
    EnqueuedAfter(coordOf, e, MajorThird) || EnqueuedAfter(coordOf, e, PerfectFifth) ||
    EnqueuedAfter(coordOf, e, MinorThird)
  }

  /** The names of the notes of `order` placed at `c`, in the order of
      `order`. */
  function NamesAt(order: seq<int>, coordOf: map<int, Coord>, c: Coord): seq<string>
    requires forall m :: m in order ==> m in coordOf
  {
    if order == [] then []
    else
      var last := order[|order| - 1];
      NamesAt(order[..|order| - 1], coordOf, c) + (if coordOf[last] == c then [MidiToPitch(last)] else [])
  }

  predicate Distinct<T(==)>(s: seq<T>) {
    forall a, b :: 0 <= a < b < |s| ==> s[a] != s[b]
  }

  function Midis(queue: seq<Entry>): set<int> {
    set e | e in queue :: e.midi
  }

  /** `e` is the entry one `d` step from `midi` at `coord`. */
  predicate StepOf(midi: int, coord: Coord, e: Entry, d: Interval) {
    e == Entry(midi + d.Semitones(), Shift(coord, d))
  }

  predicate AnyStepOf(midi: int, coord: Coord, e: Entry) {
    StepOf(midi, coord, e, MajorThird) || StepOf(midi, coord, e, PerfectFifth) ||
    StepOf(midi, coord, e, MinorThird)
  }

  /** The entry for the `j`-th interval from `midi` at `coord`, if it
      stays in range. */
  function StepEntry(midi: int, coord: Coord, j: nat): seq<Entry>
    requires j < |Intervals|
  {
    var d := Intervals[j];
    if InRange(midi + d.Semitones()) then [Entry(midi + d.Semitones(), Shift(coord, d))] else []
  }

  /** The entries enqueued for a note at `coord` by the first `n`
      intervals, in order. */
  function StepsUpTo(midi: int, coord: Coord, n: nat): (entries: seq<Entry>)
    requires n <= |Intervals|
    ensures |entries| <= n
    ensures forall e :: e in entries ==> InRange(e.midi) && AnyStepOf(midi, coord, e)
    ensures forall j :: 0 <= j < n && InRange(midi + Intervals[j].Semitones()) ==>
              Entry(midi + Intervals[j].Semitones(), Shift(coord, Intervals[j])) in entries
  {
    if n == 0 then [] else StepsUpTo(midi, coord, n - 1) + StepEntry(midi, coord, n - 1)
  }

  /** The entries a note at `coord` enqueues: at most one per interval,
      each in range and one step away, and every in-range step among them. */
  function Successors(midi: int, coord: Coord): (entries: seq<Entry>)
    ensures |entries| <= |Intervals|
    ensures forall e :: e in entries ==> InRange(e.midi) && AnyStepOf(midi, coord, e)
    ensures forall d: Interval :: InRange(midi + d.Semitones()) ==> Entry(midi + d.Semitones(), Shift(coord, d)) in entries
  {
    assert Intervals[0] == MajorThird && Intervals[1] == PerfectFifth && Intervals[2] == MinorThird;
    StepsUpTo(midi, coord, |Intervals|)
  }

  // ---------------------------------------------------------------------
  // Lemmas about the specification
  // ---------------------------------------------------------------------

  lemma {:induction false} NamesAtOtherKey(order: seq<int>, coordOf: map<int, Coord>, m: int, c: Coord, target: Coord)
    requires forall x :: x in order ==> x in coordOf
    requires m !in order
    ensures NamesAt(order, coordOf[m := c], target) == NamesAt(order, coordOf, target)
    decreases |order|
  {
    if order != [] {
      NamesAtOtherKey(order[..|order| - 1], coordOf, m, c, target);
    }
  }

  lemma {:induction false} NamesAtNowhere(order: seq<int>, coordOf: map<int, Coord>, c: Coord)
    requires forall x :: x in order ==> x in coordOf && coordOf[x] != c
    ensures NamesAt(order, coordOf, c) == []
    decreases |order|
  {
    if order != [] {
      NamesAtNowhere(order[..|order| - 1], coordOf, c);
    }
  }

  /** Each name of `order` is listed exactly once, under the coordinate of
      its note, and under no other coordinate. */
  lemma {:induction false} NamesAtCount(order: seq<int>, coordOf: map<int, Coord>, c: Coord, m: int)
    requires forall x :: x in order ==> x in coordOf
    requires Distinct(order)
    ensures multiset(NamesAt(order, coordOf, c))[MidiToPitch(m)] ==
            if m in order && coordOf[m] == c then 1 else 0
    decreases |order|
  {
    if order != [] {
      var init := order[..|order| - 1];
      var last := order[|order| - 1];
      NamesAtCount(init, coordOf, c, m);
      MidiToPitchInjective(last, m);
      assert m in order <==> m in init || m == last;
      assert m == last ==> m !in init;
    }
  }

  /** A coordinate with a name filed under it holds a note of `order`. */
  lemma {:induction false} NamesAtWitness(order: seq<int>, coordOf: map<int, Coord>, c: Coord) returns (m: int)
    requires forall x :: x in order ==> x in coordOf
    requires NamesAt(order, coordOf, c) != []
    ensures m in order && coordOf[m] == c
    decreases |order|
  {
    var init := order[..|order| - 1];
    var last := order[|order| - 1];
    if coordOf[last] == c {
      m := last;
    } else {
      m := NamesAtWitness(init, coordOf, c);
    }
  }

  /** With no note left in the queue and every in-range step of a visited
      note visited, every reachable note in range is visited. */
  lemma {:induction false} ClosedContainsReachable(visited: set<int>, m: int)
    requires MinNote in visited
    requires forall p, d: Interval :: p in visited && InRange(Above(p, d)) ==> Above(p, d) in visited
    requires InRange(m) && Reachable(m)
    ensures m in visited
    decreases m - MinNote
  {
    if m != MinNote {
      var d: Interval :| m - d.Semitones() >= MinNote && Reachable(m - d.Semitones());
      ClosedContainsReachable(visited, m - d.Semitones());
      assert Above(m - d.Semitones(), d) == m;
    }
  }

  lemma MidisAppend(a: seq<Entry>, b: seq<Entry>)
    ensures Midis(a + b) == Midis(a) + Midis(b)
  {
    assert forall e :: e in a + b <==> e in a || e in b;
  }

  /** Placing a new note moves no earlier note. */
  lemma PlacedAfterGrows(coordOf: map<int, Coord>, m0: int, c0: Coord, m: int, d: Interval)
    requires m0 !in coordOf
    ensures PlacedAfter(coordOf, m, d) ==> PlacedAfter(coordOf[m0 := c0], m, d)
  {
  }

  lemma EnqueuedAfterGrows(coordOf: map<int, Coord>, m0: int, c0: Coord, e: Entry, d: Interval)
    requires m0 !in coordOf
    ensures EnqueuedAfter(coordOf, e, d) ==> EnqueuedAfter(coordOf[m0 := c0], e, d)
  {
  }

  /** Placing a new note that was enqueued by a placed note keeps every
      note but the start explained by a step from a placed note. */
  lemma PlacedAfterVisit(coordOf: map<int, Coord>, entry: Entry, placed: map<int, Coord>)
    requires placed == coordOf[entry.midi := entry.coord]
    requires entry.midi !in coordOf
    requires forall m :: m in coordOf && m != MinNote ==> Placed(coordOf, m)
    requires coordOf == map[] ==> entry.midi == MinNote
    requires coordOf != map[] ==> Enqueued(coordOf, entry)
    ensures forall m :: m in placed && m != MinNote ==> Placed(placed, m)
  {
    forall m | m in placed && m != MinNote
      ensures Placed(placed, m)
    {
      if m == entry.midi {
        NewNotePlaced(coordOf, entry);
      } else {
        assert Placed(coordOf, m);
        PlacedAfterGrows(coordOf, entry.midi, entry.coord, m, MajorThird);
        PlacedAfterGrows(coordOf, entry.midi, entry.coord, m, PerfectFifth);
        PlacedAfterGrows(coordOf, entry.midi, entry.coord, m, MinorThird);
      }
    }
  }

  lemma NewNotePlaced(coordOf: map<int, Coord>, entry: Entry)
    requires entry.midi !in coordOf
    requires Enqueued(coordOf, entry)
    ensures Placed(coordOf[entry.midi := entry.coord], entry.midi)
  {
    var placed := coordOf[entry.midi := entry.coord];
    var d: Interval :| EnqueuedAfter(coordOf, entry, d);
    assert EnqueuedAfter(coordOf, entry, d);
    var below := entry.midi - d.Semitones();
    assert below in coordOf && below != entry.midi;
    assert placed[below] == coordOf[below];
    assert PlacedAfter(placed, entry.midi, d);
  }

  /** Entries still queued stay explained once a new note is placed. */
  lemma QueueAfterVisit(coordOf: map<int, Coord>, entry: Entry, rest: seq<Entry>)
    requires entry.midi !in coordOf
    requires forall k :: 0 <= k < |rest| ==> Enqueued(coordOf, rest[k])
    ensures forall k :: 0 <= k < |rest| ==> Enqueued(coordOf[entry.midi := entry.coord], rest[k])
  {
    forall k | 0 <= k < |rest|
      ensures Enqueued(coordOf[entry.midi := entry.coord], rest[k])
    {
      assert Enqueued(coordOf, rest[k]);
      EnqueuedAfterGrows(coordOf, entry.midi, entry.coord, rest[k], MajorThird);
      EnqueuedAfterGrows(coordOf, entry.midi, entry.coord, rest[k], PerfectFifth);
      EnqueuedAfterGrows(coordOf, entry.midi, entry.coord, rest[k], MinorThird);
    }
  }

  /** The entries a newly placed note enqueues are explained by it. */
  lemma SuccessorsEnqueued(coordOf: map<int, Coord>, entry: Entry)
    ensures forall e :: e in Successors(entry.midi, entry.coord) ==>
              Enqueued(coordOf[entry.midi := entry.coord], e)
  {
    var placed := coordOf[entry.midi := entry.coord];
    forall e | e in Successors(entry.midi, entry.coord)
      ensures Enqueued(placed, e)
    {
      assert AnyStepOf(entry.midi, entry.coord, e);
      assert placed[entry.midi] == entry.coord;
    }
  }

  /** Every in-range step of a visited note stays visited or queued across a
      visit. */
  lemma ClosureAfterVisit(visited: set<int>, rest: seq<Entry>, midi: int, coord: Coord)
    requires forall p, d: Interval :: p in visited && InRange(Above(p, d)) ==>
               Above(p, d) in visited || Above(p, d) in Midis(rest) + {midi}
    ensures forall p, d: Interval :: p in visited + {midi} && InRange(Above(p, d)) ==>
              Above(p, d) in visited + {midi} ||
              Above(p, d) in Midis(rest + Successors(midi, coord))
  {
    var succ := Successors(midi, coord);
    MidisAppend(rest, succ);
    forall d: Interval | InRange(Above(midi, d))
      ensures Above(midi, d) in Midis(succ)
    {
      assert Entry(midi + d.Semitones(), Shift(coord, d)) in succ;
    }
  }

  /** Visiting one more note adds its name to its own coordinate's list
      only. */
  lemma NamesAtVisit(order: seq<int>, coordOf: map<int, Coord>, midi: int, coord: Coord, c: Coord)
    requires forall x :: x in order ==> x in coordOf
    requires midi !in coordOf
    ensures forall x :: x in order + [midi] ==> x in coordOf[midi := coord]
    ensures NamesAt(order + [midi], coordOf[midi := coord], c) ==
            NamesAt(order, coordOf, c) + if c == coord then [MidiToPitch(midi)] else []
  {
    var longer := order + [midi];
    assert longer[..|longer| - 1] == order;
    NamesAtOtherKey(order, coordOf, midi, coord, c);
  }

  /** Filing a new note's name keeps each coordinate's list equal to the
      names of its notes in visit order. */
  lemma NamesAfterVisit(order: seq<int>, coordOf: map<int, Coord>, coordToNames: map<Coord, seq<string>>,
                        midi: int, coord: Coord, names: map<Coord, seq<string>>, placed: map<int, Coord>)
    requires placed == coordOf[midi := coord]
    requires forall x :: x in order ==> x in coordOf
    requires midi !in coordOf
    requires forall m :: m in coordOf ==> coordOf[m] in coordToNames
    requires forall c :: c in coordToNames ==> coordToNames[c] == NamesAt(order, coordOf, c) && |coordToNames[c]| > 0
    requires names == coordToNames[coord := (if coord in coordToNames then coordToNames[coord] else []) + [MidiToPitch(midi)]]
    ensures forall x :: x in order + [midi] ==> x in placed
    ensures forall m :: m in placed ==> placed[m] in names
    ensures forall c :: c in names ==> names[c] == NamesAt(order + [midi], placed, c) && |names[c]| > 0
  {
    NamesAtVisit(order, coordOf, midi, coord, coord);
    forall c | c in names
      ensures names[c] == NamesAt(order + [midi], placed, c)
    {
      NamesAtVisit(order, coordOf, midi, coord, c);
      if c == coord && coord !in coordToNames {
        forall x | x in order ensures x in coordOf && coordOf[x] != coord {
          assert coordOf[x] in coordToNames;
        }
        NamesAtNowhere(order, coordOf, coord);
      }
    }
  }

  // ---------------------------------------------------------------------
  // Invariants of the search
  // ---------------------------------------------------------------------

  ghost function Piano(): set<int> {
    set m | MinNote <= m <= MaxNote && InRange(m)
  }

  /** The notes visited so far: each once, in `order`, each reachable, the
      start at the origin and every other one placed by a step from a
      visited note (`OrderInv` adds that this note was visited earlier). */
  ghost predicate VisitsInv(visited: set<int>, order: seq<int>, coordOf: map<int, Coord>) {
    && visited == coordOf.Keys && visited <= Piano()
    && Distinct(order) && (forall m :: m in order <==> m in visited)
    && (forall m :: m in visited ==> Reachable(m))
    && (visited != {} ==> MinNote in visited && coordOf[MinNote] == Origin)
    && (forall m :: m in visited && m != MinNote ==> Placed(coordOf, m))
  }

  /** The pending entries: in range, the start entry alone before the first
      visit, afterwards each one step from a visited note; and every in-range
      step of a visited note is visited or pending. */
  ghost predicate QueueInv(visited: set<int>, coordOf: map<int, Coord>, queue: seq<Entry>) {
    && (forall k :: 0 <= k < |queue| ==> InRange(queue[k].midi))
    && (visited == {} ==> queue == [Entry(MinNote, Origin)])
    && (visited != {} ==> forall k :: 0 <= k < |queue| ==> Enqueued(coordOf, queue[k]))
    && (forall p, d: Interval :: p in visited && InRange(Above(p, d)) ==>
          Above(p, d) in visited || Above(p, d) in Midis(queue))
  }

  /** The names filed so far: every placed note's coordinate has its list
      of names, in visit order and never empty. */
  ghost predicate NamesInv(order: seq<int>, coordOf: map<int, Coord>, coordToNames: map<Coord, seq<string>>) {
    && (forall x :: x in order ==> x in coordOf)
    && (forall m :: m in coordOf ==> coordOf[m] in coordToNames)
    && (forall c :: c in coordToNames ==> coordToNames[c] == NamesAt(order, coordOf, c) && |coordToNames[c]| > 0)
  }

  /** `order[k]` sits one `d` step from a note visited before it. */
  ghost predicate PlacedEarlier(order: seq<int>, coordOf: map<int, Coord>, k: nat, d: Interval)
    requires k < |order|
  {
    PlacedAfter(coordOf, order[k], d) && order[k] - d.Semitones() in order[..k]
  }

  /** Every visited note but the start was placed by a step from a note
      visited before it. */
  ghost predicate OrderInv(order: seq<int>, coordOf: map<int, Coord>) {
    forall k :: 0 <= k < |order| && order[k] != MinNote ==>
      PlacedEarlier(order, coordOf, k, MajorThird) || PlacedEarlier(order, coordOf, k, PerfectFifth) ||
      PlacedEarlier(order, coordOf, k, MinorThird)
  }

  /** The coordinates of the notes of `order`, each listed at the first note
      placed there: the order in which a Python dict keyed by coordinate
      first receives its keys. */
  function FirstUses(order: seq<int>, coordOf: map<int, Coord>): (coords: seq<Coord>)
    requires forall k :: 0 <= k < |order| ==> order[k] in coordOf
    ensures Distinct(coords)
    ensures forall c :: c in coords <==> exists k :: 0 <= k < |order| && coordOf[order[k]] == c
  {
    if order == [] then []
    else
      var prefix := order[..|order| - 1];
      var earlier := FirstUses(prefix, coordOf);
      var c := coordOf[order[|order| - 1]];
      var coords := if c in earlier then earlier else earlier + [c];
      assert forall x :: x in coords <==> exists k :: 0 <= k < |order| && coordOf[order[k]] == x by {
        forall x ensures x in coords <==> exists k :: 0 <= k < |order| && coordOf[order[k]] == x {
          if x in coords && x != c {
            var k :| 0 <= k < |prefix| && coordOf[prefix[k]] == x;
            assert order[k] == prefix[k];
          }
          if exists k :: 0 <= k < |order| && coordOf[order[k]] == x {
            var k :| 0 <= k < |order| && coordOf[order[k]] == x;
            if k < |prefix| {
              assert prefix[k] == order[k];
            }
          }
        }
      }
      assert Distinct(coords) by {
        if c !in earlier {
          DistinctAppend(earlier, c);
        }
      }
      coords
  }

  /** The search's coordinate list is in first-use order, and the notes
      were each placed from an earlier one. */
  ghost predicate SearchOrderInv(order: seq<int>, coordOf: map<int, Coord>, coordOrder: seq<Coord>) {
    && OrderInv(order, coordOf)
    && (forall k :: 0 <= k < |order| ==> order[k] in coordOf)
    && coordOrder == FirstUses(order, coordOf)
  }

  /** Every entry the search appends to its queue, in order: the start
      entry, then the in-range steps of each visited note, in visit order. */
  function EnqueueLog(order: seq<int>, coordOf: map<int, Coord>): (log: seq<Entry>)
    requires forall k :: 0 <= k < |order| ==> order[k] in coordOf
    ensures |log| >= 1 && log[0] == Entry(MinNote, Origin)
    ensures forall i :: 0 <= i < |log| ==> InRange(log[i].midi)
  {
    if order == [] then [Entry(MinNote, Origin)]
    else
      var last := order[|order| - 1];
      var earlier := EnqueueLog(order[..|order| - 1], coordOf);
      var log := earlier + Successors(last, coordOf[last]);
      assert forall i :: |earlier| <= i < |log| ==> log[i] in Successors(last, coordOf[last]);
      log
  }

  /** The notes a first-in-first-out pass over `entries` visits, in visit
      order: an entry is skipped when its note is out of range or visited. */
  function ArrivalOrder(entries: seq<Entry>): (order: seq<int>)
    ensures Distinct(order)
    ensures forall m :: m in order <==> m in Arrivals(entries)
  {
    if entries == [] then []
    else
      var earlier := ArrivalOrder(entries[..|entries| - 1]);
      var e := entries[|entries| - 1];
      if !InRange(e.midi) || e.midi in earlier then earlier
      else
        DistinctAppend(earlier, e.midi);
        earlier + [e.midi]
  }

  /** The coordinate each note gets in that pass: the coordinate of its
      first entry. */
  function Arrivals(entries: seq<Entry>): (arrived: map<int, Coord>)
    ensures forall m :: m in arrived ==> InRange(m) && FirstEntryAt(entries, m, arrived[m])
    ensures forall i :: 0 <= i < |entries| && InRange(entries[i].midi) ==> entries[i].midi in arrived
  {
    if entries == [] then map[]
    else
      var prefix := entries[..|entries| - 1];
      var earlier := Arrivals(prefix);
      var e := entries[|entries| - 1];
      var arrived := if !InRange(e.midi) || e.midi in earlier then earlier else earlier[e.midi := e.coord];
      assert forall m :: m in arrived ==> FirstEntryAt(entries, m, arrived[m]) by {
        forall m | m in arrived ensures FirstEntryAt(entries, m, arrived[m]) {
          FirstEntryExtends(entries, m, arrived[m], m in earlier);
        }
      }
      assert forall i :: 0 <= i < |prefix| ==> prefix[i] == entries[i];
      arrived
  }

  /** `m` first occurs in `entries` at an entry for coordinate `c`. */
  ghost predicate FirstEntryAt(entries: seq<Entry>, m: int, c: Coord) {
    exists i :: 0 <= i < |entries| && entries[i] == Entry(m, c) && forall j :: 0 <= j < i ==> entries[j].midi != m
  }

  lemma FirstEntryExtends(entries: seq<Entry>, m: int, c: Coord, inPrefix: bool)
    requires entries != []
    requires inPrefix ==> FirstEntryAt(entries[..|entries| - 1], m, c)
    requires !inPrefix ==>
               entries[|entries| - 1] == Entry(m, c) && forall j :: 0 <= j < |entries| - 1 ==> entries[j].midi != m
    ensures FirstEntryAt(entries, m, c)
  {
    var prefix := entries[..|entries| - 1];
    if inPrefix {
      var i :| 0 <= i < |prefix| && prefix[i] == Entry(m, c) && forall j :: 0 <= j < i ==> prefix[j].midi != m;
      assert entries[i] == prefix[i];
      assert forall j :: 0 <= j < i ==> entries[j] == prefix[j];
    } else {
      assert entries[|entries| - 1] == Entry(m, c);
    }
  }

  /** The search is first in, first out: the queue is the unpopped suffix of
      everything enqueued, and the visits so far are those of a pass over the
      popped prefix. */
  ghost predicate FifoInv(order: seq<int>, coordOf: map<int, Coord>, queue: seq<Entry>, log: seq<Entry>, popped: nat) {
    && (forall k :: 0 <= k < |order| ==> order[k] in coordOf)
    && log == EnqueueLog(order, coordOf)
    && popped <= |log| && queue == log[popped..]
    && order == ArrivalOrder(log[..popped]) && coordOf == Arrivals(log[..popped])
  }

  /** `coordOrder` lists the filed coordinates once each, and each filed
      coordinate is its own position. */
  ghost predicate LayoutInv(coordToNames: map<Coord, seq<string>>, coordOrder: seq<Coord>, positions: map<PosKey, Coord>) {
    && Distinct(coordOrder) && (forall c :: c in coordOrder <==> c in coordToNames)
    && (forall key :: key in positions <==> key.AtCoord? && key.coord in coordToNames)
    && (forall key :: key in positions ==> positions[key] == key.coord)
  }

  /** A note enqueued by a step from a reachable note is reachable. */
  lemma NewNoteReachable(coordOf: map<int, Coord>, entry: Entry)
    requires forall m :: m in coordOf ==> Reachable(m) && InRange(m)
    requires Enqueued(coordOf, entry)
    ensures Reachable(entry.midi)
  {
    var d: Interval :| EnqueuedAfter(coordOf, entry, d);
    assert EnqueuedAfter(coordOf, entry, d);
    var below := entry.midi - d.Semitones();
    assert below in coordOf;
    assert Reachable(below) && below >= MinNote;
    assert entry.midi > MinNote;
  }

  lemma QueueSplit(entry: Entry, rest: seq<Entry>)
    ensures Midis([entry] + rest) == {entry.midi} + Midis(rest)
  {
    MidisAppend([entry], rest);
    assert Midis([entry]) == {entry.midi};
  }

  lemma PopEntry(visited: set<int>, coordOf: map<int, Coord>, queue: seq<Entry>)
    requires queue != [] && QueueInv(visited, coordOf, queue)
    ensures QueueInv(visited, coordOf, [queue[0]] + queue[1..])
  {
    assert [queue[0]] + queue[1..] == queue;
  }

  /** Dropping an entry that is out of range or already visited keeps the
      queue invariant. */
  lemma SkipKeepsQueue(visited: set<int>, coordOf: map<int, Coord>, entry: Entry, rest: seq<Entry>)
    requires QueueInv(visited, coordOf, [entry] + rest)
    requires !InRange(entry.midi) || entry.midi in visited
    ensures QueueInv(visited, coordOf, rest)
  {
    var queue := [entry] + rest;
    assert queue[0] == entry;
    assert visited != {};
    QueueSplit(entry, rest);
    forall k | 0 <= k < |rest|
      ensures InRange(rest[k].midi) && Enqueued(coordOf, rest[k])
    {
      assert rest[k] == queue[k + 1];
    }
  }

  /** Visiting a new note keeps the visit invariant. */
  lemma VisitKeepsVisits(visited: set<int>, order: seq<int>, coordOf: map<int, Coord>, entry: Entry, rest: seq<Entry>)
    requires VisitsInv(visited, order, coordOf)
    requires QueueInv(visited, coordOf, [entry] + rest)
    requires InRange(entry.midi) && entry.midi !in visited
    ensures VisitsInv(visited + {entry.midi}, order + [entry.midi], coordOf[entry.midi := entry.coord])
  {
    var queue := [entry] + rest;
    assert queue[0] == entry;
    var midi := entry.midi;
    var seen := visited + {midi};
    var longer := order + [midi];
    var placed := coordOf[midi := entry.coord];
    assert seen == placed.Keys;
    assert midi in Piano();
    assert seen <= Piano();
    DistinctAppend(order, midi);
    assert forall m :: m in longer <==> m in seen;
    if visited == {} {
      assert midi == MinNote;
    } else {
      assert Enqueued(coordOf, entry);
      NewNoteReachable(coordOf, entry);
    }
    assert forall m :: m in seen ==> Reachable(m);
    assert seen != {} ==> MinNote in seen && placed[MinNote] == Origin;
    PlacedAfterVisit(coordOf, entry, placed);
  }

  lemma DistinctAppend<T>(order: seq<T>, x: T)
    requires Distinct(order) && x !in order
    ensures Distinct(order + [x]) && forall m :: m in order + [x] <==> m in order || m == x
  {
    var longer := order + [x];
    forall a, b | 0 <= a < b < |longer| ensures longer[a] != longer[b] {
      if b == |order| {
        assert longer[a] == order[a];
      } else {
        assert longer[a] == order[a] && longer[b] == order[b];
      }
    }
  }

  /** Entries behind the popped one, followed by the new note's steps, are
      all in range and, once the note is placed, each one step from a
      placed note. */
  lemma PendingAfterVisit(visited: set<int>, coordOf: map<int, Coord>, entry: Entry, rest: seq<Entry>)
    requires QueueInv(visited, coordOf, [entry] + rest)
    requires entry.midi !in coordOf
    ensures var next := rest + Successors(entry.midi, entry.coord);
      forall k :: 0 <= k < |next| ==> InRange(next[k].midi) && Enqueued(coordOf[entry.midi := entry.coord], next[k])
  {
    var queue := [entry] + rest;
    var placed := coordOf[entry.midi := entry.coord];
    var succ := Successors(entry.midi, entry.coord);
    var next := rest + succ;
    forall k | 0 <= k < |rest|
      ensures InRange(rest[k].midi) && (visited != {} ==> Enqueued(coordOf, rest[k]))
    {
      assert rest[k] == queue[k + 1];
    }
    if visited != {} {
      QueueAfterVisit(coordOf, entry, rest);
    } else {
      assert rest == [];
    }
    SuccessorsEnqueued(coordOf, entry);
    forall k | 0 <= k < |next|
      ensures InRange(next[k].midi) && Enqueued(placed, next[k])
    {
      if k >= |rest| {
        assert next[k] == succ[k - |rest|];
        assert next[k] in succ;
      } else {
        assert next[k] == rest[k];
      }
    }
  }

  /** Visiting a new note and enqueueing its steps keeps the queue
      invariant. */
  lemma VisitKeepsQueue(visited: set<int>, coordOf: map<int, Coord>, entry: Entry, rest: seq<Entry>)
    requires visited == coordOf.Keys
    requires QueueInv(visited, coordOf, [entry] + rest)
    requires InRange(entry.midi) && entry.midi !in visited
    ensures QueueInv(visited + {entry.midi}, coordOf[entry.midi := entry.coord],
                     rest + Successors(entry.midi, entry.coord))
  {
    QueueSplit(entry, rest);
    ClosureAfterVisit(visited, rest, entry.midi, entry.coord);
    PendingAfterVisit(visited, coordOf, entry, rest);
  }

  /** Filing a new note keeps the dictionary invariant. */
  lemma VisitKeepsNames(order: seq<int>, coordOf: map<int, Coord>, coordToNames: map<Coord, seq<string>>,
                        midi: int, coord: Coord)
    requires NamesInv(order, coordOf, coordToNames)
    requires midi !in coordOf
    ensures NamesInv(order + [midi], coordOf[midi := coord],
                     coordToNames[coord := (if coord in coordToNames then coordToNames[coord] else []) + [MidiToPitch(midi)]])
  {
    var names := coordToNames[coord := (if coord in coordToNames then coordToNames[coord] else []) + [MidiToPitch(midi)]];
    NamesAfterVisit(order, coordOf, coordToNames, midi, coord, names, coordOf[midi := coord]);
  }

  /** Filing a name under a coordinate keeps the layout invariant. */
  lemma VisitKeepsLayout(coordToNames: map<Coord, seq<string>>, coordOrder: seq<Coord>, positions: map<PosKey, Coord>,
                         coord: Coord, names: seq<string>)
    requires LayoutInv(coordToNames, coordOrder, positions)
    ensures LayoutInv(coordToNames[coord := names], if coord in coordToNames then coordOrder else coordOrder + [coord],
                      positions[AtCoord(coord) := coord])
  {
    var filed := coordToNames[coord := names];
    var coords := if coord in coordToNames then coordOrder else coordOrder + [coord];
    if coord !in coordToNames {
      DistinctAppend(coordOrder, coord);
    }
    assert Distinct(coords) && forall c :: c in coords <==> c in filed;
    var spots := positions[AtCoord(coord) := coord];
    assert forall key :: key in spots <==> key.AtCoord? && key.coord in filed;
  }

  /** Placing a note not yet in `order` changes none of its first uses. */
  lemma {:induction false} FirstUsesOtherNote(order: seq<int>, coordOf: map<int, Coord>, m: int, c: Coord)
    requires forall k :: 0 <= k < |order| ==> order[k] in coordOf
    requires m !in order
    ensures FirstUses(order, coordOf[m := c]) == FirstUses(order, coordOf)
    decreases |order|
  {
    if order != [] {
      var prefix := order[..|order| - 1];
      assert forall k :: 0 <= k < |prefix| ==> prefix[k] == order[k];
      FirstUsesOtherNote(prefix, coordOf, m, c);
      assert order[|order| - 1] != m;
    }
  }

  /** Visiting `midi` at `coord` appends `coord` to the first uses exactly
      when it is a new coordinate. */
  lemma VisitKeepsFirstUses(order: seq<int>, coordOf: map<int, Coord>, coordOrder: seq<Coord>, midi: int, coord: Coord)
    requires forall k :: 0 <= k < |order| ==> order[k] in coordOf
    requires midi !in order && coordOrder == FirstUses(order, coordOf)
    ensures FirstUses(order + [midi], coordOf[midi := coord]) ==
              if coord in coordOrder then coordOrder else coordOrder + [coord]
  {
    var longer := order + [midi];
    assert longer[..|longer| - 1] == order;
    FirstUsesOtherNote(order, coordOf, midi, coord);
  }

  /** Visiting a new note enqueued from a visited one keeps every note
      placed from an earlier one. */
  lemma VisitKeepsOrder(visited: set<int>, order: seq<int>, coordOf: map<int, Coord>, entry: Entry, rest: seq<Entry>)
    requires VisitsInv(visited, order, coordOf) && OrderInv(order, coordOf)
    requires QueueInv(visited, coordOf, [entry] + rest)
    requires entry.midi !in visited
    ensures OrderInv(order + [entry.midi], coordOf[entry.midi := entry.coord])
  {
    var longer := order + [entry.midi];
    var placed := coordOf[entry.midi := entry.coord];
    forall k | 0 <= k < |longer| && longer[k] != MinNote
      ensures PlacedEarlier(longer, placed, k, MajorThird) || PlacedEarlier(longer, placed, k, PerfectFifth) ||
              PlacedEarlier(longer, placed, k, MinorThird)
    {
      assert longer[..k] <= longer[..|order|] == order;
      if k < |order| {
        EarlierGrows(order, coordOf, entry, k, MajorThird);
        EarlierGrows(order, coordOf, entry, k, PerfectFifth);
        EarlierGrows(order, coordOf, entry, k, MinorThird);
      } else {
        assert ([entry] + rest)[0] == entry;
        assert visited != {};
        NewNoteEarlier(order, coordOf, entry);
      }
    }
  }

  /** Visiting a new note keeps `SearchOrderInv`, with the coordinate
      list grown exactly when the coordinate is new. */
  lemma VisitKeepsSearchOrder(visited: set<int>, order: seq<int>, coordOf: map<int, Coord>,
                              coordToNames: map<Coord, seq<string>>, coordOrder: seq<Coord>, positions: map<PosKey, Coord>,
                              entry: Entry, rest: seq<Entry>)
    requires VisitsInv(visited, order, coordOf) && QueueInv(visited, coordOf, [entry] + rest)
    requires SearchOrderInv(order, coordOf, coordOrder) && LayoutInv(coordToNames, coordOrder, positions)
    requires entry.midi !in visited
    ensures SearchOrderInv(order + [entry.midi], coordOf[entry.midi := entry.coord],
                           if entry.coord in coordToNames then coordOrder else coordOrder + [entry.coord])
  {
    var longer := order + [entry.midi];
    var placed := coordOf[entry.midi := entry.coord];
    VisitKeepsOrder(visited, order, coordOf, entry, rest);
    VisitKeepsFirstUses(order, coordOf, coordOrder, entry.midi, entry.coord);
    forall k | 0 <= k < |longer| ensures longer[k] in placed {
      if k < |order| {
        assert longer[k] == order[k];
      }
    }
  }

  lemma EarlierGrows(order: seq<int>, coordOf: map<int, Coord>, entry: Entry, k: nat, d: Interval)
    requires k < |order| && entry.midi !in coordOf
    ensures PlacedEarlier(order, coordOf, k, d) ==> PlacedEarlier(order + [entry.midi], coordOf[entry.midi := entry.coord], k, d)
  {
    var longer := order + [entry.midi];
    assert longer[k] == order[k] && longer[..k] == order[..k];
    PlacedAfterGrows(coordOf, entry.midi, entry.coord, order[k], d);
  }

  lemma NewNoteEarlier(order: seq<int>, coordOf: map<int, Coord>, entry: Entry)
    requires entry.midi !in coordOf && Enqueued(coordOf, entry)
    requires forall m :: m in coordOf ==> m in order
    ensures PlacedEarlier(order + [entry.midi], coordOf[entry.midi := entry.coord], |order|, MajorThird) ||
            PlacedEarlier(order + [entry.midi], coordOf[entry.midi := entry.coord], |order|, PerfectFifth) ||
            PlacedEarlier(order + [entry.midi], coordOf[entry.midi := entry.coord], |order|, MinorThird)
  {
    var longer := order + [entry.midi];
    var placed := coordOf[entry.midi := entry.coord];
    var d: Interval :| EnqueuedAfter(coordOf, entry, d);
    assert EnqueuedAfter(coordOf, entry, d);
    var below := entry.midi - d.Semitones();
    assert below in coordOf && below != entry.midi;
    assert placed[below] == coordOf[below];
    assert PlacedAfter(placed, entry.midi, d);
    assert longer[..|order|] == order && longer[|order|] == entry.midi;
    assert PlacedEarlier(longer, placed, |order|, d);
  }

  /** Placing a note not yet in `order` changes nothing already enqueued. */
  lemma {:induction false} EnqueueLogOtherNote(order: seq<int>, coordOf: map<int, Coord>, m: int, c: Coord)
    requires forall k :: 0 <= k < |order| ==> order[k] in coordOf
    requires m !in order
    ensures EnqueueLog(order, coordOf[m := c]) == EnqueueLog(order, coordOf)
    decreases |order|
  {
    if order != [] {
      var prefix := order[..|order| - 1];
      assert forall k :: 0 <= k < |prefix| ==> prefix[k] == order[k];
      EnqueueLogOtherNote(prefix, coordOf, m, c);
      assert order[|order| - 1] != m;
    }
  }

  /** Popping an entry that is out of range or already visited keeps the
      search first in, first out. */
  lemma SkipKeepsFifo(order: seq<int>, coordOf: map<int, Coord>, queue: seq<Entry>, log: seq<Entry>, popped: nat)
    requires FifoInv(order, coordOf, queue, log, popped)
    requires queue != [] && (!InRange(queue[0].midi) || queue[0].midi in coordOf)
    ensures FifoInv(order, coordOf, queue[1..], log, popped + 1)
  {
    var entry := queue[0];
    assert popped < |log| && log[popped] == entry;
    var done := log[..popped + 1];
    assert done[..|done| - 1] == log[..popped] && done[|done| - 1] == entry;
    assert queue[1..] == log[popped + 1..];
  }

  /** Visiting a new note appends its steps to the enqueue log. */
  lemma LogAfterVisit(order: seq<int>, coordOf: map<int, Coord>, m: int, c: Coord)
    requires forall k :: 0 <= k < |order| ==> order[k] in coordOf
    requires m !in order
    ensures forall k :: 0 <= k < |order + [m]| ==> (order + [m])[k] in coordOf[m := c]
    ensures EnqueueLog(order + [m], coordOf[m := c]) == EnqueueLog(order, coordOf) + Successors(m, c)
  {
    var longer := order + [m];
    forall k | 0 <= k < |longer| ensures longer[k] in coordOf[m := c] {
      if k < |order| {
        assert longer[k] == order[k];
      }
    }
    EnqueueLogOtherNote(order, coordOf, m, c);
    assert longer[..|longer| - 1] == order;
  }

  /** Popping one more entry, not yet arrived and in range, makes it arrive. */
  lemma ArrivalOfNext(log: seq<Entry>, popped: nat, e: Entry)
    requires popped < |log| && log[popped] == e && InRange(e.midi)
    requires e.midi !in Arrivals(log[..popped])
    ensures ArrivalOrder(log[..popped + 1]) == ArrivalOrder(log[..popped]) + [e.midi]
    ensures Arrivals(log[..popped + 1]) == Arrivals(log[..popped])[e.midi := e.coord]
  {
    var done := log[..popped + 1];
    assert done[..|done| - 1] == log[..popped] && done[|done| - 1] == e;
  }

  /** Visiting a new note and enqueueing its steps keeps the search first
      in, first out. */
  lemma VisitKeepsFifo(order: seq<int>, coordOf: map<int, Coord>, queue: seq<Entry>, log: seq<Entry>, popped: nat)
    requires FifoInv(order, coordOf, queue, log, popped)
    requires queue != [] && InRange(queue[0].midi) && queue[0].midi !in coordOf
    ensures var entry := queue[0];
      FifoInv(order + [entry.midi], coordOf[entry.midi := entry.coord], queue[1..] + Successors(entry.midi, entry.coord),
              log + Successors(entry.midi, entry.coord), popped + 1)
  {
    var entry := queue[0];
    var steps := Successors(entry.midi, entry.coord);
    assert popped < |log| && log[popped] == entry;
    assert entry.midi !in order;
    LogAfterVisit(order, coordOf, entry.midi, entry.coord);
    ArrivalOfNext(log, popped, entry);
    assert queue[1..] == log[popped + 1..];
    AppendKeepsSlices(log, steps, popped + 1);
  }

  /** Appending to a sequence keeps its prefixes and extends its suffixes. */
  lemma AppendKeepsSlices<T>(s: seq<T>, t: seq<T>, p: nat)
    requires p <= |s|
    ensures (s + t)[..p] == s[..p] && (s + t)[p..] == s[p..] + t
  {
  }

  /** With the queue empty, everything enqueued has been popped. */
  lemma FifoDone(order: seq<int>, coordOf: map<int, Coord>, log: seq<Entry>, popped: nat)
    requires FifoInv(order, coordOf, [], log, popped)
    ensures log == EnqueueLog(order, coordOf) && order == ArrivalOrder(log) && coordOf == Arrivals(log)
  {
    assert popped == |log| && log[..popped] == log;
  }

  // ---------------------------------------------------------------------
  // The search
  // ---------------------------------------------------------------------

  /** When the queue runs empty, the visited notes are exactly the
      reachable ones. */
  lemma SearchDone(visited: set<int>, order: seq<int>, coordOf: map<int, Coord>)
    requires VisitsInv(visited, order, coordOf) && QueueInv(visited, coordOf, [])
    ensures MinNote in visited
    ensures visited == set m | MinNote <= m <= MaxNote && Reachable(m)
  {
    assert visited != {};
    forall m | MinNote <= m <= MaxNote && Reachable(m)
      ensures m in visited
    {
      ClosedContainsReachable(visited, m);
    }
  }

  lemma OverwriteTwice<K, V>(m: map<K, V>, k: K, a: V, b: V)
    ensures m[k := a][k := b] == m[k := b]
  {
  }

  /** Appends to `queue` the in-range steps from `midi` at `coord`, one
      per interval in the order of `Intervals`. */
  method EnqueueSteps(queue: seq<Entry>, midi: int, coord: Coord) returns (grown: seq<Entry>)
    ensures grown == queue + Successors(midi, coord)
  {
    grown := queue;
    for i := 0 to |Intervals|
      invariant grown == queue + StepsUpTo(midi, coord, i)
    {
      var d := Intervals[i];
      var next := midi + d.Semitones();
      var neighbor := Shift(coord, d);
      ghost var done := StepsUpTo(midi, coord, i);
      ghost var step := StepEntry(midi, coord, i);
      assert StepsUpTo(midi, coord, i + 1) == done + step;
      if MinNote <= next <= MaxNote {
        assert step == [Entry(next, neighbor)];
        grown := grown + [Entry(next, neighbor)];
        assert grown == queue + (done + step);
      } else {
        assert step == [] && done + step == done;
      }
    }
  }

  /** The breadth-first search over the piano range. Notes are visited at
      most once; exactly the in-range notes reachable from note 21 are
      visited. Note 21 sits at the origin and every other visited note one
      interval step from a note visited before it. Each coordinate lists the
      names of the notes placed there in visit order, the coordinates are
      listed once each in first-use order, and each is its own position.
      The ghost `order` is the visit order and `coordOf` the coordinate
      each note was placed at. */
  method ExploreLattice()
    returns (visited: set<int>, coordToNames: map<Coord, seq<string>>, coordOrder: seq<Coord>,
             positions: map<PosKey, Coord>, ghost order: seq<int>, ghost coordOf: map<int, Coord>,
             ghost log: seq<Entry>)
    ensures visited == set m | MinNote <= m <= MaxNote && Reachable(m)
    ensures VisitsInv(visited, order, coordOf) && MinNote in visited
    ensures NamesInv(order, coordOf, coordToNames) && LayoutInv(coordToNames, coordOrder, positions)
    ensures SearchOrderInv(order, coordOf, coordOrder)
    ensures (forall k :: 0 <= k < |order| ==> order[k] in coordOf) && log == EnqueueLog(order, coordOf)
    ensures order == ArrivalOrder(log) && coordOf == Arrivals(log)
  {
    visited := {};
    coordToNames := map[];
    coordOrder := [];
    positions := map[];
    order := [];
    coordOf := map[];
    var queue := [Entry(MinNote, Origin)];
    log := queue;
    ghost var popped := 0;
    while queue != []
      invariant VisitsInv(visited, order, coordOf)
      invariant QueueInv(visited, coordOf, queue)
      invariant NamesInv(order, coordOf, coordToNames)
      invariant LayoutInv(coordToNames, coordOrder, positions)
      invariant SearchOrderInv(order, coordOf, coordOrder)
      invariant FifoInv(order, coordOf, queue, log, popped)
      decreases Piano() - visited, |queue|
    {
      var entry := queue[0];
      var rest := queue[1..];
      PopEntry(visited, coordOf, queue);
      var midi, coord := entry.midi, entry.coord;
      if !(MinNote <= midi <= MaxNote) || midi in visited {
        SkipKeepsQueue(visited, coordOf, entry, rest);
        SkipKeepsFifo(order, coordOf, queue, log, popped);
        queue := rest;
        popped := popped + 1;
        continue;
      }
      VisitKeepsVisits(visited, order, coordOf, entry, rest);
      VisitKeepsQueue(visited, coordOf, entry, rest);
      VisitKeepsNames(order, coordOf, coordToNames, midi, coord);
      VisitKeepsLayout(coordToNames, coordOrder, positions, coord,
        (if coord in coordToNames then coordToNames[coord] else []) + [MidiToPitch(midi)]);
      VisitKeepsSearchOrder(visited, order, coordOf, coordToNames, coordOrder, positions, entry, rest);
      VisitKeepsFifo(order, coordOf, queue, log, popped);
      log := log + Successors(midi, coord);
      popped := popped + 1;
      assert midi in Piano();
      visited := visited + {midi};
      order := order + [midi];
      coordOf := coordOf[midi := coord];
      var name := MidiToPitch(midi);
      ghost var before := coordToNames;
      if coord !in coordToNames {
        coordToNames := coordToNames[coord := []];
        coordOrder := coordOrder + [coord];
      }
      coordToNames := coordToNames[coord := coordToNames[coord] + [name]];
      if coord !in before {
        assert [] + [name] == [name];
        OverwriteTwice(before, coord, [], [name]);
      }
      positions := positions[AtCoord(coord) := coord];
      queue := EnqueueSteps(rest, midi, coord);
    }
    SearchDone(visited, order, coordOf);
    FifoDone(order, coordOf, log, popped);
  }
}
