# TonabeNet core in Dafny

TonabeNet plays an audio file while printing, block by block, the melody
note and a guessed chord, and draws a Tonnetz: the lattice of pitch classes
in which a step right is a major third, a step down-right a perfect fifth
and a step up-right a minor third. This project models and proves the two
pieces of logic at its core.

- **Playback and annotation** (`mainkanmusik.py`). The sound device calls
  `callback` for each block of `hop_length` = 2048 samples. The callback
  copies the block of the waveform `y` that starts at `frame * hop_length`
  into channel 0 of the device buffer. A short block copies what is left
  and stops playback. A full block is annotated: the melody is the note of
  the loudest pitch row of the frame, and the chord is the five strongest
  pitch classes, strongest first, keeping those at least
  `max / phi**5`. Then the frame counter advances. Module `Playback`
  (`playback.dfy`) models the session as class `Player`, whose method
  `Callback` writes an `array2` buffer and advances the `frame` field. The
  melody and chord selection are functions with lemmas. Method `Play`
  drives the callback from frame 0 to the stop.
- **The Tonnetz lattice** (`tonnetz.py`). A breadth-first search from
  MIDI note 21 at coordinate (0, 0) steps +4, +7 and +3 semitones to the
  neighbouring coordinates (1, ½), (0, 1) and (1, −½). It visits each
  note of 21..108 at most once and files the note's name under its
  coordinate. Module `TonnetzLattice` (`tonnetz_lattice.dfy`) models this
  search as method `ExploreLattice`. Its loop invariants are the
  predicates `VisitsInv`, `QueueInv`, `NamesInv`, `LayoutInv`,
  `SearchOrderInv` and `FifoInv`, and one lemma per loop step preserves
  each of them. `FifoInv` ties the queue to a log of everything enqueued:
  the queue is the log's unpopped suffix, and the notes visited so far,
  with their coordinates, are those the popped prefix brings in first. The `r` coordinate is kept
  doubled (`r2`), so coordinates are integers.
- **The Tonnetz graph** (`tonnetz.py`). Each coordinate becomes one node
  labelled with its names joined by newlines, and the label is also
  entered in `positions`. Coordinates one interval step apart are joined
  by an edge tagged with that interval. Every node value starts at 0.
  Module `TonnetzGraph` (`tonnetz_graph.dfy`) models the graph as a value:
  an ordered list of nodes and a map from unordered label pairs to
  interval tags. Methods `AddLabelNodes` and `AddIntervalEdges` are the two
  loops, and `BuildTonnetz` is the whole module-level script.
- Module `Text` (`text.dfy`) holds Python's decimal rendering of an int
  with a parser that inverts it, and `"\n".join` with a splitter that
  inverts it.

Behaviour of the code that the model keeps:

- On a short block only the available prefix of the buffer's channel 0 is
  copied. The rest of the buffer is left as it was, no annotation is
  produced and `frame` does not advance.
- The chord threshold is `max / phi**FINGERS`.
- A major third followed by a minor third reaches the note a fifth up, but
  the lattice directions take it to `(q + 2, r)` while the fifth's own step
  goes to `(q, r + 1)`. The lattice's triangles do not close, and each note
  keeps the coordinate of the first entry for it that the search pops.
- When the stream runs until the callback stops, a session yields
  `len(y) // hop_length` annotations, one per whole block.
- A full block whose frame lies outside the analysis matrices makes numpy
  raise `IndexError` after the samples were copied. `Callback` returns
  `Faulted` for it, with `frame` unchanged.

## Model

| member | source | states |
|---|---|---|
| Playback.PhiPowFingersAboveOne | mainkanmusik.py:5-6 | `phi**FINGERS` is above 1 |
| Playback.Block | mainkanmusik.py:33-35 | the slice `y[frame*hop : frame*hop+frames]`, clipped at the end of `y`: its length and each sample |
| Playback.BlockFullIff | mainkanmusik.py:33-37 | a block of `hop_length` samples is full exactly when `frame < len(y) // hop_length` |
| Playback.Column | mainkanmusik.py:52 | `chroma[:, frame]`: one value per row, the row's value in that column |
| Playback.ArgMax | mainkanmusik.py:44 | numpy `argmax`: an index of a maximum, and the first one |
| Playback.Melody | mainkanmusik.py:44-49 | the melody is read at the first loudest row of the frame: `"-"` when its pitch is not positive, else `hz_to_note(pitch)` |
| Playback.MaxOf | mainkanmusik.py:58 | `np.max`: an element at least every element |
| Playback.InsertByRank | mainkanmusik.py:54 | inserting an index keeps the ranking strongest first, ties by higher index first |
| Playback.RankIndices | mainkanmusik.py:54 | `argsort(v)[::-1]`: each index once, strongest first, ties by higher index first |
| Playback.TopIndices | mainkanmusik.py:54 | the first five ranked indices: none of the others is stronger than any of them |
| Playback.Candidates | mainkanmusik.py:53-55 | five `(note_names[i], v[i])` pairs for five different pitch classes, strongest first, and no left-out pitch class is stronger than a chosen one |
| Playback.EntriesOf | mainkanmusik.py:55 | the list comprehension: entry `k` names pitch class `top[k]` with its intensity, and distinct indices give distinct names |
| Playback.CandidateEntries | mainkanmusik.py:54-55 | the entries of a ranked index list are strongest first, name different pitch classes, each names its own pitch class, and an unchosen pitch class is no stronger than any entry |
| Playback.KeepAtLeast | mainkanmusik.py:59 | the filter keeps exactly the candidates at or above the threshold |
| Playback.KeepAtLeastSubsequence | mainkanmusik.py:59 | what the filter keeps is a subsequence of the candidates |
| Playback.KeepAtLeastNonIncreasing | mainkanmusik.py:59 | filtering a strongest-first list leaves it strongest first |
| Playback.KeepAtLeastDistinct | mainkanmusik.py:59 | filtering a list without repeated pitch classes repeats none |
| Playback.Threshold | mainkanmusik.py:58 | `max / phi**FINGERS`: times `phi**FINGERS` it is the maximum, and it is at or below the maximum exactly when the maximum is not negative |
| Playback.Chord | mainkanmusik.py:52-59 | at most five entries for different pitch classes, strongest first; an entry is in the chord exactly when it is a candidate at or above `max/phi**5`; the chord keeps the candidates' order; each entry reports its own pitch class's intensity |
| Playback.CandidatesHeadIsMax | mainkanmusik.py:54-55 | the first candidate has the column maximum |
| Playback.DivideAboveOne | mainkanmusik.py:58 | dividing by a number above 1 does not increase `m` exactly when `m >= 0` |
| Playback.ChordNonEmptyIff | mainkanmusik.py:58-59 | the chord is non-empty exactly when the column maximum is not negative |
| Playback.ChordEntryBelowMax | mainkanmusik.py:58-59 | a non-empty chord puts the threshold at or below the column maximum |
| Playback.StrongestPasses | mainkanmusik.py:54-59 | with the threshold at or below the maximum, the filter keeps the strongest candidate |
| Playback.Annotate | mainkanmusik.py:44-63 | the record of a frame: its index, the melody read at the first loudest pitch row, and at most five chord entries, none exactly when the chroma maximum is negative |
| Playback.WriteChannel0 | mainkanmusik.py:37-41 | `outdata[:len(chunk), 0] = chunk`: channel 0 of the first rows takes the chunk and every other cell keeps its value |
| Playback.Player.constructor | mainkanmusik.py:68-69 | the session starts at frame 0 over the given waveform and analysis |
| Playback.Player.Callback | mainkanmusik.py:27-65 | channel 0 gets the block's samples and every other cell keeps its value; a short block stops with `frame` unchanged; a full block in the analysis yields its annotation and advances `frame` by one; outside the analysis it faults with `frame` unchanged |
| Playback.Play | mainkanmusik.py:68-73 | from frame 0 with blocks of `hop_length`, exactly `len(y) // hop_length` annotations, one per frame in order, and the counter ends there |
| Playback.AnnotationsAppend | mainkanmusik.py:37-65 | appending the annotation of the next frame keeps the list one annotation per frame, in order |
| Text.NatToString | tonnetz.py:20 | decimal digits, with no leading zero |
| Text.IntToString | tonnetz.py:20 | Python `str(n)`: a minus sign exactly for negative `n`, then at least one digit with no leading zero, no newline |
| Text.ParseIntToString | tonnetz.py:20 | reading the rendering back gives `n` |
| Text.SplitJoinLines | tonnetz.py:62 | splitting `"\n".join(lines)` at newlines gives back the lines when none holds a newline |
| Text.JoinLines | tonnetz.py:62 | `"\n".join`: as long as the lines plus one separator between each pair, beginning with the first line |
| TonnetzLattice.MidiToPitch | tonnetz.py:17-20 | a name of at least two characters with no newline |
| TonnetzLattice.ParseMidiToPitch | tonnetz.py:17-20 | the name reads back as pitch class `m % 12` and octave `m // 12`, giving `m` |
| TonnetzLattice.MidiToPitchInjective | tonnetz.py:17-20 | distinct notes have distinct names |
| TonnetzLattice.PitchClassShape | tonnetz.py:18-19 | each pitch-class name is a letter with an optional sharp, has no newline, and is found at its own index |
| TonnetzLattice.IntervalTable | tonnetz.py:22-32 | the three intervals in dictionary order, each once, with 4, 7 and 3 semitones and directions (1, ½), (0, 1) and (1, −½) |
| TonnetzLattice.TriangleOpen | tonnetz.py:22-32 | a major and a minor third make a fifth in pitch, in either order, but reach `(q + 2, r)` on the lattice, not the fifth's neighbour |
| TonnetzLattice.Successors | tonnetz.py:54-59 | the entries a note enqueues: at most three, each in range and one interval step away in pitch and coordinate, and every in-range step is among them |
| TonnetzLattice.EnqueueSteps | tonnetz.py:54-59 | the inner loop appends exactly those entries, in interval order |
| TonnetzLattice.NamesAtCount | tonnetz.py:42-50 | with each note visited once, a note's name occurs once in the list of its own coordinate and in no other list |
| TonnetzLattice.NamesAtWitness | tonnetz.py:48-50 | a coordinate with a filed name holds a visited note |
| TonnetzLattice.ClosedContainsReachable | tonnetz.py:38-59 | once every in-range step of a visited note is visited, every note reachable from 21 is visited |
| TonnetzLattice.SkipKeepsQueue | tonnetz.py:41-43 | dropping an out-of-range or visited entry keeps the queue invariant |
| TonnetzLattice.VisitKeepsVisits | tonnetz.py:41-45 | visiting a new note keeps each note visited once, in range, reachable and placed one step from a visited note |
| TonnetzLattice.VisitKeepsQueue | tonnetz.py:54-59 | after a visit, every pending entry is in range and one step from a visited note, and every in-range step of a visited note is visited or pending |
| TonnetzLattice.VisitKeepsNames | tonnetz.py:46-50 | filing the name keeps each coordinate's list equal to its notes' names in visit order |
| TonnetzLattice.VisitKeepsLayout | tonnetz.py:48-52 | coordinates stay listed once each in first-use order, and each coordinate is its own position |
| TonnetzLattice.FirstUses | tonnetz.py:48-50 | the keys of `coord_to_names` in insertion order: each coordinate of a visited note once, at its first note |
| TonnetzLattice.FirstUsesOtherNote | tonnetz.py:48-50 | placing a note not yet visited leaves the first uses of the visited notes unchanged |
| TonnetzLattice.VisitKeepsFirstUses | tonnetz.py:48-50 | a visit appends its coordinate to the coordinate list exactly when the coordinate is new |
| TonnetzLattice.VisitKeepsOrder | tonnetz.py:41-59 | after a visit, every note but 21 is still one interval step from a note visited before it |
| TonnetzLattice.VisitKeepsSearchOrder | tonnetz.py:41-59 | a visit keeps both of the above: notes placed from earlier notes, coordinates in first-use order |
| TonnetzLattice.EnqueueLog | tonnetz.py:40-59 | the log of enqueued entries for a visit order: the start entry, then the steps of each visited note in turn; it starts with 21 at (0, 0) and holds only in-range notes |
| TonnetzLattice.ArrivalOrder | tonnetz.py:41-45 | the notes a first-in-first-out pass over a log visits: each once, exactly the in-range notes it holds |
| TonnetzLattice.Arrivals | tonnetz.py:41-48 | each in-range note of a log gets the coordinate of its first entry in the log |
| TonnetzLattice.EnqueueLogOtherNote | tonnetz.py:54-59 | placing a note not yet visited leaves the log of the visited notes unchanged |
| TonnetzLattice.LogAfterVisit | tonnetz.py:54-59 | a visit appends exactly the visited note's steps to the log |
| TonnetzLattice.ArrivalOfNext | tonnetz.py:41-48 | popping an in-range entry for a note not yet visited visits it, at the entry's coordinate |
| TonnetzLattice.SkipKeepsFifo | tonnetz.py:41-43 | dropping an out-of-range or visited entry keeps the queue the log's unpopped suffix and the visits those of the popped prefix |
| TonnetzLattice.VisitKeepsFifo | tonnetz.py:41-59 | visiting the popped entry and enqueueing its steps keeps the queue the log's unpopped suffix and the visits those of the popped prefix |
| TonnetzLattice.FifoDone | tonnetz.py:40-59 | once the queue is empty, the visits are those of the whole log |
| TonnetzLattice.SearchDone | tonnetz.py:40-59 | when the queue runs empty, note 21 is visited and the visited notes are exactly the notes of 21..108 reachable from it |
| TonnetzLattice.ExploreLattice | tonnetz.py:34-59 | the search ends; it visits exactly the notes of 21..108 reachable from 21, each once, note 21 at (0, 0) and every other note one interval step from a note visited before it; names are filed per coordinate in visit order; coordinates are listed in first-use order; the search is first in, first out: with `log` the start entry followed by each visited note's steps in visit order, the visit order is the order in which notes first appear in the log and each note's coordinate is that of its first entry |
| TonnetzGraph.AddNode | tonnetz.py:65 | adding a node adds exactly that label, never twice, and leaves the edges alone |
| TonnetzGraph.HasEdge | tonnetz.py:75 | `has_edge` on an undirected graph: the edge is found from either end |
| TonnetzGraph.AddEdge | tonnetz.py:75-76 | the edge exists in both directions with its tag, its endpoints become nodes, and every other edge is kept |
| TonnetzGraph.Labels | tonnetz.py:62 | one label per coordinate |
| TonnetzGraph.SplitLabel | tonnetz.py:62 | a label splits back into the names it joins |
| TonnetzGraph.LatticeLabelSplits | tonnetz.py:48-62 | each lattice label splits back into the names filed at its coordinate |
| TonnetzGraph.LatticeLabelsInjective | tonnetz.py:62-66 | distinct coordinates get distinct labels |
| TonnetzGraph.AddLabelNodes | tonnetz.py:64-66 | one node per coordinate, in order; coordinate positions are kept, and each label's position is its coordinate's |
| TonnetzGraph.AddIntervalEdges | tonnetz.py:68-76 | existing edges keep their tags, every new edge joins a coordinate and its neighbour one tagged step away, and every neighbouring pair gets an edge |
| TonnetzGraph.AddStepEdges | tonnetz.py:69-76 | for one coordinate, existing edges keep their tags, each new edge joins neighbours one tagged step apart, and the coordinate is joined to every labelled neighbour |
| TonnetzGraph.StepGeometry | tonnetz.py:28-32 | every step moves, the three steps from a coordinate differ, and no two steps return to the start |
| TonnetzGraph.EdgeTagIsStep | tonnetz.py:68-76 | with distinct labels, an edge between neighbours is tagged with the interval between them |
| TonnetzGraph.BuildTonnetz | tonnetz.py:34-79 | one node per coordinate, in the order the search first used the coordinates, labelled with its names; the search behind it is first in, first out, as for `ExploreLattice`; an edge tagged `d` joins exactly the coordinates one `d` step apart; each label is positioned at its coordinate; every node value is 0 |
| TonnetzGraph.BuildGraph | tonnetz.py:62-79 | from distinct labels of distinct coordinates: one node per coordinate in order, an edge tagged `d` exactly between coordinates one `d` step apart, each label positioned at its coordinate, every node value 0 |

## Left out

- Loading and analysing the audio with librosa is left out. The waveform, pitch, magnitude and chroma matrices are inputs, and `hz_to_note` is an uninterpreted function parameter.
- The sound device stream, its thread and `sd.sleep` are left out. `Play` calls the callback in sequence, with blocks of `hop_length` samples.
- The `status` argument and its printing are left out, as are the header and CSV printing, the float formatting and the timestamp `frame * frame_duration`. The annotation is the record (frame, melody, chord).
- The `CallbackStop` exception is the `Stopped` result, and numpy's `IndexError` is the `Faulted` result.
- Floating point is modelled as exact reals, and `phi**5` as an exact real power.
- The unused constant `CHORD_OCTAVE` is left out.
- The Qt widget, painting and colour mapping in `tonnetz.py` are left out.
- networkx is modelled by the `Graph` value; its node and edge attribute dictionaries are not modelled.
- The node count shown in the window title (63) is not proved.
- Playback.Play: requires the analysis to have a column for every whole block, as librosa's frame count provides; it does not cover a session that faults.
- TonnetzGraph.AddLabelNodes: states each label's position only when labels are distinct; for clashing labels it does not say which coordinate wins.
- TonnetzGraph.AddIntervalEdges: states that each new edge is tagged with some interval joining its endpoints, not which of several is first; `EdgeTagIsStep` shows there is only one when labels are distinct.
- TonnetzGraph.AddStepEdges: states that each new edge is tagged with some interval joining its endpoints, for the same reason as `AddIntervalEdges`.
- Playback.RankIndices: numpy does not promise an order for equal intensities in `argsort`, and a vectorised build may order them differently. The model fixes one tie order, that of the scalar sort for a vector this short: equal values by increasing index before the reversal. Which of several tied pitch classes are printed, and in which order, is therefore the model's choice.
