# Gesture debouncing engine of pose2appliances

pose2appliances watches a camera, estimates one person's pose per frame and
switches a light on when the person raises the left wrist across the face.
This project models the part in between, the `GestureDetector` of
`src/model.py`:

- **the wrist rule** (`_left_wrist_up_cross`). It reads joint 0 (nose) and
  joint 9 (left wrist) of the frame's keypoints. It rejects the frame only
  when both confidence scores are below the threshold. Otherwise it reports a
  raised wrist exactly when the wrist is higher than the nose (smaller height)
  and further right (larger width). Module `Classifier`.
- **the debounce window** (`deque(maxlen=maxlen)`, default 10). Once full,
  every append drops the oldest label. Module `Window`.
- **the vote** (`_check_mod_gesture`). It reports `NoGesture` until the window
  is full. Then it takes the most common label of the window, where a tie goes
  to the label seen first scanning oldest to newest. It requires that label's
  count to reach `int(maxlen * 0.8)`. A winning gesture other than `NoGesture`
  empties the window. Modules `Counting` (the frequency table and the head of
  its "most common first" listing) and `Voting` (the vote, one frame, a whole
  session).
- **the detector object**. Class `Detector.GestureDetector` holds the queue as
  a `seq` field that its methods `CheckGesture` and `CheckModGesture` update
  in place. Each method's postcondition ties the new queue and the result to
  the pure functions `Voting.Step` and `Voting.Vote`.

Module `Enums` holds the two gesture labels the detector uses.

The model follows the code where it differs from its own comments, and
states these facts about the code:

- A frame with fewer than ten joints makes `keypoint[9]` raise an index
  error. The model requires `|keypoint| > 9`.
- The code does not check that positions and scores lie in [0, 1], and
  neither does the model.
- The comment at `src/model.py:87` says a mode at 80% "or below" is rejected.
  The code compares with `<`, so exactly 80% (8 of 10) fires.
  `Voting.EightOfTenFires` states the code's behaviour.

## Model

| member | source | states |
|---|---|---|
| `Classifier.LeftWristUpCross` | src/model.py:104-116 | both scores below the threshold give false; otherwise the result is true exactly when the nose is lower than the wrist and left of it |
| `Classifier.OnlyNoseAndWristMatter` | src/model.py:104-109 | two frames that agree on joints 0 and 9 get the same answer, whatever their other joints |
| `Classifier.ThresholdMonotone` | src/model.py:110-111 | raising the threshold can only turn a detection off |
| `Classifier.OneConfidentJointSuffices` | src/model.py:110-114 | a confident nose alone lets the geometric check through, however low the wrist's score |
| `Classifier.ConfidentRaisedWrist` | src/model.py:104-114 | scores 0.9, nose (0.2, 0.5), wrist (0.1, 0.6), threshold 0.5: the rule fires |
| `Classifier.UnconfidentFrame` | src/model.py:110-111 | both scores 0.1 with threshold 0.5: the rule rejects whatever the positions |
| `Counting.Count` | src/model.py:84 | the frequency of a label in the window is at most the window's length, and positive exactly when the label occurs in it |
| `Counting.FirstIndex` | src/model.py:84 | the result is the position of the oldest occurrence: it holds x and no earlier position does |
| `Counting.Keys` | src/model.py:84 | the frequency table of a non-empty window has at least one entry |
| `Counting.KeysMembers` | src/model.py:84 | the table's keys are exactly the labels occurring in the window |
| `Counting.KeysOrdered` | src/model.py:84 | the table lists its keys by their oldest occurrence in the window |
| `Counting.KeysDistinct` | src/model.py:84 | no label has two entries in the table |
| `Counting.FirstMaxIndex` | src/model.py:85 | the head of a stable sort by descending count: a key of maximal count, and every key before it counts strictly less |
| `Counting.MostCommon` | src/model.py:84-85 | the count returned is the frequency of the label returned |
| `Counting.MostCommonIsMode` | src/model.py:84-85 | the returned label occurs in the window, no label occurs more often, and among the equally frequent ones it is the oldest |
| `Counting.ModeUnique` | src/model.py:84-85 | at most one label satisfies that definition, so the tie-break is deterministic |
| `Counting.MostCommonIsTheMode` | src/model.py:84-85 | any label satisfying that definition is exactly what the listing's head returns, with its count |
| `Window.Appended` | src/model.py:54 | appending to the bounded queue leaves the newest maxlen elements of the old queue followed by the new label |
| `Window.AppendedBounded` | src/model.py:54 | the queue never exceeds maxlen; it grows by one until full, then keeps its size |
| `Window.AppendedOrder` | src/model.py:67-70 | the new label is last; a full queue loses exactly its oldest label, the rest keep their order; a non-full queue loses nothing |
| `Window.AppendedNewest` | src/model.py:54 | a queue that is only appended to is always the newest maxlen labels of everything appended |
| `Voting.Required` | src/model.py:86 | the bar is the largest whole number not above eight tenths of the capacity, i.e. `int(maxlen * 0.8)` |
| `Voting.Vote` | src/model.py:81-93 | a window that is not full gives NoGesture and is kept; a NoGesture result keeps the window; a gesture result empties it and needs a full window |
| `Voting.VoteFiresExactly` | src/model.py:84-93 | a gesture fires exactly when the window is full, the gesture is its mode (ties to the oldest) and its count reaches int(maxlen * 0.8) |
| `Voting.BelowBarKeepsWindow` | src/model.py:86-88 | when no label reaches the bar, the result is NoGesture and the window is untouched |
| `Voting.VoteTwiceQuiet` | src/model.py:81-93 | voting a second time without a new frame reports NoGesture and changes nothing |
| `Voting.TwoLabelCounts` | src/model.py:84 | with two labels, their counts add up to the window's length |
| `Voting.MajorityFires` | src/model.py:84-93 | a full window where LeftWristUp reaches the bar and is a strict majority fires LeftWristUp and empties the window, whatever the interleaving |
| `Voting.TieGoesToOldest` | src/model.py:84-85 | two labels tied at or above the bar: the label of the oldest frame is the result (with two labels this case exists only at capacity 2; the general tie-break is `Counting.MostCommonIsMode`) |
| `Voting.TieOnlyAtCapacityTwo` | src/model.py:84-86 | a two-label tie that reaches the bar occurs only when the capacity is 2 |
| `Voting.EightOfTenFires` | src/model.py:86-92 | default capacity: 8 LeftWristUp of 10 in any order fire and empty the window |
| `Voting.SevenOfTenWaits` | src/model.py:86-88 | default capacity: 7 LeftWristUp of 10 give NoGesture, keep all ten labels, and the next frame evicts the oldest |
| `Voting.Step` | src/model.py:66-71 | one frame's append and vote never leave more than maxlen labels |
| `Voting.Run` | src/model.py:57-71 | a session of frames reports one event per frame and keeps the capacity invariant throughout |
| `Voting.Filling` | src/model.py:81-83 | until the window fills, every frame reports NoGesture and the window is the labels in arrival order |
| `Voting.Cooldown` | src/model.py:90-92 | after a gesture fires, the next maxlen - 1 frames report NoGesture whatever they show |
| `Voting.SlideStep` | src/model.py:66-71 | a quiet frame moves the window one label along the history |
| `Voting.Sliding` | src/model.py:66-93 | while nothing fires, the window is the newest maxlen labels of the history since it was last empty |
| `Detector.FrameLabel` | src/model.py:66-70 | a frame contributes LeftWristUp exactly when the wrist rule holds, NoGesture otherwise |
| `Detector.GestureDetector.constructor` | src/model.py:53-55 | a new detector has an empty queue and the given capacity (default 10) and threshold (default 0.2) |
| `Detector.GestureDetector.CheckGesture` | src/model.py:57-71 | appends exactly one label for the frame, then votes; the queue becomes the appended queue, or empty when a gesture fires |
| `Detector.GestureDetector.CheckModGesture` | src/model.py:73-93 | the result and the new queue are those of the vote; a gesture result empties the queue and is the window's mode at or above the bar; NoGesture leaves the queue untouched |

## Left out

- `PoseEstimator` (`src/model.py:15-47`) is a TensorFlow Hub model. Loading it, running inference and resizing images are calls into an opaque model. The keypoints it returns are the input of `CheckGesture`.
- The `__main__` blocks, OpenCV capture and display, and argument parsing in `src/model.py`, `src/main.py` and `src/appliances.py` are I/O plumbing.
- The `main` loop and `call_apliance` in `src/main.py` dispatch a fired gesture to an appliance. `NatureRemo.send_living_room_light` in `src/appliances.py` is an HTTP POST. Both are external side effects. `Voting.Run` stands in for the loop's repeated `check_gesture` calls.
- The three-second pause after switching the appliance is commented out in `src/main.py`, so it is not modelled.
- Logging calls have no effect on behaviour.
- The enumeration module that defines `Gesture` is not part of this model. `Enums.Gesture` has the two members the detector uses.
- Floating point: `Voting.Required` models `int(maxlen * 0.8)` as the exact integer `maxlen * 8 / 10`. These agree for every realistic capacity, because the double nearest 0.8 is slightly above 0.8. Keypoint positions and scores are reals, because they are only compared. NaN scores are not modelled.
- `most_common()` returns the whole frequency table sorted by descending count. The detector reads only its first entry, and only that entry is modelled.
- Capacity: a negative `maxlen` makes the deque constructor fail, so capacities are `nat`. With `maxlen == 0` the first vote fails on an empty `most_common()` list, so the voting methods require `0 < maxlen`.
- Threshold attribute: the source's `threshold` is a plain attribute that nothing reassigns, so it is a `const` here.
- `Voting.Vote`: its own contract does not say that a fired gesture is the window's mode at or above the bar. `Voting.VoteFiresExactly` states that, in both directions.
