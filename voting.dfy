/** The majority vote over the debounce window, its effect on the window, and
    what it implies for a whole session of frames. */
module Voting {
  import opened Enums
  import opened Counting
  import opened Window

  /** The consensus bar int(maxlen * 0.8), in exact integer arithmetic: the
      largest whole number not above eight tenths of the capacity. */
  function Required(maxlen: nat): (r: nat)
    ensures 10 * r <= 8 * maxlen < 10 * (r + 1)
  {
    maxlen * 8 / 10
  }

  /** What one vote reports, and the window it leaves behind. */
  datatype Outcome = Outcome(event: Gesture, window: seq<Gesture>)

  /** One vote on window content q of capacity maxlen: nothing until the
      window is full, then the most common label if its count reaches the bar;
      a winning label other than NoGesture empties the window. */
  function Vote(q: seq<Gesture>, maxlen: nat): (o: Outcome)
    requires 0 < maxlen
    ensures |q| < maxlen ==> o == Outcome(NoGesture, q)
    ensures o.event == NoGesture ==> o.window == q
    ensures o.event != NoGesture ==> o.window == [] && |q| >= maxlen
  {
    if |q| < maxlen then Outcome(NoGesture, q)
    else
      var (mode, count) := MostCommon(q);
      if count < Required(maxlen) then Outcome(NoGesture, q)
      else if mode != NoGesture then Outcome(mode, []) else Outcome(mode, q)
  }

  /** A gesture fires exactly when the window is full and that gesture is its
      mode (ties to the oldest) with at least the required count. */
  lemma VoteFiresExactly(q: seq<Gesture>, maxlen: nat, g: Gesture)
    requires 0 < maxlen && g != NoGesture
    ensures Vote(q, maxlen).event == g <==>
              |q| >= maxlen && IsMode(q, g) && Count(q, g) >= Required(maxlen)
  {
    if |q| >= maxlen && IsMode(q, g) && Count(q, g) >= Required(maxlen) {
      MostCommonIsTheMode(q, g);
    }
    if Vote(q, maxlen).event == g {
      MostCommonIsMode(q);
    }
  }

  /** When no label reaches the bar, nothing fires and the window stays. */
  lemma BelowBarKeepsWindow(q: seq<Gesture>, maxlen: nat)
    requires 0 < maxlen
    requires forall i :: 0 <= i < |q| ==> Count(q, q[i]) < Required(maxlen)
    ensures Vote(q, maxlen) == Outcome(NoGesture, q)
  {
    if |q| >= maxlen {
      var m := MostCommon(q).0;
      MostCommonIsMode(q);
      var i := FirstIndex(q, m);
      assert Count(q, q[i]) < Required(maxlen);
    }
  }

  /** Voting again without a new frame never fires a second time: a quiet
      vote is repeated as it was, and after a fire the window is empty. */
  lemma VoteTwiceQuiet(q: seq<Gesture>, maxlen: nat)
    requires 0 < maxlen
    ensures Vote(Vote(q, maxlen).window, maxlen) == Outcome(NoGesture, Vote(q, maxlen).window)
  {
  }

  /** With two labels, every element of the window is counted under one of them. */
  lemma {:induction false} TwoLabelCounts(q: seq<Gesture>)
    ensures Count(q, NoGesture) + Count(q, LeftWristUp) == |q|
  {
    if q != [] {
      TwoLabelCounts(q[1..]);
      assert q == [q[0]] + q[1..];
      assert multiset(q) == multiset{q[0]} + multiset(q[1..]);
      assert Count(q, q[0]) == Count(q[1..], q[0]) + 1;
      if q[0] == NoGesture {
        assert Count(q, LeftWristUp) == Count(q[1..], LeftWristUp);
      } else {
        assert Count(q, NoGesture) == Count(q[1..], NoGesture);
      }
    }
  }

  /** A strict majority of LeftWristUp that also reaches the bar fires on a
      full window, however the labels are interleaved. */
  lemma MajorityFires(q: seq<Gesture>, maxlen: nat)
    requires 0 < maxlen && |q| == maxlen
    requires Count(q, LeftWristUp) >= Required(maxlen) && 2 * Count(q, LeftWristUp) > maxlen
    ensures Vote(q, maxlen) == Outcome(LeftWristUp, [])
  {
    TwoLabelCounts(q);
    assert LeftWristUp in q;
    forall i | 0 <= i < |q|
      ensures Count(q, q[i]) <= Count(q, LeftWristUp)
      ensures Count(q, q[i]) == Count(q, LeftWristUp) ==> FirstIndex(q, LeftWristUp) <= FirstIndex(q, q[i])
    {
      if q[i] == NoGesture {
        assert Count(q, q[i]) < Count(q, LeftWristUp);
      } else {
        assert q[i] == LeftWristUp;
      }
    }
    assert IsMode(q, LeftWristUp);
    VoteFiresExactly(q, maxlen, LeftWristUp);
  }

  /** Two labels tied at or above the bar: the label of the oldest frame in
      the window wins, so the order of the frames decides. With two labels
      such a tie exists only at capacity 2 (one of each, bar 1); the general
      tie-break, for any labels and capacity, is MostCommonIsMode. */
  lemma TieGoesToOldest(q: seq<Gesture>, maxlen: nat)
    requires 0 < maxlen && |q| == maxlen
    requires Count(q, NoGesture) == Count(q, LeftWristUp) >= Required(maxlen)
    ensures Vote(q, maxlen).event == q[0]
  {
    assert q[0] in q;
    forall i | 0 <= i < |q|
      ensures Count(q, q[i]) <= Count(q, q[0])
      ensures Count(q, q[i]) == Count(q, q[0]) ==> FirstIndex(q, q[0]) <= FirstIndex(q, q[i])
    {
      assert q[i] == NoGesture || q[i] == LeftWristUp;
      assert q[0] == NoGesture || q[0] == LeftWristUp;
    }
    assert IsMode(q, q[0]);
    MostCommonIsTheMode(q, q[0]);
  }

  /** A two-label tie that reaches the bar forces capacity 2: the two counts
      split the window evenly, and half of it reaches eight tenths only there. */
  lemma TieOnlyAtCapacityTwo(q: seq<Gesture>, maxlen: nat)
    requires 0 < maxlen && |q| == maxlen
    requires Count(q, NoGesture) == Count(q, LeftWristUp) >= Required(maxlen)
    ensures maxlen == 2
  {
    TwoLabelCounts(q);
  }

  /** With the default capacity 10 the bar is 8: eight LeftWristUp among ten
      labels, in any order, fire and empty the window. */
  lemma EightOfTenFires(q: seq<Gesture>)
    requires |q| == 10 && Count(q, LeftWristUp) == 8
    ensures Vote(q, 10) == Outcome(LeftWristUp, [])
  {
    MajorityFires(q, 10);
  }

  /** Seven LeftWristUp among ten: no consensus, the window is kept whole and
      the next frame evicts its oldest label. */
  lemma SevenOfTenWaits(q: seq<Gesture>, x: Gesture)
    requires |q| == 10 && Count(q, LeftWristUp) == 7
    ensures Vote(q, 10) == Outcome(NoGesture, q)
    ensures Appended(q, x, 10) == q[1..] + [x]
  {
    TwoLabelCounts(q);
    forall i | 0 <= i < |q|
      ensures Count(q, q[i]) < Required(10)
    {
      assert q[i] == NoGesture || q[i] == LeftWristUp;
    }
    BelowBarKeepsWindow(q, 10);
  }

  /** One frame through the detector: append its label, then vote. */
  function Step(q: seq<Gesture>, frame: Gesture, maxlen: nat): (o: Outcome)
    requires 0 < maxlen && |q| <= maxlen
    ensures |o.window| <= maxlen
  {
    Vote(Appended(q, frame, maxlen), maxlen)
  }

  /** What a session reports frame by frame, and the window it ends with. */
  datatype Trace = Trace(events: seq<Gesture>, window: seq<Gesture>)

  /** The detector fed one label per frame, starting from window q. */
  function Run(q: seq<Gesture>, labels: seq<Gesture>, maxlen: nat): (t: Trace)
    requires 0 < maxlen && |q| <= maxlen
    ensures |t.events| == |labels| && |t.window| <= maxlen
    decreases |labels|
  {
    if labels == [] then Trace([], q)
    else
      var o := Step(q, labels[0], maxlen);
      var t := Run(o.window, labels[1..], maxlen);
      Trace([o.event] + t.events, t.window)
  }

  /** Until the window has been filled, nothing fires and the window is the
      labels in arrival order. */
  lemma {:induction false} Filling(q: seq<Gesture>, labels: seq<Gesture>, maxlen: nat)
    requires 0 < maxlen && |q| + |labels| < maxlen
    ensures forall i :: 0 <= i < |labels| ==> Run(q, labels, maxlen).events[i] == NoGesture
    ensures Run(q, labels, maxlen).window == q + labels
    decreases |labels|
  {
    if labels != [] {
      var w := q + [labels[0]];
      var t := Run(w, labels[1..], maxlen);
      assert Run(q, labels, maxlen) == Trace([NoGesture] + t.events, t.window) by {
        assert Step(q, labels[0], maxlen) == Outcome(NoGesture, w);
      }
      Filling(w, labels[1..], maxlen);
      assert w + labels[1..] == q + labels by { AppendFirst(q, labels); }
    }
  }

  /** The implicit cooldown: after a gesture fires, the next maxlen - 1
      frames report nothing, whatever they show. */
  lemma Cooldown(q: seq<Gesture>, frame: Gesture, labels: seq<Gesture>, maxlen: nat)
    requires 0 < maxlen && |q| <= maxlen
    requires Step(q, frame, maxlen).event != NoGesture
    requires |labels| < maxlen
    ensures forall i :: 0 <= i < |labels| ==> Run(Step(q, frame, maxlen).window, labels, maxlen).events[i] == NoGesture
  {
    var o := Step(q, frame, maxlen);
    assert o.window == [];
    Filling([], labels, maxlen);
    var t := Run([], labels, maxlen);
    forall i | 0 <= i < |labels|
      ensures t.events[i] == NoGesture
    {
    }
  }

  lemma AppendFirst<T>(h: seq<T>, labels: seq<T>)
    requires labels != []
    ensures h + [labels[0]] + labels[1..] == h + labels
  {
    assert [labels[0]] + labels[1..] == labels;
  }

  /** One quiet frame moves the window along the history by one label. */
  lemma SlideStep(h: seq<Gesture>, x: Gesture, maxlen: nat)
    requires 0 < maxlen
    requires Step(Newest(h, maxlen), x, maxlen).event == NoGesture
    ensures Step(Newest(h, maxlen), x, maxlen).window == Newest(h + [x], maxlen)
  {
    AppendedNewest(h, x, maxlen);
  }

  /** While nothing fires, the window slides: it is always the newest maxlen
      labels of the whole history since it was last empty. */
  lemma {:induction false} Sliding(h: seq<Gesture>, labels: seq<Gesture>, maxlen: nat)
    requires 0 < maxlen
    requires forall i :: 0 <= i < |labels| ==> Run(Newest(h, maxlen), labels, maxlen).events[i] == NoGesture
    ensures Run(Newest(h, maxlen), labels, maxlen).window == Newest(h + labels, maxlen)
    decreases |labels|
  {
    var q := Newest(h, maxlen);
    if labels == [] {
      assert h + labels == h;
    } else {
      var h' := h + [labels[0]];
      var o := Step(q, labels[0], maxlen);
      var t := Run(o.window, labels[1..], maxlen);
      assert Run(q, labels, maxlen) == Trace([o.event] + t.events, t.window);
      assert o.window == Newest(h', maxlen) by {
        assert Run(q, labels, maxlen).events[0] == o.event;
        SlideStep(h, labels[0], maxlen);
      }
      var events := Run(q, labels, maxlen).events;
      assert t.events == events[1..];
      assert forall i :: 0 <= i < |labels[1..]| ==> t.events[i] == NoGesture by {
        forall i | 0 <= i < |labels[1..]|
          ensures t.events[i] == NoGesture
        {
          assert t.events[i] == events[i + 1];
        }
      }
      assert h' + labels[1..] == h + labels by { AppendFirst(h, labels); }
      Sliding(h', labels[1..], maxlen);
    }
  }
}
